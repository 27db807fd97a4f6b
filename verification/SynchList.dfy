/** The code of the lock, the condition and the list (threads/synch.cc, threads/synchlist.cc) for those
    steps, on fields updated in place. The threads are arguments; the assertions are the ones in the source. */
module SynchLists {
  import opened Options
  import M = MonitorSpec
  import opened SynchListSpec

  class SynchListMonitor<T(==)> {
    // the lock
    var value: nat
    var lockHolder: Option<nat>
    // the condition: its queue of waiters, and the values of their semaphores
    var waitQueue: seq<nat>
    var units: map<nat, nat>
    // the list
    var list: seq<T>
    /** Where the threads are, and the history. */
    ghost var phases: map<nat, M.Phase>
    ghost var jobs: map<nat, Job<T>>
    ghost var back: bool
    ghost var waits: seq<nat>
    ghost var signals: seq<nat>
    ghost var wakes: seq<nat>
    ghost var appended: seq<T>
    ghost var taken: seq<T>

    ghost function State(): SynchList<T>
      reads this
    {
      SynchList(M.Monitor(value, lockHolder, waitQueue, units, phases, waits, signals, wakes), list, jobs, back, appended, taken)
    }

    constructor ()
      ensures State() == Initial()
    {
      value, lockHolder, waitQueue, units, list := 1, None, [], map[], [];
      phases, jobs, back := map[], map[], false;
      waits, signals, wakes, appended, taken := [], [], [], [], [];
    }

    predicate IsHeldBy(thread: nat)
      reads this
    {
      lockHolder == Some(thread)
    }

    /** A call of Append, up to the P in Acquire. */
    method StartAppend(thread: nat, item: T)
      requires Enabled(State(), thread, Event.StartAppend(item))
      modifies this
      ensures State() == Next(old(State()), thread, Event.StartAppend(item))
    {
      ghost var s := State();
      ghost var n := Next(s, thread, Event.StartAppend(item));
      phases, jobs := phases[thread := M.Entering], jobs[thread := Appending(item)];
      assert State() == n;
    }

    method StartRemove(thread: nat)
      requires Enabled(State(), thread, Event.StartRemove)
      modifies this
      ensures State() == Next(old(State()), thread, Event.StartRemove)
    {
      ghost var s := State();
      ghost var n := Next(s, thread, Event.StartRemove);
      phases, jobs := phases[thread := M.Entering], jobs[thread := Removing];
      assert State() == n;
    }

    /** The P of Acquire takes its unit. */
    method TakeLock(thread: nat)
      requires Enabled(State(), thread, Lock(M.Take))
      modifies this
      ensures State() == Next(old(State()), thread, Lock(M.Take))
    {
      ghost var s := State();
      ghost var n := Next(s, thread, Lock(M.Take));
      value := value - 1;
      phases := phases[thread := if phases[thread] == M.Entering then M.Entered else M.Returned];
      assert State() == n;
    }

    /** The rest of Acquire. */
    method SetHolder(thread: nat)
      requires Enabled(State(), thread, Lock(M.SetHolder))
      modifies this
      ensures State() == Next(old(State()), thread, Lock(M.SetHolder))
    {
      ghost var s := State();
      ghost var n := Next(s, thread, Lock(M.SetHolder));
      lockHolder := Some(thread);
      back := phases[thread] == M.Returned;
      phases := phases[thread := M.Holding];
      assert State() == n;
    }

    /** Lock::Release, by its holder. */
    method Release(thread: nat)
      requires IsHeldBy(thread)
      modifies this`value, this`lockHolder
      ensures value == old(value) + 1 && lockHolder == None
    {
      assert IsHeldBy(thread);
      lockHolder := None;
      value := value + 1;
    }

    /** The P of a waiter on its own semaphore ends. */
    method Wake(thread: nat)
      requires Enabled(State(), thread, Lock(M.Wake))
      modifies this
      ensures State() == Next(old(State()), thread, Lock(M.Wake))
    {
      ghost var s := State();
      ghost var n := Next(s, thread, Lock(M.Wake));
      units := units[thread := units[thread] - 1];
      phases, wakes := phases[thread := M.Returning], wakes + [thread];
      assert State() == n;
    }

    /** list->Append, of an item that is not in the list. */
    method Insert(thread: nat, item: T)
      requires Enabled(State(), thread, Event.Insert) && item == JobOf(State(), thread).item
      modifies this
      ensures State() == Next(old(State()), thread, Event.Insert)
    {
      ghost var s := State();
      ghost var n := Next(s, thread, Event.Insert);
      assert item !in list;
      list := list + [item];
      appended, jobs := appended + [item], jobs[thread := Signalling];
      assert State() == n;
    }

    /** Condition::Signal. */
    method Signal(thread: nat)
      requires Enabled(State(), thread, Event.Signal) && IsHeldBy(thread)
      modifies this
      ensures State() == Next(old(State()), thread, Event.Signal)
    {
      ghost var s := State();
      ghost var n := Next(s, thread, Event.Signal);
      assert IsHeldBy(thread);
      if waitQueue != [] {
        ghost var before := s.m;
        var waiter := waitQueue[0];
        assert n.m == M.Next(before, thread, M.Signal);
        V(waiter);
        signals := signals + [waiter];
        assert State().m == n.m;
      }
      jobs := jobs[thread := Leaving];
      assert State() == n;
    }

    /** Takes the front waiter off the queue, and does a V on its semaphore. */
    method V(waiter: nat)
      requires waitQueue != [] && waiter == waitQueue[0]
      modifies this`waitQueue, this`units
      ensures waitQueue == old(waitQueue)[1..]
      ensures units == old(units)[waiter := (if waiter in old(units) then old(units)[waiter] else 0) + 1]
    {
      waitQueue := waitQueue[1..];
      units := units[waiter := (if waiter in units then units[waiter] else 0) + 1];
    }

    /** The loop test of RemoveFront: wait, or take the front of the list. */
    method Test(thread: nat) returns (item: Option<T>)
      requires Enabled(State(), thread, Event.Test) && IsHeldBy(thread) && thread !in waitQueue
      modifies this
      ensures State() == Next(old(State()), thread, Event.Test)
      ensures item == if old(list) == [] then None else Some(old(list)[0])
    {
      if list == [] {
        Wait(thread);
        return None;
      }
      ghost var s := State();
      ghost var n := Next(s, thread, Event.Test);
      item := Some(list[0]);
      taken, jobs := taken + [list[0]], jobs[thread := Leaving];
      list := list[1..];
      assert State() == n;
    }

    /** Condition::Wait, up to the waiter's P. */
    method Wait(thread: nat)
      requires Enabled(State(), thread, Event.Test) && IsHeldBy(thread) && thread !in waitQueue && list == []
      modifies this
      ensures State() == Next(old(State()), thread, Event.Test) && list == []
    {
      ghost var s := State();
      ghost var n := Next(s, thread, Event.Test);
      assert IsHeldBy(thread);
      units := units[thread := 0];
      assert thread !in waitQueue;
      waitQueue := waitQueue + [thread];
      waits := waits + [thread];
      phases := phases[thread := M.Waiting];
      Release(thread);
      assert State() == n;
    }

    /** The last Release of Append and of RemoveFront. */
    method Leave(thread: nat)
      requires Enabled(State(), thread, Event.Leave) && IsHeldBy(thread)
      modifies this
      ensures State() == Next(old(State()), thread, Event.Leave)
    {
      ghost var s := State();
      ghost var n := Next(s, thread, Event.Leave);
      phases, jobs := phases[thread := M.Outside], jobs[thread := Idle];
      Release(thread);
      assert State() == n;
    }
  }

  /** What the methods ask for beyond the step being the thread's next one, the invariant provides: the thread
      that is to go on under the lock is the lock's holder, and in no queue. StepKeeps hands the invariant on. */
  lemma AssertionsHold<T>(s: SynchList<T>, t: nat)
    requires Inv(s) && M.PhaseOf(s.m, t) == M.Holding
    ensures s.m.lockHolder == Some(t) && t !in s.m.waitQueue
  {}
}
