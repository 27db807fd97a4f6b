/** The kernel's own code for those steps, on fields updated in place. Each method is a stretch of code that
    runs with interrupts off; its assertions are the ones in the source. */
module Schedulers {
  import opened Options
  import opened KernelSpec

  class Scheduler {
    var currentThread: nat
    var readyList: seq<nat>
    var toBeDestroyed: Option<nat>
    var sems: seq<Semaphore>
    /** The threads whose stacks stand inside P, and at which semaphore. */
    var waiting: map<nat, nat>
    /** Which threads exist, and how far the current one has got. */
    ghost var live: set<nat>
    ghost var mode: Mode

    ghost function State(): Kernel
      reads this
    {
      Kernel(currentThread, readyList, sems, waiting, toBeDestroyed, live, mode)
    }

    constructor ()
      ensures State() == Initial()
    {
      currentThread, readyList, toBeDestroyed, sems := 0, [], None, [];
      waiting, live, mode := map[], {0}, Running;
    }

    method ReadyToRun(thread: nat)
      requires thread !in readyList
      modifies this`readyList
      ensures readyList == old(readyList) + [thread]
    {
      readyList := readyList + [thread];
    }

    method FindNextToRun() returns (next: Option<nat>)
      modifies this`readyList
      ensures if old(readyList) == [] then next == None && readyList == []
              else next == Some(old(readyList)[0]) && readyList == old(readyList)[1..]
    {
      if readyList == [] {
        return None;
      }
      next := Some(readyList[0]);
      readyList := readyList[1..];
    }

    /** Up to the context switch; the new thread goes on in AfterSwitch. */
    method Run(nextThread: nat, finishing: bool)
      requires finishing ==> toBeDestroyed == None
      modifies this`currentThread, this`toBeDestroyed, this`mode
      ensures currentThread == nextThread && mode == Switched
      ensures toBeDestroyed == if finishing then Some(old(currentThread)) else old(toBeDestroyed)
    {
      if finishing {
        assert toBeDestroyed == None;
        toBeDestroyed := Some(currentThread);
      }
      currentThread := nextThread;
      mode := Switched;
    }

    method CheckToBeDestroyed()
      requires toBeDestroyed.Some? ==> toBeDestroyed.value != currentThread
      modifies this`toBeDestroyed, this`live
      ensures toBeDestroyed == None
      ensures live == if old(toBeDestroyed).Some? then old(live) - {old(toBeDestroyed).value} else old(live)
    {
      if toBeDestroyed.Some? {
        assert toBeDestroyed.value != currentThread;
        live := live - {toBeDestroyed.value};
        toBeDestroyed := None;
      }
    }

    /** What a thread does when the processor comes back to it, or comes to it first: clean up, and, if it
        slept in P, try again. */
    method AfterSwitch()
      requires mode == Switched && (toBeDestroyed.Some? ==> toBeDestroyed.value != currentThread)
      requires currentThread in waiting ==>
        waiting[currentThread] < |sems| && currentThread !in sems[waiting[currentThread]].queue
      modifies this
      ensures State() == Resume(old(State()))
    {
      CheckToBeDestroyed();
      if currentThread in waiting {
        P(waiting[currentThread]);
      } else {
        mode := Running;
      }
    }

    /** P, from the test of its loop. */
    method P(i: nat)
      requires i < |sems| && currentThread !in sems[i].queue
      modifies this
      ensures State() == TryP(old(State()), i)
    {
      var s := sems[i];
      if s.value == 0 {
        assert currentThread !in s.queue;
        sems := sems[i := s.(queue := s.queue + [currentThread])];
        waiting := waiting[currentThread := i];
        mode := Sleeping(false);
      } else {
        sems := sems[i := s.(value := s.value - 1, ps := s.ps + 1)];
        waiting := waiting - {currentThread};
        mode := Running;
      }
    }

    method V(i: nat)
      requires i < |sems| && (sems[i].queue != [] ==> sems[i].queue[0] !in readyList)
      modifies this
      ensures State() == DoV(old(State()), i)
    {
      var s := sems[i];
      if s.queue != [] {
        var thread := s.queue[0];
        s := s.(queue := s.queue[1..]);
        ReadyToRun(thread);
      }
      s := s.(value := s.value + 1, vs := s.vs + 1);
      sems := sems[i := s];
    }

    method NewSemaphore(initialValue: nat)
      modifies this
      ensures State() == DoNew(old(State()), initialValue)
    {
      sems := sems + [Semaphore(initialValue, [], initialValue, 0, 0)];
    }

    method Fork(thread: nat)
      requires thread !in readyList
      modifies this
      ensures State() == DoFork(old(State()), thread)
    {
      live := live + {thread};
      ReadyToRun(thread);
    }

    method Yield()
      requires currentThread !in readyList
      modifies this
      ensures State() == DoYield(old(State()))
    {
      var nextThread := FindNextToRun();
      if nextThread.Some? {
        assert currentThread !in readyList;
        ReadyToRun(currentThread);
        Run(nextThread.value, false);
      }
    }

    method Finish()
      modifies this
      ensures State() == old(State()).(mode := Sleeping(true))
    {
      mode := Sleeping(true);
    }

    /** The loop of Sleep: dispatch a thread, or find that there is none and leave the machine idle until an
        interrupt. */
    method Sleep(finishing: bool) returns (dispatched: bool)
      requires mode == Sleeping(finishing) && toBeDestroyed == None
      modifies this
      ensures dispatched <==> old(readyList) != []
      ensures State() == if dispatched then Dispatch(old(State())) else old(State())
    {
      var nextThread := FindNextToRun();
      if nextThread.None? {
        return false;
      }
      Run(nextThread.value, finishing);
      return true;
    }
  }

  /** What the methods ask for, the invariant provides, whatever step comes next: so no assertion of the
      scheduler, the semaphores or their lists fails in any run. StepKeeps hands the invariant on. */
  lemma AssertionsHold(k: Kernel)
    requires Inv(k)
    ensures k.mode == Running || k.mode.Switched? ==>
      k.current !in k.ready && forall i :: 0 <= i < |k.sems| ==> k.current !in k.sems[i].queue
    ensures forall i :: 0 <= i < |k.sems| && k.sems[i].queue != [] ==> k.sems[i].queue[0] !in k.ready
    ensures k.mode.Sleeping? ==> k.toBeDestroyed.None?
    ensures k.toBeDestroyed.Some? ==> k.toBeDestroyed.value != k.current
    ensures k.current in k.waiting ==> k.waiting[k.current] < |k.sems|
  {
    if k.mode != Sleeping(false) {
      RunningIsNowhere(k);
    }
    forall i | 0 <= i < |k.sems| && k.sems[i].queue != []
      ensures k.sems[i].queue[0] !in k.ready
    {
      QueuedIsNotReady(k, i);
    }
  }
}
