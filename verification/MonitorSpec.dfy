/** Locks and condition variables (threads/synch.cc) over semaphores, as a machine of steps taken by any
    number of threads in any order. A thread can lose the processor between any two steps; a step ends where
    a semaphore operation turns interrupts on again, or sooner. A semaphore is its value here, with a P that
    ends by taking a unit and a V that adds one: a run of these is a run of the semaphore (LockRun, WaiterRun) as
    any run of the kernel is (KernelSpec.SemaphoreRun). */
module MonitorSpec {
  import opened Options
  import opened Sets
  import S = Semaphores

  /** Where a thread stands with the lock and its condition. Entered and Returned are the window inside
      Acquire: the thread has the semaphore's unit, and has not yet written its name into lockHolder. */
  datatype Phase = Outside | Entering | Entered | Holding | Waiting | Returning | Returned

  /** The lock's semaphore and holder; the condition's queue of waiters, each with a semaphore of its own;
      and the history: who waited, who was signalled, and who woke up, in order. */
  datatype Monitor = Monitor(value: nat, lockHolder: Option<nat>, waitQueue: seq<nat>, units: map<nat, nat>,
                             phases: map<nat, Phase>, waits: seq<nat>, signals: seq<nat>, wakes: seq<nat>)

  function PhaseOf(m: Monitor, t: nat): Phase {
    if t in m.phases then m.phases[t] else Outside
  }

  /** The value of a thread's own semaphore in Wait. */
  function Units(m: Monitor, t: nat): nat {
    if t in m.units then m.units[t] else 0
  }

  predicate Owns(p: Phase) {
    p == Entered || p == Holding || p == Returned
  }

  ghost function Owners(m: Monitor): set<nat> {
    set t | t in m.phases && Owns(m.phases[t])
  }

  // ---- the invariant ----

  /** Mutual exclusion, and a lockHolder that is NULL or the one true owner. */
  ghost predicate LockRight(m: Monitor) {
    && m.value + |Owners(m)| == 1
    && (forall t: nat :: PhaseOf(m, t) == Holding <==> m.lockHolder == Some(t))
  }

  predicate Once(s: seq<nat>) {
    forall i, j :: 0 <= i < j < |s| ==> s[i] != s[j]
  }

  /** Who waits has been signalled, once, or is in the queue, once; signals go to the oldest waiter. */
  ghost predicate ConditionRight(m: Monitor) {
    && m.waits == m.signals + m.waitQueue
    && Once(m.waitQueue)
    && (forall t :: t in m.waitQueue ==> PhaseOf(m, t) == Waiting && Units(m, t) == 0)
    && (forall t: nat :: Units(m, t) <= 1)
    && (forall t: nat :: Units(m, t) == 1 <==> PhaseOf(m, t) == Waiting && t !in m.waitQueue)
    && (forall t: nat :: multiset(m.signals)[t] == multiset(m.wakes)[t] + Units(m, t))
  }

  ghost predicate Inv(m: Monitor) {
    LockRight(m) && ConditionRight(m)
  }

  // ---- the steps ----

  datatype Step =
    | Call          // Acquire is called
    | Take          // P on the lock's semaphore takes its unit
    | SetHolder     // ... and Acquire ends
    | Release
    | Wait          // up to the P on the waiter's own semaphore
    | Wake          // that P ends
    | Signal

  predicate Enabled(m: Monitor, t: nat, s: Step) {
    match s
    case Call => PhaseOf(m, t) == Outside
    case Take => (PhaseOf(m, t) == Entering || PhaseOf(m, t) == Returning) && m.value > 0
    case SetHolder => PhaseOf(m, t) == Entered || PhaseOf(m, t) == Returned
    case Release => PhaseOf(m, t) == Holding
    case Wait => PhaseOf(m, t) == Holding
    case Wake => PhaseOf(m, t) == Waiting && Units(m, t) > 0
    case Signal => PhaseOf(m, t) == Holding
  }

  function At(m: Monitor, t: nat, p: Phase): Monitor {
    m.(phases := m.phases[t := p])
  }

  function Next(m: Monitor, t: nat, s: Step): Monitor
    requires Enabled(m, t, s)
  {
    match s
    case Call => At(m, t, Entering)
    case Take => At(m, t, if PhaseOf(m, t) == Entering then Entered else Returned).(value := m.value - 1)
    case SetHolder => At(m, t, Holding).(lockHolder := Some(t))
    case Release => At(m, t, Outside).(lockHolder := None, value := m.value + 1)
    case Wait =>
      At(m, t, Waiting).(waitQueue := m.waitQueue + [t], units := m.units[t := 0], waits := m.waits + [t],
                         lockHolder := None, value := m.value + 1)
    case Wake => At(m, t, Returning).(units := m.units[t := Units(m, t) - 1], wakes := m.wakes + [t])
    case Signal =>
      if m.waitQueue == [] then m
      else
        var w := m.waitQueue[0];
        m.(waitQueue := m.waitQueue[1..], units := m.units[w := Units(m, w) + 1], signals := m.signals + [w])
  }

  function Initial(): Monitor {
    Monitor(1, None, [], map[], map[], [], [], [])
  }

  // ---- proofs ----

  lemma PhasesAt(m: Monitor, t: nat, p: Phase)
    ensures PhaseOf(At(m, t, p), t) == p
    ensures forall u: nat :: u != t ==> PhaseOf(At(m, t, p), u) == PhaseOf(m, u)
    ensures Owners(At(m, t, p)) == if Owns(p) then Owners(m) + {t} else Owners(m) - {t}
    ensures t in Owners(m) <==> Owns(PhaseOf(m, t))
  {}

  /** One owner at most, so the lock's assertions hold: whoever holds it is the holder. */
  lemma OneOwner(m: Monitor, t: nat, u: nat)
    requires LockRight(m) && t in Owners(m) && u in Owners(m)
    ensures t == u
  {
    if t != u {
      assert {t, u} <= Owners(m);
      SubsetCount({t, u}, Owners(m));
    }
  }

  /** Who is in lockHolder is among the owners. */
  lemma HolderOwns(m: Monitor)
    requires Inv(m)
    ensures m.lockHolder.Some? ==> m.lockHolder.value in Owners(m)
  {
    assert m.lockHolder.Some? ==> PhaseOf(m, m.lockHolder.value) == Holding;
  }

  /** But for signals, which are to another thread, a step is a matter of its thread's own. */
  lemma PhasesElsewhere(m: Monitor, t: nat, step: Step)
    requires Enabled(m, t, step) && step != Signal
    ensures forall u: nat :: u != t ==> PhaseOf(Next(m, t, step), u) == PhaseOf(m, u)
  {}

  lemma LockKept(m: Monitor, t: nat, s: Step)
    requires Inv(m) && Enabled(m, t, s)
    ensures LockRight(Next(m, t, s))
  {
    if s != Signal {
      OwnersKept(m, Next(m, t, s), t);
      HolderKept(m, t, s);
    }
  }

  lemma OwnersKept(m: Monitor, n: Monitor, t: nat)
    requires m.value + |Owners(m)| == 1 && n.phases == At(m, t, PhaseOf(n, t)).phases
    requires n.value - m.value == (if Owns(PhaseOf(m, t)) then 1 else 0) - if Owns(PhaseOf(n, t)) then 1 else 0
    ensures n.value + |Owners(n)| == 1
  {
    PhasesAt(m, t, PhaseOf(n, t));
    assert Owners(n) == Owners(At(m, t, PhaseOf(n, t)));
    CountOne(Owners(m), t);
  }

  lemma HolderKept(m: Monitor, t: nat, s: Step)
    requires Inv(m) && Enabled(m, t, s) && s != Signal
    ensures var n := Next(m, t, s); forall u: nat :: PhaseOf(n, u) == Holding <==> n.lockHolder == Some(u)
  {
    var n := Next(m, t, s);
    assert forall u: nat :: u != t ==> PhaseOf(n, u) == PhaseOf(m, u);
    if s == SetHolder {
      HolderIsNew(m, t);
    }
  }

  lemma CountOne(s: set<nat>, t: nat)
    ensures |s + {t}| == |s| + if t in s then 0 else 1
    ensures |s - {t}| == |s| - if t in s then 1 else 0
  {
    if t in s {
      assert s + {t} == s;
    } else {
      assert s - {t} == s;
    }
  }

  /** In the window inside Acquire, lockHolder is NULL. */
  lemma HolderIsNew(m: Monitor, t: nat)
    requires LockRight(m) && (PhaseOf(m, t) == Entered || PhaseOf(m, t) == Returned)
    ensures m.lockHolder == None
  {
    if m.lockHolder.Some? {
      var u := m.lockHolder.value;
      assert PhaseOf(m, u) == Holding;
      OneOwner(m, t, u);
    }
  }

  lemma WaitKept(m: Monitor, t: nat)
    requires Inv(m) && Enabled(m, t, Wait)
    ensures ConditionRight(Next(m, t, Wait))
  {
    var n := Next(m, t, Wait);
    assert t !in m.waitQueue;
    assert m.signals + m.waitQueue + [t] == m.signals + (m.waitQueue + [t]);
    forall u: nat
      ensures PhaseOf(n, u) == (if u == t then Waiting else PhaseOf(m, u)) && Units(n, u) == Units(m, u)
    {}
  }

  lemma SignalKept(m: Monitor, t: nat)
    requires Inv(m) && Enabled(m, t, Signal) && m.waitQueue != []
    ensures ConditionRight(Next(m, t, Signal))
  {
    var n := Next(m, t, Signal);
    var w := m.waitQueue[0];
    FrontLeaves(m.signals, m.waitQueue);
    assert forall u: nat :: PhaseOf(n, u) == PhaseOf(m, u) && Units(n, u) == if u == w then 1 else Units(m, u);
  }

  lemma FrontLeaves(signals: seq<nat>, q: seq<nat>)
    requires q != [] && Once(q)
    ensures signals + q == (signals + [q[0]]) + q[1..] && Once(q[1..])
    ensures forall u :: u in q <==> u == q[0] || u in q[1..]
    ensures q[0] !in q[1..]
    ensures multiset(signals + [q[0]]) == multiset(signals) + multiset{q[0]}
  {
    assert q == [q[0]] + q[1..];
  }

  lemma WakeKept(m: Monitor, t: nat)
    requires Inv(m) && Enabled(m, t, Wake)
    ensures ConditionRight(Next(m, t, Wake))
  {
    var n := Next(m, t, Wake);
    forall u: nat
      ensures PhaseOf(n, u) == (if u == t then Returning else PhaseOf(m, u)) && Units(n, u) == if u == t then 0 else Units(m, u)
    {}
  }

  lemma OtherKept(m: Monitor, t: nat, s: Step)
    requires Inv(m) && Enabled(m, t, s) && s != Wait && s != Signal && s != Wake
    ensures ConditionRight(Next(m, t, s))
  {
    var n := Next(m, t, s);
    forall u: nat
      ensures Units(n, u) == Units(m, u) && (PhaseOf(n, u) == Waiting <==> PhaseOf(m, u) == Waiting)
    {}
  }

  lemma StepKeeps(m: Monitor, t: nat, s: Step)
    requires Inv(m) && Enabled(m, t, s)
    ensures Inv(Next(m, t, s))
  {
    LockKept(m, t, s);
    match s {
      case Wait => WaitKept(m, t);
      case Wake => WakeKept(m, t);
      case Signal =>
        if m.waitQueue != [] {
          SignalKept(m, t);
        }
      case _ => OtherKept(m, t, s);
    }
  }

  lemma InitialRight()
    ensures Inv(Initial())
  {
    assert Owners(Initial()) == {};
  }

  /** While a thread holds the lock, no step of another touches the queue or signals anyone: so the
      loop of Broadcast, each of whose turns takes one waiter off the queue, ends, and leaves it empty. */
  lemma QueueIsTheHolders(m: Monitor, t: nat, u: nat, s: Step)
    requires Inv(m) && PhaseOf(m, t) == Holding && u != t && Enabled(m, u, s)
    ensures Next(m, u, s).waitQueue == m.waitQueue && Next(m, u, s).signals == m.signals
    ensures PhaseOf(Next(m, u, s), t) == Holding
  {
    OneHolding(m, t, u);
  }

  lemma OneHolding(m: Monitor, t: nat, u: nat)
    requires LockRight(m) && PhaseOf(m, t) == Holding && u != t
    ensures PhaseOf(m, u) != Holding
  {
    assert m.lockHolder == Some(t);
  }

  // ---- runs ----

  ghost predicate Run(states: seq<Monitor>, threads: seq<nat>, steps: seq<Step>) {
    && |states| == |steps| + 1 && |threads| == |steps| && states[0] == Initial()
    && forall j :: 0 <= j < |steps| ==>
         Enabled(states[j], threads[j], steps[j]) && states[j + 1] == Next(states[j], threads[j], steps[j])
  }

  lemma {:induction false} RunKeeps(states: seq<Monitor>, threads: seq<nat>, steps: seq<Step>, j: nat)
    requires Run(states, threads, steps) && j <= |steps|
    ensures Inv(states[j])
  {
    if j == 0 {
      InitialRight();
    } else {
      RunKeeps(states, threads, steps, j - 1);
      StepKeeps(states[j - 1], threads[j - 1], steps[j - 1]);
    }
  }

  /** What a step is to the lock's semaphore. */
  function LockUse(t: nat, s: Step): S.Use {
    match s
    case Take => S.Take(t)
    case Release => S.Give
    case Wait => S.Give
    case _ => S.Other
  }

  /** ... and to the semaphore of a waiting thread w, which it makes in Wait with no unit. */
  function WaiterUse(m: Monitor, t: nat, s: Step, w: nat): S.Use {
    if s == Wake && t == w then S.Take(w)
    else if s == Signal && m.waitQueue != [] && m.waitQueue[0] == w then S.Give
    else S.Other
  }

  /** Over every run the lock's semaphore begins with one unit and does what a semaphore does. */
  lemma LockRun(states: seq<Monitor>, threads: seq<nat>, steps: seq<Step>)
    requires Run(states, threads, steps)
    ensures
      var values := seq(|states|, j requires 0 <= j < |states| => states[j].value);
      var uses := seq(|steps|, j requires 0 <= j < |steps| => LockUse(threads[j], steps[j]));
      values[0] == 1 && S.IsRun(values, uses)
  {}

  lemma StepUse(m: Monitor, t: nat, s: Step, w: nat)
    requires Enabled(m, t, s) && (PhaseOf(m, t) == Holding ==> Units(m, t) == 0)
    ensures S.Step(Units(m, w), WaiterUse(m, t, s, w), Units(Next(m, t, s), w))
  {}

  lemma HolderHasNone(m: Monitor, t: nat)
    requires Inv(m) && PhaseOf(m, t) == Holding
    ensures Units(m, t) == 0
  {
    assert Units(m, t) <= 1;
  }

  /** And so does each waiter's, from none. */
  lemma WaiterRun(states: seq<Monitor>, threads: seq<nat>, steps: seq<Step>, w: nat)
    requires Run(states, threads, steps)
    ensures
      var values := seq(|states|, j requires 0 <= j < |states| => Units(states[j], w));
      var uses := seq(|steps|, j requires 0 <= j < |steps| => WaiterUse(states[j], threads[j], steps[j], w));
      values[0] == 0 && S.IsRun(values, uses)
  {
    hide Inv;
    forall j | 0 <= j < |steps|
      ensures S.Step(Units(states[j], w), WaiterUse(states[j], threads[j], steps[j], w), Units(states[j + 1], w))
    {
      RunKeeps(states, threads, steps, j);
      if PhaseOf(states[j], threads[j]) == Holding {
        HolderHasNone(states[j], threads[j]);
      }
      StepUse(states[j], threads[j], steps[j], w);
    }
  }

  /** The lock, in every reachable state: its semaphore's value and its owners make one; and lockHolder is NULL
      or that owner. */
  lemma MutualExclusion(states: seq<Monitor>, threads: seq<nat>, steps: seq<Step>, j: nat, t: nat, u: nat)
    requires Run(states, threads, steps) && j <= |steps|
    ensures states[j].value + |Owners(states[j])| == 1
    ensures t in Owners(states[j]) && u in Owners(states[j]) ==> t == u
    ensures states[j].lockHolder == Some(t) ==> t in Owners(states[j])
  {
    RunKeeps(states, threads, steps, j);
    if t in Owners(states[j]) && u in Owners(states[j]) {
      OneOwner(states[j], t, u);
    }
  }

  /** The condition, in every reachable state: the signals went to the waiters in the order in which they came,
      and each return from a wait used up one signal to that very waiter. */
  lemma SignalsInOrder(states: seq<Monitor>, threads: seq<nat>, steps: seq<Step>, j: nat, t: nat)
    requires Run(states, threads, steps) && j <= |steps|
    ensures states[j].signals <= states[j].waits
    ensures states[j].waitQueue == states[j].waits[|states[j].signals|..]
    ensures multiset(states[j].wakes)[t] <= multiset(states[j].signals)[t] <= multiset(states[j].wakes)[t] + 1
  {
    RunKeeps(states, threads, steps, j);
  }

  /** The threads that made a step, in the first n, in order. */
  function Makers(threads: seq<nat>, steps: seq<Step>, s: Step, n: nat): seq<nat>
    requires n <= |steps| == |threads|
  {
    if n == 0 then []
    else if steps[n - 1] == s then Makers(threads, steps, s, n - 1) + [threads[n - 1]]
    else Makers(threads, steps, s, n - 1)
  }

  /** The threads that were at the front of the queue when one was signalled. */
  function Fronts(states: seq<Monitor>, steps: seq<Step>, n: nat): seq<nat>
    requires n <= |steps| < |states|
  {
    if n == 0 then []
    else if steps[n - 1] == Signal && states[n - 1].waitQueue != [] then
      Fronts(states, steps, n - 1) + [states[n - 1].waitQueue[0]]
    else Fronts(states, steps, n - 1)
  }

  /** The history is that of the steps: so, with SignalsInOrder, the queue is first in, first out. */
  lemma {:induction false} HistoryIsSteps(states: seq<Monitor>, threads: seq<nat>, steps: seq<Step>, n: nat)
    requires Run(states, threads, steps) && n <= |steps|
    ensures states[n].waits == Makers(threads, steps, Wait, n)
    ensures states[n].wakes == Makers(threads, steps, Wake, n)
    ensures states[n].signals == Fronts(states, steps, n)
  {
    hide Enabled;
    if n > 0 {
      HistoryIsSteps(states, threads, steps, n - 1);
    }
  }

  /** How often thread t made a step, in the first n. */
  function Times(threads: seq<nat>, steps: seq<Step>, t: nat, s: Step, n: nat): nat
    requires n <= |steps| == |threads|
  {
    if n == 0 then 0 else Times(threads, steps, t, s, n - 1) + if threads[n - 1] == t && steps[n - 1] == s then 1 else 0
  }

  function One(b: bool): nat {
    if b then 1 else 0
  }

  /** Every Acquire is matched by a Release but for the one under way, and every Wait that returned woke up once; each of
      them took the lock's unit and then wrote its name, but for the one that is about to. */
  predicate InStep(threads: seq<nat>, steps: seq<Step>, t: nat, n: nat, p: Phase)
    requires n <= |steps| == |threads|
  {
    var calls, wakes := Times(threads, steps, t, Call, n), Times(threads, steps, t, Wake, n);
    && calls == Times(threads, steps, t, Release, n) + One(p != Outside)
    && Times(threads, steps, t, Wait, n) == wakes + One(p == Waiting)
    && calls + wakes == Times(threads, steps, t, Take, n) + One(p == Entering || p == Returning)
    && Times(threads, steps, t, Take, n) == Times(threads, steps, t, SetHolder, n) + One(p == Entered || p == Returned)
  }

  lemma {:induction false} CallsInStep(states: seq<Monitor>, threads: seq<nat>, steps: seq<Step>, t: nat, n: nat)
    requires Run(states, threads, steps) && n <= |steps|
    ensures InStep(threads, steps, t, n, PhaseOf(states[n], t))
  {
    hide InStep, Enabled, Next;
    if n > 0 {
      CallsInStep(states, threads, steps, t, n - 1);
      StepInStep(states[n - 1], threads, steps, t, n);
    } else {
      StartsInStep(threads, steps, t);
    }
  }

  lemma StartsInStep(threads: seq<nat>, steps: seq<Step>, t: nat)
    requires |steps| == |threads|
    ensures InStep(threads, steps, t, 0, PhaseOf(Initial(), t))
  {}

  lemma StepInStep(m: Monitor, threads: seq<nat>, steps: seq<Step>, t: nat, n: nat)
    requires 0 < n <= |steps| == |threads| && Enabled(m, threads[n - 1], steps[n - 1])
    requires InStep(threads, steps, t, n - 1, PhaseOf(m, t))
    ensures InStep(threads, steps, t, n, PhaseOf(Next(m, threads[n - 1], steps[n - 1]), t))
  {
    if threads[n - 1] != t && steps[n - 1] != Signal {
      PhasesElsewhere(m, threads[n - 1], steps[n - 1]);
    }
  }

  /** Broadcast, with anything that other threads do between its turns: the states in which its loop tests the
      queue. */
  ghost predicate Broadcasting(turns: seq<Monitor>, t: nat) {
    && turns != [] && Inv(turns[0]) && PhaseOf(turns[0], t) == Holding
    && forall i :: 0 <= i < |turns| - 1 && Enabled(turns[i], t, Signal) ==>
         turns[i].waitQueue != [] && OthersRan(Next(turns[i], t, Signal), turns[i + 1], t)
  }

  /** Some number of steps of other threads. */
  ghost predicate OthersRan(m: Monitor, n: Monitor, t: nat) {
    exists states, threads, steps :: OthersRun(m, n, t, states, threads, steps)
  }

  ghost predicate OthersRun(m: Monitor, n: Monitor, t: nat, states: seq<Monitor>, threads: seq<nat>, steps: seq<Step>) {
    && |states| == |steps| + 1 && |threads| == |steps| && states[0] == m && states[|steps|] == n
    && forall j :: 0 <= j < |steps| ==>
         threads[j] != t && Enabled(states[j], threads[j], steps[j]) && states[j + 1] == Next(states[j], threads[j], steps[j])
  }

  lemma {:induction false} OthersKeep(m: Monitor, n: Monitor, t: nat, states: seq<Monitor>, threads: seq<nat>, steps: seq<Step>, j: nat)
    requires Inv(m) && PhaseOf(m, t) == Holding && OthersRun(m, n, t, states, threads, steps) && j <= |steps|
    ensures Inv(states[j]) && PhaseOf(states[j], t) == Holding
    ensures states[j].waitQueue == m.waitQueue && states[j].signals == m.signals
  {
    if j > 0 {
      OthersKeep(m, n, t, states, threads, steps, j - 1);
      StepKeeps(states[j - 1], threads[j - 1], steps[j - 1]);
      QueueIsTheHolders(states[j - 1], t, threads[j - 1], steps[j - 1]);
    }
  }

  /** One turn of Broadcast, and whatever others do before the next. */
  lemma BroadcastTurn(a: Monitor, c: Monitor, t: nat)
    requires Inv(a) && PhaseOf(a, t) == Holding && a.waitQueue != []
    requires OthersRan(Next(a, t, Signal), c, t)
    ensures Inv(c) && PhaseOf(c, t) == Holding
    ensures c.waitQueue == a.waitQueue[1..] && c.signals == a.signals + [a.waitQueue[0]]
  {
    var b := Next(a, t, Signal);
    StepKeeps(a, t, Signal);
    var states, threads, steps :| OthersRun(b, c, t, states, threads, steps);
    OthersKeep(b, c, t, states, threads, steps, |steps|);
  }

  /** Broadcast makes at most as many turns as there were waiters, and signals them in turn. */
  lemma {:induction false} BroadcastEnds(turns: seq<Monitor>, t: nat, i: nat)
    requires Broadcasting(turns, t) && i < |turns|
    ensures Inv(turns[i]) && PhaseOf(turns[i], t) == Holding
    ensures i <= |turns[0].waitQueue| && turns[i].waitQueue == turns[0].waitQueue[i..]
    ensures turns[i].signals == turns[0].signals + turns[0].waitQueue[..i]
    decreases i
  {
    hide Inv, OthersRan, Next;
    if i > 0 {
      BroadcastEnds(turns, t, i - 1);
      assert Enabled(turns[i - 1], t, Signal);
      BroadcastTurn(turns[i - 1], turns[i], t);
      NextTurn(turns[0].signals, turns[0].waitQueue, i - 1);
    }
  }

  lemma NextTurn(signals: seq<nat>, q: seq<nat>, k: nat)
    requires k < |q|
    ensures q[k..][1..] == q[k + 1..] && q[k..][0] == q[k]
    ensures signals + q[..k] + [q[k]] == signals + q[..k + 1]
  {}
}
