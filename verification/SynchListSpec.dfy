/** The synchronised list (threads/synchlist.cc): any number of producers and consumers around one lock and
    one condition. */
module SynchListSpec {
  import opened Options
  import M = MonitorSpec
  import S = Semaphores

  /** What a thread is doing to the list: Append, before and after the item is in and after its signal; or
      RemoveFront, until it has its item. */
  datatype Job<T> = Idle | Appending(item: T) | Signalling | Removing | Leaving

  /** back says that the holder of the lock came back from a wait. */
  datatype SynchList<T> = SynchList(m: M.Monitor, list: seq<T>, jobs: map<nat, Job<T>>, back: bool,
                                    appended: seq<T>, taken: seq<T>)

  function JobOf<T>(s: SynchList<T>, t: nat): Job<T> {
    if t in s.jobs then s.jobs[t] else Idle
  }

  // ---- the steps ----

  datatype Event<T> =
    | StartAppend(item: T)
    | StartRemove
    | Lock(step: M.Step)   // inside Acquire, or the end of the sleep in Wait
    | Insert
    | Signal
    | Test                 // the loop test of RemoveFront: wait, or take the front
    | Leave

  predicate Enabled<T(==)>(s: SynchList<T>, t: nat, e: Event<T>) {
    match e
    case StartAppend(_) => JobOf(s, t) == Idle && M.Enabled(s.m, t, M.Call)
    case StartRemove => JobOf(s, t) == Idle && M.Enabled(s.m, t, M.Call)
    case Lock(step) => (step == M.Take || step == M.SetHolder || step == M.Wake) && M.Enabled(s.m, t, step)
    case Insert => M.PhaseOf(s.m, t) == M.Holding && JobOf(s, t).Appending? && JobOf(s, t).item !in s.list
    case Signal => M.PhaseOf(s.m, t) == M.Holding && JobOf(s, t).Signalling?
    case Test => M.PhaseOf(s.m, t) == M.Holding && JobOf(s, t).Removing?
    case Leave => M.PhaseOf(s.m, t) == M.Holding && JobOf(s, t).Leaving?
  }

  function Next<T(==)>(s: SynchList<T>, t: nat, e: Event<T>): SynchList<T>
    requires Enabled(s, t, e)
  {
    match e
    case StartAppend(item) => s.(m := M.Next(s.m, t, M.Call), jobs := s.jobs[t := Appending(item)])
    case StartRemove => s.(m := M.Next(s.m, t, M.Call), jobs := s.jobs[t := Removing])
    case Lock(step) =>
      s.(m := M.Next(s.m, t, step), back := if step == M.SetHolder then M.PhaseOf(s.m, t) == M.Returned else s.back)
    case Insert =>
      var item := JobOf(s, t).item;
      s.(list := s.list + [item], appended := s.appended + [item], jobs := s.jobs[t := Signalling])
    case Signal => s.(m := M.Next(s.m, t, M.Signal), jobs := s.jobs[t := Leaving])
    case Test =>
      if s.list == [] then s.(m := M.Next(s.m, t, M.Wait))
      else s.(list := s.list[1..], taken := s.taken + [s.list[0]], jobs := s.jobs[t := Leaving])
    case Leave => s.(m := M.Next(s.m, t, M.Release), jobs := s.jobs[t := Idle])
  }

  function Initial<T>(): SynchList<T> {
    SynchList(M.Initial(), [], map[], false, [], [])
  }

  // ---- the invariant ----

  /** Signalled, and on the way back to the lock. */
  predicate Coming(m: M.Monitor, t: nat) {
    var p := M.PhaseOf(m, t);
    (p == M.Waiting && t !in m.waitQueue) || p == M.Returning || p == M.Returned
  }

  ghost function OnTheWay(m: M.Monitor): set<nat> {
    set t | t in m.phases && Coming(m, t)
  }

  /** The holder's own part: it has come back and has not looked at the list yet, or it has put an item in
      and has not signalled yet. */
  function Holders<T>(s: SynchList<T>): nat {
    if s.m.lockHolder.None? then 0
    else
      match JobOf(s, s.m.lockHolder.value)
      case Removing => if s.back then 1 else 0
      case Signalling => 1
      case _ => 0
  }

  /** While a thread waits unsignalled, each item has someone on the way to it. */
  ghost predicate NobodyStranded<T>(s: SynchList<T>) {
    s.m.waitQueue != [] ==> |s.list| <= |OnTheWay(s.m)| + Holders(s)
  }

  predicate Matches<T>(p: M.Phase, j: Job<T>) {
    match p
    case Outside => j.Idle?
    case Entering => j.Appending? || j.Removing?
    case Entered => j.Appending? || j.Removing?
    case Holding => !j.Idle?
    case Waiting => j.Removing?
    case Returning => j.Removing?
    case Returned => j.Removing?
  }

  ghost predicate AllMatch<T>(s: SynchList<T>) {
    forall t: nat :: Matches(M.PhaseOf(s.m, t), JobOf(s, t))
  }

  ghost predicate Inv<T>(s: SynchList<T>) {
    && M.Inv(s.m)
    && AllMatch(s)
    && s.appended == s.taken + s.list
    && NobodyStranded(s)
  }

  // ---- proofs ----

  /** A step of one thread changes only its own place among those on the way. */
  lemma OnTheWayMeans(m: M.Monitor, u: nat)
    ensures u in OnTheWay(m) <==> Coming(m, u)
  {}

  lemma OnTheWayAt(m: M.Monitor, n: M.Monitor, t: nat)
    requires forall u: nat :: u != t ==> (Coming(n, u) <==> Coming(m, u))
    ensures OnTheWay(n) == if Coming(n, t) then OnTheWay(m) + {t} else OnTheWay(m) - {t}
    ensures |OnTheWay(n)| == |OnTheWay(m)| + (if Coming(n, t) then 1 else 0) - if Coming(m, t) then 1 else 0
  {
    hide OnTheWay, Coming;
    forall u: nat
      ensures u in OnTheWay(n) <==> if u == t then Coming(n, t) else u in OnTheWay(m)
    {
      OnTheWayMeans(m, u);
      OnTheWayMeans(n, u);
    }
    OnTheWayMeans(m, t);
    M.CountOne(OnTheWay(m), t);
  }

  lemma ComingElsewhere(m: M.Monitor, t: nat, step: M.Step)
    requires M.Enabled(m, t, step) && step != M.Signal
    ensures forall u: nat :: u != t ==> (Coming(M.Next(m, t, step), u) <==> Coming(m, u))
  {
    M.PhasesElsewhere(m, t, step);
  }

  lemma MatchAt<T>(s: SynchList<T>, n: SynchList<T>, t: nat)
    requires AllMatch(s) && Matches(M.PhaseOf(n.m, t), JobOf(n, t))
    requires forall u: nat :: u != t ==> M.PhaseOf(n.m, u) == M.PhaseOf(s.m, u) && JobOf(n, u) == JobOf(s, u)
    ensures AllMatch(n)
  {}

  lemma HolderIs<T>(s: SynchList<T>, t: nat)
    requires M.Inv(s.m) && M.PhaseOf(s.m, t) == M.Holding
    ensures s.m.lockHolder == Some(t)
  {}

  lemma InsertKeeps<T>(s: SynchList<T>, t: nat)
    requires Inv(s) && Enabled(s, t, Insert)
    ensures Inv(Next(s, t, Insert))
  {
    HolderIs(s, t);
    MatchAt(s, Next(s, t, Insert), t);
  }

  lemma TakeItemKeeps<T>(s: SynchList<T>, t: nat)
    requires Inv(s) && Enabled(s, t, Test) && s.list != []
    ensures Inv(Next(s, t, Test))
  {
    HolderIs(s, t);
    MatchAt(s, Next(s, t, Test), t);
    assert s.taken + s.list == s.taken + [s.list[0]] + s.list[1..];
  }

  lemma WaitKeeps<T>(s: SynchList<T>, t: nat)
    requires Inv(s) && Enabled(s, t, Test) && s.list == []
    ensures Inv(Next(s, t, Test))
  {
    M.StepKeeps(s.m, t, M.Wait);
    M.PhasesElsewhere(s.m, t, M.Wait);
    ComingElsewhere(s.m, t, M.Wait);
    MatchAt(s, Next(s, t, Test), t);
  }

  lemma SignalKeeps<T>(s: SynchList<T>, t: nat)
    requires Inv(s) && Enabled(s, t, Signal)
    ensures Inv(Next(s, t, Signal))
  {
    M.StepKeeps(s.m, t, M.Signal);
    HolderIs(s, t);
    MatchAt(s, Next(s, t, Signal), t);
    if s.m.waitQueue != [] {
      SignalSends(s.m, t);
    }
  }

  /** A signal puts one more thread on the way. */
  lemma SignalSends(m: M.Monitor, t: nat)
    requires M.Inv(m) && M.Enabled(m, t, M.Signal) && m.waitQueue != []
    ensures |OnTheWay(M.Next(m, t, M.Signal))| == |OnTheWay(m)| + 1
  {
    var q := m.waitQueue;
    M.FrontLeaves([], q);
    assert q[0] in q && M.PhaseOf(m, q[0]) == M.Waiting;
    OnTheWayAt(m, M.Next(m, t, M.Signal), q[0]);
  }

  lemma LeaveKeeps<T>(s: SynchList<T>, t: nat)
    requires Inv(s) && Enabled(s, t, Leave)
    ensures Inv(Next(s, t, Leave))
  {
    M.StepKeeps(s.m, t, M.Release);
    M.PhasesElsewhere(s.m, t, M.Release);
    ComingElsewhere(s.m, t, M.Release);
    HolderIs(s, t);
    MatchAt(s, Next(s, t, Leave), t);
    OnTheWayAt(s.m, Next(s, t, Leave).m, t);
  }

  /** A step that leaves the list alone keeps its promise, if no one on the way is lost. */
  lemma StrandedSame<T>(s: SynchList<T>, n: SynchList<T>)
    requires NobodyStranded(s) && n.list == s.list && n.m.waitQueue == s.m.waitQueue
    requires |OnTheWay(n.m)| + Holders(n) >= |OnTheWay(s.m)| + Holders(s)
    ensures NobodyStranded(n)
  {}

  lemma CallKeeps<T>(s: SynchList<T>, t: nat, e: Event<T>)
    requires Inv(s) && Enabled(s, t, e) && (e.StartAppend? || e.StartRemove?)
    ensures Inv(Next(s, t, e))
  {
    var n := Next(s, t, e);
    M.StepKeeps(s.m, t, M.Call);
    M.PhasesElsewhere(s.m, t, M.Call);
    ComingElsewhere(s.m, t, M.Call);
    MatchAt(s, n, t);
    OnTheWayAt(s.m, n.m, t);
    OutsideHolds(s, t);
    StrandedSame(s, n);
  }

  lemma OutsideHolds<T>(s: SynchList<T>, t: nat)
    requires M.Inv(s.m) && M.PhaseOf(s.m, t) != M.Holding
    ensures s.m.lockHolder != Some(t)
  {}

  lemma TakeLockKeeps<T>(s: SynchList<T>, t: nat)
    requires Inv(s) && Enabled(s, t, Lock(M.Take))
    ensures Inv(Next(s, t, Lock(M.Take)))
  {
    var n := Next(s, t, Lock(M.Take));
    M.StepKeeps(s.m, t, M.Take);
    M.PhasesElsewhere(s.m, t, M.Take);
    ComingElsewhere(s.m, t, M.Take);
    MatchAt(s, n, t);
    OnTheWayAt(s.m, n.m, t);
    StrandedSame(s, n);
  }

  lemma SetHolderKeeps<T>(s: SynchList<T>, t: nat)
    requires Inv(s) && Enabled(s, t, Lock(M.SetHolder))
    ensures Inv(Next(s, t, Lock(M.SetHolder)))
  {
    var n := Next(s, t, Lock(M.SetHolder));
    M.StepKeeps(s.m, t, M.SetHolder);
    M.PhasesElsewhere(s.m, t, M.SetHolder);
    ComingElsewhere(s.m, t, M.SetHolder);
    MatchAt(s, n, t);
    M.HolderIsNew(s.m, t);
    OnTheWayAt(s.m, n.m, t);
    assert Matches(M.PhaseOf(s.m, t), JobOf(s, t));
    StrandedSame(s, n);
  }

  lemma WakeKeeps<T>(s: SynchList<T>, t: nat)
    requires Inv(s) && Enabled(s, t, Lock(M.Wake))
    ensures Inv(Next(s, t, Lock(M.Wake)))
  {
    var n := Next(s, t, Lock(M.Wake));
    M.StepKeeps(s.m, t, M.Wake);
    M.PhasesElsewhere(s.m, t, M.Wake);
    ComingElsewhere(s.m, t, M.Wake);
    MatchAt(s, n, t);
    WokenWasComing(s.m, t);
    OnTheWayAt(s.m, n.m, t);
    StrandedSame(s, n);
  }

  lemma WokenWasComing(m: M.Monitor, t: nat)
    requires M.Inv(m) && M.Enabled(m, t, M.Wake)
    ensures Coming(m, t)
  {}

  lemma StepKeeps<T>(s: SynchList<T>, t: nat, e: Event<T>)
    requires Inv(s) && Enabled(s, t, e)
    ensures Inv(Next(s, t, e))
  {
    match e {
      case StartAppend(_) => CallKeeps(s, t, e);
      case StartRemove => CallKeeps(s, t, e);
      case Lock(step) =>
        if step == M.Take {
          TakeLockKeeps(s, t);
        } else if step == M.SetHolder {
          SetHolderKeeps(s, t);
        } else {
          WakeKeeps(s, t);
        }
      case Insert => InsertKeeps(s, t);
      case Signal => SignalKeeps(s, t);
      case Test =>
        if s.list == [] {
          WaitKeeps(s, t);
        } else {
          TakeItemKeeps(s, t);
        }
      case Leave => LeaveKeeps(s, t);
    }
  }

  // ---- runs ----

  ghost predicate Run<T>(states: seq<SynchList<T>>, threads: seq<nat>, events: seq<Event<T>>) {
    && |states| == |events| + 1 && |threads| == |events| && states[0] == Initial()
    && forall j :: 0 <= j < |events| ==>
         Enabled(states[j], threads[j], events[j]) && states[j + 1] == Next(states[j], threads[j], events[j])
  }

  lemma {:induction false} RunKeeps<T>(states: seq<SynchList<T>>, threads: seq<nat>, events: seq<Event<T>>, j: nat)
    requires Run(states, threads, events) && j <= |events|
    ensures Inv(states[j])
  {
    if j == 0 {
      M.InitialRight();
    } else {
      RunKeeps(states, threads, events, j - 1);
      StepKeeps(states[j - 1], threads[j - 1], events[j - 1]);
    }
  }

  /** What an event is to the lock's semaphore. */
  function LockUse<T(==)>(s: SynchList<T>, t: nat, e: Event<T>): S.Use {
    match e
    case Lock(step) => M.LockUse(t, step)
    case Test => if s.list == [] then S.Give else S.Other
    case Leave => S.Give
    case _ => S.Other
  }

  /** Over every run it begins with one unit and does what a semaphore does. */
  lemma LockRun<T>(states: seq<SynchList<T>>, threads: seq<nat>, events: seq<Event<T>>)
    requires Run(states, threads, events)
    ensures
      var values := seq(|states|, j requires 0 <= j < |states| => states[j].m.value);
      var uses := seq(|events|, j requires 0 <= j < |events| => LockUse(states[j], threads[j], events[j]));
      values[0] == 1 && S.IsRun(values, uses)
  {
    hide Enabled, Next, LockUse, S.Step;
    forall j | 0 <= j < |events|
      ensures S.Step(states[j].m.value, LockUse(states[j], threads[j], events[j]), states[j + 1].m.value)
    {
      StepUse(states[j], threads[j], events[j]);
    }
  }

  lemma StepUse<T>(s: SynchList<T>, t: nat, e: Event<T>)
    requires Enabled(s, t, e)
    ensures S.Step(s.m.value, LockUse(s, t, e), Next(s, t, e).m.value)
  {}

  // ---- calls, from their events ----

  datatype Call<T> = Append(item: T) | RemoveFront

  /** What thread t called last, before event n. */
  function Called<T>(threads: seq<nat>, events: seq<Event<T>>, t: nat, n: nat): Option<Call<T>>
    requires n <= |events| == |threads|
  {
    if n == 0 then None
    else if threads[n - 1] == t && events[n - 1].StartAppend? then Some(Append(events[n - 1].item))
    else if threads[n - 1] == t && events[n - 1].StartRemove? then Some(RemoveFront)
    else Called(threads, events, t, n - 1)
  }

  /** How often thread t did this, in the first n events: begin an Append or a RemoveFront, put an item in, take one out,
      or signal. */
  datatype Deed = BeginsAppend | BeginsRemove | PutsIn | TakesOut | Signals

  predicate Does<T(==)>(s: SynchList<T>, e: Event<T>, d: Deed) {
    match d
    case BeginsAppend => e.StartAppend?
    case BeginsRemove => e == StartRemove
    case PutsIn => e == Insert
    case TakesOut => e == Test && s.list != []
    case Signals => e == Signal
  }

  function Times<T(==)>(states: seq<SynchList<T>>, threads: seq<nat>, events: seq<Event<T>>, t: nat, d: Deed, n: nat): nat
    requires n <= |events| == |threads| < |states|
  {
    if n == 0 then 0
    else
      Times(states, threads, events, t, d, n - 1)
      + if threads[n - 1] == t && Does(states[n - 1], events[n - 1], d) then 1 else 0
  }

  /** A thread's job is the call that it made; each Append that has returned put one item in and signalled once, and each
      RemoveFront took one out. */
  predicate JobIsCall<T(==)>(states: seq<SynchList<T>>, threads: seq<nat>, events: seq<Event<T>>, t: nat, n: nat, j: Job<T>)
    requires n <= |events| == |threads| < |states|
  {
    var puts := Times(states, threads, events, t, PutsIn, n);
    && (j.Appending? ==> Called(threads, events, t, n) == Some(Append(j.item)))
    && (j.Removing? ==> Called(threads, events, t, n) == Some(RemoveFront))
    && Times(states, threads, events, t, BeginsAppend, n) == puts + (if j.Appending? then 1 else 0)
    && puts == Times(states, threads, events, t, Signals, n) + (if j.Signalling? then 1 else 0)
    && Times(states, threads, events, t, BeginsRemove, n)
       == Times(states, threads, events, t, TakesOut, n) + (if j.Removing? then 1 else 0)
  }

  /** The items that the Appends gave, in the order in which they were put in; and those at the front when one was taken
      out. */
  function ItemsIn<T>(threads: seq<nat>, events: seq<Event<T>>, n: nat): seq<Option<Call<T>>>
    requires n <= |events| == |threads|
  {
    if n == 0 then []
    else if events[n - 1].Insert? then ItemsIn(threads, events, n - 1) + [Called(threads, events, threads[n - 1], n - 1)]
    else ItemsIn(threads, events, n - 1)
  }

  function Fronts<T>(states: seq<SynchList<T>>, events: seq<Event<T>>, n: nat): seq<T>
    requires n <= |events| < |states|
  {
    if n == 0 then []
    else if events[n - 1].Test? && states[n - 1].list != [] then Fronts(states, events, n - 1) + [states[n - 1].list[0]]
    else Fronts(states, events, n - 1)
  }

  function Appends<T>(items: seq<T>): (calls: seq<Option<Call<T>>>)
    ensures |calls| == |items|
  {
    seq(|items|, i requires 0 <= i < |items| => Some(Append(items[i])))
  }

  lemma JobStep<T>(states: seq<SynchList<T>>, threads: seq<nat>, events: seq<Event<T>>, t: nat, n: nat)
    requires 0 < n <= |events| == |threads| < |states|
    requires Enabled(states[n - 1], threads[n - 1], events[n - 1])
    requires states[n] == Next(states[n - 1], threads[n - 1], events[n - 1])
    requires JobIsCall(states, threads, events, t, n - 1, JobOf(states[n - 1], t))
    ensures JobIsCall(states, threads, events, t, n, JobOf(states[n], t))
  {
    hide M.Next, M.Enabled;
  }

  lemma LogStep<T>(states: seq<SynchList<T>>, threads: seq<nat>, events: seq<Event<T>>, n: nat)
    requires 0 < n <= |events| == |threads| < |states|
    requires Enabled(states[n - 1], threads[n - 1], events[n - 1])
    requires states[n] == Next(states[n - 1], threads[n - 1], events[n - 1])
    requires JobIsCall(states, threads, events, threads[n - 1], n - 1, JobOf(states[n - 1], threads[n - 1]))
    requires ItemsIn(threads, events, n - 1) == Appends(states[n - 1].appended)
    requires Fronts(states, events, n - 1) == states[n - 1].taken
    ensures ItemsIn(threads, events, n) == Appends(states[n].appended)
    ensures Fronts(states, events, n) == states[n].taken
  {
    hide M.Next, M.Enabled;
  }

  /** Over every run: what threads do is what they called, and the two logs of the list are those of the calls. */
  lemma {:induction false} CallsAreServed<T>(states: seq<SynchList<T>>, threads: seq<nat>, events: seq<Event<T>>, n: nat)
    requires Run(states, threads, events) && n <= |events|
    ensures forall t: nat :: JobIsCall(states, threads, events, t, n, JobOf(states[n], t))
    ensures ItemsIn(threads, events, n) == Appends(states[n].appended)
    ensures Fronts(states, events, n) == states[n].taken
  {
    hide JobIsCall, Enabled, Next, ItemsIn, Fronts, Appends;
    if n > 0 {
      CallsAreServed(states, threads, events, n - 1);
      LogStep(states, threads, events, n);
      forall t: nat
        ensures JobIsCall(states, threads, events, t, n, JobOf(states[n], t))
      {
        JobStep(states, threads, events, t, n);
      }
    } else {
      StartsServed(states, threads, events);
    }
  }

  lemma StartsServed<T>(states: seq<SynchList<T>>, threads: seq<nat>, events: seq<Event<T>>)
    requires |events| == |threads| < |states|
    ensures forall t: nat :: JobIsCall(states, threads, events, t, 0, JobOf(Initial(), t))
    ensures ItemsIn(threads, events, 0) == Appends(Initial<T>().appended) && Fronts(states, events, 0) == Initial<T>().taken
  {}

  /** Items come out in the order in which they went in, and none is lost or comes out twice. */
  lemma ItemsInOrder<T>(states: seq<SynchList<T>>, threads: seq<nat>, events: seq<Event<T>>, j: nat)
    requires Run(states, threads, events) && j <= |events|
    ensures states[j].taken <= states[j].appended
    ensures states[j].list == states[j].appended[|states[j].taken|..]
  {
    RunKeeps(states, threads, events, j);
  }

  /** The consumers that were signalled and have not come back to the lock yet. */
  ghost function Signalled(m: M.Monitor): set<nat> {
    set t | t in m.phases &&
            (M.PhaseOf(m, t) == M.Returning || (M.PhaseOf(m, t) == M.Waiting && t !in m.waitQueue))
  }

  /** No consumer is stranded: when the lock is free and a consumer waits unsignalled, there are no more items
      than consumers on their way to take one. */
  lemma NoStrandedConsumer<T>(states: seq<SynchList<T>>, threads: seq<nat>, events: seq<Event<T>>, j: nat)
    requires Run(states, threads, events) && j <= |events|
    requires states[j].m.value == 1 && states[j].m.waitQueue != []
    ensures |states[j].list| <= |Signalled(states[j].m)|
    ensures forall t :: t in Signalled(states[j].m) ==> JobOf(states[j], t).Removing?
  {
    RunKeeps(states, threads, events, j);
    var s := states[j];
    NoOwner(s.m);
    assert Signalled(s.m) == OnTheWay(s.m);
  }

  lemma NoOwner(m: M.Monitor)
    requires M.Inv(m) && m.value == 1
    ensures m.lockHolder.None? && forall t: nat :: !M.Owns(M.PhaseOf(m, t))
  {
    M.HolderOwns(m);
    assert M.Owners(m) == {};
    forall t: nat
      ensures !M.Owns(M.PhaseOf(m, t))
    {
      assert t !in M.Owners(m);
    }
  }
}
