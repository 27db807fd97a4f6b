/** Threads, the scheduler and semaphores (threads/thread.cc, threads/scheduler.cc, threads/synch.cc) as a
    machine of atomic steps: code that runs with interrupts off is one step. */
module KernelSpec {
  import opened Options
  import S = Semaphores

  /** A semaphore, and how it got its value. */
  datatype Semaphore = Semaphore(value: nat, queue: seq<nat>, initial: nat, vs: nat, ps: nat)

  /** The current thread runs; or it is in Sleep, looking for a thread to run; or it has just been switched
      to, and interrupts are still off. */
  datatype Mode = Running | Sleeping(finishing: bool) | Switched

  /** waiting says which semaphore a thread inside P is at, queued or woken up to try again. */
  datatype Kernel = Kernel(current: nat, ready: seq<nat>, sems: seq<Semaphore>, waiting: map<nat, nat>,
                           toBeDestroyed: Option<nat>, live: set<nat>, mode: Mode)

  // ---- where threads are ----

  function Queued(sems: seq<Semaphore>): multiset<nat> {
    if sems == [] then multiset{} else Queued(sems[..|sems| - 1]) + multiset(sems[|sems| - 1].queue)
  }

  /** The ready list and the semaphores' queues, put together. */
  function Places(k: Kernel): multiset<nat> {
    multiset(k.ready) + Queued(k.sems)
  }

  /** The live threads that are on no list: the one that runs, and one that finished. */
  function Absent(k: Kernel): set<nat> {
    match k.mode
    case Running => {k.current}
    case Sleeping(finishing) => if finishing then {k.current} else {}
    case Switched => {k.current} + if k.toBeDestroyed.Some? then {k.toBeDestroyed.value} else {}
  }

  /** The threads that were woken from semaphore i and have not finished P. */
  ghost function Woken(k: Kernel, i: nat): set<nat>
    requires i < |k.sems|
  {
    set t | t in k.waiting && k.waiting[t] == i && t !in k.sems[i].queue
  }

  /** No unit is made or lost. */
  predicate Accounted(s: Semaphore) {
    s.value + s.ps == s.initial + s.vs
  }

  /** No wake-up is lost: while threads wait, each unit has a thread on its way to take it. */
  ghost predicate NoLostWakeup(k: Kernel, i: nat)
    requires i < |k.sems|
  {
    k.sems[i].queue != [] ==> k.sems[i].value <= |Woken(k, i)|
  }

  ghost predicate QueueKnown(k: Kernel, i: nat)
    requires i < |k.sems|
  {
    forall t :: t in k.sems[i].queue ==> t in k.waiting && k.waiting[t] == i
  }

  /** Each live thread that is not absent is in one place, once. */
  ghost predicate InOnePlace(k: Kernel) {
    forall t :: Places(k)[t] == if t in k.live && t !in Absent(k) then 1 else 0
  }

  ghost predicate GoodSemaphores(k: Kernel) {
    forall i :: 0 <= i < |k.sems| ==> Accounted(k.sems[i]) && NoLostWakeup(k, i) && QueueKnown(k, i)
  }

  ghost predicate Inv(k: Kernel) {
    k.current in k.live && InOnePlace(k) && GoodSemaphores(k) && GoodThreads(k)
  }

  ghost predicate GoodThreads(k: Kernel) {
    && (k.toBeDestroyed.Some? ==>
          k.mode.Switched? && k.toBeDestroyed.value in k.live && k.toBeDestroyed.value != k.current
          && k.toBeDestroyed.value !in k.waiting)
    && (forall t :: t in k.waiting ==> t in k.live && k.waiting[t] < |k.sems|)
    && (k.mode == Running || k.mode == Sleeping(true) ==> k.current !in k.waiting)
    && (k.mode == Sleeping(false) ==> k.current in k.waiting)
  }

  // ---- the steps ----

  /** The loop of P, from its test: take a unit, or queue up and sleep. */
  function TryP(k: Kernel, i: nat): Kernel
    requires i < |k.sems|
  {
    var s := k.sems[i];
    if s.value == 0 then
      k.(sems := k.sems[i := s.(queue := s.queue + [k.current])], waiting := k.waiting[k.current := i], mode := Sleeping(false))
    else
      k.(sems := k.sems[i := s.(value := s.value - 1, ps := s.ps + 1)], waiting := k.waiting - {k.current}, mode := Running)
  }

  /** V, by the current thread or by an interrupt handler. */
  function DoV(k: Kernel, i: nat): Kernel
    requires i < |k.sems|
  {
    var s := k.sems[i];
    if s.queue != [] then
      k.(ready := k.ready + [s.queue[0]], sems := k.sems[i := s.(queue := s.queue[1..], value := s.value + 1, vs := s.vs + 1)])
    else
      k.(sems := k.sems[i := s.(value := s.value + 1, vs := s.vs + 1)])
  }

  function DoNew(k: Kernel, value: nat): Kernel {
    k.(sems := k.sems + [Semaphore(value, [], value, 0, 0)])
  }

  function DoFork(k: Kernel, t: nat): Kernel {
    k.(live := k.live + {t}, ready := k.ready + [t])
  }

  /** Up to the context switch. */
  function DoYield(k: Kernel): Kernel {
    if k.ready == [] then k
    else k.(current := k.ready[0], ready := k.ready[1..] + [k.current], mode := Switched)
  }

  /** The end of Sleep, when there is a thread to run, up to the context switch. */
  function Dispatch(k: Kernel): Kernel
    requires k.mode.Sleeping? && k.ready != []
  {
    k.(current := k.ready[0], ready := k.ready[1..], mode := Switched,
       toBeDestroyed := if k.mode.finishing then Some(k.current) else k.toBeDestroyed)
  }

  /** CheckToBeDestroyed. */
  function Reap(k: Kernel): Kernel {
    if k.toBeDestroyed.None? then k
    else k.(live := k.live - {k.toBeDestroyed.value}, toBeDestroyed := None)
  }

  /** Past the context switch: the thread cleans up, and goes on where it was, perhaps in P. */
  function Resume(k: Kernel): Kernel
    requires k.current in k.waiting ==> k.waiting[k.current] < |k.sems|
  {
    var r := Reap(k);
    if k.current in k.waiting then TryP(r, k.waiting[k.current]) else r.(mode := Running)
  }

  datatype Event =
    | EnterP(sem: nat)
    | V(sem: nat)
    | NewSemaphore(initial: nat)
    | Fork(thread: nat)
    | Yield
    | Finish
    | Dispatched
    | Resumed

  /** When an event can happen: with a thread running, or, for a handler, while the machine is idle. */
  predicate Enabled(k: Kernel, e: Event) {
    match e
    case EnterP(i) => k.mode == Running && i < |k.sems|
    case V(i) => !k.mode.Switched? && i < |k.sems|
    case NewSemaphore(_) => k.mode == Running
    case Fork(t) => k.mode == Running && t !in k.live
    case Yield => k.mode == Running
    case Finish => k.mode == Running
    case Dispatched => k.mode.Sleeping? && k.ready != []
    case Resumed => k.mode.Switched?
  }

  ghost function Next(k: Kernel, e: Event): Kernel
    requires Inv(k) && Enabled(k, e)
  {
    match e
    case EnterP(i) => TryP(k, i)
    case V(i) => DoV(k, i)
    case NewSemaphore(value) => DoNew(k, value)
    case Fork(t) => DoFork(k, t)
    case Yield => DoYield(k)
    case Finish => k.(mode := Sleeping(true))
    case Dispatched => Dispatch(k)
    case Resumed => Resume(k)
  }

  // ---- the queues ----

  lemma {:induction false} QueuedUpdate(sems: seq<Semaphore>, i: nat, s: Semaphore)
    requires i < |sems|
    ensures multiset(sems[i].queue) <= Queued(sems)
    ensures Queued(sems[i := s]) == Queued(sems) - multiset(sems[i].queue) + multiset(s.queue)
  {
    var n := |sems| - 1;
    if i < n {
      QueuedUpdate(sems[..n], i, s);
      QueuedBefore(sems, i, s);
    } else {
      QueuedLast(sems, s);
    }
  }

  lemma QueuedBefore(sems: seq<Semaphore>, i: nat, s: Semaphore)
    requires i < |sems| - 1
    requires var init := sems[..|sems| - 1];
      && multiset(sems[i].queue) <= Queued(init)
      && Queued(init[i := s]) == Queued(init) - multiset(sems[i].queue) + multiset(s.queue)
    ensures multiset(sems[i].queue) <= Queued(sems)
    ensures Queued(sems[i := s]) == Queued(sems) - multiset(sems[i].queue) + multiset(s.queue)
  {
    var n := |sems| - 1;
    assert sems[i := s][..n] == sems[..n][i := s];
    Exchanged(Queued(sems[..n]), multiset(sems[n].queue), multiset(sems[i].queue), multiset(s.queue));
  }

  lemma QueuedLast(sems: seq<Semaphore>, s: Semaphore)
    requires sems != []
    ensures multiset(sems[|sems| - 1].queue) <= Queued(sems)
    ensures Queued(sems[|sems| - 1 := s]) == Queued(sems) - multiset(sems[|sems| - 1].queue) + multiset(s.queue)
  {
    var n := |sems| - 1;
    assert sems[n := s][..n] == sems[..n];
  }

  lemma Exchanged(a: multiset<nat>, b: multiset<nat>, out: multiset<nat>, more: multiset<nat>)
    requires out <= a
    ensures out <= a + b && (a - out + more) + b == (a + b) - out + more
  {}

  lemma QueuedNew(sems: seq<Semaphore>, s: Semaphore)
    requires s.queue == []
    ensures Queued(sems + [s]) == Queued(sems)
  {
    assert (sems + [s])[..|sems|] == sems;
  }

  /** A thread on a queue is counted among the places. */
  lemma InQueue(k: Kernel, i: nat, t: nat)
    requires i < |k.sems|
    ensures t in k.sems[i].queue ==> Places(k)[t] > 0
  {
    QueuedUpdate(k.sems, i, k.sems[i]);
    assert t in k.sems[i].queue ==> multiset(k.sems[i].queue)[t] > 0;
  }

  /** The appends never repeat: a thread that runs is on no list, so no ASSERT of a list fires. */
  lemma RunningIsNowhere(k: Kernel)
    requires Inv(k) && k.mode != Sleeping(false)
    ensures k.current !in k.ready
    ensures forall i :: 0 <= i < |k.sems| ==> k.current !in k.sems[i].queue
  {
    assert Places(k)[k.current] == 0;
    assert k.current in k.ready ==> multiset(k.ready)[k.current] > 0;
    forall i | 0 <= i < |k.sems|
      ensures k.current !in k.sems[i].queue
    {
      InQueue(k, i, k.current);
    }
  }

  lemma QueuedIsNotReady(k: Kernel, i: nat)
    requires Inv(k) && i < |k.sems| && k.sems[i].queue != []
    ensures k.sems[i].queue[0] !in k.ready && k.sems[i].queue[0] !in k.sems[i].queue[1..]
  {
    var q := k.sems[i].queue;
    QueuedUpdate(k.sems, i, k.sems[i]);
    assert Places(k)[q[0]] <= 1;
    OnceOnly(k.ready, Queued(k.sems), q);
  }

  lemma OnceOnly(ready: seq<nat>, queued: multiset<nat>, q: seq<nat>)
    requires q != [] && multiset(q) <= queued && (multiset(ready) + queued)[q[0]] <= 1
    ensures q[0] !in ready && q[0] !in q[1..]
  {
    assert q == [q[0]] + q[1..];
    assert multiset(q) == multiset{q[0]} + multiset(q[1..]);
    InSeq(ready, q[0]);
    InSeq(q[1..], q[0]);
  }

  lemma InSeq(s: seq<nat>, t: nat)
    ensures t in s ==> multiset(s)[t] > 0
  {}

  // ---- each step keeps the invariant ----

  /** Semaphores that a step leaves alone are as good as before, if it wakes no thread of theirs. */
  lemma OtherSemaphores(k: Kernel, n: Kernel, i: nat)
    requires Inv(k) && i < |k.sems| <= |n.sems| && n.sems[i] == k.sems[i]
    requires forall t :: t in k.waiting && k.waiting[t] == i <==> t in n.waiting && n.waiting[t] == i
    ensures Accounted(n.sems[i]) && NoLostWakeup(n, i) && QueueKnown(n, i)
  {
    assert Woken(n, i) == Woken(k, i);
  }

  /** All semaphores are as good as before, if all but one are left alone and that one is good. */
  lemma AllSemaphores(k: Kernel, n: Kernel, i: nat)
    requires Inv(k) && i < |k.sems| == |n.sems|
    requires forall j :: 0 <= j < |n.sems| && j != i ==> n.sems[j] == k.sems[j]
    requires forall t :: t in k.waiting && k.waiting[t] != i <==> t in n.waiting && n.waiting[t] != i
    requires forall t :: t in k.waiting && k.waiting[t] != i ==> n.waiting[t] == k.waiting[t]
    requires Accounted(n.sems[i]) && NoLostWakeup(n, i) && QueueKnown(n, i)
    ensures GoodSemaphores(n)
  {
    forall j | 0 <= j < |n.sems| && j != i
      ensures Accounted(n.sems[j]) && NoLostWakeup(n, j) && QueueKnown(n, j)
    {
      OtherSemaphores(k, n, j);
    }
  }

  /** A step that moves threads between lists only. */
  lemma PlacesKept(k: Kernel, n: Kernel)
    requires InOnePlace(k) && Places(n) == Places(k) && n.live == k.live && Absent(n) == Absent(k)
    ensures InOnePlace(n)
  {}

  lemma TryPTakes(k: Kernel, i: nat)
    requires Inv(k) && (k.mode == Running || k.mode.Switched?) && i < |k.sems| && k.sems[i].value > 0 && k.toBeDestroyed.None?
    requires k.current in k.waiting ==> k.waiting[k.current] == i
    ensures Inv(TryP(k, i))
  {
    var n := TryP(k, i);
    TakenPlaces(k, i);
    PlacesKept(k, n);
    TakenIsGood(k, i);
    AllSemaphores(k, n, i);
  }

  lemma TakenPlaces(k: Kernel, i: nat)
    requires i < |k.sems| && k.sems[i].value > 0
    ensures Places(TryP(k, i)) == Places(k)
  {
    QueuedUpdate(k.sems, i, TryP(k, i).sems[i]);
  }

  lemma TakenWoken(k: Kernel, i: nat)
    requires Inv(k) && (k.mode == Running || k.mode.Switched?) && i < |k.sems| && k.sems[i].value > 0
    requires k.current in k.waiting ==> k.waiting[k.current] == i
    ensures Woken(TryP(k, i), i) == Woken(k, i) - {k.current}
    ensures k.current in Woken(k, i) <==> k.current in k.waiting
  {
    RunningIsNowhere(k);
  }

  lemma TakenIsGood(k: Kernel, i: nat)
    requires Inv(k) && (k.mode == Running || k.mode.Switched?) && i < |k.sems| && k.sems[i].value > 0
    requires k.current in k.waiting ==> k.waiting[k.current] == i
    ensures var n := TryP(k, i); Accounted(n.sems[i]) && NoLostWakeup(n, i) && QueueKnown(n, i)
  {
    var n := TryP(k, i);
    assert Accounted(k.sems[i]) && NoLostWakeup(k, i) && QueueKnown(k, i);
    RunningIsNowhere(k);
    TakenWoken(k, i);
    OneLess(Woken(k, i), k.current);
  }

  lemma OneLess(s: set<nat>, t: nat)
    ensures |s - {t}| == if t in s then |s| - 1 else |s|
  {
    if t !in s {
      assert s - {t} == s;
    }
  }

  lemma TryPQueues(k: Kernel, i: nat)
    requires Inv(k) && (k.mode == Running || k.mode.Switched?) && i < |k.sems| && k.sems[i].value == 0 && k.toBeDestroyed.None?
    requires k.current in k.waiting ==> k.waiting[k.current] == i
    ensures Inv(TryP(k, i))
  {
    var n := TryP(k, i);
    QueuedPlaces(k, i);
    assert Accounted(k.sems[i]) && QueueKnown(k, i);
    AllSemaphores(k, n, i);
  }

  lemma QueuedPlaces(k: Kernel, i: nat)
    requires InOnePlace(k) && k.current in k.live && i < |k.sems| && k.sems[i].value == 0 && Absent(k) == {k.current}
    ensures InOnePlace(TryP(k, i))
  {
    var n := TryP(k, i);
    QueuedUpdate(k.sems, i, n.sems[i]);
    EndGrows(k.ready, k.sems[i].queue, Queued(k.sems), k.current);
    PlacesAdded(k, n);
  }

  lemma EndGrows(ready: seq<nat>, q: seq<nat>, queued: multiset<nat>, t: nat)
    requires multiset(q) <= queued
    ensures multiset(ready) + (queued - multiset(q) + multiset(q + [t])) == multiset(ready) + queued + multiset{t}
  {}

  lemma PlacesAdded(k: Kernel, n: Kernel)
    requires InOnePlace(k) && k.current in k.live && Places(n) == Places(k) + multiset{k.current}
    requires n.live == k.live && Absent(k) == {k.current} && Absent(n) == {}
    ensures InOnePlace(n)
  {}

  lemma TryPKeeps(k: Kernel, i: nat)
    requires Inv(k) && (k.mode == Running || k.mode.Switched?) && i < |k.sems| && k.toBeDestroyed.None?
    requires k.current in k.waiting ==> k.waiting[k.current] == i
    ensures Inv(TryP(k, i))
  {
    if k.sems[i].value > 0 {
      TryPTakes(k, i);
    } else {
      TryPQueues(k, i);
    }
  }

  lemma VKeeps(k: Kernel, i: nat)
    requires Inv(k) && Enabled(k, V(i))
    ensures Inv(DoV(k, i))
  {
    VInPlace(k, i);
    VSemaphores(k, i);
  }

  lemma VInPlace(k: Kernel, i: nat)
    requires InOnePlace(k) && i < |k.sems| && !k.mode.Switched?
    ensures InOnePlace(DoV(k, i))
  {
    VPlaces(k, i);
    PlacesKept(k, DoV(k, i));
  }

  lemma VSemaphores(k: Kernel, i: nat)
    requires Inv(k) && Enabled(k, V(i))
    ensures GoodSemaphores(DoV(k, i))
  {
    VIsGood(k, i);
    AllSemaphores(k, DoV(k, i), i);
  }

  lemma VIsGood(k: Kernel, i: nat)
    requires Inv(k) && Enabled(k, V(i))
    ensures Accounted(DoV(k, i).sems[i]) && NoLostWakeup(DoV(k, i), i) && QueueKnown(DoV(k, i), i)
  {
    assert Accounted(k.sems[i]) && QueueKnown(k, i);
    if k.sems[i].queue != [] {
      VWakes(k, i);
    }
  }

  lemma VPlaces(k: Kernel, i: nat)
    requires i < |k.sems|
    ensures Places(DoV(k, i)) == Places(k)
  {
    QueuedUpdate(k.sems, i, DoV(k, i).sems[i]);
    FrontMoves(k.ready, k.sems[i].queue, Queued(k.sems));
  }

  /** The front of a queue goes to the end of the ready list. */
  lemma FrontMoves(ready: seq<nat>, q: seq<nat>, queued: multiset<nat>)
    requires multiset(q) <= queued
    ensures q != [] ==> multiset(ready + [q[0]]) + (queued - multiset(q) + multiset(q[1..])) == multiset(ready) + queued
    ensures queued - multiset(q) + multiset(q) == queued
  {
    if q != [] {
      assert q == [q[0]] + q[1..];
      assert multiset(q) == multiset{q[0]} + multiset(q[1..]);
    }
  }

  /** V adds a unit and, with it, a thread that will take one. */
  lemma VWakes(k: Kernel, i: nat)
    requires Inv(k) && Enabled(k, V(i)) && k.sems[i].queue != []
    ensures Woken(DoV(k, i), i) == Woken(k, i) + {k.sems[i].queue[0]}
    ensures k.sems[i].queue[0] !in Woken(k, i)
    ensures NoLostWakeup(DoV(k, i), i)
  {
    var s := k.sems[i];
    var n := DoV(k, i);
    QueuedIsNotReady(k, i);
    assert QueueKnown(k, i) && NoLostWakeup(k, i);
    assert s.queue == [s.queue[0]] + s.queue[1..];
    assert Woken(n, i) == Woken(k, i) + {s.queue[0]};
  }

  lemma NewKeeps(k: Kernel, value: nat)
    requires Inv(k) && Enabled(k, NewSemaphore(value))
    ensures Inv(DoNew(k, value))
  {
    var n := DoNew(k, value);
    QueuedNew(k.sems, n.sems[|k.sems|]);
    assert Places(n) == Places(k);
    forall j | 0 <= j < |n.sems|
      ensures Accounted(n.sems[j]) && NoLostWakeup(n, j) && QueueKnown(n, j)
    {
      if j < |k.sems| {
        OtherSemaphores(k, n, j);
      }
    }
  }

  lemma SameSemaphores(k: Kernel, n: Kernel)
    requires Inv(k) && n.sems == k.sems && n.waiting == k.waiting
    ensures forall j :: 0 <= j < |n.sems| ==> Accounted(n.sems[j]) && NoLostWakeup(n, j) && QueueKnown(n, j)
  {
    forall j | 0 <= j < |n.sems|
      ensures Accounted(n.sems[j]) && NoLostWakeup(n, j) && QueueKnown(n, j)
    {
      OtherSemaphores(k, n, j);
    }
  }

  lemma ForkKeeps(k: Kernel, t: nat)
    requires Inv(k) && Enabled(k, Fork(t))
    ensures Inv(DoFork(k, t)) && t !in k.ready
  {
    var n := DoFork(k, t);
    assert Places(k)[t] == 0;
    assert t in k.ready ==> multiset(k.ready)[t] > 0;
    assert Places(n) == Places(k) + multiset{t};
    SameSemaphores(k, n);
  }

  lemma YieldKeeps(k: Kernel)
    requires Inv(k) && Enabled(k, Yield)
    ensures Inv(DoYield(k))
  {
    if k.ready != [] {
      var n := DoYield(k);
      assert k.ready == [k.ready[0]] + k.ready[1..];
      assert multiset(k.ready)[k.ready[0]] > 0;
      assert Places(k)[k.ready[0]] == 1;
      assert Places(n) + multiset{k.ready[0]} == Places(k) + multiset{k.current};
      SameSemaphores(k, n);
    }
  }

  lemma FinishKeeps(k: Kernel)
    requires Inv(k) && Enabled(k, Finish)
    ensures Inv(k.(mode := Sleeping(true)))
  {
    SameSemaphores(k, k.(mode := Sleeping(true)));
  }

  lemma DispatchKeeps(k: Kernel)
    requires Inv(k) && Enabled(k, Dispatched)
    ensures Inv(Dispatch(k)) && k.toBeDestroyed.None?
  {
    var n := Dispatch(k);
    assert k.ready == [k.ready[0]] + k.ready[1..];
    assert multiset(k.ready)[k.ready[0]] > 0;
    assert Places(k)[k.ready[0]] == 1;
    assert Places(n) + multiset{k.ready[0]} == Places(k);
    forall t
      ensures Places(n)[t] == if t in n.live && t !in Absent(n) then 1 else 0
    {
      assert Places(k)[t] == if t in k.live && t !in Absent(k) then 1 else 0;
    }
    SameSemaphores(k, n);
  }

  lemma ReapKeeps(k: Kernel)
    requires Inv(k)
    ensures Inv(Reap(k))
  {
    SameSemaphores(k, Reap(k));
    assert Places(Reap(k)) == Places(k);
  }

  lemma ResumeKeeps(k: Kernel)
    requires Inv(k) && Enabled(k, Resumed)
    ensures Inv(Resume(k))
  {
    ReapKeeps(k);
    var r := Reap(k);
    if k.current in k.waiting {
      TryPKeeps(r, k.waiting[k.current]);
    } else {
      SameSemaphores(r, r.(mode := Running));
      assert Places(r.(mode := Running)) == Places(r);
    }
  }

  lemma StepKeeps(k: Kernel, e: Event)
    requires Inv(k) && Enabled(k, e)
    ensures Inv(Next(k, e))
  {
    match e {
      case EnterP(i) => TryPKeeps(k, i);
      case V(i) => VKeeps(k, i);
      case NewSemaphore(value) => NewKeeps(k, value);
      case Fork(t) => ForkKeeps(k, t);
      case Yield => YieldKeeps(k);
      case Finish => FinishKeeps(k);
      case Dispatched => DispatchKeeps(k);
      case Resumed => ResumeKeeps(k);
    }
  }

  // ---- runs ----

  /** One thread, and no semaphores yet. */
  function Initial(): Kernel {
    Kernel(0, [], [], map[], None, {0}, Running)
  }

  ghost predicate Run(states: seq<Kernel>, events: seq<Event>) {
    && |states| == |events| + 1 && states[0] == Initial()
    && forall j :: 0 <= j < |events| && Inv(states[j]) ==>
         Enabled(states[j], events[j]) && states[j + 1] == Next(states[j], events[j])
  }

  lemma {:induction false} RunKeeps(states: seq<Kernel>, events: seq<Event>, j: nat)
    requires Run(states, events) && j <= |events|
    ensures forall i :: 0 <= i <= j ==> Inv(states[i])
  {
    if j > 0 {
      RunKeeps(states, events, j - 1);
      StepKeeps(states[j - 1], events[j - 1]);
    } else {
      assert Places(Initial()) == multiset{};
    }
  }

  /** In every reachable state a semaphore's value is what it started with, plus the Vs, less the Ps done; and
      while a thread waits, the value is at most the number of woken threads that have yet to finish P. */
  lemma SemaphoreSound(states: seq<Kernel>, events: seq<Event>, j: nat, i: nat)
    requires Run(states, events) && j <= |events| && i < |states[j].sems|
    ensures
      var s := states[j].sems[i];
      && s.value == s.initial + s.vs - s.ps
      && (s.queue != [] ==> s.value <= |Woken(states[j], i)|)
  {
    RunKeeps(states, events, j);
    assert Accounted(states[j].sems[i]) && NoLostWakeup(states[j], i);
  }

  // ---- what the layers above make of a semaphore ----

  /** A P on semaphore i ends: the thread was at its test, entering or woken, and goes on. */
  ghost predicate Completes(k: Kernel, e: Event, i: nat)
    requires Inv(k) && Enabled(k, e)
  {
    && (e == EnterP(i) || (e == Resumed && k.current in k.waiting && k.waiting[k.current] == i))
    && Next(k, e).mode == Running
  }

  /** What an event is to semaphore i. */
  ghost function UseOf(k: Kernel, e: Event, i: nat): S.Use
    requires Inv(k) && Enabled(k, e)
  {
    if e == EnterP(i) || (e == Resumed && k.current in k.waiting && k.waiting[k.current] == i)
    then if Completes(k, e, i) then S.Take(k.current) else S.FindNone(k.current)
    else if e == V(i) then S.Give else S.Other
  }

  /** A P ends only by taking a unit, and always takes one if there is one; a V adds one; and nothing else moves the
      value. */
  lemma SemaphoreRefines(k: Kernel, e: Event, i: nat)
    requires Inv(k) && Enabled(k, e) && i < |k.sems|
    ensures i < |Next(k, e).sems|
    ensures
      var v, w := k.sems[i].value, Next(k, e).sems[i].value;
      if Completes(k, e, i) then v > 0 && w == v - 1
      else if e == V(i) then w == v + 1
      else w == v
    ensures e == EnterP(i) || (e == Resumed && k.current in k.waiting && k.waiting[k.current] == i) ==>
      (Completes(k, e, i) <==> k.sems[i].value > 0)
    ensures Completes(k, e, i) ==> Next(k, e).current == k.current && k.current !in Next(k, e).waiting
  {}

  lemma StepUse(k: Kernel, e: Event, i: nat)
    requires Inv(k) && Enabled(k, e) && i < |k.sems|
    ensures i < |Next(k, e).sems| && S.Step(k.sems[i].value, UseOf(k, e, i), Next(k, e).sems[i].value)
  {
    hide Inv;
    SemaphoreRefines(k, e, i);
  }

  /** Semaphore i is in every state from `from` on. */
  ghost predicate ThereFrom(states: seq<Kernel>, from: nat, i: nat) {
    forall j :: from <= j < |states| ==> i < |states[j].sems|
  }

  lemma {:induction false} StaysThere(states: seq<Kernel>, events: seq<Event>, from: nat, i: nat, j: nat)
    requires Run(states, events) && from <= j <= |events| && i < |states[from].sems|
    ensures i < |states[j].sems|
  {
    hide Inv, Enabled, Next, UseOf;
    if from < j {
      StaysThere(states, events, from, i, j - 1);
      RunKeeps(states, events, j - 1);
      StepUse(states[j - 1], events[j - 1], i);
    }
  }

  ghost function ValuesFrom(states: seq<Kernel>, from: nat, i: nat): (values: seq<nat>)
    requires from <= |states| && ThereFrom(states, from, i)
  {
    seq<nat>(|states| - from, j requires 0 <= j < |states| - from => states[from + j].sems[i].value)
  }

  ghost predicate Reachable(states: seq<Kernel>, events: seq<Event>) {
    && |states| == |events| + 1
    && forall j :: 0 <= j < |events| ==> Inv(states[j]) && Enabled(states[j], events[j])
  }

  ghost function UsesFrom(states: seq<Kernel>, events: seq<Event>, from: nat, i: nat): (uses: seq<S.Use>)
    requires Reachable(states, events) && from <= |events|
  {
    seq(|events| - from, j requires 0 <= j < |events| - from => UseOf(states[from + j], events[from + j], i))
  }

  lemma RunReachable(states: seq<Kernel>, events: seq<Event>)
    requires Run(states, events)
    ensures Reachable(states, events)
  {
    RunKeeps(states, events, |events|);
  }

  /** Any run of the kernel, with any number of threads and semaphores, is to each of its semaphores a run of the
      semaphore that locks, conditions, the disk and the process table are built on. */
  lemma SemaphoreRun(states: seq<Kernel>, events: seq<Event>, from: nat, i: nat)
    requires Run(states, events) && from <= |events| && i < |states[from].sems|
    ensures ThereFrom(states, from, i) && Reachable(states, events)
    ensures S.IsRun(ValuesFrom(states, from, i), UsesFrom(states, events, from, i))
  {
    hide Inv, Enabled, Next, UseOf, S.Step;
    RunReachable(states, events);
    forall j | from <= j < |states|
      ensures i < |states[j].sems|
    {
      StaysThere(states, events, from, i, j);
    }
    var values, uses := ValuesFrom(states, from, i), UsesFrom(states, events, from, i);
    forall j | 0 <= j < |uses|
      ensures S.Step(values[j], uses[j], values[j + 1])
    {
      StepUse(states[from + j], events[from + j], i);
    }
  }

  /** ... from the value that it was made with. */
  lemma SemaphoreStarts(states: seq<Kernel>, events: seq<Event>, from: nat, i: nat)
    requires Run(states, events) && 0 < from <= |events| && |states[from - 1].sems| <= i < |states[from].sems|
    ensures events[from - 1] == NewSemaphore(states[from].sems[i].value) && i == |states[from - 1].sems|
  {
    hide Inv, Enabled, Next;
    RunKeeps(states, events, from - 1);
    StepMakes(states[from - 1], events[from - 1], i);
  }

  lemma StepMakes(k: Kernel, e: Event, i: nat)
    requires Inv(k) && Enabled(k, e) && |k.sems| <= i < |Next(k, e).sems|
    ensures e == NewSemaphore(Next(k, e).sems[i].value) && i == |k.sems|
  {
    hide InOnePlace, GoodSemaphores;
  }

  // ---- whom a V wakes ----

  /** The current thread, at the test of P on semaphore i, finds no unit. */
  predicate FindsNone(k: Kernel, e: Event, i: nat) {
    && i < |k.sems| && k.sems[i].value == 0
    && (e == EnterP(i) || (e == Resumed && k.current in k.waiting && k.waiting[k.current] == i))
  }

  /** The threads that found no unit in the first n events, in order. */
  function Sleepers(states: seq<Kernel>, events: seq<Event>, i: nat, n: nat): seq<nat>
    requires n <= |events| < |states|
  {
    if n == 0 then []
    else Sleepers(states, events, i, n - 1) + if FindsNone(states[n - 1], events[n - 1], i) then [states[n - 1].current] else []
  }

  /** The threads that the Vs among them made ready, in order. */
  function Wakened(states: seq<Kernel>, events: seq<Event>, i: nat, n: nat): seq<nat>
    requires n <= |events| < |states|
  {
    if n == 0 then []
    else
      var before, after := states[n - 1].ready, states[n].ready;
      Wakened(states, events, i, n - 1) + if events[n - 1] == V(i) && before <= after then after[|before|..] else []
  }

  function QueueOf(k: Kernel, i: nat): seq<nat> {
    if i < |k.sems| then k.sems[i].queue else []
  }

  lemma StepQueues(k: Kernel, e: Event, i: nat)
    requires Inv(k) && Enabled(k, e)
    ensures
      var n := Next(k, e);
      var slept := if FindsNone(k, e, i) then [k.current] else [];
      var woken := if e == V(i) && k.ready <= n.ready then n.ready[|k.ready|..] else [];
      woken + QueueOf(n, i) == QueueOf(k, i) + slept
  {
    hide InOnePlace, GoodSemaphores;
    if e == V(i) && k.sems[i].queue != [] {
      assert (k.ready + [k.sems[i].queue[0]])[|k.ready|..] == [k.sems[i].queue[0]];
    }
  }

  lemma QueuesJoin(sleepers: seq<nat>, wakened: seq<nat>, q: seq<nat>, slept: seq<nat>, woken: seq<nat>, p: seq<nat>)
    requires sleepers == wakened + q && woken + p == q + slept
    ensures sleepers + slept == (wakened + woken) + p
  {
    assert sleepers + slept == wakened + (q + slept);
  }

  /** In every run the Vs on a semaphore wake the threads that slept on it in the order in which they went to sleep, and
      the others are its queue. */
  lemma {:induction false} WakesInOrder(states: seq<Kernel>, events: seq<Event>, i: nat, n: nat)
    requires Run(states, events) && n <= |events|
    ensures Sleepers(states, events, i, n) == Wakened(states, events, i, n) + QueueOf(states[n], i)
    ensures Wakened(states, events, i, n) <= Sleepers(states, events, i, n)
  {
    hide Inv, Enabled, Next, FindsNone, QueueOf;
    if n > 0 {
      WakesInOrder(states, events, i, n - 1);
      RunKeeps(states, events, n - 1);
      StepQueues(states[n - 1], events[n - 1], i);
      var before, after := states[n - 1].ready, states[n].ready;
      QueuesJoin(Sleepers(states, events, i, n - 1), Wakened(states, events, i, n - 1), QueueOf(states[n - 1], i),
                 if FindsNone(states[n - 1], events[n - 1], i) then [states[n - 1].current] else [],
                 if events[n - 1] == V(i) && before <= after then after[|before|..] else [], QueueOf(states[n], i));
    } else {
      NoQueue(i);
    }
  }

  lemma NoQueue(i: nat)
    ensures QueueOf(Initial(), i) == []
  {}

  // ---- what each step does to the processor ----

  /** Which thread has the processor after an event, and how far it is. */
  lemma StepSwitches(k: Kernel, e: Event)
    requires Inv(k) && Enabled(k, e)
    ensures
      var n := Next(k, e);
      match e
      case EnterP(i) => n.current == k.current && n.mode == if k.sems[i].value > 0 then Running else Sleeping(false)
      case V(_) => n.current == k.current && n.mode == k.mode
      case NewSemaphore(_) => n.current == k.current && n.mode == Running
      case Fork(_) => n.current == k.current && n.mode == Running
      case Yield => if k.ready == [] then n == k else n.current == k.ready[0] && n.mode == Switched
      case Finish => n == k.(mode := Sleeping(true))
      case Dispatched => n.current == k.ready[0] && n.mode == Switched
      case Resumed =>
        && n.current == k.current
        && n.mode == if k.current in k.waiting && k.sems[k.waiting[k.current]].value == 0 then Sleeping(false) else Running
  {
    hide InOnePlace, GoodSemaphores;
  }

  /** Which threads are ready, exist, or are to be deleted. */
  lemma StepThreads(k: Kernel, e: Event)
    requires Inv(k) && Enabled(k, e)
    ensures
      var n := Next(k, e);
      && n.ready == (match e
           case V(i) => k.ready + k.sems[i].queue[..if k.sems[i].queue == [] then 0 else 1]
           case Fork(t) => k.ready + [t]
           case Yield => if k.ready == [] then [] else k.ready[1..] + [k.current]
           case Dispatched => k.ready[1..]
           case _ => k.ready)
      && n.live == (match e
           case Fork(t) => k.live + {t}
           case Resumed => if k.toBeDestroyed.Some? then k.live - {k.toBeDestroyed.value} else k.live
           case _ => k.live)
      && (n.toBeDestroyed.Some? <==> (e == Dispatched && k.mode == Sleeping(true)) || (k.toBeDestroyed.Some? && e != Resumed))
      && (e == Dispatched && k.mode == Sleeping(true) ==> n.toBeDestroyed == Some(k.current))
  {
    hide InOnePlace, GoodSemaphores;
    if e.V? && k.sems[e.sem].queue != [] {
      assert k.sems[e.sem].queue[..1] == [k.sems[e.sem].queue[0]];
    }
  }

  /** The thread to delete is never the one that runs, and there is never a second one. */
  lemma ReapSound(states: seq<Kernel>, events: seq<Event>, j: nat)
    requires Run(states, events) && j <= |events|
    ensures states[j].mode.Sleeping? ==> states[j].toBeDestroyed.None?
    ensures states[j].toBeDestroyed.Some? ==> states[j].toBeDestroyed.value != states[j].current
    ensures forall t :: t in states[j].live && t !in Absent(states[j]) ==> Places(states[j])[t] == 1
  {
    RunKeeps(states, events, j);
  }

  // ---- dispatch is first come, first served ----

  predicate IsDispatch(k: Kernel, e: Event) {
    e == Dispatched || (e == Yield && k.ready != [])
  }

  /** The ready list loses its front to a dispatch, and grows at its end only. */
  lemma ReadyMoves(k: Kernel, e: Event)
    requires Inv(k) && Enabled(k, e)
    ensures
      var n := Next(k, e);
      if IsDispatch(k, e) then n.current == k.ready[0] && k.ready[1..] <= n.ready
      else n.current == k.current && k.ready <= n.ready
  {
    match e {
      case V(i) =>
        if k.sems[i].queue != [] {
          assert k.ready <= k.ready + [k.sems[i].queue[0]];
        }
      case Fork(t) => assert k.ready <= k.ready + [t];
      case Yield =>
        if k.ready != [] {
          assert k.ready[1..] <= k.ready[1..] + [k.current];
        }
      case _ =>
    }
  }

  lemma RunMoves(states: seq<Kernel>, events: seq<Event>, j: nat)
    requires Run(states, events) && j < |events|
    ensures Moved(states[j].ready, states[j + 1].ready, IsDispatch(states[j], events[j]))
    ensures IsDispatch(states[j], events[j]) ==> states[j].ready != [] && states[j + 1].current == states[j].ready[0]
  {
    RunKeeps(states, events, j);
    ReadyMoves(states[j], events[j]);
  }

  predicate Moved(before: seq<nat>, after: seq<nat>, dispatch: bool) {
    if dispatch then before != [] && before[1..] <= after else before <= after
  }

  lemma MovedPlace(before: seq<nat>, after: seq<nat>, dispatch: bool, p: nat)
    requires Moved(before, after, dispatch) && p < |before| && (dispatch ==> p > 0)
    ensures var q := if dispatch then p - 1 else p; q < |after| && after[q] == before[p]
  {}

  /** How many dispatches there are from state lo to state hi. */
  function Dispatches(states: seq<Kernel>, events: seq<Event>, lo: nat, hi: nat): nat
    requires lo <= hi <= |events| < |states|
  {
    if lo == hi then 0
    else Dispatches(states, events, lo, hi - 1) + if IsDispatch(states[hi - 1], events[hi - 1]) then 1 else 0
  }

  lemma {:induction false} MovesUp(states: seq<Kernel>, events: seq<Event>, lo: nat, hi: nat, p: nat)
    requires Run(states, events) && lo <= hi <= |events|
    requires p < |states[lo].ready| && Dispatches(states, events, lo, hi) <= p
    ensures
      var d := Dispatches(states, events, lo, hi);
      p - d < |states[hi].ready| && states[hi].ready[p - d] == states[lo].ready[p]
    decreases hi
  {
    if lo < hi {
      MovesUp(states, events, lo, hi - 1, p);
      MovesOnce(states, events, lo, hi - 1, p);
    }
  }

  lemma MovesOnce(states: seq<Kernel>, events: seq<Event>, lo: nat, hi: nat, p: nat)
    requires Run(states, events) && lo <= hi < |events|
    requires p < |states[lo].ready| && Dispatches(states, events, lo, hi + 1) <= p
    requires
      var d := Dispatches(states, events, lo, hi);
      p - d < |states[hi].ready| && states[hi].ready[p - d] == states[lo].ready[p]
    ensures
      var d := Dispatches(states, events, lo, hi + 1);
      p - d < |states[hi + 1].ready| && states[hi + 1].ready[p - d] == states[lo].ready[p]
  {
    var d, dispatch := Dispatches(states, events, lo, hi), IsDispatch(states[hi], events[hi]);
    assert Dispatches(states, events, lo, hi + 1) == d + if dispatch then 1 else 0;
    RunMoves(states, events, hi);
    MovedPlace(states[hi].ready, states[hi + 1].ready, dispatch, p - d);
  }

  /** The thread at place p of the ready list is the one that dispatch number p + 1 from then on runs. */
  lemma FirstComeFirstServed(states: seq<Kernel>, events: seq<Event>, lo: nat, hi: nat, p: nat)
    requires Run(states, events) && lo <= hi < |events| && p < |states[lo].ready|
    requires Dispatches(states, events, lo, hi) == p && IsDispatch(states[hi], events[hi])
    ensures states[hi + 1].current == states[lo].ready[p]
  {
    MovesUp(states, events, lo, hi, p);
    RunMoves(states, events, hi);
  }
}
