/** The synchronous disk (filesys/synchdisk.cc, machine/disk.cc): threads that take turns with one lock, wait
    on one semaphore, and are woken by the disk's interrupt. The semaphore is its value, as in MonitorSpec, and
    a run of it is a run of the kernel's (SemaphoreRun). */
module SynchDiskSpec {
  import opened Words
  import opened Options
  import opened Disks
  import M = MonitorSpec
  import S = Semaphores

  datatype Operation = Read(sector: nat) | Write(sector: nat, data: Sector)

  /** A thread's call: not begun, at the lock or about to make its request, waiting for the interrupt, or
      about to let the lock go; result is what a read has in its buffer. */
  datatype Job =
    | Idle
    | Requesting(op: Operation)
    | Pending(op: Operation, result: Sector)
    | Finished(op: Operation, result: Sector)

  /** The lock, the semaphore, the disk and its scheduled interrupts. */
  datatype SynchDisk = SynchDisk(m: M.Monitor, semaphore: nat, active: bool, interrupts: nat, image: Image, jobs: map<nat, Job>)

  function JobOf(s: SynchDisk, t: nat): Job {
    if t in s.jobs then s.jobs[t] else Idle
  }

  datatype Event =
    | Start(op: Operation)
    | Lock(step: M.Step)
    | Request
    | Interrupt       // of the disk, whichever thread runs
    | EndWait         // the P on the semaphore takes its unit
    | Leave

  predicate Enabled(s: SynchDisk, t: nat, e: Event) {
    match e
    case Start(op) => JobOf(s, t) == Idle && M.Enabled(s.m, t, M.Call) && op.sector < NUM_SECTORS
    case Lock(step) => (step == M.Take || step == M.SetHolder) && M.Enabled(s.m, t, step)
    case Request => M.PhaseOf(s.m, t) == M.Holding && JobOf(s, t).Requesting?
    case Interrupt => s.interrupts > 0
    case EndWait => M.PhaseOf(s.m, t) == M.Holding && JobOf(s, t).Pending? && s.semaphore > 0
    case Leave => M.PhaseOf(s.m, t) == M.Holding && JobOf(s, t).Finished?
  }

  /** The transfer is made at once; only its end takes time. */
  function Transferred(image: Image, op: Operation): Image
    requires op.sector < NUM_SECTORS
  {
    match op
    case Read(_) => image
    case Write(sector, data) => image[sector := data]
  }

  function Next(s: SynchDisk, t: nat, e: Event): SynchDisk
    requires Enabled(s, t, e) && (e == Request ==> JobOf(s, t).op.sector < NUM_SECTORS)
  {
    match e
    case Start(op) => s.(m := M.Next(s.m, t, M.Call), jobs := s.jobs[t := Requesting(op)])
    case Lock(step) => s.(m := M.Next(s.m, t, step))
    case Request =>
      var op := JobOf(s, t).op;
      var image := Transferred(s.image, op);
      s.(image := image, active := true, interrupts := s.interrupts + 1, jobs := s.jobs[t := Pending(op, image[op.sector])])
    case Interrupt => s.(active := false, interrupts := s.interrupts - 1, semaphore := s.semaphore + 1)
    case EndWait =>
      s.(semaphore := s.semaphore - 1, jobs := s.jobs[t := Finished(JobOf(s, t).op, JobOf(s, t).result)])
    case Leave => s.(m := M.Next(s.m, t, M.Release), jobs := s.jobs[t := Idle])
  }

  function Initial(image: Image): SynchDisk {
    SynchDisk(M.Initial(), 0, false, 0, image, map[])
  }

  // ---- the invariant ----

  predicate Matches(p: M.Phase, j: Job) {
    match p
    case Outside => j.Idle?
    case Entering => j.Requesting?
    case Entered => j.Requesting?
    case Holding => !j.Idle?
    case _ => false
  }

  /** The one request that can be out. */
  function Outstanding(s: SynchDisk): nat {
    if s.m.lockHolder.Some? && JobOf(s, s.m.lockHolder.value).Pending? then 1 else 0
  }

  predicate JobRight(image: Image, j: Job) {
    && (j.Idle? || j.op.sector < NUM_SECTORS)
    && (j.Pending? || j.Finished? ==> image[j.op.sector] == j.result && (j.op.Write? ==> j.result == j.op.data))
  }

  ghost predicate Inv(s: SynchDisk) {
    && M.Inv(s.m)
    && (forall t: nat :: Matches(M.PhaseOf(s.m, t), JobOf(s, t)))
    && s.semaphore + s.interrupts == Outstanding(s)
    && (s.active <==> s.interrupts > 0)
    && (forall t: nat :: JobRight(s.image, JobOf(s, t)))
  }

  // ---- proofs ----

  lemma HolderIs(s: SynchDisk, t: nat)
    requires M.Inv(s.m) && M.PhaseOf(s.m, t) == M.Holding
    ensures s.m.lockHolder == Some(t)
    ensures forall u: nat :: u != t ==> M.PhaseOf(s.m, u) != M.Holding
  {}

  /** The ASSERT in the disk: nobody makes a request while another is out. */
  lemma RequestFindsDiskIdle(s: SynchDisk, t: nat)
    requires Inv(s) && Enabled(s, t, Request)
    ensures !s.active && s.interrupts == 0 && s.semaphore == 0
    ensures JobOf(s, t).op.sector < NUM_SECTORS
  {
    HolderIs(s, t);
    assert JobRight(s.image, JobOf(s, t));
  }

  /** While one thread holds the lock, no other has a result in hand. */
  lemma OthersHaveNone(s: SynchDisk, t: nat, u: nat)
    requires Inv(s) && M.PhaseOf(s.m, t) == M.Holding && u != t
    ensures !JobOf(s, u).Pending? && !JobOf(s, u).Finished?
  {
    HolderIs(s, t);
    assert Matches(M.PhaseOf(s.m, u), JobOf(s, u));
  }

  lemma RequestKeeps(s: SynchDisk, t: nat)
    requires Inv(s) && Enabled(s, t, Request)
    ensures JobOf(s, t).op.sector < NUM_SECTORS && Inv(Next(s, t, Request))
  {
    RequestFindsDiskIdle(s, t);
    HolderIs(s, t);
    var n := Next(s, t, Request);
    forall u: nat
      ensures JobRight(n.image, JobOf(n, u)) && Matches(M.PhaseOf(n.m, u), JobOf(n, u))
    {
      assert Matches(M.PhaseOf(s.m, u), JobOf(s, u)) && JobRight(s.image, JobOf(s, u));
      if u != t {
        OthersHaveNone(s, t, u);
      }
    }
  }

  lemma InterruptKeeps(s: SynchDisk, t: nat)
    requires Inv(s) && Enabled(s, t, Interrupt)
    ensures Inv(Next(s, t, Interrupt))
  {
    var n := Next(s, t, Interrupt);
    assert forall u: nat :: JobOf(n, u) == JobOf(s, u);
  }

  lemma EndWaitKeeps(s: SynchDisk, t: nat)
    requires Inv(s) && Enabled(s, t, EndWait)
    ensures Inv(Next(s, t, EndWait))
  {
    HolderIs(s, t);
    var n := Next(s, t, EndWait);
    assert JobRight(s.image, JobOf(s, t));
    assert forall u: nat :: u != t ==> JobOf(n, u) == JobOf(s, u);
  }

  /** A step of the lock and of one thread's job leaves the disk and the other threads alone. */
  lemma LocalKeeps(s: SynchDisk, n: SynchDisk, t: nat)
    requires Inv(s) && M.Inv(n.m) && n == s.(m := n.m, jobs := n.jobs) && Outstanding(n) == Outstanding(s)
    requires Matches(M.PhaseOf(n.m, t), JobOf(n, t)) && JobRight(s.image, JobOf(n, t))
    requires forall u: nat :: u != t ==> M.PhaseOf(n.m, u) == M.PhaseOf(s.m, u) && JobOf(n, u) == JobOf(s, u)
    ensures Inv(n)
  {}

  lemma LockKeeps(s: SynchDisk, t: nat, e: Event, step: M.Step)
    requires Inv(s) && Enabled(s, t, e) && (e.Start? || e == Lock(step) || e == Leave)
    requires step == if e.Start? then M.Call else if e == Leave then M.Release else step
    ensures Inv(Next(s, t, e))
  {
    var n := Next(s, t, e);
    M.StepKeeps(s.m, t, step);
    M.PhasesElsewhere(s.m, t, step);
    assert Matches(M.PhaseOf(s.m, t), JobOf(s, t)) && JobRight(s.image, JobOf(s, t));
    HoldersKept(s, n, t, e, step);
    LocalKeeps(s, n, t);
  }

  lemma HoldersKept(s: SynchDisk, n: SynchDisk, t: nat, e: Event, step: M.Step)
    requires Inv(s) && Enabled(s, t, e) && n == Next(s, t, e) && (e.Start? || e == Lock(step) || e == Leave)
    requires step == if e.Start? then M.Call else if e == Leave then M.Release else step
    ensures Outstanding(n) == Outstanding(s)
  {
    if e == Leave {
      HolderIs(s, t);
    } else if step == M.SetHolder {
      M.HolderIsNew(s.m, t);
      assert Matches(M.PhaseOf(s.m, t), JobOf(s, t));
    } else {
      assert s.m.lockHolder != Some(t) by {
        assert M.PhaseOf(s.m, t) != M.Holding;
      }
    }
  }

  lemma StepKeeps(s: SynchDisk, t: nat, e: Event)
    requires Inv(s) && Enabled(s, t, e)
    ensures e == Request ==> JobOf(s, t).op.sector < NUM_SECTORS
    ensures Inv(Next(s, t, e))
  {
    match e {
      case Start(_) => LockKeeps(s, t, e, M.Call);
      case Lock(step) => LockKeeps(s, t, e, step);
      case Request => RequestKeeps(s, t);
      case Interrupt => InterruptKeeps(s, t);
      case EndWait => EndWaitKeeps(s, t);
      case Leave => LockKeeps(s, t, e, M.Release);
    }
  }

  // ---- runs ----

  predicate IsStep(a: SynchDisk, t: nat, e: Event, b: SynchDisk) {
    Enabled(a, t, e) && (e == Request ==> JobOf(a, t).op.sector < NUM_SECTORS) && b == Next(a, t, e)
  }

  lemma IsStepKeeps(a: SynchDisk, t: nat, e: Event, b: SynchDisk)
    requires Inv(a) && IsStep(a, t, e, b)
    ensures Inv(b)
  {
    StepKeeps(a, t, e);
  }

  ghost predicate Run(states: seq<SynchDisk>, threads: seq<nat>, events: seq<Event>, image: Image) {
    && |states| == |events| + 1 && |threads| == |events| && states[0] == Initial(image)
    && forall j :: 0 <= j < |events| && Inv(states[j]) ==> IsStep(states[j], threads[j], events[j], states[j + 1])
  }

  lemma {:induction false} RunKeeps(states: seq<SynchDisk>, threads: seq<nat>, events: seq<Event>, image: Image, j: nat)
    requires Run(states, threads, events, image) && j <= |events|
    ensures Inv(states[j])
  {
    if j == 0 {
      M.InitialRight();
    } else {
      RunKeeps(states, threads, events, image, j - 1);
      IsStepKeeps(states[j - 1], threads[j - 1], events[j - 1], states[j]);
    }
  }

  /** What an event is to the semaphore. */
  function UseOf(t: nat, e: Event): S.Use {
    match e
    case EndWait => S.Take(t)
    case Interrupt => S.Give
    case _ => S.Other
  }

  /** ... and to the lock's. */
  function LockUse(t: nat, e: Event): S.Use {
    match e
    case Lock(step) => M.LockUse(t, step)
    case Leave => S.Give
    case _ => S.Other
  }

  /** Over every run the semaphore begins with no unit, the lock's with one, and both do what a semaphore does. */
  lemma SemaphoreRun(states: seq<SynchDisk>, threads: seq<nat>, events: seq<Event>, image: Image)
    requires Run(states, threads, events, image)
    ensures
      var values := seq(|states|, j requires 0 <= j < |states| => states[j].semaphore);
      var uses := seq(|events|, j requires 0 <= j < |events| => UseOf(threads[j], events[j]));
      values[0] == 0 && S.IsRun(values, uses)
    ensures
      var values := seq(|states|, j requires 0 <= j < |states| => states[j].m.value);
      var uses := seq(|events|, j requires 0 <= j < |events| => LockUse(threads[j], events[j]));
      values[0] == 1 && S.IsRun(values, uses)
  {
    hide Inv, Enabled, Next, UseOf, LockUse, S.Step;
    forall j | 0 <= j < |events|
      ensures S.Step(states[j].semaphore, UseOf(threads[j], events[j]), states[j + 1].semaphore)
      ensures S.Step(states[j].m.value, LockUse(threads[j], events[j]), states[j + 1].m.value)
    {
      RunKeeps(states, threads, events, image, j);
      assert IsStep(states[j], threads[j], events[j], states[j + 1]);
      StepUse(states[j], threads[j], events[j]);
    }
  }

  lemma StepUse(s: SynchDisk, t: nat, e: Event)
    requires Enabled(s, t, e) && (e == Request ==> JobOf(s, t).op.sector < NUM_SECTORS)
    ensures S.Step(s.semaphore, UseOf(t, e), Next(s, t, e).semaphore)
    ensures S.Step(s.m.value, LockUse(t, e), Next(s, t, e).m.value)
  {}

  /** A free lock means an idle disk: no request out, no unit in the semaphore, no interrupt to come. And
      whoever makes a request finds the disk idle. */
  lemma NoOverlap(states: seq<SynchDisk>, threads: seq<nat>, events: seq<Event>, image: Image, j: nat, t: nat)
    requires Run(states, threads, events, image) && j <= |events|
    ensures states[j].m.value == 1 ==> !states[j].active && states[j].semaphore == 0 && states[j].interrupts == 0
    ensures Enabled(states[j], t, Request) ==> !states[j].active && states[j].interrupts == 0
    ensures states[j].interrupts <= 1
  {
    RunKeeps(states, threads, events, image, j);
    var s := states[j];
    if s.m.value == 1 {
      M.HolderOwns(s.m);
      assert M.Owners(s.m) == {};
    }
    if Enabled(s, t, Request) {
      RequestFindsDiskIdle(s, t);
    }
  }

  // ---- calls, from their events ----

  /** The operation that thread t called last, before event n. */
  function Called(threads: seq<nat>, events: seq<Event>, t: nat, n: nat): Option<Operation>
    requires n <= |events| == |threads|
  {
    if n == 0 then None
    else if threads[n - 1] == t && events[n - 1].Start? then Some(events[n - 1].op)
    else Called(threads, events, t, n - 1)
  }

  /** The operations requested of the disk before event n, in order: those that the threads had called. */
  function Requested(threads: seq<nat>, events: seq<Event>, n: nat): (ops: seq<Option<Operation>>)
    requires n <= |events| == |threads|
  {
    if n == 0 then []
    else if events[n - 1] != Request then Requested(threads, events, n - 1)
    else Requested(threads, events, n - 1) + [Called(threads, events, threads[n - 1], n - 1)]
  }

  /** How many requests had been made when thread t made its last one, before event n; -1 if it made none since its
      last call. */
  function TurnOf(threads: seq<nat>, events: seq<Event>, t: nat, n: nat): (turn: int)
    requires n <= |events| == |threads|
    ensures -1 <= turn < |Requested(threads, events, n)|
  {
    if n == 0 then -1
    else if threads[n - 1] == t && events[n - 1].Start? then -1
    else if threads[n - 1] == t && events[n - 1] == Request then |Requested(threads, events, n - 1)|
    else TurnOf(threads, events, t, n - 1)
  }

  /** A plain array of sectors, after one operation, and after several. */
  function Applied(image: Image, op: Option<Operation>): Image {
    match op
    case Some(Write(sector, data)) => if sector < NUM_SECTORS then image[sector := data] else image
    case _ => image
  }

  function Played(image: Image, ops: seq<Option<Operation>>): Image {
    if ops == [] then image else Applied(Played(image, ops[..|ops| - 1]), ops[|ops| - 1])
  }

  /** A thread's job is the call that it made; after its request, the result is what the array held right then. */
  ghost predicate JobIsCall(image: Image, threads: seq<nat>, events: seq<Event>, n: nat, t: nat, j: Job)
    requires n <= |events| == |threads|
  {
    j.Idle? ||
    (Called(threads, events, t, n) == Some(j.op) && j.op.sector < NUM_SECTORS &&
     var turn := TurnOf(threads, events, t, n);
     if j.Requesting? then turn == -1
     else turn >= 0 && j.result == Played(image, Requested(threads, events, n)[..turn + 1])[j.op.sector])
  }

  lemma PlayedOnce(image: Image, ops: seq<Option<Operation>>, op: Option<Operation>)
    ensures Played(image, ops + [op]) == Applied(Played(image, ops), op)
  {
    assert (ops + [op])[..|ops|] == ops;
  }

  /** The image after an event is the array after it. */
  lemma ImageStep(image: Image, a: SynchDisk, b: SynchDisk, threads: seq<nat>, events: seq<Event>, n: nat)
    requires 0 < n <= |events| == |threads| && IsStep(a, threads[n - 1], events[n - 1], b)
    requires a.image == Played(image, Requested(threads, events, n - 1))
    requires JobIsCall(image, threads, events, n - 1, threads[n - 1], JobOf(a, threads[n - 1]))
    ensures b.image == Played(image, Requested(threads, events, n))
  {
    var t := threads[n - 1];
    if events[n - 1] == Request {
      assert JobOf(a, t).Requesting?;
      PlayedOnce(image, Requested(threads, events, n - 1), Called(threads, events, t, n - 1));
    }
  }

  lemma JobStep(image: Image, a: SynchDisk, b: SynchDisk, threads: seq<nat>, events: seq<Event>, n: nat, t: nat)
    requires 0 < n <= |events| == |threads| && IsStep(a, threads[n - 1], events[n - 1], b)
    requires b.image == Played(image, Requested(threads, events, n))
    requires JobIsCall(image, threads, events, n - 1, t, JobOf(a, t))
    ensures JobIsCall(image, threads, events, n, t, JobOf(b, t))
  {
    hide Played, M.Next, M.Enabled;
    var ops, more := Requested(threads, events, n - 1), Requested(threads, events, n);
    var turn := TurnOf(threads, events, t, n - 1);
    assert more[..|ops|] == ops;
    assert more[..turn + 1] == ops[..turn + 1];
    if threads[n - 1] == t && events[n - 1] == Request {
      assert more[..|ops| + 1] == more;
    }
  }

  /** A run of the synchronous disk is a run of a plain array of sectors, in the order of the requests; every job is a
      call that its thread made, with the result that the array gave. */
  lemma {:induction false} RunIsArray(states: seq<SynchDisk>, threads: seq<nat>, events: seq<Event>, image: Image, n: nat)
    requires Run(states, threads, events, image) && n <= |events|
    ensures states[n].image == Played(image, Requested(threads, events, n))
    ensures forall t: nat :: JobIsCall(image, threads, events, n, t, JobOf(states[n], t))
  {
    hide Inv, IsStep, JobIsCall, Played, Requested;
    if n == 0 {
      StartsAsArray(threads, events, image);
    } else {
      RunIsArray(states, threads, events, image, n - 1);
      RunKeeps(states, threads, events, image, n - 1);
      ImageStep(image, states[n - 1], states[n], threads, events, n);
      forall t: nat
        ensures JobIsCall(image, threads, events, n, t, JobOf(states[n], t))
      {
        JobStep(image, states[n - 1], states[n], threads, events, n, t);
      }
    }
  }

  lemma StartsAsArray(threads: seq<nat>, events: seq<Event>, image: Image)
    requires |events| == |threads|
    ensures image == Played(image, Requested(threads, events, 0))
    ensures forall t: nat :: JobIsCall(image, threads, events, 0, t, JobOf(Initial(image), t))
  {}

  /** When a call ends, it is the one that the thread made, and its request was made since. A write's sector holds the
      data that the call was given; a read's result is what its sector held at its request. */
  lemma CallEnds(states: seq<SynchDisk>, threads: seq<nat>, events: seq<Event>, image: Image, j: nat, t: nat)
    requires Run(states, threads, events, image) && j <= |events| && Enabled(states[j], t, Leave)
    ensures Called(threads, events, t, j).Some? && JobOf(states[j], t).op == Called(threads, events, t, j).value
    ensures
      var op, ops, turn := Called(threads, events, t, j).value, Requested(threads, events, j), TurnOf(threads, events, t, j);
      && turn >= 0 && op.sector < NUM_SECTORS
      && match op
         case Write(sector, data) => states[j].image[sector] == data == Played(image, ops[..turn + 1])[sector]
         case Read(sector) => JobOf(states[j], t).result == Played(image, ops[..turn + 1])[sector] == states[j].image[sector]
  {
    hide Played, Requested, TurnOf, Called;
    RunKeeps(states, threads, events, image, j);
    RunIsArray(states, threads, events, image, j);
    assert JobIsCall(image, threads, events, j, t, JobOf(states[j], t));
    assert JobRight(states[j].image, JobOf(states[j], t));
  }

  /** The disk changes only at the request of a write that was called, and only in its sector. */
  lemma ImageFrame(states: seq<SynchDisk>, threads: seq<nat>, events: seq<Event>, image: Image, j: nat, s: nat)
    requires Run(states, threads, events, image) && j < |events| && s < NUM_SECTORS
    ensures states[j + 1].image[s] != states[j].image[s] ==>
      events[j] == Request && exists data ::
        Called(threads, events, threads[j], j) == Some(Write(s, data)) && states[j + 1].image[s] == data
  {
    hide Inv, IsStep, JobIsCall, Called;
    RunIsArray(states, threads, events, image, j);
    RunIsArray(states, threads, events, image, j + 1);
    var ops := Requested(threads, events, j);
    if events[j] == Request {
      var op := Called(threads, events, threads[j], j);
      PlayedOnce(image, ops, op);
      if states[j + 1].image[s] != states[j].image[s] {
        assert op == Some(Write(s, states[j + 1].image[s]));
      }
    }
  }

  /** When a call ends, the sector holds what it wrote, or what it read: so calls act on the disk one at a time,
      as if each took no time at all. */
  lemma CallsAreAtomic(states: seq<SynchDisk>, threads: seq<nat>, events: seq<Event>, image: Image, j: nat, t: nat)
    requires Run(states, threads, events, image) && j <= |events| && Enabled(states[j], t, Leave)
    ensures
      var job := JobOf(states[j], t);
      && job.op.sector < NUM_SECTORS
      && states[j].image[job.op.sector] == match job.op { case Read(_) => job.result case Write(_, data) => data }
  {
    RunKeeps(states, threads, events, image, j);
    assert JobRight(states[j].image, JobOf(states[j], t));
  }
}
