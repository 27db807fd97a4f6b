/** Exec, Join and Exit (threads/ptable.cc, threads/pcb.cc): processes that meet through semaphores in a table,
    as a machine of steps, of one process or another in any order. A semaphore is its value, as in MonitorSpec, and
    a run of it is a run of the kernel's (SemaphoreRuns). */
module ProcessTableSpec {
  import opened Options
  import opened Bitmaps
  import S = Semaphores

  const MAX_PROCESS := 10

  /** A process control block; joins and releases count the Joins past their wait on it, and the
      ExitReleases done on it. */
  datatype Pcb = Pcb(parent: nat, joinsem: nat, exitsem: nat, exitcode: Option<int>, numwait: int, named: bool,
                     joins: nat, releases: nat)

  /** Where a process stands: in ExecUpdate, JoinUpdate, ExitUpdate or its own code, or finished, by Exit or
      because its program did not load. */
  datatype Stage =
    | NotStarted
    | Running
    | InTable                 // ExecUpdate has bmsem
    | Found(pid: int)         // ... and a free pid, or -1
    | Made(pid: int)          // ... and its PCB is in the table
    | Execing(pid: int)       // bmsem released
    | Joining(child: nat)     // at JoinWait
    | Joined(child: nat)      // past it
    | Counted(child: nat)     // past IncNumWait
    | Coded                   // ExitUpdate has set the exit code
    | Released                // past JoinRelease
    | Uncounted               // past DecNumWait, at ExitWait
    | Finished(exited: bool)

  datatype Table = Table(used: seq<bool>, pcbs: seq<Option<Pcb>>, bmsem: nat, stages: seq<Stage>)

  predicate Shape(s: Table) {
    |s.used| == |s.pcbs| == |s.stages| == MAX_PROCESS
  }

  predicate Exists(s: Table, p: int) {
    Shape(s) && 0 <= p < MAX_PROCESS && s.pcbs[p].Some?
  }

  function PcbOf(s: Table, p: int): Pcb
    requires Exists(s, p)
  {
    s.pcbs[p].value
  }

  function NewPcb(parent: nat): Pcb {
    Pcb(parent, 0, 0, None, 0, false, 0, 0)
  }

  function Initial(): Table {
    Table(seq(MAX_PROCESS, i => i == 0), seq(MAX_PROCESS, i => if i == 0 then Some(NewPcb(0)) else None), 1,
          seq(MAX_PROCESS, i => if i == 0 then Running else NotStarted))
  }

  // ---- the steps ----

  datatype Event =
    | EnterTable
    | FindPid
    | MakePcb
    | LeaveTable
    | StartThread          // PCB::Exec
    | CallJoin(child: nat)
    | PassJoinWait
    | CountJoin
    | ExitRelease
    | CallExit(code: int)
    | JoinRelease
    | CountExit
    | PassExitWait
    | LoadFails

  predicate Enabled(s: Table, p: nat, e: Event) {
    Exists(s, p) &&
    match e
    case EnterTable => s.stages[p] == Running && s.bmsem > 0
    case FindPid => s.stages[p] == InTable
    case MakePcb => s.stages[p].Found? && 0 <= s.stages[p].pid < MAX_PROCESS
    case LeaveTable => (s.stages[p].Made? && s.stages[p].pid >= 0) || (s.stages[p].Found? && s.stages[p].pid == -1)
    case StartThread => s.stages[p].Execing? && Exists(s, s.stages[p].pid)
    case CallJoin(c) => s.stages[p] == Running && c < MAX_PROCESS
    case PassJoinWait => s.stages[p].Joining? && Exists(s, s.stages[p].child) && PcbOf(s, s.stages[p].child).joinsem > 0
    case CountJoin => s.stages[p].Joined?
    case ExitRelease => s.stages[p].Counted?
    case CallExit(_) => s.stages[p] == Running && p != 0
    case JoinRelease => s.stages[p] == Coded
    case CountExit => s.stages[p] == Released && Exists(s, PcbOf(s, p).parent)
    case PassExitWait => s.stages[p] == Uncounted && Exists(s, PcbOf(s, p).parent) && PcbOf(s, PcbOf(s, p).parent).exitsem > 0
    case LoadFails => s.stages[p] == Running && p != 0
  }

  function At(s: Table, p: nat, stage: Stage): Table
    requires Shape(s) && p < MAX_PROCESS
  {
    s.(stages := s.stages[p := stage])
  }

  function With(s: Table, p: nat, b: Pcb): Table
    requires Shape(s) && p < MAX_PROCESS
  {
    s.(pcbs := s.pcbs[p := Some(b)])
  }

  /** What FindAndSet answers. */
  function FirstFree(used: seq<bool>): (r: int)
    ensures r == -1 ==> AllSet(used)
    ensures r != -1 ==> IsFirstClear(used, r)
  {
    FreeFrom(used, 0)
  }

  function FreeFrom(used: seq<bool>, i: nat): (r: int)
    requires i <= |used| && forall j :: 0 <= j < i ==> used[j]
    ensures r == -1 ==> AllSet(used)
    ensures r != -1 ==> IsFirstClear(used, r)
    decreases |used| - i
  {
    if i == |used| then -1 else if !used[i] then i else FreeFrom(used, i + 1)
  }

  function Next(s: Table, p: nat, e: Event): Table
    requires Enabled(s, p, e)
  {
    match e
    case EnterTable => At(s, p, InTable).(bmsem := s.bmsem - 1)
    case FindPid =>
      var pid := FirstFree(s.used);
      At(s, p, Found(pid)).(used := if pid == -1 then s.used else s.used[pid := true])
    case MakePcb => At(With(s, s.stages[p].pid, NewPcb(p)), p, Made(s.stages[p].pid))
    case LeaveTable =>
      At(s, p, if s.stages[p].Made? then Execing(s.stages[p].pid) else Running).(bmsem := s.bmsem + 1)
    case StartThread =>
      var c := s.stages[p].pid;
      if PcbOf(s, c).named then At(s, p, Running)
      else At(At(With(s, c, PcbOf(s, c).(named := true)), c, Running), p, Running)
    case CallJoin(c) => if Exists(s, c) && PcbOf(s, c).parent == p then At(s, p, Joining(c)) else s
    case PassJoinWait =>
      var c := s.stages[p].child;
      At(With(s, c, PcbOf(s, c).(joinsem := PcbOf(s, c).joinsem - 1, joins := PcbOf(s, c).joins + 1)), p, Joined(c))
    case CountJoin => At(With(s, p, PcbOf(s, p).(numwait := PcbOf(s, p).numwait + 1)), p, Counted(s.stages[p].child))
    case ExitRelease =>
      At(With(s, p, PcbOf(s, p).(exitsem := PcbOf(s, p).exitsem + 1, releases := PcbOf(s, p).releases + 1)), p, Running)
    case CallExit(code) => At(With(s, p, PcbOf(s, p).(exitcode := Some(code))), p, Coded)
    case JoinRelease => At(With(s, p, PcbOf(s, p).(joinsem := PcbOf(s, p).joinsem + 1)), p, Released)
    case CountExit =>
      var q := PcbOf(s, p).parent;
      At(With(s, q, PcbOf(s, q).(numwait := PcbOf(s, q).numwait - 1)), p, Uncounted)
    case PassExitWait =>
      var q := PcbOf(s, p).parent;
      At(With(s, q, PcbOf(s, q).(exitsem := PcbOf(s, q).exitsem - 1)), p, Finished(true))
    case LoadFails => At(s, p, Finished(false))
  }

  // ---- the invariant ----

  predicate Critical(stage: Stage) {
    stage == InTable || stage.Found? || stage.Made?
  }

  function InCritical(s: Table): set<int>
    requires Shape(s)
  {
    set p | 0 <= p < MAX_PROCESS && Critical(s.stages[p])
  }

  /** The processes that have passed JoinRelease. */
  predicate PastRelease(stage: Stage) {
    stage == Released || stage == Uncounted || stage == Finished(true)
  }

  /** The children of q that are past ExitWait. */
  function Gone(s: Table, q: int): set<int>
    requires Shape(s)
  {
    set c | 0 <= c < MAX_PROCESS && s.pcbs[c].Some? && PcbOf(s, c).parent == q && s.stages[c] == Finished(true)
  }

  /** A pid is marked when its PCB exists, or when ExecUpdate is about to make it. */
  predicate PidRight(s: Table, i: int)
    requires Shape(s) && 0 <= i < MAX_PROCESS
  {
    && (s.pcbs[i].Some? ==> s.used[i])
    && (s.used[i] ==> s.pcbs[i].Some? || exists p :: 0 <= p < MAX_PROCESS && s.stages[p] == Found(i))
    && (s.stages[i] != NotStarted ==> s.pcbs[i].Some?)
  }

  predicate PcbRight(s: Table, i: int)
    requires Shape(s) && 0 <= i < MAX_PROCESS
  {
    s.pcbs[i].Some? ==>
      var b := PcbOf(s, i);
      && Exists(s, b.parent)
      && b.joinsem + b.joins == (if PastRelease(s.stages[i]) then 1 else 0)
      && (PastRelease(s.stages[i]) || s.stages[i] == Coded ==> b.exitcode.Some?)
      && (i != 0 ==> (b.named <==> s.stages[i] != NotStarted))
      && |Gone(s, i)| + b.exitsem == b.releases
  }

  predicate StageRight(s: Table, p: int)
    requires Shape(s) && 0 <= p < MAX_PROCESS
  {
    match s.stages[p]
    case Found(pid) => pid == -1 || (0 <= pid < MAX_PROCESS && s.used[pid] && s.pcbs[pid].None?)
    case Made(c) => c != 0 && Exists(s, c) && PcbOf(s, c).parent == p && !PcbOf(s, c).named
    case Execing(c) => c != 0 && Exists(s, c) && PcbOf(s, c).parent == p && !PcbOf(s, c).named
    case Joining(c) => Exists(s, c) && PcbOf(s, c).parent == p
    case Joined(c) => Exists(s, c) && PcbOf(s, c).parent == p && PcbOf(s, c).exitcode.Some?
    case Counted(c) => Exists(s, c) && PcbOf(s, c).parent == p && PcbOf(s, c).exitcode.Some?
    case _ => true
  }

  ghost predicate Inv(s: Table) {
    && Shape(s)
    && Exists(s, 0)
    && s.bmsem + |InCritical(s)| == 1
    && (forall i :: 0 <= i < MAX_PROCESS ==> PidRight(s, i) && PcbRight(s, i) && StageRight(s, i))
  }

  // ---- what it says of every reachable state ----

  /** At most one Join on a child ever gets past its wait, and only when the child has set its exit code. */
  lemma OneJoin(s: Table, c: int)
    requires Inv(s) && Exists(s, c)
    ensures PcbOf(s, c).joins <= 1
    ensures PcbOf(s, c).joins == 1 ==> PcbOf(s, c).exitcode.Some?
  {
    assert PcbRight(s, c);
  }

  /** Children past ExitWait and the parent's exit semaphore make up its ExitReleases. */
  lemma ExitsConserved(s: Table, q: int)
    requires Inv(s) && Exists(s, q)
    ensures |Gone(s, q)| + PcbOf(s, q).exitsem == PcbOf(s, q).releases
  {
    assert PcbRight(s, q);
  }

  /** When no process is inside the table, a pid is marked exactly when its PCB exists. */
  lemma PidsMatch(s: Table, i: int)
    requires Inv(s) && s.bmsem == 1 && 0 <= i < MAX_PROCESS
    ensures s.used[i] <==> s.pcbs[i].Some?
  {
    assert PidRight(s, i);
    assert InCritical(s) == {};
    forall p | 0 <= p < MAX_PROCESS
      ensures !Critical(s.stages[p])
    {
      assert p !in InCritical(s);
    }
  }

  /** The guard in PCB::Exec never finds a name already there, so a pid gets one thread. */
  lemma OneThread(s: Table, p: nat)
    requires Inv(s) && Enabled(s, p, StartThread)
    ensures !PcbOf(s, s.stages[p].pid).named && s.stages[s.stages[p].pid] == NotStarted
  {
    assert StageRight(s, p) && PcbRight(s, s.stages[p].pid);
  }

  // ---- each step keeps the invariant ----

  /** The children past ExitWait are the same, if no process just got there and no parent changed. */
  lemma GoneSame(s: Table, n: Table, q: int)
    requires Shape(s) && Shape(n)
    requires forall c :: 0 <= c < MAX_PROCESS ==> (s.stages[c] == Finished(true) <==> n.stages[c] == Finished(true))
    requires forall c :: 0 <= c < MAX_PROCESS && s.stages[c] == Finished(true) ==>
      (s.pcbs[c].Some? <==> n.pcbs[c].Some?) && (s.pcbs[c].Some? ==> PcbOf(n, c).parent == PcbOf(s, c).parent)
    ensures Gone(n, q) == Gone(s, q)
  {}

  /** A step of process p that does not touch the pids: it changes p's stage, and the PCB of b. */
  ghost predicate Touches(s: Table, n: Table, p: nat, b: nat) {
    && Shape(s) && Shape(n) && p < MAX_PROCESS && Exists(s, b) && Exists(n, b)
    && n.used == s.used
    && n.stages == s.stages[p := n.stages[p]]
    && n.pcbs == s.pcbs[b := n.pcbs[b]]
    && PcbOf(n, b).parent == PcbOf(s, b).parent && PcbOf(n, b).named == PcbOf(s, b).named
    && (PcbOf(s, b).exitcode.Some? ==> PcbOf(n, b).exitcode.Some?)
    && !s.stages[p].Found? && !n.stages[p].Found? && s.stages[p] != NotStarted && n.stages[p] != NotStarted
  }

  lemma TouchesPids(s: Table, n: Table, p: nat, b: nat, i: int)
    requires Inv(s) && Touches(s, n, p, b) && 0 <= i < MAX_PROCESS
    ensures PidRight(n, i)
  {
    assert PidRight(s, i);
    if s.used[i] && s.pcbs[i].None? {
      var q :| 0 <= q < MAX_PROCESS && s.stages[q] == Found(i);
      assert n.stages[q] == Found(i);
    }
  }

  lemma TouchesStages(s: Table, n: Table, p: nat, b: nat, i: int)
    requires Inv(s) && Touches(s, n, p, b) && 0 <= i < MAX_PROCESS && i != p
    ensures StageRight(n, i)
  {
    assert StageRight(s, i);
  }

  /** The PCBs that a step does not touch, of processes that do not move, stay right. */
  lemma TouchesPcbs(s: Table, n: Table, p: nat, b: nat, i: int)
    requires Inv(s) && Touches(s, n, p, b) && 0 <= i < MAX_PROCESS && i != b
    requires i == p ==> PastRelease(n.stages[p]) == PastRelease(s.stages[p]) && (n.stages[p] == Coded ==> s.stages[p] == Coded)
    requires n.stages[p] == Finished(true) <==> s.stages[p] == Finished(true)
    ensures PcbRight(n, i)
  {
    assert PcbRight(s, i);
    GoneSame(s, n, i);
  }

  lemma CriticalSame(s: Table, n: Table, p: nat, b: nat)
    requires Touches(s, n, p, b) && !Critical(s.stages[p]) && !Critical(n.stages[p])
    ensures InCritical(n) == InCritical(s)
  {}

  /** A step outside the table's critical section that keeps its own PCB and stage right. */
  lemma TouchKeeps(s: Table, n: Table, p: nat, b: nat)
    requires Inv(s) && Touches(s, n, p, b) && n.bmsem == s.bmsem
    requires !Critical(s.stages[p]) && !Critical(n.stages[p])
    requires p != b ==> PastRelease(n.stages[p]) == PastRelease(s.stages[p]) && (n.stages[p] == Coded ==> s.stages[p] == Coded)
    requires n.stages[p] == Finished(true) <==> s.stages[p] == Finished(true)
    requires PcbRight(n, b) && StageRight(n, p)
    ensures Inv(n)
  {
    CriticalSame(s, n, p, b);
    forall i | 0 <= i < MAX_PROCESS
      ensures PidRight(n, i) && PcbRight(n, i) && StageRight(n, i)
    {
      TouchesPids(s, n, p, b, i);
      if i != p {
        TouchesStages(s, n, p, b, i);
      }
      if i != b {
        TouchesPcbs(s, n, p, b, i);
      }
    }
  }

  lemma CallJoinKeeps(s: Table, p: nat, c: nat)
    requires Inv(s) && Enabled(s, p, CallJoin(c))
    ensures Inv(Next(s, p, CallJoin(c)))
  {
    var n := Next(s, p, CallJoin(c));
    assert StageRight(s, p) && PcbRight(s, p);
    if n != s {
      GoneSame(s, n, p);
      TouchKeeps(s, n, p, p);
    }
  }

  lemma PassJoinWaitKeeps(s: Table, p: nat)
    requires Inv(s) && Enabled(s, p, PassJoinWait)
    ensures Inv(Next(s, p, PassJoinWait))
  {
    var n := Next(s, p, PassJoinWait);
    var c := s.stages[p].child;
    assert StageRight(s, p) && PcbRight(s, c) && PcbRight(s, p);
    GoneSame(s, n, c);
    TouchKeeps(s, n, p, c);
  }

  lemma OwnJoinKeeps(s: Table, p: nat, e: Event)
    requires Inv(s) && Enabled(s, p, e) && (e == CountJoin || e == ExitRelease)
    ensures Inv(Next(s, p, e))
  {
    var n := Next(s, p, e);
    assert StageRight(s, p) && PcbRight(s, p);
    GoneSame(s, n, p);
    TouchKeeps(s, n, p, p);
  }

  lemma ExitKeeps(s: Table, p: nat, e: Event)
    requires Inv(s) && Enabled(s, p, e) && (e.CallExit? || e == JoinRelease || e == LoadFails)
    ensures Inv(Next(s, p, e))
  {
    var n := Next(s, p, e);
    assert StageRight(s, p) && PcbRight(s, p);
    GoneSame(s, n, p);
    TouchKeeps(s, n, p, p);
  }

  lemma CountExitKeeps(s: Table, p: nat)
    requires Inv(s) && Enabled(s, p, CountExit)
    ensures Inv(Next(s, p, CountExit))
  {
    var n := Next(s, p, CountExit);
    var q := PcbOf(s, p).parent;
    assert PcbRight(s, q) && PcbRight(s, p);
    GoneSame(s, n, q);
    TouchKeeps(s, n, p, q);
  }

  /** The last step of a child: it uses up one ExitRelease of its parent. */
  lemma PassExitWaitKeeps(s: Table, p: nat)
    requires Inv(s) && Enabled(s, p, PassExitWait)
    ensures Inv(Next(s, p, PassExitWait))
  {
    var n := Next(s, p, PassExitWait);
    var q := PcbOf(s, p).parent;
    assert p !in Gone(s, q);
    assert Gone(n, q) == Gone(s, q) + {p as int};
    CriticalSame(s, n, p, q);
    forall i | 0 <= i < MAX_PROCESS
      ensures PidRight(n, i) && PcbRight(n, i) && StageRight(n, i)
    {
      TouchesPids(s, n, p, q, i);
      assert PcbRight(s, i);
      if i != p {
        TouchesStages(s, n, p, q, i);
      }
      if i != q {
        assert Gone(n, i) == Gone(s, i);
      }
    }
  }

  // ---- the steps of ExecUpdate ----

  /** Only p's stage changes, and not to or from the end. */
  lemma MovePcbs(s: Table, n: Table, p: nat, i: int)
    requires Inv(s) && Shape(n) && p < MAX_PROCESS && 0 <= i < MAX_PROCESS && n.pcbs == s.pcbs
    requires n.stages == s.stages[p := n.stages[p]]
    requires !PastRelease(s.stages[p]) && !PastRelease(n.stages[p]) && n.stages[p] != Coded
    requires s.stages[p] != NotStarted && n.stages[p] != NotStarted
    ensures PcbRight(n, i)
  {
    assert PcbRight(s, i);
    GoneSame(s, n, i);
  }

  lemma OneInTable(s: Table, p: nat, q: nat)
    requires Inv(s) && p < MAX_PROCESS && q < MAX_PROCESS && Critical(s.stages[p]) && Critical(s.stages[q])
    ensures p == q && s.bmsem == 0
  {
    assert p in InCritical(s) && q in InCritical(s);
    TwoIn(InCritical(s), p, q);
  }

  lemma TwoIn(a: set<int>, p: int, q: int)
    requires p in a && q in a && |a| <= 1
    ensures p == q && |a| == 1
  {
    assert |a - {p}| == |a| - 1;
    assert p != q ==> q in a - {p};
  }

  lemma EnterKeeps(s: Table, p: nat)
    requires Inv(s) && Enabled(s, p, EnterTable)
    ensures Inv(Next(s, p, EnterTable))
  {
    var n := Next(s, p, EnterTable);
    assert InCritical(n) == InCritical(s) + {p as int};
    assert p !in InCritical(s);
    forall i | 0 <= i < MAX_PROCESS
      ensures PidRight(n, i) && PcbRight(n, i) && StageRight(n, i)
    {
      MovePcbs(s, n, p, i);
      assert PidRight(s, i) && StageRight(s, i);
      if s.used[i] && s.pcbs[i].None? {
        var q :| 0 <= q < MAX_PROCESS && s.stages[q] == Found(i);
        assert n.stages[q] == Found(i);
      }
    }
  }

  lemma FindKeeps(s: Table, p: nat)
    requires Inv(s) && Enabled(s, p, FindPid)
    ensures Inv(Next(s, p, FindPid))
  {
    var n := Next(s, p, FindPid);
    var pid := FirstFree(s.used);
    assert InCritical(n) == InCritical(s);
    forall i | 0 <= i < MAX_PROCESS
      ensures PidRight(n, i) && PcbRight(n, i) && StageRight(n, i)
    {
      MovePcbs(s, n, p, i);
      FindPidRight(s, p, i);
      assert PidRight(s, i) && StageRight(s, i);
      if i == p && pid != -1 {
        assert PidRight(s, pid);
      }
    }
  }

  lemma FindPidRight(s: Table, p: nat, i: int)
    requires Inv(s) && Enabled(s, p, FindPid) && 0 <= i < MAX_PROCESS
    ensures PidRight(Next(s, p, FindPid), i)
  {
    var n := Next(s, p, FindPid);
    assert PidRight(s, i);
    if n.used[i] && s.pcbs[i].None? {
      if s.used[i] {
        var q :| 0 <= q < MAX_PROCESS && s.stages[q] == Found(i);
        assert n.stages[q] == Found(i);
      } else {
        assert n.stages[p] == Found(i);
      }
    }
  }

  lemma LeaveKeeps(s: Table, p: nat)
    requires Inv(s) && Enabled(s, p, LeaveTable)
    ensures Inv(Next(s, p, LeaveTable))
  {
    var n := Next(s, p, LeaveTable);
    assert InCritical(n) == InCritical(s) - {p as int};
    assert p in InCritical(s);
    forall i | 0 <= i < MAX_PROCESS
      ensures PidRight(n, i) && PcbRight(n, i) && StageRight(n, i)
    {
      MovePcbs(s, n, p, i);
      assert PidRight(s, i) && StageRight(s, i);
      if s.used[i] && s.pcbs[i].None? {
        var q :| 0 <= q < MAX_PROCESS && s.stages[q] == Found(i);
        assert n.stages[q] == Found(i);
      }
      assert StageRight(s, p);
    }
  }

  /** A PCB is made where there was none, for a pid that no process has. */
  lemma MakeKeeps(s: Table, p: nat)
    requires Inv(s) && Enabled(s, p, MakePcb)
    ensures Inv(Next(s, p, MakePcb))
  {
    var n := Next(s, p, MakePcb);
    var c := s.stages[p].pid;
    assert StageRight(s, p) && PidRight(s, c);
    assert InCritical(n) == InCritical(s);
    forall i | 0 <= i < MAX_PROCESS
      ensures PidRight(n, i) && PcbRight(n, i) && StageRight(n, i)
    {
      MakePidRight(s, p, i);
      MakePcbRight(s, p, c, i);
      MakeStageRight(s, p, i);
    }
  }

  lemma MakePidRight(s: Table, p: nat, i: int)
    requires Inv(s) && Enabled(s, p, MakePcb) && 0 <= i < MAX_PROCESS
    ensures PidRight(Next(s, p, MakePcb), i)
  {
    var n := Next(s, p, MakePcb);
    assert PidRight(s, i) && StageRight(s, p);
    if n.used[i] && n.pcbs[i].None? {
      var q :| 0 <= q < MAX_PROCESS && s.stages[q] == Found(i);
      assert n.stages[q] == Found(i);
    }
  }

  lemma MakePcbRight(s: Table, p: nat, c: int, i: int)
    requires Inv(s) && Enabled(s, p, MakePcb) && 0 <= i < MAX_PROCESS
    requires c == s.stages[p].pid && s.pcbs[c].None? && s.stages[c] == NotStarted
    ensures PcbRight(Next(s, p, MakePcb), i)
  {
    var n := Next(s, p, MakePcb);
    assert PcbRight(s, i);
    if i == c {
      forall d | 0 <= d < MAX_PROCESS && s.pcbs[d].Some?
        ensures PcbOf(s, d).parent != c
      {
        assert PcbRight(s, d);
      }
      assert Gone(n, c) == {};
    } else {
      GoneSame(s, n, i);
    }
  }

  lemma MakeStageRight(s: Table, p: nat, i: int)
    requires Inv(s) && Enabled(s, p, MakePcb) && 0 <= i < MAX_PROCESS
    ensures StageRight(Next(s, p, MakePcb), i)
  {
    assert StageRight(s, i) && StageRight(s, p);
    if i != p && Critical(s.stages[i]) {
      OneInTable(s, p, i);
    }
  }

  lemma StartKeeps(s: Table, p: nat)
    requires Inv(s) && Enabled(s, p, StartThread)
    ensures Inv(Next(s, p, StartThread))
  {
    var n := Next(s, p, StartThread);
    var c := s.stages[p].pid;
    OneThread(s, p);
    assert InCritical(n) == InCritical(s);
    forall i | 0 <= i < MAX_PROCESS
      ensures PidRight(n, i) && PcbRight(n, i) && StageRight(n, i)
    {
      StartPidRight(s, p, c, i);
      StartPcbRight(s, p, c, i);
      StartStageRight(s, p, c, i);
    }
  }

  lemma StartPidRight(s: Table, p: nat, c: int, i: int)
    requires Inv(s) && Enabled(s, p, StartThread) && 0 <= i < MAX_PROCESS && c == s.stages[p].pid
    requires !PcbOf(s, c).named && s.stages[c] == NotStarted
    ensures PidRight(Next(s, p, StartThread), i)
  {
    var n := Next(s, p, StartThread);
    assert PidRight(s, i);
    if s.used[i] && s.pcbs[i].None? {
      var q :| 0 <= q < MAX_PROCESS && s.stages[q] == Found(i);
      assert n.stages[q] == Found(i);
    }
  }

  lemma StartPcbRight(s: Table, p: nat, c: int, i: int)
    requires Inv(s) && Enabled(s, p, StartThread) && 0 <= i < MAX_PROCESS && c == s.stages[p].pid
    requires !PcbOf(s, c).named && s.stages[c] == NotStarted
    ensures PcbRight(Next(s, p, StartThread), i)
  {
    hide Gone, PidRight;
    assert PcbRight(s, i) && StageRight(s, p);
    GoneSame(s, Next(s, p, StartThread), i);
  }

  lemma StartStageRight(s: Table, p: nat, c: int, i: int)
    requires Inv(s) && Enabled(s, p, StartThread) && 0 <= i < MAX_PROCESS && c == s.stages[p].pid
    requires !PcbOf(s, c).named && s.stages[c] == NotStarted
    ensures StageRight(Next(s, p, StartThread), i)
  {
    assert StageRight(s, i) && StageRight(s, p);
  }

  lemma StepKeeps(s: Table, p: nat, e: Event)
    requires Inv(s) && Enabled(s, p, e)
    ensures Inv(Next(s, p, e))
  {
    match e {
      case EnterTable => EnterKeeps(s, p);
      case FindPid => FindKeeps(s, p);
      case MakePcb => MakeKeeps(s, p);
      case LeaveTable => LeaveKeeps(s, p);
      case StartThread => StartKeeps(s, p);
      case CallJoin(c) => CallJoinKeeps(s, p, c);
      case PassJoinWait => PassJoinWaitKeeps(s, p);
      case CountJoin => OwnJoinKeeps(s, p, e);
      case ExitRelease => OwnJoinKeeps(s, p, e);
      case CallExit(_) => ExitKeeps(s, p, e);
      case JoinRelease => ExitKeeps(s, p, e);
      case CountExit => CountExitKeeps(s, p);
      case PassExitWait => PassExitWaitKeeps(s, p);
      case LoadFails => ExitKeeps(s, p, e);
    }
  }

  // ---- runs ----

  predicate IsStep(a: Table, p: nat, e: Event, b: Table) {
    Enabled(a, p, e) && b == Next(a, p, e)
  }

  ghost predicate Run(states: seq<Table>, processes: seq<nat>, events: seq<Event>) {
    && |states| == |events| + 1 && |processes| == |events| && states[0] == Initial()
    && forall j :: 0 <= j < |events| ==> IsStep(states[j], processes[j], events[j], states[j + 1])
  }

  lemma InitialRight()
    ensures Inv(Initial())
  {
    var s := Initial();
    assert InCritical(s) == {};
    forall i | 0 <= i < MAX_PROCESS
      ensures PidRight(s, i) && PcbRight(s, i) && StageRight(s, i)
    {
      assert Gone(s, i) == {};
    }
  }

  lemma IsStepKeeps(a: Table, p: nat, e: Event, b: Table)
    requires Inv(a) && IsStep(a, p, e, b)
    ensures Inv(b)
  {
    StepKeeps(a, p, e);
  }

  lemma {:induction false} RunKeeps(states: seq<Table>, processes: seq<nat>, events: seq<Event>, j: nat)
    requires Run(states, processes, events) && j <= |events|
    ensures Inv(states[j])
  {
    if j == 0 {
      InitialRight();
    } else {
      RunKeeps(states, processes, events, j - 1);
      IsStepKeeps(states[j - 1], processes[j - 1], events[j - 1], states[j]);
    }
  }

  // ---- the PCBs, from the events ----

  /** What the first n events did to process q: the Joins on it that passed their wait, its ExitReleases, the Joins it
      counted less the exits of children that it was told of, and the code that its Exit was called with. */
  datatype Tally = Tally(joins: nat, releases: nat, numwait: int, exitcode: Option<int>)

  function TallyOf(states: seq<Table>, processes: seq<nat>, events: seq<Event>, q: nat, n: nat): Tally
    requires n <= |events| == |processes| < |states|
    requires forall j :: 0 <= j < n ==> Enabled(states[j], processes[j], events[j])
  {
    if n == 0 then Tally(0, 0, 0, None)
    else
      var t, s, p := TallyOf(states, processes, events, q, n - 1), states[n - 1], processes[n - 1];
      assert Enabled(s, p, events[n - 1]);
      match events[n - 1]
      case PassJoinWait => if s.stages[p] == Joining(q) then t.(joins := t.joins + 1) else t
      case ExitRelease => if p == q then t.(releases := t.releases + 1) else t
      case CountJoin => if p == q then t.(numwait := t.numwait + 1) else t
      case CountExit => if PcbOf(s, p).parent == q then t.(numwait := t.numwait - 1) else t
      case CallExit(code) => if p == q then t.(exitcode := Some(code)) else t
      case _ => t
  }

  /** A PCB holds what the events add up to; there is no event of a process before it has one. */
  predicate Tallied(s: Table, q: nat, t: Tally)
    requires Shape(s) && q < MAX_PROCESS
  {
    if s.pcbs[q].Some? then
      var b := PcbOf(s, q);
      b.joins == t.joins && b.releases == t.releases && b.numwait == t.numwait && b.exitcode == t.exitcode
    else
      t == Tally(0, 0, 0, None)
  }

  lemma {:induction false} PcbsAreTallied(states: seq<Table>, processes: seq<nat>, events: seq<Event>, q: nat, n: nat)
    requires Run(states, processes, events) && n <= |events| && q < MAX_PROCESS
    ensures forall j :: 0 <= j < n ==> Enabled(states[j], processes[j], events[j])
    ensures Shape(states[n]) && Tallied(states[n], q, TallyOf(states, processes, events, q, n))
  {
    hide Inv, Enabled, Next, Tallied;
    if n > 0 {
      PcbsAreTallied(states, processes, events, q, n - 1);
      RunKeeps(states, processes, events, n - 1);
      RunKeeps(states, processes, events, n);
      InvHasShape(states[n]);
      assert IsStep(states[n - 1], processes[n - 1], events[n - 1], states[n]);
      TallyStep(states, processes, events, q, n);
    } else {
      InitialTallied(q);
    }
  }

  lemma InvHasShape(s: Table)
    requires Inv(s)
    ensures Shape(s)
  {}

  lemma InitialTallied(q: nat)
    requires q < MAX_PROCESS
    ensures Shape(Initial()) && Tallied(Initial(), q, Tally(0, 0, 0, None))
  {}

  lemma TallyStep(states: seq<Table>, processes: seq<nat>, events: seq<Event>, q: nat, n: nat)
    requires 0 < n <= |events| == |processes| < |states| && q < MAX_PROCESS
    requires forall j :: 0 <= j < n ==> Enabled(states[j], processes[j], events[j])
    requires Inv(states[n - 1]) && states[n] == Next(states[n - 1], processes[n - 1], events[n - 1])
    requires Tallied(states[n - 1], q, TallyOf(states, processes, events, q, n - 1))
    ensures Shape(states[n]) && Tallied(states[n], q, TallyOf(states, processes, events, q, n))
  {
    hide PidRight, PcbRight, InCritical;
    assert StageRight(states[n - 1], processes[n - 1]);
  }

  /** Process p made this call; a CallExit with any code counts. */
  predicate Makes(processes: seq<nat>, events: seq<Event>, p: nat, call: Event, j: nat)
    requires j < |events| == |processes|
  {
    processes[j] == p && (events[j] == call || (events[j].CallExit? && call.CallExit?))
  }

  /** How often it did, in the first n events. */
  function Times(processes: seq<nat>, events: seq<Event>, p: nat, call: Event, n: nat): nat
    requires n <= |events| == |processes|
  {
    if n == 0 then 0
    else Times(processes, events, p, call, n - 1) + if Makes(processes, events, p, call, n - 1) then 1 else 0
  }

  function Bit(b: bool): nat {
    if b then 1 else 0
  }

  /** A Join that was not refused waited, counted and released, once each, and one under way has made just the calls
      before the place where it stands. */
  predicate JoinInStep(processes: seq<nat>, events: seq<Event>, p: nat, n: nat, stage: Stage)
    requires n <= |events| == |processes|
  {
    var released := Times(processes, events, p, ExitRelease, n);
    && Times(processes, events, p, CountJoin, n) == released + Bit(stage.Counted?)
    && Times(processes, events, p, PassJoinWait, n) == released + Bit(stage.Counted? || stage.Joined?)
  }

  /** So it is with the one Exit ... */
  predicate ExitInStep(processes: seq<nat>, events: seq<Event>, p: nat, n: nat, stage: Stage)
    requires n <= |events| == |processes|
  {
    var finished := stage == Finished(true);
    && Times(processes, events, p, PassExitWait, n) == Bit(finished)
    && Times(processes, events, p, CountExit, n) == Bit(finished || stage.Uncounted?)
    && Times(processes, events, p, JoinRelease, n) == Bit(finished || stage.Uncounted? || stage.Released?)
    && Times(processes, events, p, CallExit(0), n) == Bit(finished || stage.Uncounted? || stage.Released? || stage.Coded?)
    && Times(processes, events, p, LoadFails, n) == Bit(stage == Finished(false))
  }

  /** ... and with each Exec, which starts the process that it made. */
  predicate ExecInStep(processes: seq<nat>, events: seq<Event>, p: nat, n: nat, stage: Stage)
    requires n <= |events| == |processes|
  {
    var entered := Times(processes, events, p, EnterTable, n);
    && entered == Times(processes, events, p, LeaveTable, n) + Bit(Critical(stage))
    && entered == Times(processes, events, p, FindPid, n) + Bit(stage.InTable?)
    && Times(processes, events, p, MakePcb, n)
       == Times(processes, events, p, StartThread, n) + Bit(stage.Made? || stage.Execing?)
  }

  predicate InStep(processes: seq<nat>, events: seq<Event>, p: nat, n: nat, stage: Stage)
    requires n <= |events| == |processes|
  {
    && JoinInStep(processes, events, p, n, stage)
    && ExitInStep(processes, events, p, n, stage)
    && ExecInStep(processes, events, p, n, stage)
  }

  lemma {:induction false} CallsInStep(states: seq<Table>, processes: seq<nat>, events: seq<Event>, p: nat, n: nat)
    requires Run(states, processes, events) && n <= |events| && p < MAX_PROCESS
    ensures Shape(states[n]) && InStep(processes, events, p, n, states[n].stages[p])
  {
    hide Inv, Enabled, Next, JoinInStep, ExitInStep, ExecInStep;
    RunKeeps(states, processes, events, n);
    InvHasShape(states[n]);
    if n > 0 {
      CallsInStep(states, processes, events, p, n - 1);
      RunKeeps(states, processes, events, n - 1);
      assert IsStep(states[n - 1], processes[n - 1], events[n - 1], states[n]);
      if processes[n - 1] == p {
        OwnJoin(states[n - 1], processes, events, p, n);
        OwnExit(states[n - 1], processes, events, p, n);
        OwnExec(states[n - 1], processes, events, p, n);
      } else {
        StagesMove(states[n - 1], processes[n - 1], events[n - 1], p);
        OthersStep(processes, events, p, n, states[n - 1].stages[p], states[n].stages[p]);
      }
    } else {
      StartsInStep(processes, events, p);
    }
  }

  /** The child of the last Join by process p that was not refused, and how many of those there were. */
  function JoinsOf(states: seq<Table>, processes: seq<nat>, events: seq<Event>, p: nat, n: nat): (int, nat)
    requires n <= |events| == |processes| < |states|
  {
    if n == 0 then (-1, 0)
    else
      var (child, count) := JoinsOf(states, processes, events, p, n - 1);
      if processes[n - 1] == p && events[n - 1].CallJoin? && IsChild(states[n - 1], p, events[n - 1].child)
      then (events[n - 1].child, count + 1) else (child, count)
  }

  predicate IsChild(s: Table, p: nat, c: nat) {
    Exists(s, c) && PcbOf(s, c).parent == p
  }

  /** Every Join on a child of the caller waits, for that child. */
  predicate WaitsFor(stage: Stage, passed: nat, child: int, count: nat) {
    && count == passed + Bit(stage.Joining?)
    && (stage.Joining? || stage.Joined? || stage.Counted? ==> stage.child == child)
  }

  lemma {:induction false} JoinsWait(states: seq<Table>, processes: seq<nat>, events: seq<Event>, p: nat, n: nat)
    requires Run(states, processes, events) && n <= |events| && p < MAX_PROCESS
    ensures Shape(states[n])
    ensures
      var (child, count) := JoinsOf(states, processes, events, p, n);
      WaitsFor(states[n].stages[p], Times(processes, events, p, PassJoinWait, n), child, count)
  {
    hide Inv, Enabled, Next, WaitsFor;
    RunKeeps(states, processes, events, n);
    InvHasShape(states[n]);
    if n > 0 {
      JoinsWait(states, processes, events, p, n - 1);
      RunKeeps(states, processes, events, n - 1);
      assert IsStep(states[n - 1], processes[n - 1], events[n - 1], states[n]);
      if processes[n - 1] == p {
        OwnWait(states, processes, events, p, n);
      } else {
        StagesMove(states[n - 1], processes[n - 1], events[n - 1], p);
        OthersWait(states[n - 1].stages[p], states[n].stages[p], Times(processes, events, p, PassJoinWait, n),
                   JoinsOf(states, processes, events, p, n).0, JoinsOf(states, processes, events, p, n).1);
      }
    } else {
      StartsJoined(p);
    }
  }

  lemma StartsJoined(p: nat)
    requires p < MAX_PROCESS
    ensures WaitsFor(Initial().stages[p], 0, -1, 0)
  {}

  lemma OwnWait(states: seq<Table>, processes: seq<nat>, events: seq<Event>, p: nat, n: nat)
    requires 0 < n <= |events| == |processes| < |states| && p < MAX_PROCESS && processes[n - 1] == p
    requires IsStep(states[n - 1], p, events[n - 1], states[n]) && Shape(states[n])
    requires
      var (child, count) := JoinsOf(states, processes, events, p, n - 1);
      WaitsFor(states[n - 1].stages[p], Times(processes, events, p, PassJoinWait, n - 1), child, count)
    ensures
      var (child, count) := JoinsOf(states, processes, events, p, n);
      WaitsFor(states[n].stages[p], Times(processes, events, p, PassJoinWait, n), child, count)
  {}

  lemma OthersWait(before: Stage, after: Stage, passed: nat, child: int, count: nat)
    requires after == before || (before == NotStarted && after == Running)
    requires WaitsFor(before, passed, child, count)
    ensures WaitsFor(after, passed, child, count)
  {}

  lemma StartsInStep(processes: seq<nat>, events: seq<Event>, p: nat)
    requires |events| == |processes| && p < MAX_PROCESS
    ensures InStep(processes, events, p, 0, Initial().stages[p])
  {}

  lemma OwnJoin(s: Table, processes: seq<nat>, events: seq<Event>, p: nat, n: nat)
    requires 0 < n <= |events| == |processes| && p < MAX_PROCESS && processes[n - 1] == p
    requires Shape(s) && Enabled(s, p, events[n - 1]) && JoinInStep(processes, events, p, n - 1, s.stages[p])
    requires Shape(Next(s, p, events[n - 1]))
    ensures JoinInStep(processes, events, p, n, Next(s, p, events[n - 1]).stages[p])
  {}

  lemma OwnExit(s: Table, processes: seq<nat>, events: seq<Event>, p: nat, n: nat)
    requires 0 < n <= |events| == |processes| && p < MAX_PROCESS && processes[n - 1] == p
    requires Shape(s) && Enabled(s, p, events[n - 1]) && ExitInStep(processes, events, p, n - 1, s.stages[p])
    requires Shape(Next(s, p, events[n - 1]))
    ensures ExitInStep(processes, events, p, n, Next(s, p, events[n - 1]).stages[p])
  {}

  lemma OwnExec(s: Table, processes: seq<nat>, events: seq<Event>, p: nat, n: nat)
    requires 0 < n <= |events| == |processes| && p < MAX_PROCESS && processes[n - 1] == p
    requires Shape(s) && Enabled(s, p, events[n - 1]) && ExecInStep(processes, events, p, n - 1, s.stages[p])
    requires Shape(Next(s, p, events[n - 1]))
    ensures ExecInStep(processes, events, p, n, Next(s, p, events[n - 1]).stages[p])
  {}

  lemma OthersStep(processes: seq<nat>, events: seq<Event>, p: nat, n: nat, before: Stage, after: Stage)
    requires 0 < n <= |events| == |processes| && processes[n - 1] != p
    requires after == before || (before == NotStarted && after == Running)
    requires InStep(processes, events, p, n - 1, before)
    ensures InStep(processes, events, p, n, after)
  {}

  /** Only its own events move a process that has started. */
  lemma StagesMove(s: Table, p: nat, e: Event, q: nat)
    requires Inv(s) && Enabled(s, p, e) && q < MAX_PROCESS && q != p
    ensures Shape(Next(s, p, e))
    ensures Next(s, p, e).stages[q] == s.stages[q] || (s.stages[q] == NotStarted && Next(s, p, e).stages[q] == Running)
  {
    if e == StartThread {
      OneThread(s, p);
    }
  }

  // ---- what the code takes for granted ----

  /** The calls that process p can make next find what they follow: the PCBs are there, of the right parent, the pid
      is in the table, and the name is not there yet. Only a P has to wait, for a unit. */
  ghost predicate CallsAreMet(s: Table, p: nat)
    requires Shape(s) && p < MAX_PROCESS
  {
    match s.stages[p]
    case NotStarted => true
    case Finished(_) => true
    case Running =>
      && (s.bmsem > 0 ==> Enabled(s, p, EnterTable))
      && (forall c: nat :: c < MAX_PROCESS ==> Enabled(s, p, CallJoin(c)))
      && (p != 0 ==> (forall code :: Enabled(s, p, CallExit(code))) && Enabled(s, p, LoadFails))
    case InTable => Enabled(s, p, FindPid)
    case Found(pid) => Enabled(s, p, if pid == -1 then LeaveTable else MakePcb)
    case Made(_) => Enabled(s, p, LeaveTable)
    case Execing(c) => Enabled(s, p, StartThread) && c != p && !PcbOf(s, c).named && PcbOf(s, c).parent == p
    case Joining(c) =>
      Exists(s, c) && PcbOf(s, c).parent == p && (PcbOf(s, c).joinsem > 0 ==> Enabled(s, p, PassJoinWait))
    case Joined(c) => Enabled(s, p, CountJoin) && Exists(s, c) && PcbOf(s, c).exitcode.Some?
    case Counted(c) => Enabled(s, p, ExitRelease) && Exists(s, c) && PcbOf(s, c).exitcode.Some?
    case Coded => Enabled(s, p, JoinRelease)
    case Released => Enabled(s, p, CountExit)
    case Uncounted =>
      Exists(s, p) && Exists(s, PcbOf(s, p).parent)
      && (PcbOf(s, PcbOf(s, p).parent).exitsem > 0 ==> Enabled(s, p, PassExitWait))
  }

  lemma CallsMet(s: Table, p: nat)
    requires Inv(s) && p < MAX_PROCESS
    ensures CallsAreMet(s, p)
  {
    hide Gone, InCritical;
    assert PidRight(s, p) && PcbRight(s, p) && StageRight(s, p);
  }

  /** So it is in every reachable state. */
  lemma AssertionsHold(states: seq<Table>, processes: seq<nat>, events: seq<Event>, j: nat, p: nat)
    requires Run(states, processes, events) && j <= |events| && p < MAX_PROCESS
    ensures Shape(states[j]) && CallsAreMet(states[j], p)
  {
    RunKeeps(states, processes, events, j);
    CallsMet(states[j], p);
  }

  // ---- the semaphores ----

  function TableUse(p: nat, e: Event): S.Use {
    match e
    case EnterTable => S.Take(p)
    case LeaveTable => S.Give
    case _ => S.Other
  }

  /** The value of a process's joinsem, and of its exitsem; 0 before there is a PCB. */
  function JoinUnits(s: Table, c: int): nat {
    if Exists(s, c) then PcbOf(s, c).joinsem else 0
  }

  function ExitUnits(s: Table, q: int): nat {
    if Exists(s, q) then PcbOf(s, q).exitsem else 0
  }

  function JoinUse(s: Table, p: nat, e: Event, c: int): S.Use
    requires Enabled(s, p, e)
  {
    if e == PassJoinWait && s.stages[p].child == c then S.Take(p)
    else if e == JoinRelease && p == c then S.Give
    else S.Other
  }

  function ExitUse(s: Table, p: nat, e: Event, q: int): S.Use
    requires Enabled(s, p, e)
  {
    if e == PassExitWait && PcbOf(s, p).parent == q then S.Take(p)
    else if e == ExitRelease && p == q then S.Give
    else S.Other
  }

  lemma StepUses(s: Table, p: nat, e: Event, c: int)
    requires Inv(s) && Enabled(s, p, e) && 0 <= c < MAX_PROCESS
    ensures S.Step(s.bmsem, TableUse(p, e), Next(s, p, e).bmsem)
    ensures S.Step(JoinUnits(s, c), JoinUse(s, p, e, c), JoinUnits(Next(s, p, e), c))
    ensures S.Step(ExitUnits(s, c), ExitUse(s, p, e, c), ExitUnits(Next(s, p, e), c))
  {
    hide PcbRight, PidRight;
    assert StageRight(s, p);
  }

  /** Over every run, the table's semaphore and every process's two do what a semaphore does. */
  lemma SemaphoreRuns(states: seq<Table>, processes: seq<nat>, events: seq<Event>, c: int)
    requires Run(states, processes, events) && 0 <= c < MAX_PROCESS
    ensures forall j :: 0 <= j < |events| ==> Enabled(states[j], processes[j], events[j])
    ensures
      var n := |events|;
      && S.IsRun(seq(n + 1, j requires 0 <= j <= n => states[j].bmsem),
                 seq(n, j requires 0 <= j < n => TableUse(processes[j], events[j])))
      && S.IsRun(seq(n + 1, j requires 0 <= j <= n => JoinUnits(states[j], c)),
                 seq(n, j requires 0 <= j < n => JoinUse(states[j], processes[j], events[j], c)))
      && S.IsRun(seq(n + 1, j requires 0 <= j <= n => ExitUnits(states[j], c)),
                 seq(n, j requires 0 <= j < n => ExitUse(states[j], processes[j], events[j], c)))
      && states[0].bmsem == 1 && JoinUnits(states[0], c) == ExitUnits(states[0], c) == 0
  {
    hide Enabled, Inv, JoinUse, ExitUse, JoinUnits, ExitUnits, TableUse, Next, S.Step;
    forall j | 0 <= j < |events|
      ensures Enabled(states[j], processes[j], events[j])
      ensures S.Step(states[j].bmsem, TableUse(processes[j], events[j]), states[j + 1].bmsem)
      ensures S.Step(JoinUnits(states[j], c), JoinUse(states[j], processes[j], events[j], c), JoinUnits(states[j + 1], c))
      ensures S.Step(ExitUnits(states[j], c), ExitUse(states[j], processes[j], events[j], c), ExitUnits(states[j + 1], c))
    {
      RunKeeps(states, processes, events, j);
      assert IsStep(states[j], processes[j], events[j], states[j + 1]);
      StepUses(states[j], processes[j], events[j], c);
    }
    InitialUnits(c);
  }

  lemma InitialUnits(c: int)
    requires 0 <= c < MAX_PROCESS
    ensures Initial().bmsem == 1 && JoinUnits(Initial(), c) == ExitUnits(Initial(), c) == 0
  {}

  /** In every reachable state: at most one Join on a child has returned from its wait, and then the child's exit
      code is set; each parent's ExitReleases are its children past ExitWait and its exit semaphore's value;
      and with no process inside the table, pids are marked exactly for the PCBs that exist. */
  lemma JoinsAndExits(states: seq<Table>, processes: seq<nat>, events: seq<Event>, j: nat, c: int)
    requires Run(states, processes, events) && j <= |events| && 0 <= c < MAX_PROCESS
    ensures
      var s := states[j];
      && Shape(s) && |s.used| == |s.pcbs| == 10
      && (s.bmsem == 1 ==> (s.used[c] <==> s.pcbs[c].Some?))
      && (s.pcbs[c].Some? ==>
            var b := PcbOf(s, c);
            && b.joins <= 1 && (b.joins == 1 ==> b.exitcode.Some?)
            && |Gone(s, c)| + b.exitsem == b.releases)
  {
    RunKeeps(states, processes, events, j);
    if states[j].pcbs[c].Some? {
      OneJoin(states[j], c);
      ExitsConserved(states[j], c);
    }
    if states[j].bmsem == 1 {
      PidsMatch(states[j], c);
    }
  }
}
