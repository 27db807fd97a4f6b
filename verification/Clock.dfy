/** Simulated time (machine/interrupt.cc, machine/stats.h): the queue of pending interrupts, and what any
    run of it has fired so far. */
module Clocks {
  import opened Lists
  import opened Sets

  const USER_TICK := 1
  const SYSTEM_TICK := 10

  /** An interrupt to come, numbered in the order of the calls to Schedule. */
  datatype PendingInterrupt = PendingInterrupt(when: int, number: nat)

  /** An interrupt that fired, and the time when its handler ran. */
  datatype Firing = Firing(interrupt: PendingInterrupt, at: int)

  function PendingCompare(x: PendingInterrupt, y: PendingInterrupt): (c: int)
    ensures (c < 0 <==> x.when < y.when) && (c > 0 <==> x.when > y.when)
  {
    if x.when < y.when then -1 else if x.when > y.when then 1 else 0
  }

  /** Earlier, or at the same time but scheduled before. */
  predicate Precedes(x: PendingInterrupt, y: PendingInterrupt) {
    x.when < y.when || (x.when == y.when && x.number < y.number)
  }

  predicate InOrder(s: seq<PendingInterrupt>) {
    forall i, j :: 0 <= i < j < |s| ==> Precedes(s[i], s[j])
  }

  function Interrupts(fired: seq<Firing>): (s: seq<PendingInterrupt>)
    ensures |s| == |fired|
  {
    seq(|fired|, i requires 0 <= i < |fired| => fired[i].interrupt)
  }

  /** The clock, the queue, and the history: what fired, and the time that each call of Schedule asked for. */
  datatype Clock = Clock(total: int, idle: int, system: int, user: int,
                         pending: seq<PendingInterrupt>, fired: seq<Firing>, requested: seq<int>)

  function Initial(): Clock {
    Clock(0, 0, 0, 0, [], [], [])
  }

  /** Neither early nor a system tick late. */
  predicate OnTime(f: Firing) {
    f.interrupt.when <= f.at < f.interrupt.when + SYSTEM_TICK
  }

  /** As many interrupts as were scheduled, each with a number of its own and for the time asked for. */
  ghost predicate Conserved(all: seq<PendingInterrupt>, requested: seq<int>) {
    && |all| == |requested|
    && (forall i :: 0 <= i < |all| ==> all[i].number < |requested| && all[i].when == requested[all[i].number])
    && (forall i, j :: 0 <= i < j < |all| ==> all[i].number != all[j].number)
  }

  /** What has fired: on time, and one after another. */
  ghost predicate FiredRight(fired: seq<Firing>, total: int) {
    && (forall i :: 0 <= i < |fired| ==> OnTime(fired[i]) && fired[i].at <= total)
    && (forall i, j :: 0 <= i < j < |fired| ==> fired[i].at <= fired[j].at)
  }

  /** What holds throughout, also while handlers run. */
  ghost predicate Sound(c: Clock) {
    && c.total == c.idle + c.system + c.user
    && FiredRight(c.fired, c.total)
    && InOrder(Interrupts(c.fired) + c.pending)
    && Conserved(Interrupts(c.fired) + c.pending, c.requested)
    && (forall i :: 0 <= i < |c.pending| ==> c.total < c.pending[i].when + SYSTEM_TICK)
  }

  /** The test of the handler loop. */
  predicate FrontDue(c: Clock) {
    c.pending != [] && c.pending[0].when <= c.total
  }

  // ---- the steps ----

  function Scheduled(c: Clock, fromNow: int): Clock {
    var p := PendingInterrupt(c.total + fromNow, |c.requested|);
    c.(pending := Inserted(c.pending, p, PendingCompare), requested := c.requested + [p.when])
  }

  function Fired(c: Clock): Clock
    requires c.pending != []
  {
    c.(fired := c.fired + [Firing(c.pending[0], c.total)], pending := c.pending[1..])
  }

  /** A tick, before the check that follows it. */
  function Ticked(c: Clock, systemMode: bool): Clock {
    if systemMode then c.(total := c.total + SYSTEM_TICK, system := c.system + SYSTEM_TICK)
    else c.(total := c.total + USER_TICK, user := c.user + USER_TICK)
  }

  /** An idle machine goes straight to the next interrupt. */
  function Skipped(c: Clock): Clock
    requires c.pending != []
  {
    c.(idle := c.idle + (c.pending[0].when - c.total), total := c.pending[0].when)
  }

  /** The steps of any run: devices and handlers schedule at any time; what is due fires before time goes on. */
  datatype Event =
    | Schedule(fromNow: int)
    | Tick(systemMode: bool)
    | Skip
    | Fire

  predicate Enabled(c: Clock, e: Event) {
    match e
    case Schedule(fromNow) => fromNow > 0
    case Tick(_) => !FrontDue(c)
    case Skip => !FrontDue(c) && c.pending != []
    case Fire => FrontDue(c)
  }

  function Next(c: Clock, e: Event): Clock
    requires Enabled(c, e)
  {
    match e
    case Schedule(fromNow) => Scheduled(c, fromNow)
    case Tick(systemMode) => Ticked(c, systemMode)
    case Skip => Skipped(c)
    case Fire => Fired(c)
  }

  // ---- what each step keeps ----

  lemma AllAt(c: Clock, i: nat)
    requires i < |c.fired| + |c.pending|
    ensures (Interrupts(c.fired) + c.pending)[i] ==
            if i < |c.fired| then c.fired[i].interrupt else c.pending[i - |c.fired|]
  {}

  lemma InsertedInOrder(all: seq<PendingInterrupt>, p: PendingInterrupt, n: nat)
    requires InOrder(all) && n <= |all|
    requires forall i :: 0 <= i < |all| ==> if i < n then Precedes(all[i], p) else Precedes(p, all[i])
    ensures InOrder(all[..n] + [p] + all[n..])
  {
    var after := all[..n] + [p] + all[n..];
    forall i, j | 0 <= i < j < |after|
      ensures Precedes(after[i], after[j])
    {
      InsertedAt(all, p, n, i);
      InsertedAt(all, p, n, j);
    }
  }

  lemma InsertedConserved(all: seq<PendingInterrupt>, requested: seq<int>, p: PendingInterrupt, n: nat)
    requires Conserved(all, requested) && n <= |all| && p.number == |requested|
    ensures Conserved(all[..n] + [p] + all[n..], requested + [p.when])
  {
    var after := all[..n] + [p] + all[n..];
    forall i | 0 <= i < |after|
      ensures after[i].number <= |requested| && after[i].when == (requested + [p.when])[after[i].number]
    {
      InsertedAt(all, p, n, i);
    }
    forall i, j | 0 <= i < j < |after|
      ensures after[i].number != after[j].number
    {
      InsertedAt(all, p, n, i);
      InsertedAt(all, p, n, j);
    }
  }

  lemma InsertedLater(s: seq<PendingInterrupt>, t: seq<PendingInterrupt>, p: PendingInterrupt, k: nat)
    requires k <= |t|
    ensures s + (t[..k] + [p] + t[k..]) == (s + t)[..|s| + k] + [p] + (s + t)[|s| + k..]
  {}

  /** A new interrupt goes after everything not later than it. */
  lemma ScheduledOrder(past: seq<PendingInterrupt>, pending: seq<PendingInterrupt>, requested: seq<int>, p: PendingInterrupt, k: nat)
    requires InOrder(past + pending) && k <= |pending|
    requires Conserved(past + pending, requested) && p.number == |requested|
    requires forall i :: 0 <= i < |past| ==> past[i].when < p.when
    requires forall i :: 0 <= i < k ==> pending[i].when <= p.when
    requires forall i :: k <= i < |pending| ==> p.when < pending[i].when
    ensures InOrder((past + pending)[..|past| + k] + [p] + (past + pending)[|past| + k..])
  {
    var all := past + pending;
    forall i | 0 <= i < |all|
      ensures if i < |past| + k then Precedes(all[i], p) else Precedes(p, all[i])
    {
      assert all[i].number < p.number;
      assert all[i] == if i < |past| then past[i] else pending[i - |past|];
    }
    InsertedInOrder(all, p, |past| + k);
  }

  /** Past the place of a new interrupt everything is later. */
  lemma LaterPast(past: seq<PendingInterrupt>, pending: seq<PendingInterrupt>, p: PendingInterrupt, k: nat)
    requires InOrder(past + pending) && k == Position(pending, p, PendingCompare)
    ensures forall i :: k <= i < |pending| ==> p.when < pending[i].when
  {
    forall i | k <= i < |pending|
      ensures p.when < pending[i].when
    {
      PlaceIsEarlier(pending, p, k);
      LaterInOrder(past, pending, k, i);
    }
  }

  lemma LaterInOrder(past: seq<PendingInterrupt>, pending: seq<PendingInterrupt>, k: nat, i: nat)
    requires InOrder(past + pending) && k <= i < |pending|
    ensures pending[k].when <= pending[i].when
  {
    var all := past + pending;
    assert all[|past| + k] == pending[k] && all[|past| + i] == pending[i];
    assert k < i ==> Precedes(all[|past| + k], all[|past| + i]);
  }

  lemma PastBefore(c: Clock, when: int)
    requires FiredRight(c.fired, c.total) && when > c.total
    ensures forall i :: 0 <= i < |c.fired| ==> Interrupts(c.fired)[i].when < when
  {
    forall i | 0 <= i < |c.fired|
      ensures Interrupts(c.fired)[i].when < when
    {
      assert OnTime(c.fired[i]);
    }
  }

  /** Scheduling keeps queue and history in order, and each interrupt at the time asked for. */
  lemma ScheduleKeeps(c: Clock, fromNow: int)
    requires Sound(c) && fromNow > 0
    ensures Sound(Scheduled(c, fromNow))
  {
    var p := PendingInterrupt(c.total + fromNow, |c.requested|);
    var k := Position(c.pending, p, PendingCompare);
    LaterPast(Interrupts(c.fired), c.pending, p, k);
    BeforePlace(c.pending, p, k);
    PlacedKeeps(c, Scheduled(c, fromNow), p, k);
  }

  lemma PlacedKeeps(c: Clock, after: Clock, p: PendingInterrupt, k: nat)
    requires after == c.(pending := after.pending, requested := c.requested + [p.when])
    requires k <= |c.pending| && after.pending == c.pending[..k] + [p] + c.pending[k..]
    requires Sound(c) && k <= |c.pending| && p.number == |c.requested| && p.when > c.total
    requires forall i :: 0 <= i < k ==> c.pending[i].when <= p.when
    requires forall i :: k <= i < |c.pending| ==> p.when < c.pending[i].when
    ensures Sound(after)
  {
    var past := Interrupts(c.fired);
    PastBefore(c, p.when);
    PlaceInOrder(past, c.pending, c.requested, p, k);
    PlaceConserved(past, c.pending, c.requested, p, k);
    PlaceBound(c.pending, p, k, c.total - SYSTEM_TICK);
  }

  lemma PlaceInOrder(past: seq<PendingInterrupt>, pending: seq<PendingInterrupt>, requested: seq<int>, p: PendingInterrupt, k: nat)
    requires InOrder(past + pending) && k <= |pending|
    requires Conserved(past + pending, requested) && p.number == |requested|
    requires forall i :: 0 <= i < |past| ==> past[i].when < p.when
    requires forall i :: 0 <= i < k ==> pending[i].when <= p.when
    requires forall i :: k <= i < |pending| ==> p.when < pending[i].when
    ensures InOrder(past + (pending[..k] + [p] + pending[k..]))
  {
    ScheduledOrder(past, pending, requested, p, k);
    InsertedLater(past, pending, p, k);
  }

  lemma PlaceConserved(past: seq<PendingInterrupt>, pending: seq<PendingInterrupt>, requested: seq<int>, p: PendingInterrupt, k: nat)
    requires Conserved(past + pending, requested) && k <= |pending| && p.number == |requested|
    ensures Conserved(past + (pending[..k] + [p] + pending[k..]), requested + [p.when])
  {
    InsertedConserved(past + pending, requested, p, |past| + k);
    InsertedLater(past, pending, p, k);
  }

  lemma PlaceBound(pending: seq<PendingInterrupt>, p: PendingInterrupt, k: nat, bound: int)
    requires k <= |pending| && bound < p.when && forall i :: 0 <= i < |pending| ==> bound < pending[i].when
    ensures var r := pending[..k] + [p] + pending[k..]; forall i :: 0 <= i < |r| ==> bound < r[i].when
  {
    var r := pending[..k] + [p] + pending[k..];
    forall i | 0 <= i < |r|
      ensures bound < r[i].when
    {
      InsertedAt(pending, p, k, i);
    }
  }

  lemma PlaceIsEarlier(pending: seq<PendingInterrupt>, p: PendingInterrupt, k: nat)
    requires k == Position(pending, p, PendingCompare) && k < |pending|
    ensures p.when < pending[k].when
  {}

  lemma BeforePlace(pending: seq<PendingInterrupt>, p: PendingInterrupt, k: nat)
    requires k == Position(pending, p, PendingCompare)
    ensures forall i :: 0 <= i < k ==> pending[i].when <= p.when
  {
    forall i | 0 <= i < k
      ensures pending[i].when <= p.when
    {
      assert PendingCompare(p, pending[i]) >= 0;
    }
  }

  /** Firing the front of the queue, when it is due. */
  lemma FireKeeps(c: Clock)
    requires Sound(c) && FrontDue(c)
    ensures Sound(Fired(c))
  {
    var after := Fired(c);
    assert Interrupts(after.fired) + after.pending == Interrupts(c.fired) + c.pending;
  }

  /** Nothing is due once the front of the queue is not. */
  lemma FrontDecides(c: Clock)
    requires Sound(c) && c.pending != []
    ensures forall i :: 0 <= i < |c.pending| ==> c.pending[0].when <= c.pending[i].when
  {
    forall i | 0 <= i < |c.pending|
      ensures c.pending[0].when <= c.pending[i].when
    {
      LaterInOrder(Interrupts(c.fired), c.pending, 0, i);
    }
  }

  lemma TickKeeps(c: Clock, systemMode: bool)
    requires Sound(c) && !FrontDue(c)
    ensures Sound(Ticked(c, systemMode))
  {
    if c.pending != [] {
      FrontDecides(c);
    }
  }

  lemma SkipKeeps(c: Clock)
    requires Sound(c) && !FrontDue(c) && c.pending != []
    ensures Sound(Skipped(c))
  {
    FrontDecides(c);
  }

  lemma StepKeeps(c: Clock, e: Event)
    requires Sound(c) && Enabled(c, e)
    ensures Sound(Next(c, e))
  {
    match e {
      case Schedule(fromNow) => ScheduleKeeps(c, fromNow);
      case Tick(systemMode) => TickKeeps(c, systemMode);
      case Skip => SkipKeeps(c);
      case Fire => FireKeeps(c);
    }
  }

  // ---- runs ----

  ghost predicate Run(states: seq<Clock>, events: seq<Event>) {
    && |states| == |events| + 1 && states[0] == Initial()
    && forall j :: 0 <= j < |events| ==> Enabled(states[j], events[j]) && states[j + 1] == Next(states[j], events[j])
  }

  lemma {:induction false} RunKeeps(states: seq<Clock>, events: seq<Event>, j: nat)
    requires Run(states, events) && j <= |events|
    ensures Sound(states[j])
  {
    if j > 0 {
      RunKeeps(states, events, j - 1);
      StepKeeps(states[j - 1], events[j - 1]);
    }
  }

  /** Interrupt n fired: once, not before the time that was asked for, and less than a system tick after. */
  ghost predicate FiredOnce(c: Clock, n: nat)
    requires n < |c.requested|
  {
    exists i :: 0 <= i < |c.fired| && IsFiringOf(c, n, i)
  }

  ghost predicate IsFiringOf(c: Clock, n: nat, i: nat)
    requires n < |c.requested| && i < |c.fired|
  {
    && c.fired[i].interrupt == PendingInterrupt(c.requested[n], n)
    && c.requested[n] <= c.fired[i].at < c.requested[n] + SYSTEM_TICK
    && (forall j :: 0 <= j < |c.fired| && j != i ==> c.fired[j].interrupt.number != n)
    && (forall j :: 0 <= j < |c.pending| ==> c.pending[j].number != n)
  }

  /** Interrupt n is still to come: it is in the queue, once, and is due at most until the handlers that run now
      have returned. */
  ghost predicate StillToCome(c: Clock, n: nat)
    requires n < |c.requested|
  {
    && (exists i :: 0 <= i < |c.pending| && c.pending[i] == PendingInterrupt(c.requested[n], n) && OnlyPending(c, n, i))
    && (forall j :: 0 <= j < |c.fired| ==> c.fired[j].interrupt.number != n)
    && c.total < c.requested[n] + SYSTEM_TICK
    && (!FrontDue(c) ==> c.total < c.requested[n])
  }

  ghost predicate OnlyPending(c: Clock, n: nat, i: nat) {
    forall j :: 0 <= j < |c.pending| && j != i ==> c.pending[j].number != n
  }

  function Numbers(all: seq<PendingInterrupt>): set<int> {
    set i | 0 <= i < |all| :: all[i].number as int
  }

  lemma {:induction false} NumbersCount(all: seq<PendingInterrupt>)
    requires forall i, j :: 0 <= i < j < |all| ==> all[i].number != all[j].number
    ensures |Numbers(all)| == |all|
  {
    var k := |all| - 1;
    if k >= 0 {
      NumbersCount(all[..k]);
      assert Numbers(all) == Numbers(all[..k]) + {all[k].number as int};
    }
  }

  /** No number is missing: there are as many interrupts as numbers, and no two have the same. */
  lemma NoneMissing(all: seq<PendingInterrupt>, requested: seq<int>, n: nat) returns (i: nat)
    requires Conserved(all, requested) && n < |requested|
    ensures i < |all| && all[i] == PendingInterrupt(requested[n], n)
    ensures forall j :: 0 <= j < |all| && j != i ==> all[j].number != n
  {
    NumbersCount(all);
    SubsetCount(Numbers(all), Below(|requested|));
    assert n as int in Numbers(all);
    i :| 0 <= i < |all| && all[i].number == n;
  }

  /** In every reachable state, each interrupt that was ever scheduled fired, once and on time, or is still to
      come. */
  lemma HistoryIsSound(states: seq<Clock>, events: seq<Event>, j: nat, n: nat)
    requires Run(states, events) && j <= |events| && n < |states[j].requested|
    ensures FiredOnce(states[j], n) || StillToCome(states[j], n)
  {
    RunKeeps(states, events, j);
    EachAccounted(states[j], n);
  }

  lemma EachAccounted(c: Clock, n: nat)
    requires Sound(c) && n < |c.requested|
    ensures FiredOnce(c, n) || StillToCome(c, n)
  {
    var all := Interrupts(c.fired) + c.pending;
    var i := NoneMissing(all, c.requested, n);
    forall j | 0 <= j < |all|
      ensures all[j] == if j < |c.fired| then c.fired[j].interrupt else c.pending[j - |c.fired|]
    {
      AllAt(c, j);
    }
    if i < |c.fired| {
      assert OnTime(c.fired[i]);
      NotPending(c, n, i);
      assert IsFiringOf(c, n, i);
    } else {
      PendingOnce(c, n, i);
      if !FrontDue(c) {
        FrontDecides(c);
      }
    }
  }

  lemma NotPending(c: Clock, n: nat, i: nat)
    requires i < |c.fired|
    requires forall j :: 0 <= j < |c.fired| + |c.pending| && j != i ==> (Interrupts(c.fired) + c.pending)[j].number != n
    ensures forall j :: 0 <= j < |c.fired| && j != i ==> c.fired[j].interrupt.number != n
    ensures forall j :: 0 <= j < |c.pending| ==> c.pending[j].number != n
  {
    forall j | 0 <= j < |c.pending|
      ensures c.pending[j].number != n
    {
      AllAt(c, |c.fired| + j);
    }
    forall j | 0 <= j < |c.fired| && j != i
      ensures c.fired[j].interrupt.number != n
    {
      AllAt(c, j);
    }
  }

  lemma PendingOnce(c: Clock, n: nat, i: nat)
    requires |c.fired| <= i < |c.fired| + |c.pending| && n < |c.requested|
    requires (Interrupts(c.fired) + c.pending)[i] == PendingInterrupt(c.requested[n], n)
    requires forall j :: 0 <= j < |c.fired| + |c.pending| && j != i ==> (Interrupts(c.fired) + c.pending)[j].number != n
    ensures exists k :: 0 <= k < |c.pending| && c.pending[k] == PendingInterrupt(c.requested[n], n) && OnlyPending(c, n, k)
    ensures forall j :: 0 <= j < |c.fired| ==> c.fired[j].interrupt.number != n
  {
    var k := i - |c.fired|;
    AllAt(c, i);
    forall j | 0 <= j < |c.pending| && j != k
      ensures c.pending[j].number != n
    {
      AllAt(c, |c.fired| + j);
    }
    assert OnlyPending(c, n, k);
    forall j | 0 <= j < |c.fired|
      ensures c.fired[j].interrupt.number != n
    {
      AllAt(c, j);
    }
  }

  /** In every reachable state the interrupts fired by the times asked for, in the order of the calls for ties, and
      time is the sum of its parts. */
  lemma FiringOrder(states: seq<Clock>, events: seq<Event>, j: nat)
    requires Run(states, events) && j <= |events|
    ensures
      var c := states[j];
      && c.total == c.idle + c.system + c.user
      && forall a, b :: 0 <= a < b < |c.fired| ==>
           Precedes(c.fired[a].interrupt, c.fired[b].interrupt) && c.fired[a].at <= c.fired[b].at <= c.total
  {
    RunKeeps(states, events, j);
    var c := states[j];
    forall a, b | 0 <= a < b < |c.fired|
      ensures Precedes(c.fired[a].interrupt, c.fired[b].interrupt)
    {
      AllAt(c, a);
      AllAt(c, b);
    }
  }

  /** What was asked for and what fired is never taken back, and the times asked for are those of the calls. */
  lemma {:induction false} HistoryKept(states: seq<Clock>, events: seq<Event>, i: nat, j: nat)
    requires Run(states, events) && i <= j <= |events|
    ensures states[i].requested <= states[j].requested && states[i].fired <= states[j].fired
    ensures i < j && events[i].Schedule? ==>
      |states[i].requested| < |states[j].requested|
      && states[j].requested[|states[i].requested|] == states[i].total + events[i].fromNow
    decreases j - i
  {
    if i < j {
      HistoryKept(states, events, i + 1, j);
      OneStepKept(states[i], events[i]);
    }
  }

  lemma OneStepKept(c: Clock, e: Event)
    requires Enabled(c, e)
    ensures c.requested <= Next(c, e).requested && c.fired <= Next(c, e).fired
    ensures e.Schedule? ==> Next(c, e).requested == c.requested + [c.total + e.fromNow]
  {}

  // ---- the history, from the events ----

  /** How many of the first n events are ticks in system mode, or in user mode. */
  function Ticks(events: seq<Event>, systemMode: bool, n: nat): nat
    requires n <= |events|
  {
    if n == 0 then 0 else Ticks(events, systemMode, n - 1) + if events[n - 1] == Tick(systemMode) then 1 else 0
  }

  /** In every run user time is the number of user ticks, and system time ten times that of system ticks; the rest of the
      time was skipped over. */
  lemma {:induction false} TimeIsTicks(states: seq<Clock>, events: seq<Event>, n: nat)
    requires Run(states, events) && n <= |events|
    ensures states[n].user == Ticks(events, false, n) && states[n].system == 10 * Ticks(events, true, n)
    ensures states[n].idle == states[n].total - Ticks(events, false, n) - 10 * Ticks(events, true, n)
  {
    RunKeeps(states, events, n);
    if n > 0 {
      TimeIsTicks(states, events, n - 1);
    }
  }

  /** The times asked for in the first n events. */
  function TimesAsked(states: seq<Clock>, events: seq<Event>, n: nat): seq<int>
    requires n <= |events| < |states|
  {
    if n == 0 then []
    else if events[n - 1].Schedule? then TimesAsked(states, events, n - 1) + [states[n - 1].total + events[n - 1].fromNow]
    else TimesAsked(states, events, n - 1)
  }

  /** What fired in the first n events, and when: the front of the queue at the time. */
  function FiringsSeen(states: seq<Clock>, events: seq<Event>, n: nat): seq<Firing>
    requires n <= |events| < |states|
  {
    if n == 0 then []
    else if events[n - 1] == Fire && states[n - 1].pending != [] then
      FiringsSeen(states, events, n - 1) + [Firing(states[n - 1].pending[0], states[n - 1].total)]
    else FiringsSeen(states, events, n - 1)
  }

  /** In every run the two histories are those: nothing is asked for but by Schedule, and nothing fires but the front of
      the queue, which a skip goes to. */
  lemma {:induction false} HistoryIsSeen(states: seq<Clock>, events: seq<Event>, n: nat)
    requires Run(states, events) && n <= |events|
    ensures states[n].requested == TimesAsked(states, events, n)
    ensures states[n].fired == FiringsSeen(states, events, n)
    ensures n < |events| && events[n] == Skip ==>
      states[n].pending != [] && states[n + 1].total == states[n].pending[0].when > states[n].total
  {
    if n > 0 {
      HistoryIsSeen(states, events, n - 1);
    }
  }

  // ---- handlers ----

  type Delay = n: int | n > 0 witness 1

  /** What a handler does: how far from now it schedules interrupts, and whether it asks for a yield. */
  datatype Response = Response(delays: seq<Delay>, mustYield: bool)

  /** The devices: what the handler of the last interrupt fired does, given all that fired. */
  type Device = seq<Firing> -> Response

  /** A handler's calls of Schedule. */
  function Handled(c: Clock, delays: seq<Delay>): Clock {
    if delays == [] then c else Scheduled(Handled(c, delays[..|delays| - 1]), delays[|delays| - 1])
  }

  /** They ask, in turn, for the times that the delays say, from now. */
  lemma {:induction false} HandledAsks(c: Clock, delays: seq<Delay>)
    ensures Handled(c, delays).requested == c.requested + seq(|delays|, i requires 0 <= i < |delays| => c.total + delays[i])
  {
    if delays != [] {
      var init := delays[..|delays| - 1];
      HandledAsks(c, init);
      HandledDue(c, init);
      assert Handled(c, delays).requested == Handled(c, init).requested + [c.total + delays[|delays| - 1]];
    }
  }

  lemma NextHandled(c: Clock, delays: seq<Delay>, i: nat)
    requires i < |delays|
    ensures Handled(c, delays[..i + 1]) == Scheduled(Handled(c, delays[..i]), delays[i])
  {
    assert delays[..i + 1][..i] == delays[..i];
  }

  /** One turn of the handler loop: the front fires, and its handler runs. */
  function Served(c: Clock, device: Device): Clock
    requires c.pending != []
  {
    Handled(Fired(c), device(Fired(c).fired).delays)
  }

  /** The handler loop, which fires until nothing is due. It ends, as each turn leaves one fewer interrupt due. */
  function Drained(c: Clock, device: Device): Clock
    decreases |Due(c)|
  {
    if !FrontDue(c) then c
    else
      ServedOneFewer(c, device);
      Drained(Served(c, device), device)
  }

  /** The pending interrupts that are due, as many as the handler loop has yet to fire. */
  function DueIn(pending: seq<PendingInterrupt>, total: int): seq<PendingInterrupt> {
    if pending == [] then []
    else DueIn(pending[..|pending| - 1], total)
         + (if pending[|pending| - 1].when <= total then [pending[|pending| - 1]] else [])
  }

  function Due(c: Clock): seq<PendingInterrupt> {
    DueIn(c.pending, c.total)
  }

  lemma {:induction false} DueInserted(pending: seq<PendingInterrupt>, p: PendingInterrupt, k: nat, total: int)
    requires k <= |pending| && p.when > total
    ensures DueIn(pending[..k] + [p] + pending[k..], total) == DueIn(pending, total)
  {
    var n := |pending| - 1;
    var r := pending[..k] + [p] + pending[k..];
    if k == |pending| {
      assert r[..|r| - 1] == pending;
    } else {
      DueInserted(pending[..n], p, k, total);
      assert r[..|r| - 1] == pending[..n][..k] + [p] + pending[..n][k..];
    }
  }

  lemma {:induction false} DueFirst(pending: seq<PendingInterrupt>, total: int)
    requires pending != [] && pending[0].when <= total
    ensures DueIn(pending, total) == [pending[0]] + DueIn(pending[1..], total)
  {
    var n := |pending| - 1;
    if n > 0 {
      DueFirst(pending[..n], total);
      assert pending[..n][1..] == pending[1..][..n - 1];
    } else {
      assert pending[..n] == [];
    }
  }

  lemma ScheduledDue(c: Clock, fromNow: int)
    requires fromNow > 0
    ensures Due(Scheduled(c, fromNow)) == Due(c)
  {
    var p := PendingInterrupt(c.total + fromNow, |c.requested|);
    DueInserted(c.pending, p, Position(c.pending, p, PendingCompare), c.total);
  }

  /** A handler can only schedule strictly later, so it adds nothing to what is due, and time stands still. */
  lemma {:induction false} HandledDue(c: Clock, delays: seq<Delay>)
    ensures Due(Handled(c, delays)) == Due(c) && Handled(c, delays).fired == c.fired && SameTime(c, Handled(c, delays))
  {
    if delays != [] {
      HandledDue(c, delays[..|delays| - 1]);
      ScheduledDue(Handled(c, delays[..|delays| - 1]), delays[|delays| - 1]);
    }
  }

  /** A new interrupt is not due, and does not hide one that is. */
  lemma ScheduleNotDue(c: Clock, fromNow: int)
    requires fromNow > 0
    ensures FrontDue(Scheduled(c, fromNow)) <==> FrontDue(c)
  {
    var p := PendingInterrupt(c.total + fromNow, |c.requested|);
    var k := Position(c.pending, p, PendingCompare);
    InsertedAt(c.pending, p, k, 0);
    if k == 0 && c.pending != [] {
      PlaceIsEarlier(c.pending, p, k);
    }
  }

  predicate SameTime(c: Clock, d: Clock) {
    d.total == c.total && d.idle == c.idle && d.system == c.system && d.user == c.user
  }

  lemma ServedOneFewer(c: Clock, device: Device)
    requires FrontDue(c)
    ensures Due(c) == [c.pending[0]] + Due(Served(c, device)) && SameTime(c, Served(c, device))
    ensures Served(c, device).fired == c.fired + [Firing(c.pending[0], c.total)]
  {
    DueFirst(c.pending, c.total);
    HandledDue(Fired(c), device(Fired(c).fired).delays);
  }

  /** What is due is the front part of the queue, up to the first interrupt that is not. */
  lemma {:induction false} DueIsFront(pending: seq<PendingInterrupt>, total: int)
    requires forall i, j :: 0 <= i < j < |pending| ==> pending[i].when <= pending[j].when
    ensures DueIn(pending, total) <= pending
    ensures forall i :: 0 <= i < |pending| ==> (pending[i].when <= total <==> i < |DueIn(pending, total)|)
  {
    if pending != [] {
      var n := |pending| - 1;
      DueIsFront(pending[..n], total);
      if pending[n].when <= total {
        assert DueIn(pending[..n], total) == pending[..n] by {
          assert n > 0 ==> pending[..n][n - 1].when <= total;
        }
      }
    }
  }

  function Firings(due: seq<PendingInterrupt>, at: int): (s: seq<Firing>)
    ensures |s| == |due|
  {
    seq(|due|, i requires 0 <= i < |due| => Firing(due[i], at))
  }

  lemma {:induction false} HandledKeeps(c: Clock, delays: seq<Delay>)
    requires Sound(c)
    ensures Sound(Handled(c, delays))
  {
    if delays != [] {
      HandledKeeps(c, delays[..|delays| - 1]);
      ScheduleKeeps(Handled(c, delays[..|delays| - 1]), delays[|delays| - 1]);
    }
  }

  lemma {:induction false} NothingDue(pending: seq<PendingInterrupt>, total: int)
    requires forall i :: 0 <= i < |pending| ==> total < pending[i].when
    ensures DueIn(pending, total) == []
  {
    if pending != [] {
      NothingDue(pending[..|pending| - 1], total);
    }
  }

  /** The handler loop fires all that is due, in the order of the queue, and nothing else; no time passes, and
      nothing is due when it ends. */
  lemma {:induction false} DrainedFires(c: Clock, device: Device)
    requires Sound(c)
    ensures Sound(Drained(c, device)) && SameTime(c, Drained(c, device)) && !FrontDue(Drained(c, device))
    ensures Drained(c, device).fired == c.fired + Firings(Due(c), c.total)
    decreases |Due(c)|
  {
    hide Sound, Handled, DueIn;
    if FrontDue(c) {
      ServedOneFewer(c, device);
      FireKeeps(c);
      HandledKeeps(Fired(c), device(Fired(c).fired).delays);
      DrainedFires(Served(c, device), device);
    } else {
      if c.pending != [] {
        FrontDecides(c);
      }
      NothingDue(c.pending, c.total);
    }
  }

  // ---- the handler loop is part of a run ----

  ghost predicate Reachable(c: Clock) {
    exists states, events :: Run(states, events) && states[|events|] == c
  }

  lemma ReachableIsSound(c: Clock)
    requires Reachable(c)
    ensures Sound(c)
  {
    var states, events :| Run(states, events) && states[|events|] == c;
    RunKeeps(states, events, |events|);
  }

  lemma InitialReachable()
    ensures Reachable(Initial())
  {
    assert Run([Initial()], []);
  }

  lemma NextReachable(c: Clock, e: Event)
    requires Reachable(c) && Enabled(c, e)
    ensures Reachable(Next(c, e))
  {
    var states, events :| Run(states, events) && states[|events|] == c;
    var longer, more := states + [Next(c, e)], events + [e];
    forall j | 0 <= j < |more|
      ensures Enabled(longer[j], more[j]) && longer[j + 1] == Next(longer[j], more[j])
    {
      assert j < |events| ==> longer[j] == states[j] && longer[j + 1] == states[j + 1] && more[j] == events[j];
    }
    assert Run(longer, more) && longer[|more|] == Next(c, e);
  }

  lemma {:induction false} HandledReachable(c: Clock, delays: seq<Delay>)
    requires Reachable(c)
    ensures Reachable(Handled(c, delays))
  {
    if delays != [] {
      HandledReachable(c, delays[..|delays| - 1]);
      NextReachable(Handled(c, delays[..|delays| - 1]), Schedule(delays[|delays| - 1]));
    }
  }

  lemma ServedReachable(c: Clock, device: Device)
    requires Reachable(c) && FrontDue(c)
    ensures Reachable(Served(c, device))
  {
    NextReachable(c, Fire);
    HandledReachable(Fired(c), device(Fired(c).fired).delays);
  }

  /** Some handler asked for a yield, of those that ran after the first ones. */
  predicate AskedToYield(first: nat, fired: seq<Firing>, device: Device) {
    |fired| > first && (device(fired).mustYield || AskedToYield(first, fired[..|fired| - 1], device))
  }

  lemma {:induction false} AskedBySome(first: nat, fired: seq<Firing>, device: Device)
    ensures AskedToYield(first, fired, device) <==> exists k :: first < k <= |fired| && device(fired[..k]).mustYield
  {
    if |fired| > first {
      var n := |fired| - 1;
      AskedBySome(first, fired[..n], device);
      assert forall k :: 0 <= k <= n ==> fired[..n][..k] == fired[..k];
      assert fired[..|fired|] == fired;
    }
  }

  lemma AskedOnceMore(first: nat, fired: seq<Firing>, f: Firing, device: Device)
    requires first <= |fired|
    ensures AskedToYield(first, fired + [f], device) <==> AskedToYield(first, fired, device) || device(fired + [f]).mustYield
  {
    assert (fired + [f])[..|fired|] == fired;
  }
}
