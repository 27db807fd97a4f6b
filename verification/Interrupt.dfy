/** The interrupt simulation (machine/interrupt.cc), with devices whose handlers may do anything a handler
    may: schedule more interrupts and ask for a context switch. */
module Interrupts {
  import opened Lists
  import opened Clocks

  datatype IntStatus = IntOff | IntOn
  datatype MachineStatus = IdleMode | SystemMode | UserMode

  class Interrupt {
    const device: Device
    var clock: Clock
    var level: IntStatus
    var status: MachineStatus
    var inHandler: bool
    var yieldOnReturn: bool

    /** The clock is one that a run leads to, and nothing is due but while handlers run. */
    ghost predicate Valid()
      reads this
    {
      Reachable(clock) && if inHandler then level == IntOff else !FrontDue(clock)
    }

    constructor (device: Device)
      ensures Valid() && level == IntOff && status == SystemMode && !inHandler && !yieldOnReturn
      ensures this.device == device && clock == Initial() && clock.total == 0 && clock.pending == []
    {
      this.device := device;
      clock := Initial();
      level := IntOff;
      status := SystemMode;
      inHandler := false;
      yieldOnReturn := false;
      InitialReachable();
    }

    /** Changes the level without a tick. */
    method ChangeLevel(now: IntStatus)
      modifies this`level
      ensures level == now
    {
      level := now;
    }

    /** Enabling interrupts that were off takes a tick; handlers may not enable them. */
    method SetLevel(now: IntStatus) returns (previous: IntStatus, mustYield: bool)
      requires Valid() && (now == IntOff || !inHandler)
      modifies this
      ensures Valid() && previous == old(level) && level == now && inHandler == old(inHandler) && status == old(status)
      ensures !(now == IntOn && previous == IntOff) ==> clock == old(clock) && !mustYield
      ensures now == IntOn && previous == IntOff ==>
        && TickPassed(old(clock), clock, old(status) == SystemMode, device)
        && clock.total == old(clock).total + (if old(status) == SystemMode then 10 else 1)
        && clock.system == old(clock).system + (if old(status) == SystemMode then 10 else 0)
        && clock.user == old(clock).user + (if old(status) == SystemMode then 0 else 1)
        && clock.idle == old(clock).idle
        && (mustYield <==> old(yieldOnReturn) || AskedToYield(|old(clock).fired|, clock.fired, device))
    {
      previous := level;
      ChangeLevel(now);
      mustYield := false;
      if now == IntOn && previous == IntOff {
        mustYield := OneTick();
      }
    }

    /** Advances time by one tick and fires all that is then due. The result says whether the current thread
        must now yield. */
    method OneTick() returns (mustYield: bool)
      requires Reachable(clock) && !FrontDue(clock) && !inHandler
      modifies this
      ensures Valid() && level == IntOn && !inHandler && status == old(status)
      ensures TickPassed(old(clock), clock, old(status) == SystemMode, device)
      ensures clock.total == old(clock).total + if old(status) == SystemMode then 10 else 1
      ensures clock.system == old(clock).system + if old(status) == SystemMode then 10 else 0
      ensures clock.user == old(clock).user + if old(status) == SystemMode then 0 else 1
      ensures clock.idle == old(clock).idle
      ensures mustYield <==> old(yieldOnReturn) || AskedToYield(|old(clock).fired|, clock.fired, device)
      ensures !yieldOnReturn
    {
      NextReachable(clock, Tick(status == SystemMode));
      if status == SystemMode {
        clock := clock.(total := clock.total + SYSTEM_TICK, system := clock.system + SYSTEM_TICK);
      } else {
        clock := clock.(total := clock.total + USER_TICK, user := clock.user + USER_TICK);
      }
      assert clock == Ticked(old(clock), old(status) == SystemMode);
      ReachableIsSound(clock);
      DrainedFires(clock, device);
      ChangeLevel(IntOff);
      var fired := CheckIfDue(false);
      ChangeLevel(IntOn);
      mustYield := yieldOnReturn;
      yieldOnReturn := false;
    }

    /** Called by a handler, to have the interrupted thread yield afterwards. */
    method YieldOnReturn()
      requires inHandler
      modifies this`yieldOnReturn
      ensures yieldOnReturn
    {
      yieldOnReturn := true;
    }

    /** Nothing is ready: go to the next interrupt, or stop if there is none. */
    method Idle() returns (halted: bool)
      requires Valid() && !inHandler && level == IntOff
      modifies this
      ensures Valid() && level == IntOff && !inHandler
      ensures halted <==> old(clock).pending == []
      ensures halted ==> status == IdleMode && clock == old(clock)
      ensures yieldOnReturn <==> old(yieldOnReturn) || AskedToYield(|old(clock).fired|, clock.fired, device)
      ensures !halted ==>
        && status == SystemMode && clock == Drained(Skipped(old(clock)), device)
        && clock.total == old(clock).pending[0].when
        && clock.idle - old(clock).idle == clock.total - old(clock).total
        && clock.system == old(clock).system && clock.user == old(clock).user
        && clock.fired == old(clock).fired + Firings(Due(Skipped(old(clock))), clock.total)
    {
      status := IdleMode;
      if clock.pending != [] {
        NextReachable(clock, Skip);
        ReachableIsSound(Skipped(clock));
        DrainedFires(Skipped(clock), device);
      }
      var fired := CheckIfDue(true);
      if fired {
        status := SystemMode;
        return false;
      }
      return true;
    }

    method Schedule(fromNow: int)
      requires fromNow > 0 && Reachable(clock)
      modifies this`clock
      ensures clock == Scheduled(old(clock), fromNow) && Reachable(clock)
      ensures FrontDue(clock) <==> FrontDue(old(clock))
    {
      NextReachable(clock, Clocks.Schedule(fromNow));
      ScheduleNotDue(clock, fromNow);
      var when := clock.total + fromNow;
      var toOccur := PendingInterrupt(when, |clock.requested|);
      clock := clock.(pending := Inserted(clock.pending, toOccur, PendingCompare), requested := clock.requested + [when]);
    }

    /** The handler of the interrupt that just fired. */
    method CallBack()
      requires inHandler && Reachable(clock)
      modifies this`clock, this`yieldOnReturn
      ensures clock == Handled(old(clock), device(old(clock).fired).delays) && Reachable(clock)
      ensures yieldOnReturn <==> old(yieldOnReturn) || device(old(clock).fired).mustYield
    {
      var response := device(clock.fired);
      var i := 0;
      while i < |response.delays|
        invariant 0 <= i <= |response.delays|
        invariant clock == Handled(old(clock), response.delays[..i]) && Reachable(clock)
        invariant yieldOnReturn == old(yieldOnReturn)
      {
        NextHandled(old(clock), response.delays, i);
        Schedule(response.delays[i]);
        i := i + 1;
      }
      assert response.delays[..i] == response.delays;
      HandledDue(old(clock), response.delays);
      if response.mustYield {
        YieldOnReturn();
      }
    }

    /** Fires all interrupts that are due, in order; if told to, first goes to the time of the next one. */
    method CheckIfDue(advanceClock: bool) returns (any: bool)
      requires Reachable(clock) && !inHandler && level == IntOff
      modifies this`clock, this`inHandler, this`yieldOnReturn
      ensures Reachable(clock) && !FrontDue(clock) && !inHandler
      ensures any <==> old(clock).pending != [] && (advanceClock || FrontDue(old(clock)))
      ensures !any ==> clock == old(clock)
      ensures any ==> clock == Drained(if FrontDue(old(clock)) then old(clock) else Skipped(old(clock)), device)
      ensures yieldOnReturn <==> old(yieldOnReturn) || AskedToYield(|old(clock).fired|, clock.fired, device)
    {
      if clock.pending == [] {
        return false;
      }
      var next := clock.pending[0];
      if next.when > clock.total {
        if !advanceClock {
          return false;
        }
        NextReachable(clock, Skip);
        clock := clock.(idle := clock.idle + (next.when - clock.total));
        clock := clock.(total := next.when);
        assert clock == Skipped(old(clock));
      }
      FireAll();
      return true;
    }

    /** The handler loop. It ends, because each turn leaves one fewer interrupt due. */
    method FireAll()
      requires Reachable(clock) && FrontDue(clock) && level == IntOff && !inHandler
      modifies this`clock, this`inHandler, this`yieldOnReturn
      ensures Reachable(clock) && !FrontDue(clock) && !inHandler && clock == Drained(old(clock), device)
      ensures old(clock).fired <= clock.fired
      ensures yieldOnReturn <==> old(yieldOnReturn) || AskedToYield(|old(clock).fired|, clock.fired, device)
    {
      inHandler := true;
      AskedOnceMore(|clock.fired|, clock.fired, Firing(clock.pending[0], clock.total), device);
      FireFront();
      while clock.pending != [] && clock.pending[0].when <= clock.total
        invariant Reachable(clock) && inHandler && Drained(clock, device) == Drained(old(clock), device)
        invariant old(clock).fired < clock.fired
        invariant yieldOnReturn <==> old(yieldOnReturn) || AskedToYield(|old(clock).fired|, clock.fired, device)
        decreases |Due(clock)|
      {
        AskedOnceMore(|old(clock).fired|, clock.fired, Firing(clock.pending[0], clock.total), device);
        FireFront();
      }
      inHandler := false;
    }

    /** One turn: take the front off the queue, and call its handler. */
    method FireFront()
      requires Reachable(clock) && FrontDue(clock) && inHandler
      modifies this`clock, this`yieldOnReturn
      ensures clock == Served(old(clock), device) && Reachable(clock)
      ensures clock.fired == old(clock).fired + [Firing(old(clock).pending[0], clock.total)]
      ensures |Due(clock)| == |Due(old(clock))| - 1
      ensures yieldOnReturn <==> old(yieldOnReturn) || device(clock.fired).mustYield
    {
      ServedOneFewer(clock, device);
      NextReachable(clock, Fire);
      var next := clock.pending[0];
      clock := clock.(fired := clock.fired + [Firing(next, clock.total)], pending := clock.pending[1..]);
      CallBack();
    }
  }

  /** A tick of the mode passed, and then just what was due fired, in order; nothing is due now. */
  ghost predicate TickPassed(c: Clock, d: Clock, systemMode: bool, device: Device) {
    var now := Ticked(c, systemMode);
    d == Drained(now, device) && SameTime(now, d) && d.fired == c.fired + Firings(Due(now), now.total) && !FrontDue(d)
  }
}
