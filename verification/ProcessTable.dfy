/** The code of the table for those steps (threads/ptable.cc, threads/pcb.cc), on fields updated in place. The
    process that runs is an argument. */
module ProcessTables {
  import opened Options
  import opened Bitmaps
  import opened ProcessTableSpec

  class PTable {
    var used: seq<bool>
    var pcbs: seq<Option<Pcb>>
    var bmsem: nat
    /** How far each process has got. */
    var stages: seq<Stage>

    ghost function State(): Table
      reads this
    {
      Table(used, pcbs, bmsem, stages)
    }

    constructor ()
      ensures State() == Initial()
    {
      used := seq(MAX_PROCESS, i => false);
      pcbs := seq(MAX_PROCESS, i => None);
      stages := seq(MAX_PROCESS, i => NotStarted);
      bmsem := 1;
      new;
      pcbs := pcbs[0 := Some(NewPcb(0))];
      used := used[0 := true];
      stages := stages[0 := Running];
    }

    /** The bitmap's FindAndSet. */
    method FindAndSet() returns (pid: int)
      modifies this`used
      ensures pid == FirstFree(old(used))
      ensures used == if pid == -1 then old(used) else old(used)[pid := true]
    {
      var i := 0;
      while i < |used|
        invariant 0 <= i <= |used| && used == old(used)
        invariant forall j :: 0 <= j < i ==> used[j]
        invariant FirstFree(used) == FreeFrom(used, i)
      {
        if !used[i] {
          used := used[i := true];
          return i;
        }
        i := i + 1;
      }
      return -1;
    }

    /** ExecUpdate: bmsem->P() has its unit. */
    method EnterTable(p: nat)
      requires Enabled(State(), p, Event.EnterTable)
      modifies this
      ensures State() == Next(old(State()), p, Event.EnterTable)
    {
      bmsem := bmsem - 1;
      stages := stages[p := InTable];
    }

    method FindPid(p: nat)
      requires Enabled(State(), p, Event.FindPid)
      modifies this
      ensures State() == Next(old(State()), p, Event.FindPid)
    {
      var pid := FindAndSet();
      stages := stages[p := Found(pid)];
    }

    method MakePcb(p: nat)
      requires Enabled(State(), p, Event.MakePcb)
      modifies this
      ensures State() == Next(old(State()), p, Event.MakePcb)
    {
      var pid := stages[p].pid;
      pcbs := pcbs[pid := Some(NewPcb(p))];
      stages := stages[p := Made(pid)];
    }

    /** bmsem->V(), on either way out; the result of a failed Exec is -1. */
    method LeaveTable(p: nat) returns (failed: bool)
      requires Enabled(State(), p, Event.LeaveTable)
      modifies this
      ensures State() == Next(old(State()), p, Event.LeaveTable)
      ensures failed <==> old(stages[p]).Found?
    {
      failed := stages[p].Found?;
      bmsem := bmsem + 1;
      stages := stages[p := if failed then Running else Execing(stages[p].pid)];
    }

    /** PCB::Exec: forks the process, unless its PCB has a name already. */
    method Exec(p: nat) returns (result: int)
      requires Enabled(State(), p, StartThread) && stages[p].pid != p
      modifies this
      ensures State() == Next(old(State()), p, StartThread)
      ensures result == if PcbOf(old(State()), old(stages[p].pid)).named then -1 else 0
    {
      var c := stages[p].pid;
      var b := pcbs[c].value;
      if b.named {
        stages := stages[p := Running];
        return -1;
      }
      pcbs := pcbs[c := Some(b.(named := true))];
      stages := stages[c := Running];
      stages := stages[p := Running];
      return 0;
    }

    /** JoinUpdate, up to JoinWait; only a parent may join. */
    method CallJoin(p: nat, pid: nat) returns (refused: bool)
      requires Enabled(State(), p, Event.CallJoin(pid))
      modifies this
      ensures State() == Next(old(State()), p, Event.CallJoin(pid))
      ensures refused <==> !(Exists(old(State()), pid) && PcbOf(old(State()), pid).parent == p)
    {
      if pcbs[pid].None? || pcbs[pid].value.parent != p {
        return true;
      }
      stages := stages[p := Joining(pid)];
      return false;
    }

    method PassJoinWait(p: nat)
      requires Enabled(State(), p, Event.PassJoinWait)
      modifies this
      ensures State() == Next(old(State()), p, Event.PassJoinWait)
    {
      var c := stages[p].child;
      var b := pcbs[c].value;
      pcbs := pcbs[c := Some(b.(joinsem := b.joinsem - 1, joins := b.joins + 1))];
      stages := stages[p := Joined(c)];
    }

    method IncNumWait(p: nat)
      requires Enabled(State(), p, CountJoin)
      modifies this
      ensures State() == Next(old(State()), p, CountJoin)
    {
      var b := pcbs[p].value;
      pcbs := pcbs[p := Some(b.(numwait := b.numwait + 1))];
      stages := stages[p := Counted(stages[p].child)];
    }

    method ExitRelease(p: nat)
      requires Enabled(State(), p, Event.ExitRelease)
      modifies this
      ensures State() == Next(old(State()), p, Event.ExitRelease)
    {
      var b := pcbs[p].value;
      pcbs := pcbs[p := Some(b.(exitsem := b.exitsem + 1, releases := b.releases + 1))];
      stages := stages[p := Running];
    }

    /** ExitUpdate, in the order of its calls. */
    method SetExitCode(p: nat, ec: int)
      requires Enabled(State(), p, CallExit(ec))
      modifies this
      ensures State() == Next(old(State()), p, CallExit(ec))
    {
      var b := pcbs[p].value;
      pcbs := pcbs[p := Some(b.(exitcode := Some(ec)))];
      stages := stages[p := Coded];
    }

    method JoinRelease(p: nat)
      requires Enabled(State(), p, Event.JoinRelease)
      modifies this
      ensures State() == Next(old(State()), p, Event.JoinRelease)
    {
      var b := pcbs[p].value;
      pcbs := pcbs[p := Some(b.(joinsem := b.joinsem + 1))];
      stages := stages[p := Released];
    }

    method DecNumWait(p: nat)
      requires Enabled(State(), p, CountExit)
      modifies this
      ensures State() == Next(old(State()), p, CountExit)
    {
      var q := pcbs[p].value.parent;
      var b := pcbs[q].value;
      pcbs := pcbs[q := Some(b.(numwait := b.numwait - 1))];
      stages := stages[p := Uncounted];
    }

    method PassExitWait(p: nat)
      requires Enabled(State(), p, Event.PassExitWait)
      modifies this
      ensures State() == Next(old(State()), p, Event.PassExitWait)
    {
      var q := pcbs[p].value.parent;
      var b := pcbs[q].value;
      pcbs := pcbs[q := Some(b.(exitsem := b.exitsem - 1))];
      stages := stages[p := Finished(true)];
    }
  }
}
