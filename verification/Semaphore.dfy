/** A counting semaphore as everything above the kernel sees it (threads/synch.h): a number, and what was done to it.
    Runs of the kernel, of the monitors, of the disk and of the process table all contain runs of it. */
module Semaphores {

  /** A P that ends, by some thread; a look at the value by a P that finds no unit; a V; anything else. */
  datatype Use = Take(thread: nat) | FindNone(thread: nat) | Give | Other

  predicate Step(value: nat, u: Use, after: nat) {
    match u
    case Take(_) => value > 0 && after == value - 1
    case FindNone(_) => value == 0 == after
    case Give => after == value + 1
    case Other => after == value
  }

  predicate IsRun(values: seq<nat>, uses: seq<Use>) {
    && |values| == |uses| + 1
    && forall j :: 0 <= j < |uses| ==> Step(values[j], uses[j], values[j + 1])
  }

  function Takes(uses: seq<Use>): nat {
    if uses == [] then 0 else Takes(uses[..|uses| - 1]) + if uses[|uses| - 1].Take? then 1 else 0
  }

  function Gives(uses: seq<Use>): nat {
    if uses == [] then 0 else Gives(uses[..|uses| - 1]) + if uses[|uses| - 1].Give? then 1 else 0
  }

  /** No unit is made or lost: all the Ps that ended, by then, took units that were there first or that a V gave. */
  lemma {:induction false} UnitsConserved(values: seq<nat>, uses: seq<Use>, j: nat)
    requires IsRun(values, uses) && j <= |uses|
    ensures values[j] + Takes(uses[..j]) == values[0] + Gives(uses[..j])
  {
    if j > 0 {
      UnitsConserved(values, uses, j - 1);
      assert uses[..j][..j - 1] == uses[..j - 1];
      assert Step(values[j - 1], uses[j - 1], values[j]);
    }
  }
}
