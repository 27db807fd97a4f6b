/** How long a disk request takes (machine/disk.cc): seek, rotation, and the track buffer. Time is counted in
    ticks; sectors pass under the head every 500 ticks, and tracks are 500 ticks apart. */
module DiskLatency {
  import opened Disks

  // SeekTime and RotationTime, 500 each, and the 32 sectors of a track are written as numerals in
  // divisions, which keeps them linear for the solver.
  const ROTATION_TIME := 500

  /** A transfer of the sector can start: at a sector boundary, with the right rotation under the head. */
  predicate StartsAt(sector: nat, b: nat) {
    b % 500 == 0 && (b / 500) % 32 == sector % 32
  }

  /** That is, after any number of whole turns and the sectors before it on the track. */
  lemma StartMeans(sector: nat, b: nat)
    ensures StartsAt(sector, b) <==> exists turns: nat :: b == 16000 * turns + 500 * (sector % 32)
  {
    if StartsAt(sector, b) {
      var n := b / 500;
      assert b == 500 * n && n == 32 * (n / 32) + sector % 32;
      assert b == 16000 * (n / 32) + 500 * (sector % 32);
    }
    if turns: nat :| b == 16000 * turns + 500 * (sector % 32) {
      assert b == 500 * (32 * turns + sector % 32);
      assert b / 500 == 32 * turns + sector % 32;
    }
  }

  /** The first start from a moment on. */
  ghost predicate FirstStart(sector: nat, from: nat, b: nat) {
    from <= b && StartsAt(sector, b) && forall c :: from <= c < b ==> !StartsAt(sector, c)
  }

  /** The track buffer has taken in the whole sector since it began to fill. */
  ghost predicate InBuffer(sector: nat, bufferInit: nat, until: nat) {
    exists b :: bufferInit <= b && b + ROTATION_TIME <= until && StartsAt(sector, b)
  }

  function Distance(a: int, b: int): (d: nat)
    ensures d == a - b || d == b - a
  {
    if a < b then b - a else a - b
  }

  /** The next sector boundary. */
  function RoundUp(t: nat): (r: nat)
    ensures t <= r < t + 500 && r % 500 == 0
  {
    if t % 500 == 0 then t else t + (500 - t % 500)
  }

  // ---- the arithmetic of rotation ----

  function Ahead(to: nat, from: nat): nat {
    ((to % 32 - from % 32) + 32) % 32
  }

  /** The sector comes under the head that many sectors from now, and not before. */
  lemma AheadMeets(to: nat, from: nat, j: nat)
    requires j <= Ahead(to, from)
    ensures (from + j) % 32 == to % 32 <==> j == Ahead(to, from)
  {
    var t, f := to % 32, from % 32;
    var q := from / 32;
    assert from == 32 * q + f;
    if f + j < 32 {
      assert (from + j) / 32 == q;
    } else {
      assert (from + j) / 32 == q + 1;
    }
  }

  /** Starts are met in order, from a sector boundary on. */
  lemma FirstFromBoundary(sector: nat, from: nat, boundary: nat)
    requires boundary == RoundUp(from)
    ensures FirstStart(sector, from, boundary + 500 * Ahead(sector, boundary / 500))
  {
    var q, d := boundary / 500, Ahead(sector, boundary / 500);
    AheadMeets(sector, q, d);
    assert (boundary + 500 * d) / 500 == q + d;
    forall c | from <= c < boundary + 500 * d
      ensures !StartsAt(sector, c)
    {
      NotSooner(sector, from, boundary, c);
    }
  }

  lemma NotSooner(sector: nat, from: nat, boundary: nat, c: nat)
    requires boundary == RoundUp(from) && from <= c < boundary + 500 * Ahead(sector, boundary / 500)
    ensures !StartsAt(sector, c)
  {
    if c % 500 == 0 {
      var q := boundary / 500;
      var j := c / 500 - q;
      assert c == 500 * (q + j) && boundary == 500 * q;
      AheadMeets(sector, q, j);
    }
  }

  /** The comparison that decides whether the buffer serves a read. */
  lemma BufferTest(sector: nat, bufferInit: nat, until: nat)
    requires bufferInit % 500 == 0 && until % 500 == 0
    ensures (until - bufferInit) / 500 > Ahead(sector, bufferInit / 500) <==> InBuffer(sector, bufferInit, until)
  {
    var q, d := bufferInit / 500, Ahead(sector, bufferInit / 500);
    var b := bufferInit + 500 * d;
    FirstFromBoundary(sector, bufferInit, bufferInit);
    assert bufferInit == 500 * q && until == 500 * (until / 500);
    if (until - bufferInit) / 500 > d {
      assert b + 500 <= until && StartsAt(sector, b);
    }
    if InBuffer(sector, bufferInit, until) {
      var c :| bufferInit <= c && c + ROTATION_TIME <= until && StartsAt(sector, c);
      assert b <= c;
    }
  }

  class DiskHead {
    var lastSector: nat
    var bufferInit: nat

    ghost predicate Valid()
      reads this
    {
      lastSector < NUM_SECTORS && bufferInit % 500 == 0
    }

    constructor ()
      ensures Valid() && lastSector == 0 && bufferInit == 0
    {
      lastSector, bufferInit := 0, 0;
    }

    /** The time to reach the sector's track, and from then to the next sector boundary. */
    method TimeToSeek(newSector: nat, totalTicks: nat) returns (seek: nat, rotation: nat)
      ensures seek == 500 * Distance(newSector / 32, lastSector / 32)
      ensures seek == 500 * if newSector / 32 >= lastSector / 32 then newSector / 32 - lastSector / 32
                            else lastSector / 32 - newSector / 32
      ensures totalTicks + seek + rotation == RoundUp(totalTicks + seek)
      ensures 0 <= rotation < 500 && (totalTicks + seek + rotation) % 500 == 0
    {
      var newTrack := newSector / 32;
      var oldTrack := lastSector / 32;
      seek := Distance(newTrack, oldTrack) * 500;
      var over := (totalTicks + seek) % 500;
      rotation := 0;
      if over > 0 {
        rotation := 500 - over;
      }
    }

    /** The latency of a request made now: a read of what is in the track buffer takes one transfer, anything
        else starts at the first chance after the seek. */
    method ComputeLatency(newSector: nat, writing: bool, totalTicks: nat) returns (latency: nat)
      requires Valid() && newSector < NUM_SECTORS
      ensures
        var arrival := totalTicks + 500 * Distance(newSector / 32, lastSector / 32);
        if !writing && newSector / 32 == lastSector / 32 && InBuffer(newSector, bufferInit, RoundUp(totalTicks))
        then latency == ROTATION_TIME
        else latency >= ROTATION_TIME && FirstStart(newSector, arrival, totalTicks + latency - ROTATION_TIME)
      ensures 500 <= latency < 32000
    {
      hide FirstStart, StartsAt, InBuffer, RoundUp;
      var seek, rotation := TimeToSeek(newSector, totalTicks);
      var timeAfter := totalTicks + seek + rotation;
      BufferTest(newSector, bufferInit, timeAfter);
      if !writing && seek == 0 && (timeAfter - bufferInit) / 500 > Ahead(newSector, bufferInit / 500) {
        return 500;
      }
      FirstFromBoundary(newSector, totalTicks + seek, timeAfter);
      rotation := rotation + Ahead(newSector, timeAfter / 500) * 500;
      return seek + rotation + 500;
    }

    /** The head moves on; a seek starts the track buffer anew, at the first sector boundary after it. */
    method UpdateLast(newSector: nat, totalTicks: nat)
      requires Valid() && newSector < NUM_SECTORS
      modifies this
      ensures Valid() && lastSector == newSector
      ensures bufferInit == if newSector / 32 == old(lastSector) / 32 then old(bufferInit)
                            else RoundUp(totalTicks + 500 * Distance(newSector / 32, old(lastSector) / 32))
    {
      var seek, rotate := TimeToSeek(newSector, totalTicks);
      if seek != 0 {
        bufferInit := totalTicks + seek + rotate;
      }
      lastSector := newSector;
    }
  }
}
