/** Taking flags of a bitmap one after another, each time the lowest clear one: sectors for a file, frames for
    an address space. */
module Allocations {
  import opened Bitmaps

  /** The sectors are clear, in increasing order, and no clear sector below the last is passed over. */
  predicate LowestClear(bits: seq<bool>, taken: seq<int>) {
    && (forall i :: 0 <= i < |taken| ==> 0 <= taken[i] < |bits| && !bits[taken[i]])
    && (forall i, j :: 0 <= i < j < |taken| ==> taken[i] < taken[j])
    && (forall b :: 0 <= b < |bits| && !bits[b] && b !in taken && |taken| > 0 ==> taken[|taken| - 1] < b)
  }

  /** The flags after marking some sectors, or after clearing them. */
  function Marked(bits: seq<bool>, taken: set<int>): (r: seq<bool>)
    ensures |r| == |bits|
  {
    seq(|bits|, b requires 0 <= b < |bits| => bits[b] || b in taken)
  }

  function Cleared(bits: seq<bool>, freed: set<int>): (r: seq<bool>)
    ensures |r| == |bits|
  {
    seq(|bits|, b requires 0 <= b < |bits| => bits[b] && b !in freed)
  }

  function Elements(s: seq<int>): set<int> {
    set i | 0 <= i < |s| :: s[i]
  }

  /** An allocation under way: the sectors taken so far, and the flags as they now stand. */
  ghost predicate Taking(before: seq<bool>, now: seq<bool>, taken: seq<int>) {
    && LowestClear(before, taken)
    && now == Marked(before, Elements(taken))
    && CountClear(now) == CountClear(before) - |taken|
  }

  /** Claiming the lowest flag that is still clear carries it on. */
  lemma TakeOne(before: seq<bool>, now: seq<bool>, taken: seq<int>, k: int)
    requires Taking(before, now, taken) && IsFirstClear(now, k)
    ensures Taking(before, now[k := true], taken + [k])
  {
    CountClearUpdate(now, k);
    TakeOneLowest(before, now, taken, k);
    TakeOneMarked(before, now, taken, k);
  }

  lemma TakeOneLowest(before: seq<bool>, now: seq<bool>, taken: seq<int>, k: int)
    requires LowestClear(before, taken) && now == Marked(before, Elements(taken)) && IsFirstClear(now, k)
    ensures LowestClear(before, taken + [k])
  {
    assert forall i :: 0 <= i < |taken| ==> taken[i] in Elements(taken);
    forall i | 0 <= i < |taken|
      ensures taken[i] < k
    {
      assert now[taken[i]];
      assert k in taken ==> k in Elements(taken);
    }
    forall b | 0 <= b < |before| && !before[b] && b !in taken + [k]
      ensures k < b
    {
      assert b !in taken && b != k;
      assert !now[b];
    }
  }

  lemma TakeOneMarked(before: seq<bool>, now: seq<bool>, taken: seq<int>, k: int)
    requires now == Marked(before, Elements(taken)) && 0 <= k < |before|
    ensures now[k := true] == Marked(before, Elements(taken + [k]))
  {
    var more := taken + [k];
    assert forall i :: 0 <= i < |taken| ==> more[i] == taken[i];
    assert more[|taken|] == k;
    assert Elements(more) == Elements(taken) + {k};
  }

  lemma TakeNone(before: seq<bool>)
    ensures Taking(before, before, [])
  {
    assert Marked(before, Elements([])) == before;
  }
}
