/** Bit allocation maps (lib/bitmap.cc): flags packed 32 to a word. */
module Bitmaps {
  import opened Words

  const BITS_IN_WORD := 32

  /** The flags of a packed map, as a plain sequence. */
  function Unpack(map_: seq<word>, n: nat): (bits: seq<bool>)
    requires n <= BITS_IN_WORD * |map_|
    ensures |bits| == n
  {
    seq(n, b requires 0 <= b < n => Bit(map_[b / BITS_IN_WORD], b % BITS_IN_WORD))
  }

  /** How many flags are clear. */
  function CountClear(bits: seq<bool>): nat {
    if |bits| == 0 then 0 else CountClear(bits[..|bits| - 1]) + (if bits[|bits| - 1] then 0 else 1)
  }

  /** The lowest clear flag. */
  predicate IsFirstClear(bits: seq<bool>, k: int) {
    0 <= k < |bits| && !bits[k] && forall j :: 0 <= j < k ==> bits[j]
  }

  predicate AllSet(bits: seq<bool>) {
    forall j :: 0 <= j < |bits| ==> bits[j]
  }

  lemma {:induction false} CountClearUpdate(bits: seq<bool>, k: nat)
    requires k < |bits| && !bits[k]
    ensures CountClear(bits[k := true]) == CountClear(bits) - 1
  {
    var n := |bits| - 1;
    if k < n {
      CountClearUpdate(bits[..n], k);
      assert bits[k := true][..n] == bits[..n][k := true];
    } else {
      assert bits[k := true][..n] == bits[..n];
    }
  }

  lemma {:induction false} CountClearZero(bits: seq<bool>)
    ensures CountClear(bits) == 0 <==> AllSet(bits)
  {
    if |bits| > 0 {
      var n := |bits| - 1;
      CountClearZero(bits[..n]);
      assert forall j :: 0 <= j < n ==> bits[..n][j] == bits[j];
    }
  }

  lemma {:induction false} CountClearBound(bits: seq<bool>)
    ensures CountClear(bits) <= |bits|
  {
    if |bits| > 0 {
      CountClearBound(bits[..|bits| - 1]);
    }
  }

  /** One word of a packed map changes by setting or clearing a single bit: so does one flag. */
  lemma UnpackUpdate(map_: seq<word>, n: nat, which: nat, w: word, on: bool)
    requires which < n <= BITS_IN_WORD * |map_|
    requires forall j :: 0 <= j < 32 ==>
      (Bit(w, j) <==> if j == which % BITS_IN_WORD then on else Bit(map_[which / BITS_IN_WORD], j))
    ensures Unpack(map_[which / BITS_IN_WORD := w], n) == Unpack(map_, n)[which := on]
  {
    var bits := Unpack(map_[which / BITS_IN_WORD := w], n);
    forall b | 0 <= b < n
      ensures bits[b] == Unpack(map_, n)[which := on][b]
    {
      if b / BITS_IN_WORD == which / BITS_IN_WORD && b % BITS_IN_WORD == which % BITS_IN_WORD {
        assert b == which;
      }
    }
  }

  class Bitmap {
    const numBits: nat
    const numWords: nat
    const map_: array<word>

    ghost predicate Valid()
      reads this
    {
      && numBits > 0
      && numWords == numBits / BITS_IN_WORD + (if numBits % BITS_IN_WORD > 0 then 1 else 0)
      && map_.Length == numWords
    }

    ghost function Bits(): (bits: seq<bool>)
      requires Valid()
      reads this, map_
      ensures |bits| == numBits
    {
      Unpack(map_[..], numBits)
    }

    constructor (numItems: nat)
      requires numItems > 0
      ensures Valid() && fresh(map_) && numBits == numItems
      ensures forall b :: 0 <= b < numItems ==> !Bits()[b]
    {
      numBits := numItems;
      var words := numItems / BITS_IN_WORD + (if numItems % BITS_IN_WORD > 0 then 1 else 0);
      numWords := words;
      map_ := new word[words];
      new;
      var i := 0;
      while i < numWords
        invariant 0 <= i <= numWords && Valid() && fresh(map_)
        invariant forall k :: 0 <= k < i ==> map_[k] == 0
      {
        map_[i] := 0;
        i := i + 1;
      }
      i := 0;
      while i < numBits
        invariant 0 <= i <= numBits && Valid() && fresh(map_)
        invariant forall b :: 0 <= b < i ==> !Bits()[b]
      {
        Clear(i);
        i := i + 1;
      }
    }

    method Mark(which: int)
      requires Valid() && 0 <= which < numBits
      modifies map_
      ensures Bits() == old(Bits())[which := true]
    {
      var w, k := which / BITS_IN_WORD, which % BITS_IN_WORD;
      ghost var before := map_[..];
      MaskIsWord(k);
      OrBelow(map_[w], Pow2(k), BITS_IN_WORD);
      map_[w] := Or(map_[w], Pow2(k));
      forall j | 0 <= j < 32
        ensures Bit(map_[w], j) <==> if j == k then true else Bit(before[w], j)
      {
        OrBit(before[w], Pow2(k), j);
        Pow2Bit(k, j);
      }
      UnpackUpdate(before, numBits, which, map_[w], true);
      assert map_[..] == before[w := map_[w]];
    }

    method Clear(which: int)
      requires Valid() && 0 <= which < numBits
      modifies map_
      ensures Bits() == old(Bits())[which := false]
    {
      var w, k := which / BITS_IN_WORD, which % BITS_IN_WORD;
      ghost var before := map_[..];
      MaskIsWord(k);
      AndBelow(map_[w], Not(Pow2(k), BITS_IN_WORD));
      map_[w] := And(map_[w], Not(Pow2(k), BITS_IN_WORD));
      forall j | 0 <= j < 32
        ensures Bit(map_[w], j) <==> if j == k then false else Bit(before[w], j)
      {
        AndBit(before[w], Not(Pow2(k), BITS_IN_WORD), j);
        NotBit(Pow2(k), BITS_IN_WORD, j);
        Pow2Bit(k, j);
      }
      UnpackUpdate(before, numBits, which, map_[w], false);
      assert map_[..] == before[w := map_[w]];
    }

    method Test(which: int) returns (set_: bool)
      requires Valid() && 0 <= which < numBits
      ensures set_ == Bits()[which]
    {
      AndNonZero(map_[which / BITS_IN_WORD], which % BITS_IN_WORD);
      set_ := And(map_[which / BITS_IN_WORD], Pow2(which % BITS_IN_WORD)) != 0;
    }

    /** Claims the lowest clear flag; -1 and no change when there is none. */
    method FindAndSet() returns (found: int)
      requires Valid()
      modifies map_
      ensures found == -1 ==> AllSet(old(Bits())) && Bits() == old(Bits())
      ensures found != -1 ==> IsFirstClear(old(Bits()), found) && Bits() == old(Bits())[found := true]
    {
      var i := 0;
      while i < numBits
        invariant 0 <= i <= numBits
        invariant Bits() == old(Bits())
        invariant forall j :: 0 <= j < i ==> Bits()[j]
      {
        var marked := Test(i);
        if !marked {
          Mark(i);
          return i;
        }
        i := i + 1;
      }
      return -1;
    }

    method NumClear() returns (count: nat)
      requires Valid()
      ensures count == CountClear(Bits())
    {
      count := 0;
      var i := 0;
      while i < numBits
        invariant 0 <= i <= numBits
        invariant count == CountClear(Bits()[..i])
      {
        assert Bits()[..i + 1][..i] == Bits()[..i];
        var marked := Test(i);
        if !marked {
          count := count + 1;
        }
        i := i + 1;
      }
      assert Bits()[..numBits] == Bits();
    }
  }

  lemma MaskIsWord(k: nat)
    requires k < BITS_IN_WORD
    ensures Pow2(k) < Pow2(BITS_IN_WORD) == 0x1_0000_0000
  {
    Pow2Of32();
    Pow2Monotone(k, BITS_IN_WORD);
  }
}
