/** The byte shuffling of LWL, LWR, SWL and SWR (machine/mipssim.cc, the SIM_FIX branches): what the
    shifts and masks do to the four bytes of a word. */
module Unaligned {

  /** Byte j of a word, the lowest first. */
  function ByteOf(w: bv32, j: nat): bv8
    requires j < 4
  {
    if j == 0 then (w & 0xff) as bv8
    else if j == 1 then ((w >> 8) & 0xff) as bv8
    else if j == 2 then ((w >> 16) & 0xff) as bv8
    else ((w >> 24) & 0xff) as bv8
  }

  /** The word whose bytes in memory are b0..b3. */
  function WordOf(b0: bv8, b1: bv8, b2: bv8, b3: bv8): bv32 {
    (b0 as bv32) | (b1 as bv32 << 8) | (b2 as bv32 << 16) | (b3 as bv32 << 24)
  }

  lemma WordOfBytes(b0: bv8, b1: bv8, b2: bv8, b3: bv8)
    ensures var w := WordOf(b0, b1, b2, b3);
      ByteOf(w, 0) == b0 && ByteOf(w, 1) == b1 && ByteOf(w, 2) == b2 && ByteOf(w, 3) == b3
  {}

  lemma BytesOfWord(w: bv32)
    ensures WordOf(ByteOf(w, 0), ByteOf(w, 1), ByteOf(w, 2), ByteOf(w, 3)) == w
  {}

  // ---- loads: into the pending value of a register, from the aligned word around the address ----

  /** LWL. */
  function MergeLeft(pending: bv32, value: bv32, byte: nat): bv32
    requires byte < 4
  {
    match 3 - byte
    case 0 => value
    case 1 => (pending & 0xff) | (value << 8)
    case 2 => (pending & 0xffff) | (value << 16)
    case _ => (pending & 0xffffff) | (value << 24)
  }

  /** LWR. */
  function MergeRight(pending: bv32, value: bv32, byte: nat): bv32
    requires byte < 4
  {
    match 3 - byte
    case 0 => (pending & 0xffffff00) | ((value >> 24) & 0xff)
    case 1 => (pending & 0xffff0000) | ((value >> 16) & 0xffff)
    case 2 => (pending & 0xff000000) | ((value >> 8) & 0xffffff)
    case _ => value
  }

  // ---- stores: from a register, into the aligned word around the address ----

  /** SWL. */
  function StoreLeft(value: bv32, reg: bv32, byte: nat): bv32
    requires byte < 4
  {
    match 3 - byte
    case 0 => reg
    case 1 => (value & 0xff000000) | ((reg >> 8) & 0xffffff)
    case 2 => (value & 0xffff0000) | ((reg >> 16) & 0xffff)
    case _ => (value & 0xffffff00) | ((reg >> 24) & 0xff)
  }

  /** SWR. */
  function StoreRight(value: bv32, reg: bv32, byte: nat): bv32
    requires byte < 4
  {
    match 3 - byte
    case 0 => (value & 0xffffff) | (reg << 24)
    case 1 => (value & 0xffff) | (reg << 16)
    case 2 => (value & 0xff) | (reg << 8)
    case _ => reg
  }

  // ---- the two patterns underneath, for each boundary ----

  /** The n low bytes of one word below the low bytes of the other. */
  predicate Below(w: bv32, low: bv32, high: bv32, n: nat)
    requires n < 4
  {
    forall j :: 0 <= j < 4 ==> ByteOf(w, j) == if j < n then ByteOf(low, j) else ByteOf(high, j - n)
  }

  /** The high bytes of one word below the n high bytes of the other. */
  predicate Above(w: bv32, low: bv32, high: bv32, n: nat)
    requires n < 4
  {
    forall j :: 0 <= j < 4 ==> ByteOf(w, j) == if j < 4 - n then ByteOf(low, j + n) else ByteOf(high, j)
  }

  lemma Below1(low: bv32, high: bv32)
    ensures Below((low & 0xff) | (high << 8), low, high, 1)
  {
    var w := (low & 0xff) | (high << 8);
    assert ByteOf(w, 0) == ByteOf(low, 0) && ByteOf(w, 1) == ByteOf(high, 0);
    assert ByteOf(w, 2) == ByteOf(high, 1) && ByteOf(w, 3) == ByteOf(high, 2);
  }

  lemma Below2(low: bv32, high: bv32)
    ensures Below((low & 0xffff) | (high << 16), low, high, 2)
  {
    var w := (low & 0xffff) | (high << 16);
    assert ByteOf(w, 0) == ByteOf(low, 0) && ByteOf(w, 1) == ByteOf(low, 1);
    assert ByteOf(w, 2) == ByteOf(high, 0) && ByteOf(w, 3) == ByteOf(high, 1);
  }

  lemma Below3(low: bv32, high: bv32)
    ensures Below((low & 0xffffff) | (high << 24), low, high, 3)
  {
    var w := (low & 0xffffff) | (high << 24);
    assert ByteOf(w, 0) == ByteOf(low, 0) && ByteOf(w, 1) == ByteOf(low, 1);
    assert ByteOf(w, 2) == ByteOf(low, 2) && ByteOf(w, 3) == ByteOf(high, 0);
  }

  lemma Above1(low: bv32, high: bv32)
    ensures Above((high & 0xff000000) | ((low >> 8) & 0xffffff), low, high, 1)
  {
    var w := (high & 0xff000000) | ((low >> 8) & 0xffffff);
    assert ByteOf(w, 0) == ByteOf(low, 1) && ByteOf(w, 1) == ByteOf(low, 2);
    assert ByteOf(w, 2) == ByteOf(low, 3) && ByteOf(w, 3) == ByteOf(high, 3);
  }

  lemma Above2(low: bv32, high: bv32)
    ensures Above((high & 0xffff0000) | ((low >> 16) & 0xffff), low, high, 2)
  {
    var w := (high & 0xffff0000) | ((low >> 16) & 0xffff);
    assert ByteOf(w, 0) == ByteOf(low, 2) && ByteOf(w, 1) == ByteOf(low, 3);
    assert ByteOf(w, 2) == ByteOf(high, 2) && ByteOf(w, 3) == ByteOf(high, 3);
  }

  lemma Above3(low: bv32, high: bv32)
    ensures Above((high & 0xffffff00) | ((low >> 24) & 0xff), low, high, 3)
  {
    var w := (high & 0xffffff00) | ((low >> 24) & 0xff);
    assert ByteOf(w, 0) == ByteOf(low, 3) && ByteOf(w, 1) == ByteOf(high, 1);
    assert ByteOf(w, 2) == ByteOf(high, 2) && ByteOf(w, 3) == ByteOf(high, 3);
  }

  // ---- each instruction, byte by byte ----

  function Bytes(w: bv32): (s: seq<bv8>)
    ensures |s| == 4
  {
    [ByteOf(w, 0), ByteOf(w, 1), ByteOf(w, 2), ByteOf(w, 3)]
  }

  lemma CutBelow(s: seq<bv8>, l: seq<bv8>, h: seq<bv8>, n: nat)
    requires |s| == |l| == |h| == 4 && n < 4
    requires forall j :: 0 <= j < 4 ==> s[j] == if j < n then l[j] else h[j - n]
    ensures s == l[..n] + h[..4 - n]
  {}

  lemma CutAbove(s: seq<bv8>, l: seq<bv8>, h: seq<bv8>, n: nat)
    requires |s| == |l| == |h| == 4 && n < 4
    requires forall j :: 0 <= j < 4 ==> s[j] == if j < 4 - n then l[j + n] else h[j]
    ensures s == l[n..] + h[4 - n..]
  {}

  lemma BytesAt(w: bv32, j: nat)
    requires j < 4
    ensures Bytes(w)[j] == ByteOf(w, j)
  {}

  lemma BelowBytes(w: bv32, low: bv32, high: bv32, n: nat)
    requires n < 4 && Below(w, low, high, n)
    ensures Bytes(w) == Bytes(low)[..n] + Bytes(high)[..4 - n]
  {
    forall j | 0 <= j < 4
      ensures Bytes(w)[j] == if j < n then Bytes(low)[j] else Bytes(high)[j - n]
    {
      BytesAt(w, j);
      if j < n { BytesAt(low, j); } else { BytesAt(high, j - n); }
    }
    CutBelow(Bytes(w), Bytes(low), Bytes(high), n);
  }

  lemma AboveBytes(w: bv32, low: bv32, high: bv32, n: nat)
    requires n < 4 && Above(w, low, high, n)
    ensures Bytes(w) == Bytes(low)[n..] + Bytes(high)[4 - n..]
  {
    forall j | 0 <= j < 4
      ensures Bytes(w)[j] == if j < 4 - n then Bytes(low)[j + n] else Bytes(high)[j]
    {
      BytesAt(w, j);
      if j < 4 - n { BytesAt(low, j + n); } else { BytesAt(high, j); }
    }
    CutAbove(Bytes(w), Bytes(low), Bytes(high), n);
  }

  lemma MergeLeftBelow(pending: bv32, value: bv32, byte: nat)
    requires byte < 4
    ensures Below(MergeLeft(pending, value, byte), pending, value, 3 - byte)
  {
    match 3 - byte {
      case 0 =>
      case 1 => Below1(pending, value);
      case 2 => Below2(pending, value);
      case _ => Below3(pending, value);
    }
  }

  /** LWL puts the word's bytes up to the address at the top of the register. */
  lemma MergeLeftBytes(pending: bv32, value: bv32, byte: nat)
    requires byte < 4
    ensures Bytes(MergeLeft(pending, value, byte)) == Bytes(pending)[..3 - byte] + Bytes(value)[..byte + 1]
  {
    MergeLeftBelow(pending, value, byte);
    BelowBytes(MergeLeft(pending, value, byte), pending, value, 3 - byte);
  }

  lemma MergeRightAbove(pending: bv32, value: bv32, byte: nat)
    requires byte < 4
    ensures Above(MergeRight(pending, value, byte), value, pending, byte)
  {
    match 3 - byte {
      case 0 => Above3(value, pending);
      case 1 => Above2(value, pending);
      case 2 => Above1(value, pending);
      case _ =>
    }
  }

  /** LWR puts the word's bytes from the address on at the bottom of the register. */
  lemma MergeRightBytes(pending: bv32, value: bv32, byte: nat)
    requires byte < 4
    ensures Bytes(MergeRight(pending, value, byte)) == Bytes(value)[byte..] + Bytes(pending)[4 - byte..]
  {
    MergeRightAbove(pending, value, byte);
    AboveBytes(MergeRight(pending, value, byte), value, pending, byte);
  }

  lemma StoreLeftAbove(value: bv32, reg: bv32, byte: nat)
    requires byte < 4
    ensures Above(StoreLeft(value, reg, byte), reg, value, 3 - byte)
  {
    match 3 - byte {
      case 0 =>
      case 1 => Above1(reg, value);
      case 2 => Above2(reg, value);
      case _ => Above3(reg, value);
    }
  }

  /** SWL puts the register's top bytes into the word up to the address. */
  lemma StoreLeftBytes(value: bv32, reg: bv32, byte: nat)
    requires byte < 4
    ensures Bytes(StoreLeft(value, reg, byte)) == Bytes(reg)[3 - byte..] + Bytes(value)[byte + 1..]
  {
    StoreLeftAbove(value, reg, byte);
    AboveBytes(StoreLeft(value, reg, byte), reg, value, 3 - byte);
  }

  lemma StoreRightBelow(value: bv32, reg: bv32, byte: nat)
    requires byte < 4
    ensures Below(StoreRight(value, reg, byte), value, reg, byte)
  {
    match 3 - byte {
      case 0 => Below3(value, reg);
      case 1 => Below2(value, reg);
      case 2 => Below1(value, reg);
      case _ =>
    }
  }

  /** SWR puts the register's bottom bytes into the word from the address on. */
  lemma StoreRightBytes(value: bv32, reg: bv32, byte: nat)
    requires byte < 4
    ensures Bytes(StoreRight(value, reg, byte)) == Bytes(value)[..byte] + Bytes(reg)[..4 - byte]
  {
    StoreRightBelow(value, reg, byte);
    BelowBytes(StoreRight(value, reg, byte), value, reg, byte);
  }

  /** LWR, then LWL in the next word: the word's bytes from the boundary on, and the next word's up to it. */
  lemma MergeBoth(pending: bv32, low: bv32, high: bv32, byte: nat)
    requires 0 < byte < 4
    ensures Bytes(MergeLeft(MergeRight(pending, low, byte), high, byte - 1)) == Bytes(low)[byte..] + Bytes(high)[..byte]
  {
    var right := MergeRight(pending, low, byte);
    MergeRightBytes(pending, low, byte);
    MergeLeftBytes(right, high, byte - 1);
    KeepFront(Bytes(low)[byte..], Bytes(pending)[4 - byte..]);
  }

  lemma KeepFront(s: seq<bv8>, t: seq<bv8>)
    ensures (s + t)[..|s|] == s
  {}

  lemma SameBytes(w: bv32, x: bv32)
    requires Bytes(w) == Bytes(x)
    ensures w == x
  {
    BytesOfWord(w);
    BytesOfWord(x);
    assert Bytes(w)[0] == Bytes(x)[0] && Bytes(w)[1] == Bytes(x)[1] && Bytes(w)[2] == Bytes(x)[2] && Bytes(w)[3] == Bytes(x)[3];
  }
}
