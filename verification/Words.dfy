/** Bytes, unsigned 32-bit words, C ints and their little-endian layout. A word is the number it
    stands for; the bit operators of C are defined on its binary digits. */
module Words {

  type byte = b: int | 0 <= b < 0x100
  type word = w: int | 0 <= w < 0x1_0000_0000
  type int32 = n: int | -0x8000_0000 <= n < 0x8000_0000

  /** A C int that is not negative. */
  type offset = n: int32 | 0 <= n

  /** `1 << k`. */
  function Pow2(k: nat): (p: nat)
    ensures p > 0
  {
    if k == 0 then 1 else 2 * Pow2(k - 1)
  }

  /** Binary digit k of n. */
  predicate Bit(n: nat, k: nat) {
    if k == 0 then n % 2 == 1 else Bit(n / 2, k - 1)
  }

  function Digit(b: bool): nat {
    if b then 1 else 0
  }

  /** `m | n`. */
  function Or(m: nat, n: nat): nat {
    if m == 0 && n == 0 then 0 else Digit(m % 2 == 1 || n % 2 == 1) + 2 * Or(m / 2, n / 2)
  }

  /** `m & n`. */
  function And(m: nat, n: nat): nat {
    if m == 0 || n == 0 then 0 else Digit(m % 2 == 1 && n % 2 == 1) + 2 * And(m / 2, n / 2)
  }

  /** `~n` on words of the given width. */
  function Not(n: nat, width: nat): nat
    requires n < Pow2(width)
  {
    Pow2(width) - 1 - n
  }

  lemma {:induction false} OrBit(m: nat, n: nat, k: nat)
    ensures Bit(Or(m, n), k) == (Bit(m, k) || Bit(n, k))
  {
    if k > 0 {
      OrBit(m / 2, n / 2, k - 1);
    }
  }

  lemma {:induction false} AndBit(m: nat, n: nat, k: nat)
    ensures Bit(And(m, n), k) == (Bit(m, k) && Bit(n, k))
    decreases k
  {
    if m == 0 || n == 0 {
      ZeroBit(k);
    } else if k > 0 {
      AndBit(m / 2, n / 2, k - 1);
    }
  }

  lemma {:induction false} NotBit(n: nat, width: nat, k: nat)
    requires n < Pow2(width) && k < width
    ensures Bit(Not(n, width), k) == !Bit(n, k)
  {
    if k > 0 {
      NotBit(n / 2, width - 1, k - 1);
      assert Not(n, width) / 2 == Not(n / 2, width - 1);
    }
  }

  lemma {:induction false} ZeroBit(k: nat)
    ensures !Bit(0, k)
  {
    if k > 0 {
      ZeroBit(k - 1);
    }
  }

  lemma {:induction false} Pow2Bit(j: nat, k: nat)
    ensures Bit(Pow2(j), k) == (j == k)
  {
    if j > 0 && k > 0 {
      Pow2Bit(j - 1, k - 1);
    } else if k > 0 {
      ZeroBit(k - 1);
    }
  }

  lemma {:induction false} Pow2Monotone(j: nat, k: nat)
    requires j < k
    ensures Pow2(j) < Pow2(k)
  {
    if j < k - 1 {
      Pow2Monotone(j, k - 1);
    }
  }

  lemma {:induction false} AndNonZero(n: nat, k: nat)
    ensures (And(n, Pow2(k)) != 0) == Bit(n, k)
  {
    if k > 0 && n > 0 {
      AndNonZero(n / 2, k - 1);
    } else if n == 0 {
      ZeroBit(k);
    } else {
      assert Pow2(0) == 1;
    }
  }

  lemma {:induction false} OrBelow(m: nat, n: nat, width: nat)
    requires m < Pow2(width) && n < Pow2(width)
    ensures Or(m, n) < Pow2(width)
  {
    if width > 0 {
      OrBelow(m / 2, n / 2, width - 1);
    }
  }

  lemma {:induction false} AndBelow(m: nat, n: nat)
    ensures And(m, n) <= m
  {
    if m > 0 && n > 0 {
      AndBelow(m / 2, n / 2);
    }
  }

  lemma Pow2Of32()
    ensures Pow2(32) == 0x1_0000_0000
  {
    assert Pow2(0) == 1;
    Pow2Plus4(0); Pow2Plus4(4); Pow2Plus4(8); Pow2Plus4(12);
    Pow2Plus4(16); Pow2Plus4(20); Pow2Plus4(24); Pow2Plus4(28);
  }

  lemma Pow2Plus4(k: nat)
    ensures Pow2(k + 4) == 16 * Pow2(k)
  {
    assert Pow2(k + 2) == 4 * Pow2(k);
  }

  // ---- little-endian layout ----

  /** The four bytes of a word as they lie in memory. */
  function WordBytes(w: word): (s: seq<byte>)
    ensures |s| == 4
  {
    [w % 0x100, (w / 0x100) % 0x100, (w / 0x1_0000) % 0x100, w / 0x100_0000]
  }

  function BytesWord(s: seq<byte>): word
    requires |s| == 4
  {
    Join(s[0], s[1], s[2], s[3])
  }

  function Join(b0: byte, b1: byte, b2: byte, b3: byte): word {
    var w: int := b0 as int + 0x100 * b1 as int + 0x1_0000 * b2 as int + 0x100_0000 * b3 as int;
    w
  }

  lemma WordRoundTrip(w: word)
    ensures BytesWord(WordBytes(w)) == w
  {
    var q := w / 0x100;
    var q2 := q / 0x100;
    assert w / 0x1_0000 == q2;
    assert q2 / 0x100 == w / 0x100_0000;
  }

  /** A C int and the word with the same bits. */
  function IntWord(n: int32): (w: word)
    ensures w == n || w == n + 0x1_0000_0000
  {
    if n < 0 then n + 0x1_0000_0000 else n
  }

  function WordInt(w: word): (n: int32)
    ensures n == w || n == w - 0x1_0000_0000
  {
    if w < 0x8000_0000 then w else w - 0x1_0000_0000
  }

  lemma IntRoundTrip(n: int32)
    ensures WordInt(IntWord(n)) == n
  {}

  /** What a C int becomes when an operation on it yields n. */
  function WrapInt(n: int): int32 {
    WordInt(n % 0x1_0000_0000)
  }

  /** The digits of a number that is put together of two. */
  lemma {:induction false} JoinedBit(low: nat, high: nat, j: nat, k: nat)
    requires low < Pow2(j)
    ensures Bit(low + Pow2(j) * high, k) == if k < j then Bit(low, k) else Bit(high, k - j)
  {
    if j > 0 {
      var m := Pow2(j - 1) * high;
      Twice(Pow2(j - 1), high);
      HalfOfSum(low, m);
      if k > 0 {
        JoinedBit(low / 2, high, j - 1, k - 1);
      }
    } else {
      assert low == 0 && Pow2(0) * high == high;
    }
  }

  lemma Twice(a: nat, b: nat)
    ensures (2 * a) * b == 2 * (a * b)
  {}

  lemma HalfOfSum(low: nat, m: nat)
    ensures (low + 2 * m) / 2 == low / 2 + m && (low + 2 * m) % 2 == low % 2
  {}

  lemma ByteFirst(b: byte, rest: nat, k: nat)
    ensures Bit(b + 0x100 * rest, k) == if k < 8 then Bit(b, k) else Bit(rest, k - 8)
  {
    assert Pow2(8) == 0x100 by {
      assert Pow2(0) == 1;
      Pow2Plus4(0);
      Pow2Plus4(4);
    }
    JoinedBit(b, rest, 8, k);
  }

  /** Digit k of a word in memory is digit k mod 8 of its byte k / 8. */
  lemma WordBit(s: seq<byte>, k: nat)
    requires |s| == 4 && k < 32
    ensures Bit(BytesWord(s), k) == Bit(s[k / 8], k % 8)
  {
    hide Bit, Pow2;
    var b2: nat := s[2] + 0x100 * s[3] as int;
    var b1: nat := s[1] + 0x100 * b2;
    ByteFirst(s[0], b1, k);
    if k >= 8 {
      ByteFirst(s[1], b2, k - 8);
    }
    if k >= 16 {
      ByteFirst(s[2], s[3], k - 16);
    }
  }

  /** An array of words as it lies in memory, and back. */
  function Pack(ws: seq<word>): (s: seq<byte>)
    ensures |s| == 4 * |ws|
  {
    seq(4 * |ws|, i requires 0 <= i < 4 * |ws| => WordBytes(ws[i / 4])[i % 4])
  }

  function UnpackWords(s: seq<byte>): (ws: seq<word>)
    requires |s| % 4 == 0
    ensures |ws| == |s| / 4
  {
    seq(|s| / 4, i requires 0 <= i < |s| / 4 => BytesWord(s[4 * i..4 * i + 4]))
  }

  lemma PackRoundTrip(ws: seq<word>)
    ensures UnpackWords(Pack(ws)) == ws
  {
    forall i | 0 <= i < |ws|
      ensures UnpackWords(Pack(ws))[i] == ws[i]
    {
      PackAt(ws, i);
      WordRoundTrip(ws[i]);
    }
  }

  lemma PackAt(ws: seq<word>, i: nat)
    requires i < |ws|
    ensures Pack(ws)[4 * i..4 * i + 4] == WordBytes(ws[i])
  {
    var b := WordBytes(ws[i]);
    forall k | 0 <= k < 4
      ensures Pack(ws)[4 * i..4 * i + 4][k] == b[k]
    {
      assert (4 * i + k) / 4 == i && (4 * i + k) % 4 == k;
    }
  }

  /** s with the bytes from the given position on replaced. */
  function Splice<T>(s: seq<T>, position: nat, bytes: seq<T>): (r: seq<T>)
    requires position + |bytes| <= |s|
    ensures |r| == |s|
  {
    s[..position] + bytes + s[position + |bytes|..]
  }

  lemma SpliceAt<T>(s: seq<T>, position: nat, bytes: seq<T>, i: nat)
    requires position + |bytes| <= |s| && i < |s|
    ensures Splice(s, position, bytes)[i] == if position <= i < position + |bytes| then bytes[i - position] else s[i]
  {}

  // ---- bytes as bits, in memory, and as numbers ----

  function ByteNumber(b: bv8): byte {
    b as byte
  }

  function Numbers(s: seq<bv8>): (r: seq<byte>)
    ensures |r| == |s|
  {
    seq(|s|, i requires 0 <= i < |s| => ByteNumber(s[i]))
  }

  function Bits(b: byte): bv8 {
    b as bv8
  }

  function BitsOf(s: seq<byte>): (r: seq<bv8>)
    ensures |r| == |s|
  {
    seq(|s|, i requires 0 <= i < |s| => Bits(s[i]))
  }

  lemma BitsRoundTrip(b: byte)
    ensures ByteNumber(Bits(b)) == b
  {
    NumberRoundTrip(b);
  }

  lemma {:induction false} NumberRoundTrip(n: int)
    requires 0 <= n < 0x100
    ensures (n as bv8) as int == n
  {
    if n > 0 {
      NumberRoundTrip(n - 1);
      var b: bv8 := (n - 1) as bv8;
      LastByte(b);
      NextByte(b);
      SameBits(b + 1);
    }
  }

  lemma LastByte(b: bv8)
    ensures b == 255 || b < 255
    ensures b == 255 ==> b as int == 255
  {}

  lemma NextByte(b: bv8)
    requires b < 255
    ensures (b + 1) as int == b as int + 1
  {}

  lemma SameBits(b: bv8)
    ensures (b as int) as bv8 == b
  {}

  lemma NumbersSplice(mem: seq<bv8>, position: nat, bytes: seq<byte>)
    requires position + |bytes| <= |mem|
    ensures Numbers(Splice(mem, position, BitsOf(bytes))) == Splice(Numbers(mem), position, bytes)
  {
    forall i | 0 <= i < |mem|
      ensures Numbers(Splice(mem, position, BitsOf(bytes)))[i] == Splice(Numbers(mem), position, bytes)[i]
    {
      SpliceAt(mem, position, BitsOf(bytes), i);
      SpliceAt(Numbers(mem), position, bytes, i);
      if position <= i < position + |bytes| {
        BitsRoundTrip(bytes[i - position]);
      }
    }
  }

  // ---- C strings ----

  /** A C string, without its terminator. */
  type CString = s: seq<byte> | 0 !in s

  /** The characters before the first NUL. */
  function UpToNul(s: seq<byte>): (r: CString) {
    if s == [] || s[0] == 0 then [] else [s[0]] + UpToNul(s[1..])
  }

  lemma {:induction false} UpToNulCopy(s: seq<byte>, k: nat)
    requires k <= |s| && (forall i :: 0 <= i < k ==> s[i] != 0) && (k < |s| ==> s[k] == 0)
    ensures UpToNul(s) == s[..k]
  {
    if k > 0 {
      UpToNulCopy(s[1..], k - 1);
      assert s[..k] == [s[0]] + s[1..][..k - 1];
    }
  }
}
