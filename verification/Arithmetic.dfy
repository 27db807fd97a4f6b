/** Arithmetic of the simulated R2000 (machine/mipssim.cc): the multiplier, which shifts and adds over two
    words, and the overflow tests of ADD, ADDI and SUB. */
module Arithmetic {
  import opened Words

  /** A C unsigned result: what does not fit in the word is dropped. */
  function Wrap(n: int): word {
    n % 0x1_0000_0000
  }

  /** `-a` on an int; the most negative one is its own negation. */
  function Negated(a: int32): int32 {
    if a == -0x8000_0000 then a else -a
  }

  /** The number that two words spell. */
  function Double(hi: word, lo: word): (n: nat)
    ensures n < 0x1_0000_0000_0000_0000
  {
    hi * 0x1_0000_0000 + lo
  }

  // ---- one step of the loop ----

  lemma WrapOnce(n: nat)
    requires n < 0x2_0000_0000
    ensures Wrap(n) == if n < 0x1_0000_0000 then n else n - 0x1_0000_0000
  {}

  /** Adding into the double word, with the carry found by comparison. */
  lemma AddDouble(hi: word, lo: word, bHi: word, bLo: word)
    requires Double(hi, lo) + Double(bHi, bLo) < 0x1_0000_0000_0000_0000
    ensures
      var l := Wrap(lo + bLo);
      var h := if l < bLo then Wrap(hi + 1) else hi;
      Double(Wrap(h + bHi), l) == Double(hi, lo) + Double(bHi, bLo)
  {
    WrapOnce(lo + bLo);
    WrapOnce(hi + 1);
    WrapOnce(hi + bHi);
    WrapOnce(hi + 1 + bHi);
  }

  /** Shifting the double word left by one. */
  lemma ShiftDouble(bHi: word, bLo: word)
    requires 2 * Double(bHi, bLo) < 0x1_0000_0000_0000_0000
    ensures bLo >= 0x8000_0000 ==> Or(Wrap(2 * bHi), 1) == Wrap(2 * bHi) + 1 < 0x1_0000_0000
    ensures Double(if bLo >= 0x8000_0000 then Or(Wrap(2 * bHi), 1) else Wrap(2 * bHi), Wrap(2 * bLo)) == 2 * Double(bHi, bLo)
  {
    assert bHi < 0x8000_0000;
    WrapOnce(2 * bHi);
    WrapOnce(2 * bLo);
    OrOne(bHi);
  }

  lemma OrOne(n: nat)
    ensures Or(2 * n, 1) == 2 * n + 1
  {
    assert Or(2 * n, 1) == Digit(true) + 2 * Or(n, 0);
    OrZero(n);
  }

  lemma {:induction false} OrZero(n: nat)
    ensures Or(n, 0) == n
  {
    if n > 0 {
      OrZero(n / 2);
    }
  }

  /** Where the loop stands before digit i: the lower digits of the multiplier u are done, and what is
      left of it shows in the shifted a, whose sign digit repeats; acc and shifted are the two double words. */
  ghost predicate Running(u: nat, v: nat, i: nat, done: nat, rest: nat, a: int, acc: nat, shifted: nat) {
    && i <= 32 && u == done + Pow2(i) * rest && rest < Pow2(32 - i)
    && (a == rest || a == rest - Pow2(32 - i))
    && acc == v * done && shifted == v * Pow2(i)
  }

  lemma ShiftedRest(u: nat, done: nat, weight: nat, rest: nat)
    requires u == done + weight * rest
    ensures u == (if rest % 2 == 1 then done + weight else done) + (2 * weight) * (rest / 2)
  {
    var q := rest / 2;
    assert rest == 2 * q + rest % 2;
    assert weight * rest == (2 * weight) * q + weight * (rest % 2);
  }

  /** One turn of the loop. */
  lemma NextDigit(u: nat, v: nat, i: nat, done: nat, rest: nat, a: int, acc: nat, shifted: nat)
    requires u < 0x1_0000_0000 && v < 0x1_0000_0000 && i < 32
    requires Running(u, v, i, done, rest, a, acc, shifted)
    ensures a % 2 == 1 ==> acc + shifted < 0x1_0000_0000_0000_0000
    ensures 2 * shifted < 0x1_0000_0000_0000_0000
    ensures
      var odd := a % 2 == 1;
      Running(u, v, i + 1, if odd then done + Pow2(i) else done, rest / 2, a / 2, if odd then acc + shifted else acc, 2 * shifted)
  {
    PowStep(i);
    assert a % 2 == rest % 2;
    ShiftedRest(u, done, Pow2(i), rest);
    PowerBelow(i, v);
    if a % 2 == 1 {
      PartialFits(u, v, done, Pow2(i), rest);
    }
  }

  /** Nothing is left after the last digit, or after a one with nothing above it. */
  lemma Finished(u: nat, v: nat, i: nat, done: nat, rest: nat, a: int, acc: nat, shifted: nat)
    requires Running(u, v, i, done, rest, a, acc, shifted) && (i == 32 || a == 0)
    ensures acc == u * v
  {
    assert Pow2(0) == 1;
    if rest == 0 {
      assert Pow2(i) * 0 == 0;
    }
  }

  /** The partial product stays within the whole one. */
  lemma PartialFits(u: nat, v: nat, done: nat, weight: nat, rest: nat)
    requires u < 0x1_0000_0000 && v < 0x1_0000_0000 && u == done + weight * rest && rest > 0
    ensures v * done + v * weight == v * (done + weight) < 0x1_0000_0000_0000_0000
  {
    Monotone(1, rest, weight);
    Bounded(v, done + weight);
  }

  lemma Commutes(x: nat, y: nat)
    ensures x * y == y * x
  {}

  lemma Monotone(x: nat, y: nat, n: nat)
    requires x <= y
    ensures x * n <= y * n
  {
    assert y * n == x * n + (y - x) * n;
  }

  lemma Bounded(v: nat, n: nat)
    requires v < 0x1_0000_0000 && n < 0x1_0000_0000
    ensures v * n < 0x1_0000_0000_0000_0000
  {
    Monotone(v, 0xFFFF_FFFF, n);
  }

  lemma PowerBelow(i: nat, v: nat)
    requires i < 32 && v < 0x1_0000_0000
    ensures 2 * (v * Pow2(i)) == v * Pow2(i + 1) < 0x1_0000_0000_0000_0000
  {
    Pow2Of32();
    if i < 31 {
      Pow2Monotone(i + 1, 32);
    }
    Monotone(Pow2(i + 1), 0x1_0000_0000, v);
    Commutes(Pow2(i + 1), v);
  }

  lemma PowStep(i: nat)
    requires i < 32
    ensures Pow2(32 - i) == 2 * Pow2(31 - i) && Pow2(i + 1) == 2 * Pow2(i)
  {}

  /** The two's complement of a double word. */
  lemma NegateDouble(hi: word, lo: word)
    requires Double(hi, lo) > 0
    ensures
      var l := Wrap(0xFFFF_FFFF - lo + 1);
      var h := if l == 0 then Wrap(0xFFFF_FFFF - hi + 1) else 0xFFFF_FFFF - hi;
      Double(h, l) == 0x1_0000_0000_0000_0000 - Double(hi, lo)
  {
    Complemented(hi);
    Complemented(lo);
  }

  /** The two's complement of one word. */
  lemma Complemented(w: word)
    ensures Wrap(0xFFFF_FFFF - w + 1) == if w == 0 then 0 else 0x1_0000_0000 - w
  {}

  /** Adds one double word into another. */
  method AddInto(hi0: word, lo0: word, bHi: word, bLo: word) returns (hi: word, lo: word)
    requires Double(hi0, lo0) + Double(bHi, bLo) < 0x1_0000_0000_0000_0000
    ensures Double(hi, lo) == Double(hi0, lo0) + Double(bHi, bLo)
  {
    AddDouble(hi0, lo0, bHi, bLo);
    hi, lo := hi0, Wrap(lo0 + bLo);
    if lo < bLo {
      hi := Wrap(hi + 1);
    }
    hi := Wrap(hi + bHi);
  }

  /** Shifts a double word left by one. */
  method ShiftLeft(bHi0: word, bLo0: word) returns (bHi: word, bLo: word)
    requires 2 * Double(bHi0, bLo0) < 0x1_0000_0000_0000_0000
    ensures Double(bHi, bLo) == 2 * Double(bHi0, bLo0)
  {
    ShiftDouble(bHi0, bLo0);
    bHi := Wrap(2 * bHi0);
    if bLo0 >= 0x8000_0000 {
      bHi := Or(bHi, 1);
    }
    bLo := Wrap(2 * bLo0);
  }

  /** The main loop: the product of two unsigned words, the multiplier given as a signed int. */
  method MultUnsigned(a0: int32, b: int32) returns (hi: word, lo: word)
    ensures Double(hi, lo) == IntWord(a0) * IntWord(b)
  {
    var a: int := a0;
    var bHi: word, bLo: word := 0, IntWord(b);
    hi, lo := 0, 0;
    ghost var u: nat, v: nat := IntWord(a0), IntWord(b);
    ghost var done: nat, rest: nat := 0, u;
    Pow2Of32();
    var i := 0;
    while i < 32
      invariant 0 <= i <= 32
      invariant Running(u, v, i, done, rest, a, Double(hi, lo), Double(bHi, bLo))
    {
      NextDigit(u, v, i, done, rest, a, Double(hi, lo), Double(bHi, bLo));
      if a % 2 == 1 {
        hi, lo := AddInto(hi, lo, bHi, bLo);
        done := done + Pow2(i);
        if a == 0 || a == 1 {
          Finished(u, v, i + 1, done, rest / 2, a / 2, Double(hi, lo), 2 * Double(bHi, bLo));
          return;
        }
      }
      bHi, bLo := ShiftLeft(bHi, bLo);
      a := a / 2;
      rest := rest / 2;
      i := i + 1;
    }
    Finished(u, v, i, done, rest, a, Double(hi, lo), Double(bHi, bLo));
  }

  method Mult(a: int32, b: int32, signedArith: bool) returns (hi: int32, lo: int32)
    ensures signedArith ==> hi * 0x1_0000_0000 + IntWord(lo) == a * b
    ensures !signedArith ==> Double(IntWord(hi), IntWord(lo)) == IntWord(a) * IntWord(b)
  {
    if a == 0 || b == 0 {
      return 0, 0;
    }
    var negative := false;
    var x, y := a, b;
    if signedArith {
      if x < 0 {
        negative := !negative;
        x := Negated(x);
      }
      if y < 0 {
        negative := !negative;
        y := Negated(y);
      }
    }
    var h, l := MultUnsigned(x, y);
    if signedArith {
      SignedProduct(a, b, IntWord(x), IntWord(y));
    }
    if negative {
      NegateDouble(h, l);
      h := 0xFFFF_FFFF - h;
      l := 0xFFFF_FFFF - l;
      l := Wrap(l as int + 1);
      if l == 0 {
        h := Wrap(h as int + 1);
      }
    }
    return WordInt(h), WordInt(l);
  }

  /** The product of the magnitudes, and its sign. */
  lemma SignedProduct(a: int, b: int, x: nat, y: nat)
    requires -0x8000_0000 <= a < 0x8000_0000 && -0x8000_0000 <= b < 0x8000_0000 && a != 0 && b != 0
    requires x == (if a < 0 then -a else a) && y == if b < 0 then -b else b
    ensures a * b == if (a < 0) == (b < 0) then x * y else -(x * y)
    ensures 0 < x * y <= 0x4000_0000_0000_0000
  {
    Monotone(x, 0x8000_0000, y);
    Monotone(1, x, y);
  }

  // ---- overflow ----

  /** `(a ^ b) & SIGN_BIT` is not zero. */
  predicate SignsDiffer(a: int32, b: int32) {
    (a < 0) != (b < 0)
  }

  /** ADD: the exact sum, or an overflow exception when there is none in 32 bits. */
  method Add(rs: int32, rt: int32) returns (ok: bool, sum: int32)
    ensures ok <==> -0x8000_0000 <= rs + rt < 0x8000_0000
    ensures ok ==> sum as int == rs + rt
  {
    sum := WrapInt(rs as int + rt as int);
    ok := !(!SignsDiffer(rs, rt) && SignsDiffer(rs, sum));
  }

  /** ADDI: its test looks at the immediate's sign where ADD's looks at the register's. */
  method AddImmediate(rs: int32, extra: int32) returns (ok: bool, sum: int32)
    ensures ok <==> -0x8000_0000 <= rs + extra < 0x8000_0000
    ensures ok ==> sum as int == rs + extra
  {
    sum := WrapInt(rs as int + extra as int);
    ok := !(!SignsDiffer(rs, extra) && SignsDiffer(extra, sum));
  }

  /** SUB. */
  method Sub(rs: int32, rt: int32) returns (ok: bool, diff: int32)
    ensures ok <==> -0x8000_0000 <= rs - rt < 0x8000_0000
    ensures ok ==> diff as int == rs - rt
  {
    diff := WrapInt(rs as int - rt as int);
    ok := !(SignsDiffer(rs, rt) && SignsDiffer(rs, diff));
  }
}
