/** The argument block (userprog/addrspace.cc): the strings that Load lays out for a program, the table of pointers
    to them, and what the program finds. */
module Arguments {
  import opened Words

  /** The strings one after another, each with its terminator. */
  function StringBytes(argv: seq<CString>): seq<byte> {
    if argv == [] then [] else StringBytes(argv[..|argv| - 1]) + argv[|argv| - 1] + [0]
  }

  /** Where string i starts, if the first one starts at base. */
  function PointerTo(argv: seq<CString>, base: nat, i: nat): nat
    requires i <= |argv|
  {
    base + |StringBytes(argv[..i])|
  }

  /** The pointers to the first n strings. */
  function PointerBytes(argv: seq<CString>, base: nat, n: nat): (s: seq<byte>)
    requires n <= |argv| && base + |StringBytes(argv)| < 0x1_0000_0000
    ensures |s| == 4 * n
  {
    if n == 0 then []
    else
      PointerBelow(argv, base, n - 1);
      PointerBytes(argv, base, n - 1) + WordBytes(PointerTo(argv, base, n - 1))
  }

  lemma {:induction false} PrefixLength(argv: seq<CString>, i: nat)
    requires i <= |argv|
    ensures |StringBytes(argv[..i])| <= |StringBytes(argv)|
    ensures i < |argv| ==> |StringBytes(argv[..i])| + |argv[i]| + 1 <= |StringBytes(argv)|
    decreases |argv|
  {
    if i < |argv| {
      var init := argv[..|argv| - 1];
      assert argv[..i] == init[..i];
      PrefixLength(init, i);
    } else {
      assert argv[..i] == argv;
    }
  }

  lemma PointerBelow(argv: seq<CString>, base: nat, i: nat)
    requires i < |argv| && base + |StringBytes(argv)| < 0x1_0000_0000
    ensures PointerTo(argv, base, i) + |argv[i]| < base + |StringBytes(argv)| < 0x1_0000_0000
  {
    PrefixLength(argv, i);
  }

  /** The whole of what Load writes for the arguments. */
  ghost predicate ArgumentBlock(before: seq<byte>, after: seq<byte>, argv: seq<CString>, table: nat, base: nat) {
    && base + |StringBytes(argv)| == |before| - 8 < 0x1_0000_0000
    && table % 4 == 0 && table + 4 * (|argv| + 1) <= base < table + 4 * (|argv| + 1) + 4
    && after == Splice(Splice(before, base, StringBytes(argv)), table, PointerBytes(argv, base, |argv|) + [0, 0, 0, 0])
  }

  lemma IsBlock(before: seq<byte>, strings: seq<byte>, after: seq<byte>, argv: seq<CString>, table: nat, base: nat)
    requires base + |StringBytes(argv)| == |before| - 8 < 0x1_0000_0000
    requires table % 4 == 0 && table + 4 * (|argv| + 1) <= base < table + 4 * (|argv| + 1) + 4
    requires strings == Splice(before, base, StringBytes(argv))
    requires after == Splice(strings, table, PointerBytes(argv, base, |argv|) + [0, 0, 0, 0])
    ensures ArgumentBlock(before, after, argv, table, base)
  {}

  /** What a program finds: the strings that the pointers lead to, up to the NULL. */
  function FindArguments(mem: seq<byte>, table: nat): seq<CString>
    decreases |mem| - table
  {
    if table + 4 > |mem| then []
    else
      var pointer := BytesWord(mem[table..table + 4]);
      if pointer == 0 then []
      else [if pointer <= |mem| then UpToNul(mem[pointer..]) else []] + FindArguments(mem, table + 4)
  }

  lemma {:induction false} StringAt(argv: seq<CString>, i: nat)
    requires i < |argv|
    ensures |StringBytes(argv[..i])| + |argv[i]| < |StringBytes(argv)|
    ensures StringBytes(argv)[|StringBytes(argv[..i])|..][..|argv[i]| + 1] == argv[i] + [0]
    decreases |argv|
  {
    var n := |argv| - 1;
    var init := argv[..n];
    var all := StringBytes(argv);
    PrefixLength(argv, i);
    if i < n {
      assert argv[..i] == init[..i] && init[i] == argv[i];
      StringAt(init, i);
      var at := |StringBytes(init[..i])|;
      assert all[at..][..|argv[i]| + 1] == StringBytes(init)[at..][..|argv[i]| + 1];
    } else {
      assert all == StringBytes(init) + (argv[i] + [0]);
    }
  }

  lemma {:induction false} PointerBytesAt(argv: seq<CString>, base: nat, n: nat, i: nat)
    requires i < n <= |argv| && base + |StringBytes(argv)| < 0x1_0000_0000
    ensures PointerTo(argv, base, i) < 0x1_0000_0000
    ensures PointerBytes(argv, base, n)[4 * i..4 * i + 4] == WordBytes(PointerTo(argv, base, i))
  {
    PointerBelow(argv, base, i);
    var rest := PointerBytes(argv, base, n - 1);
    PointerBelow(argv, base, n - 1);
    if i < n - 1 {
      PointerBytesAt(argv, base, n - 1, i);
      assert PointerBytes(argv, base, n)[4 * i..4 * i + 4] == rest[4 * i..4 * i + 4];
    }
  }

  lemma OverwrittenPart(mem: seq<byte>, p: nat, bytes: seq<byte>, lo: nat, hi: nat)
    requires lo <= hi <= |mem| && p + |bytes| <= |mem|
    ensures p <= lo && hi <= p + |bytes| ==> Splice(mem, p, bytes)[lo..hi] == bytes[lo - p..hi - p]
    ensures hi <= p || p + |bytes| <= lo ==> Splice(mem, p, bytes)[lo..hi] == mem[lo..hi]
  {}

  /** Entry i of the pointer table. */
  lemma PointerFound(before: seq<byte>, after: seq<byte>, argv: seq<CString>, table: nat, base: nat, i: nat)
    requires ArgumentBlock(before, after, argv, table, base) && i <= |argv|
    ensures table + 4 * i + 4 <= |after| && PointerTo(argv, base, i) < 0x1_0000_0000
    ensures BytesWord(after[table + 4 * i..table + 4 * i + 4]) == if i < |argv| then PointerTo(argv, base, i) else 0
  {
    var pointers := PointerBytes(argv, base, |argv|);
    var block := pointers + [0, 0, 0, 0];
    var strings := Splice(before, base, StringBytes(argv));
    PrefixLength(argv, i);
    OverwrittenPart(strings, table, block, table + 4 * i, table + 4 * i + 4);
    assert after[table + 4 * i..table + 4 * i + 4] == block[4 * i..4 * i + 4];
    if i < |argv| {
      PointerBytesAt(argv, base, |argv|, i);
      assert block[4 * i..4 * i + 4] == pointers[4 * i..4 * i + 4];
      WordRoundTrip(PointerTo(argv, base, i));
    } else {
      assert block[4 * i..4 * i + 4] == [0, 0, 0, 0];
    }
  }

  /** The string that it leads to. */
  lemma StringFound(before: seq<byte>, after: seq<byte>, argv: seq<CString>, table: nat, base: nat, i: nat)
    requires ArgumentBlock(before, after, argv, table, base) && i < |argv|
    ensures PointerTo(argv, base, i) <= |after| && UpToNul(after[PointerTo(argv, base, i)..]) == argv[i]
  {
    var p, n := PointerTo(argv, base, i), |argv[i]|;
    StringPlace(before, after, argv, table, base, i);
    TerminatedAt(after[p..], argv[i]) by {
      assert after[p..][..n + 1] == after[p..p + n + 1];
    }
  }

  /** Its characters and terminator are at that place. */
  lemma StringPlace(before: seq<byte>, after: seq<byte>, argv: seq<CString>, table: nat, base: nat, i: nat)
    requires ArgumentBlock(before, after, argv, table, base) && i < |argv|
    ensures PointerTo(argv, base, i) + |argv[i]| + 1 <= |after|
    ensures after[PointerTo(argv, base, i)..PointerTo(argv, base, i) + |argv[i]| + 1] == argv[i] + [0]
  {
    var p, n := PointerTo(argv, base, i), |argv[i]|;
    var all := StringBytes(argv);
    var strings := Splice(before, base, all);
    StringAt(argv, i);
    OverwrittenPart(strings, table, PointerBytes(argv, base, |argv|) + [0, 0, 0, 0], p, p + n + 1);
    OverwrittenPart(before, base, all, p, p + n + 1);
    var at := p - base;
    assert all[at..][..n + 1] == all[at..at + n + 1];
  }

  lemma TerminatedAt(mem: seq<byte>, s: CString)
    requires |s| + 1 <= |mem| && mem[..|s| + 1] == s + [0]
    ensures UpToNul(mem) == s
  {
    var n := |s|;
    assert forall k :: 0 <= k < n ==> mem[k] == (s + [0])[k];
    assert mem[n] == (s + [0])[n];
    UpToNulCopy(mem, n);
    assert mem[..n] == s;
  }

  /** The table entry at an address leads to the string, or is the NULL at the end. */
  predicate LeadsTo(mem: seq<byte>, at: nat, s: CString) {
    at + 4 <= |mem| && var p := BytesWord(mem[at..at + 4]); 0 < p <= |mem| && UpToNul(mem[p..]) == s
  }

  predicate IsNull(mem: seq<byte>, at: nat) {
    at + 4 <= |mem| && BytesWord(mem[at..at + 4]) == 0
  }

  lemma FollowOne(mem: seq<byte>, argv: seq<CString>, i: nat, at: nat, next: nat)
    requires i < |argv| && LeadsTo(mem, at, argv[i]) && next == at + 4 && FindArguments(mem, next) == argv[i + 1..]
    ensures FindArguments(mem, at) == argv[i..]
  {
    assert argv[i..] == [argv[i]] + argv[i + 1..];
  }

  lemma FollowNone(mem: seq<byte>, at: nat)
    requires IsNull(mem, at)
    ensures FindArguments(mem, at) == []
  {}

  lemma {:induction false} FollowTable(mem: seq<byte>, argv: seq<CString>, table: nat, left: nat)
    requires left <= |argv| && IsNull(mem, table + 4 * |argv|)
    requires forall k :: 0 <= k < |argv| ==> EntryRight(mem, argv, table, k)
    ensures FindArguments(mem, table + 4 * (|argv| - left)) == argv[|argv| - left..]
  {
    if left == 0 {
      FollowNone(mem, table + 4 * |argv|);
    } else {
      var i := |argv| - left;
      FollowTable(mem, argv, table, left - 1);
      assert EntryRight(mem, argv, table, i);
      FollowOne(mem, argv, i, table + 4 * i, table + 4 * (i + 1));
    }
  }

  lemma FollowAll(mem: seq<byte>, argv: seq<CString>, table: nat)
    requires IsNull(mem, table + 4 * |argv|) && forall k :: 0 <= k < |argv| ==> EntryRight(mem, argv, table, k)
    ensures FindArguments(mem, table) == argv
  {
    FollowTable(mem, argv, table, |argv|);
  }

  predicate EntryRight(mem: seq<byte>, argv: seq<CString>, table: nat, k: nat)
    requires k < |argv|
  {
    LeadsTo(mem, table + 4 * k, argv[k])
  }

  /** Following the pointers after Load yields the arguments. */
  lemma ArgumentsRoundTrip(before: seq<byte>, after: seq<byte>, argv: seq<CString>, table: nat, base: nat)
    requires ArgumentBlock(before, after, argv, table, base)
    ensures FindArguments(after, table) == argv
  {
    forall k | 0 <= k < |argv|
      ensures EntryRight(after, argv, table, k)
    {
      EntryLeads(before, after, argv, table, base, k);
    }
    EndIsNull(before, after, argv, table, base);
    FollowAll(after, argv, table);
  }

  lemma EntryLeads(before: seq<byte>, after: seq<byte>, argv: seq<CString>, table: nat, base: nat, k: nat)
    requires ArgumentBlock(before, after, argv, table, base) && k < |argv|
    ensures LeadsTo(after, table + 4 * k, argv[k])
  {
    PointerFound(before, after, argv, table, base, k);
    StringFound(before, after, argv, table, base, k);
  }

  lemma EndIsNull(before: seq<byte>, after: seq<byte>, argv: seq<CString>, table: nat, base: nat)
    requires ArgumentBlock(before, after, argv, table, base)
    ensures IsNull(after, table + 4 * |argv|)
  {
    PointerFound(before, after, argv, table, base, |argv|);
  }
}
