/** Address spaces (userprog/addrspace.cc): taking and giving up frames, and laying out a program's arguments. */
module AddrSpaces {
  import opened Sets
  import opened Words
  import opened Bitmaps
  import opened Allocations
  import opened Translations
  import opened AddrSpaceSpec
  import opened Arguments

  /** One space alone is a state of the shared memory. */
  lemma AloneIsShared(t: Table, mem: seq<bv8>)
    requires GoodTable(t) && |mem| == MEMORY_SIZE
    ensures Inv(Shared(seq(NUM_PHYS_PAGES, f => f in Frames(t)), map[0 := t], mem))
  {
    var s := Shared(seq(NUM_PHYS_PAGES, f => f in Frames(t)), map[0 := t], mem);
    forall f | 0 <= f < NUM_PHYS_PAGES
      ensures s.used[f] <==> InSome(s.spaces, f)
    {
      assert 0 in s.spaces;
    }
  }

  /** A store inside one page, at the place of a virtual address. */
  lemma StoredHere(t: Table, mem: seq<bv8>, vaddr: nat, bytes: seq<byte>)
    requires GoodTable(t) && |mem| == MEMORY_SIZE && bytes != []
    requires vaddr + |bytes| <= 128 * |t| && vaddr % 128 + |bytes| <= 128
    ensures 0 <= PhysOf(t, vaddr) && PhysOf(t, vaddr) + |bytes| <= MEMORY_SIZE
    ensures Numbers(Contents(Splice(mem, PhysOf(t, vaddr), BitsOf(bytes)), t)) == Splice(Numbers(Contents(mem, t)), vaddr, bytes)
  {
    AloneIsShared(t, mem);
    PhysInFrame(t, vaddr);
    var s := Shared(seq(NUM_PHYS_PAGES, f => f in Frames(t)), map[0 := t], mem);
    WrittenContents(s, 0, vaddr, BitsOf(bytes), PhysOf(t, vaddr), 0);
    NumbersSplice(Contents(mem, t), vaddr, bytes);
  }

  class AddrSpace {
    var pageTable: Table
    var argc: nat
    var argv: nat
    var stackptr: nat
    const pageTableMap: Bitmap
    const mainMemory: array<bv8>

    ghost predicate Valid() {
      mainMemory.Length == MEMORY_SIZE
    }

    ghost function Memory(): (mem: seq<bv8>)
      requires Valid()
      reads mainMemory
      ensures |mem| == MEMORY_SIZE
    {
      mainMemory[..]
    }

    /** The space's own memory, as numbers. */
    ghost function Own(): seq<byte>
      requires Valid() && GoodTable(pageTable)
      reads this`pageTable, mainMemory
    {
      Numbers(Contents(Memory(), pageTable))
    }

    constructor (pageTableMap: Bitmap, mainMemory: array<bv8>)
      ensures this.pageTableMap == pageTableMap && this.mainMemory == mainMemory && pageTable == []
    {
      this.pageTableMap := pageTableMap;
      this.mainMemory := mainMemory;
      pageTable, argc, argv, stackptr := [], 0, 0, 0;
    }

    /** Takes the lowest free frames, of which there must be enough, and clears them: a space of the given
        name is added to those that share the machine. */
    method AllocateMemory(numPages: nat, ghost shared: Shared<bv8>, ghost id: nat) returns (ghost after: Shared<bv8>)
      requires Valid() && pageTableMap.Valid() && pageTableMap.numBits == NUM_PHYS_PAGES
      requires numPages <= CountClear(pageTableMap.Bits())
      requires Inv(shared) && shared.used == pageTableMap.Bits() && shared.mem == Memory() && id !in shared.spaces
      modifies this`pageTable, pageTableMap.map_, mainMemory
      ensures GoodTable(pageTable)
      ensures after == Shared(pageTableMap.Bits(), shared.spaces[id := pageTable], Memory())
      ensures Allocated(shared, after, id, numPages, 0)
      ensures |pageTable| == numPages && forall i :: 0 <= i < numPages ==>
        pageTable[i].virtualPage == i && pageTable[i].valid && !pageTable[i].readOnly && !pageTable[i].use && !pageTable[i].dirty
    {
      TakeFrames(numPages);
      ClearFrames();
      after := Shared(pageTableMap.Bits(), shared.spaces[id := pageTable], Memory());
    }

    method TakeFrames(numPages: nat)
      requires pageTableMap.Valid() && pageTableMap.numBits == NUM_PHYS_PAGES
      requires numPages <= CountClear(pageTableMap.Bits())
      modifies this`pageTable, pageTableMap.map_
      ensures |pageTable| == numPages && NewTable(pageTable) && GoodTable(pageTable)
      ensures forall i :: 0 <= i < numPages ==>
        pageTable[i].virtualPage == i && pageTable[i].valid && !pageTable[i].readOnly && !pageTable[i].use && !pageTable[i].dirty
      ensures LowestClear(old(pageTableMap.Bits()), FrameList(pageTable))
      ensures pageTableMap.Bits() == Marked(old(pageTableMap.Bits()), Frames(pageTable))
    {
      ghost var before := pageTableMap.Bits();
      CountClearBound(before);
      TakeNone(before);
      pageTable := [];
      var i := 0;
      while i < numPages
        invariant 0 <= i <= numPages && |pageTable| == i && NewTable(pageTable)
        invariant Taking(before, pageTableMap.Bits(), FrameList(pageTable))
      {
        TakeFrame(i, before);
        i := i + 1;
      }
      NewFrames(before, pageTable);
      ListedFrames(pageTable);
    }

    /** One turn of the loop: the next page gets the lowest free frame. */
    method TakeFrame(i: nat, ghost before: seq<bool>)
      requires pageTableMap.Valid() && pageTableMap.numBits == NUM_PHYS_PAGES == |before|
      requires |pageTable| == i < CountClear(before) <= NUM_PHYS_PAGES && NewTable(pageTable)
      requires Taking(before, pageTableMap.Bits(), FrameList(pageTable))
      modifies this`pageTable, pageTableMap.map_
      ensures |pageTable| == i + 1 && NewTable(pageTable)
      ensures Taking(before, pageTableMap.Bits(), FrameList(pageTable))
    {
      ghost var now, taken := pageTableMap.Bits(), FrameList(pageTable);
      CountClearZero(now);
      var frame := pageTableMap.FindAndSet();
      TakeOne(before, now, taken, frame);
      pageTable := pageTable + [TranslationEntry(i, frame, true, false, false, false)];
      assert FrameList(pageTable) == taken + [frame];
    }

    method ClearFrames()
      requires Valid() && GoodTable(pageTable)
      modifies mainMemory
      ensures forall p :: 0 <= p < MEMORY_SIZE ==>
        Memory()[p] == if p / 128 in Frames(pageTable) then 0 else old(Memory()[p])
    {
      var i := 0;
      while i < |pageTable|
        invariant 0 <= i <= |pageTable|
        invariant forall p :: 0 <= p < MEMORY_SIZE ==>
          mainMemory[p] == if p / 128 in Frames(pageTable[..i]) then 0 else old(mainMemory[p])
      {
        var frame := pageTable[i].physicalPage;
        ghost var before := mainMemory[..];
        var j := 0;
        while j < 128
          invariant 0 <= j <= 128
          invariant forall p :: 0 <= p < MEMORY_SIZE ==>
            mainMemory[p] == if frame * 128 <= p < frame * 128 + j then 0 else before[p]
        {
          mainMemory[frame * 128 + j] := 0;
          j := j + 1;
        }
        assert Frames(pageTable[..i + 1]) == Frames(pageTable[..i]) + {frame as int};
        i := i + 1;
      }
      assert pageTable[..i] == pageTable;
    }

    /** The destructor: the space is no longer among those that share the machine. */
    method Destroy(ghost shared: Shared<bv8>, ghost id: nat) returns (ghost after: Shared<bv8>)
      requires Valid() && pageTableMap.Valid() && pageTableMap.numBits == NUM_PHYS_PAGES
      requires Inv(shared) && shared.used == pageTableMap.Bits() && id in shared.spaces
      requires SameMapping(PageTable(pageTable), PageTable(shared.spaces[id]))
      modifies pageTableMap.map_
      ensures Destroyed(shared, after, id) && after.used == pageTableMap.Bits()
    {
      SameMappingReversed(PageTable(pageTable), PageTable(shared.spaces[id]));
      SameFrames(shared.spaces[id], pageTable);
      FreeFrames();
      after := shared.(used := pageTableMap.Bits(), spaces := shared.spaces - {id});
    }

    method FreeFrames()
      requires GoodTable(pageTable) && pageTableMap.Valid() && pageTableMap.numBits == NUM_PHYS_PAGES
      modifies pageTableMap.map_
      ensures pageTableMap.Bits() == Cleared(old(pageTableMap.Bits()), Frames(pageTable))
    {
      var i := 0;
      while i < |pageTable|
        invariant 0 <= i <= |pageTable|
        invariant pageTableMap.Bits() == Cleared(old(pageTableMap.Bits()), Frames(pageTable[..i]))
      {
        pageTableMap.Clear(pageTable[i].physicalPage);
        assert Frames(pageTable[..i + 1]) == Frames(pageTable[..i]) + {pageTable[i].physicalPage as int};
        i := i + 1;
      }
      assert pageTable[..i] == pageTable;
    }

    method StoreByte(vaddr: nat, b: byte)
      requires Valid() && GoodTable(pageTable) && vaddr < 128 * |pageTable|
      modifies mainMemory
      ensures Own() == Splice(old(Own()), vaddr, [b])
    {
      StoredHere(pageTable, Memory(), vaddr, [b]);
      var paddr := pageTable[vaddr / 128].physicalPage * 128 + vaddr % 128;
      ghost var before := mainMemory[..];
      mainMemory[paddr] := Bits(b);
      assert mainMemory[..] == Splice(before, paddr, BitsOf([b]));
    }

    /** A word store, as one store to the machine's memory: aligned, it does not cross a page. */
    method StoreWord(vaddr: nat, w: word)
      requires Valid() && GoodTable(pageTable) && vaddr % 4 == 0 && vaddr + 4 <= 128 * |pageTable|
      modifies mainMemory
      ensures Own() == Splice(old(Own()), vaddr, WordBytes(w))
    {
      var bytes := WordBytes(w);
      AlignedInPage(vaddr);
      StoredHere(pageTable, Memory(), vaddr, bytes);
      var paddr := pageTable[vaddr / 128].physicalPage * 128 + vaddr % 128;
      PutWord(paddr, bytes);
    }

    /** The store to physical memory. */
    method PutWord(paddr: nat, bytes: seq<byte>)
      requires Valid() && |bytes| == 4 && paddr + 4 <= MEMORY_SIZE
      modifies mainMemory
      ensures Memory() == Splice(old(Memory()), paddr, BitsOf(bytes))
    {
      ghost var before, expected := mainMemory[..], Splice(mainMemory[..], paddr, BitsOf(bytes));
      mainMemory[paddr], mainMemory[paddr + 1], mainMemory[paddr + 2], mainMemory[paddr + 3] :=
        Bits(bytes[0]), Bits(bytes[1]), Bits(bytes[2]), Bits(bytes[3]);
      forall x | 0 <= x < MEMORY_SIZE
        ensures mainMemory[x] == expected[x]
      {
        SpliceAt(before, paddr, BitsOf(bytes), x);
      }
    }

    /** Copies one string and its terminator. */
    method StoreString(vaddr0: nat, s: CString) returns (vaddr: nat)
      requires Valid() && GoodTable(pageTable) && vaddr0 + |s| + 1 <= 128 * |pageTable|
      modifies mainMemory
      ensures vaddr == vaddr0 + |s| + 1
      ensures Own() == Splice(old(Own()), vaddr0, s + [0])
    {
      var len := |s| + 1;
      ghost var before, text := Own(), s + [0];
      vaddr := vaddr0;
      var j := 0;
      while j < len
        invariant 0 <= j <= len && vaddr == vaddr0 + j
        invariant Own() == Splice(before, vaddr0, text[..j])
      {
        var c := if j < |s| then s[j] else 0;
        assert c == text[j];
        StoreByte(vaddr, c);
        NextChar(before, vaddr0, text, j);
        vaddr := vaddr + 1;
        j := j + 1;
      }
      assert text[..len] == text;
    }

    /** The part of Load that lays out the arguments and sets the stack pointer below them. */
    method LoadArguments(args: seq<CString>)
      requires Valid() && GoodTable(pageTable)
      requires |StringBytes(args)| + 4 * (|args| + 1) + 12 <= 128 * |pageTable|
      modifies this`argc, this`argv, this`stackptr, mainMemory
      ensures argc == |args|
      ensures ArgumentBlock(old(Own()), Own(), args, argv, 128 * |pageTable| - 8 - |StringBytes(args)|)
      ensures stackptr % 8 == 0 && stackptr + 4 <= argv < stackptr + 12
    {
      var table := StoreArguments(args);
      ghost var own := Own();
      argc := |args|;
      argv := table;
      stackptr := AlignDown8(argv - 4);
      assert Own() == own;
    }

    method StoreArguments(args: seq<CString>) returns (table: nat)
      requires Valid() && GoodTable(pageTable)
      requires |StringBytes(args)| + 4 * (|args| + 1) + 12 <= 128 * |pageTable|
      modifies mainMemory
      ensures table >= 4
      ensures ArgumentBlock(old(Own()), Own(), args, table, 128 * |pageTable| - 8 - |StringBytes(args)|)
    {
      TableFits(pageTable);
      ghost var before := Own();
      var ptr := StringsStart(args, 128 * |pageTable|);
      StoreStrings(args, ptr);
      ghost var strings := Own();
      table := AlignDown4(ptr - (|args| + 1) * 4);
      StoreTable(args, table, ptr);
      IsBlock(before, strings, Own(), args, table, ptr);
    }

    /** Where the strings start, so that they end eight bytes below the top. */
    static method StringsStart(args: seq<CString>, size: nat) returns (ptr: nat)
      requires |StringBytes(args)| + 8 <= size
      ensures ptr == size - 8 - |StringBytes(args)|
    {
      ptr := size - 8;
      var i := 0;
      while i < |args|
        invariant 0 <= i <= |args| && |StringBytes(args[..i])| <= |StringBytes(args)|
        invariant ptr == size - 8 - |StringBytes(args[..i])|
      {
        PrefixLength(args, i);
        NextLength(args, i);
        ptr := ptr - (|args[i]| + 1);
        i := i + 1;
      }
      assert args[..i] == args;
    }

    static method AlignDown4(start: nat) returns (vaddr: nat)
      ensures vaddr % 4 == 0 && start - 4 < vaddr <= start && (start >= 4 ==> vaddr >= 4)
    {
      vaddr := start;
      while vaddr % 4 != 0
        invariant start - start % 4 <= vaddr <= start && (start >= 4 ==> vaddr >= 4)
        decreases vaddr
      {
        vaddr := vaddr - 1;
      }
    }

    static method AlignDown8(start: nat) returns (vaddr: nat)
      ensures vaddr % 8 == 0 && start - 8 < vaddr <= start
    {
      vaddr := start;
      while vaddr % 8 != 0
        invariant start - start % 8 <= vaddr <= start
        decreases vaddr
      {
        vaddr := vaddr - 1;
      }
    }

    method StoreStrings(args: seq<CString>, ptr: nat)
      requires Valid() && GoodTable(pageTable) && ptr + |StringBytes(args)| <= 128 * |pageTable|
      modifies mainMemory
      ensures Own() == Splice(old(Own()), ptr, StringBytes(args))
    {
      ghost var before := Own();
      var vaddr := ptr;
      var i := 0;
      while i < |args|
        invariant 0 <= i <= |args| && vaddr == PointerTo(args, ptr, i)
        invariant |StringBytes(args[..i])| <= |StringBytes(args)|
        invariant Own() == Splice(before, ptr, StringBytes(args[..i]))
      {
        PrefixLength(args, i);
        NextString(before, ptr, args, i);
        vaddr := StoreString(vaddr, args[i]);
        i := i + 1;
      }
      assert args[..i] == args;
    }

    /** The table of pointers, and its NULL. */
    method StoreTable(args: seq<CString>, table: nat, base: nat)
      requires Valid() && GoodTable(pageTable) && table % 4 == 0 && table + 4 * (|args| + 1) <= 128 * |pageTable|
      requires base + |StringBytes(args)| < 0x1_0000_0000
      modifies mainMemory
      ensures Own() == Splice(old(Own()), table, PointerBytes(args, base, |args|) + [0, 0, 0, 0])
    {
      LastPointer(Own(), table, args, base);
      var vaddr := StorePointers(args, table, base);
      StillAligned(table, |args|);
      StoreWord(vaddr, 0);
    }

    method StorePointers(args: seq<CString>, table: nat, base: nat) returns (vaddr: nat)
      requires Valid() && GoodTable(pageTable) && table % 4 == 0 && table + 4 * (|args| + 1) <= 128 * |pageTable|
      requires base + |StringBytes(args)| < 0x1_0000_0000
      modifies mainMemory
      ensures vaddr == table + 4 * |args|
      ensures Own() == Splice(old(Own()), table, PointerBytes(args, base, |args|))
    {
      ghost var before := Own();
      vaddr := table;
      var ptr := base;
      var i := 0;
      while i < |args|
        invariant 0 <= i <= |args| && vaddr == table + 4 * i && ptr == PointerTo(args, base, i)
        invariant Own() == Splice(before, table, PointerBytes(args, base, i))
      {
        NextPointer(before, table, args, base, i);
        StillAligned(table, i);
        StoreWord(vaddr, ptr);
        vaddr := vaddr + 4;
        ptr := ptr + |args[i]| + 1;
        i := i + 1;
      }
    }
  }

  lemma StillAligned(table: nat, i: nat)
    requires table % 4 == 0
    ensures (table + 4 * i) % 4 == 0
  {}

  lemma Grow(mem: seq<byte>, p: nat, done: seq<byte>, more: seq<byte>)
    requires p + |done| + |more| <= |mem|
    ensures Splice(Splice(mem, p, done), p + |done|, more) == Splice(mem, p, done + more)
  {}

  lemma NextLength(args: seq<CString>, i: nat)
    requires i < |args|
    ensures StringBytes(args[..i + 1]) == StringBytes(args[..i]) + (args[i] + [0])
  {
    assert args[..i + 1][..i] == args[..i];
  }

  lemma NextChar(mem: seq<byte>, p: nat, text: seq<byte>, j: nat)
    requires p + |text| <= |mem| && j < |text|
    ensures Splice(Splice(mem, p, text[..j]), p + j, [text[j]]) == Splice(mem, p, text[..j + 1])
  {
    Grow(mem, p, text[..j], [text[j]]);
    assert text[..j + 1] == text[..j] + [text[j]];
  }

  lemma NextPointer(mem: seq<byte>, table: nat, args: seq<CString>, base: nat, i: nat)
    requires i < |args| && base + |StringBytes(args)| < 0x1_0000_0000 && table + 4 * (|args| + 1) <= |mem|
    ensures PointerTo(args, base, i + 1) == PointerTo(args, base, i) + |args[i]| + 1
    ensures PointerTo(args, base, i) < 0x1_0000_0000
    ensures Splice(Splice(mem, table, PointerBytes(args, base, i)), table + 4 * i, WordBytes(PointerTo(args, base, i)))
         == Splice(mem, table, PointerBytes(args, base, i + 1))
  {
    PointerBelow(args, base, i);
    NextLength(args, i);
    Grow(mem, table, PointerBytes(args, base, i), WordBytes(PointerTo(args, base, i)));
  }

  lemma LastPointer(mem: seq<byte>, table: nat, args: seq<CString>, base: nat)
    requires base + |StringBytes(args)| < 0x1_0000_0000 && table + 4 * (|args| + 1) <= |mem|
    ensures Splice(Splice(mem, table, PointerBytes(args, base, |args|)), table + 4 * |args|, WordBytes(0))
         == Splice(mem, table, PointerBytes(args, base, |args|) + [0, 0, 0, 0])
  {
    assert WordBytes(0) == [0, 0, 0, 0];
    Grow(mem, table, PointerBytes(args, base, |args|), WordBytes(0));
  }

  lemma NextString(mem: seq<byte>, ptr: nat, args: seq<CString>, i: nat)
    requires i < |args| && ptr + |StringBytes(args)| <= |mem|
    ensures PointerTo(args, ptr, i + 1) == PointerTo(args, ptr, i) + |args[i]| + 1 <= |mem|
    ensures Splice(Splice(mem, ptr, StringBytes(args[..i])), PointerTo(args, ptr, i), args[i] + [0])
         == Splice(mem, ptr, StringBytes(args[..i + 1]))
  {
    PrefixLength(args, i);
    NextLength(args, i);
    Grow(mem, ptr, StringBytes(args[..i]), args[i] + [0]);
  }

  lemma ListedFrames(t: Table)
    ensures Elements(FrameList(t)) == Frames(t)
  {
    assert forall i :: 0 <= i < |t| ==> FrameList(t)[i] == t[i].physicalPage;
  }

  lemma AlignedInPage(vaddr: nat)
    requires vaddr % 4 == 0
    ensures vaddr % 128 + 4 <= 128
  {
    assert vaddr % 128 % 4 == 0;
  }

  /** A table of distinct frames has at most as many pages as the memory. */
  lemma TableFits(t: Table)
    requires GoodTable(t)
    ensures |t| <= NUM_PHYS_PAGES
  {
    DistinctCount(t, |t|);
    SubsetCount(Frames(t[..|t|]), Below(NUM_PHYS_PAGES));
  }

  lemma {:induction false} DistinctCount(t: Table, n: nat)
    requires GoodTable(t) && n <= |t|
    ensures |Frames(t[..n])| == n
  {
    if n > 0 {
      DistinctCount(t, n - 1);
      assert Frames(t[..n]) == Frames(t[..n - 1]) + {t[n - 1].physicalPage as int};
    } else {
      assert Frames(t[..0]) == {};
    }
  }
}
