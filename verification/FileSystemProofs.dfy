/** Every operation of the file system keeps exact, disjoint ownership of sectors, and acts on the
    files as it should on a map from names to byte strings. */
module FileSystemProofs {
  import opened Words
  import opened Disks
  import opened Bitmaps
  import opened Allocations
  import opened FileHeaders
  import opened OpenFiles
  import opened PersistentBitmaps
  import opened Directories
  import opened FileSystemSpec

  // ---- what stays ----

  lemma SystemStays(before: Image, after: Image, changed: set<int>)
    requires Formatted(before) && SystemKept(before, after, changed)
    ensures MapHeader(after) == MapHeader(before) && DirHeader(after) == DirHeader(before)
    ensures Formatted(after) && System(after) == System(before)
  {
    assert FREE_MAP_SECTOR in System(before) && DIRECTORY_SECTOR in System(before);
  }

  /** A file none of whose sectors changed is the same file. */
  lemma SameContents(before: Image, after: Image, h: Header, changed: set<int>)
    requires Good(h) && SameOutside(before, after, changed) && Sectors(h) !! changed
    ensures Contents(after, h) == Contents(before, h)
  {
    forall p | 0 <= p < h.numBytes
      ensures Contents(after, h)[p] == Contents(before, h)[p]
    {
      ContentsAt(before, h, p);
      ContentsAt(after, h, p);
      assert h.data[p / 128] as int in Sectors(h);
    }
  }

  lemma SlotIn(d: Image, j: int)
    requires GoodFiles(d) && InUse(d, j)
    ensures j in Slots(d) && Slots(d)[j] == SlotAt(d, j)
  {}

  /** Entry j stands for the same file on both disks. */
  predicate SameSlot(before: Image, after: Image, j: int)
    requires GoodFiles(before) && Formatted(after) && InUse(before, j)
  {
    GoodFile(after, j) && SlotAt(after, j) == SlotAt(before, j)
  }

  /** A map that lists the slots in use is the map of slots. */
  lemma SlotsAre(d: Image, slots: map<int, Slot>)
    requires Formatted(d)
    requires forall j :: InUse(d, j) ==> j in slots
    requires forall j :: j in slots ==> IsSlot(d, j, slots[j])
    ensures GoodFiles(d) && Slots(d) == slots
  {
    SlotsGood(d, slots);
    forall j | j in slots
      ensures j in Slots(d) && Slots(d)[j] == slots[j]
    {
      assert IsSlot(d, j, slots[j]);
      SlotIn(d, j);
    }
    forall j | j in Slots(d)
      ensures j in slots
    {
      InUseIn(d, j);
    }
  }

  lemma SlotsGood(d: Image, slots: map<int, Slot>)
    requires Formatted(d)
    requires forall j :: InUse(d, j) ==> j in slots
    requires forall j :: j in slots ==> IsSlot(d, j, slots[j])
    ensures GoodFiles(d)
  {
    forall j | InUse(d, j)
      ensures GoodFile(d, j)
    {
      assert IsSlot(d, j, slots[j]);
    }
  }

  lemma InUseIn(d: Image, j: int)
    requires GoodFiles(d)
    ensures j in Slots(d) <==> InUse(d, j)
  {}

  lemma SlotKept(before: Image, after: Image, j: int)
    requires GoodFiles(before) && Formatted(after) && InUse(before, j) && SameSlot(before, after, j) && InUse(after, j)
    ensures IsSlot(after, j, Slots(before)[j])
  {
    SlotIn(before, j);
  }

  /** Every slot but one stays. */
  lemma SlotsKept(before: Image, after: Image, i: int)
    requires GoodFiles(before) && Formatted(after)
    requires forall j :: InUse(before, j) && j != i ==> InUse(after, j)
    requires forall j :: InUse(before, j) && j != i ==> SameSlot(before, after, j)
    ensures forall j :: j in Slots(before) && j != i ==> IsSlot(after, j, Slots(before)[j])
  {
    forall j | j in Slots(before) && j != i
      ensures IsSlot(after, j, Slots(before)[j])
    {
      InUseIn(before, j);
      SlotKept(before, after, j);
    }
  }

  lemma SlotsWithin(before: Image, after: Image, i: int)
    requires GoodFiles(before) && Formatted(after)
    requires forall j :: InUse(after, j) ==> j == i || InUse(before, j)
    ensures forall j :: InUse(after, j) ==> j == i || j in Slots(before)
  {
    forall j | InUse(after, j) && j != i
      ensures j in Slots(before)
    {
      InUseIn(before, j);
    }
  }

  lemma SlotsUpdated(before: Image, after: Image, i: int, slot: Slot)
    requires GoodFiles(before) && Formatted(after)
    requires forall j :: InUse(after, j) <==> j == i || InUse(before, j)
    requires forall j :: InUse(before, j) && j != i ==> SameSlot(before, after, j)
    requires 0 <= i < NUM_DIR_ENTRIES && GoodFile(after, i) && SlotAt(after, i) == slot
    ensures GoodFiles(after) && Slots(after) == Slots(before)[i := slot]
  {
    SlotsKept(before, after, i);
    SlotsWithin(before, after, i);
    assert IsSlot(after, i, slot);
    SlotsAre(after, Slots(before)[i := slot]);
  }

  lemma SlotsDropped(before: Image, after: Image, i: int)
    requires GoodFiles(before) && Formatted(after)
    requires forall j :: InUse(after, j) <==> j != i && InUse(before, j)
    requires forall j :: InUse(before, j) && j != i ==> SameSlot(before, after, j)
    ensures GoodFiles(after) && Slots(after) == Slots(before) - {i}
  {
    SlotsKept(before, after, i);
    SlotsWithin(before, after, i);
    SlotsAre(after, Slots(before) - {i});
  }

  lemma TwoApart(d: Image, i: int, j: int)
    requires Inv(d) && InUse(d, i) && InUse(d, j) && i != j
    ensures Owned(d, i) !! Owned(d, j)
  {
    SlotIn(d, i);
    SlotIn(d, j);
  }

  lemma OwnedApart(d: Image, j: int)
    requires Inv(d) && InUse(d, j)
    ensures Owned(d, j) !! System(d)
  {
    SlotIn(d, j);
  }

  lemma FileStays(before: Image, after: Image, j: int, changed: set<int>)
    requires Inv(before) && Formatted(after) && SystemKept(before, after, changed)
    requires InUse(before, j) && Table(after)[j] == Table(before)[j] && Owned(before, j) !! changed
    ensures SameSlot(before, after, j)
  {
    OwnedApart(before, j);
    var moved := Sectors(MapHeader(before)) + Sectors(DirHeader(before)) + changed;
    assert Owned(before, j) !! moved;
    assert Table(before)[j].sector as int in Owned(before, j);
    assert after[Table(before)[j].sector] == before[Table(before)[j].sector];
    SameContents(before, after, FileHeaderOf(before, j), moved);
  }

  // ---- the balance ----

  /** A clear flag belongs to nobody. */
  lemma ClearIsFree(bits: seq<bool>, system: set<int>, slots: map<int, Slot>, taken: set<int>)
    requires Balanced(bits, system, slots)
    requires forall x :: x in taken ==> 0 <= x < |bits| && !bits[x]
    ensures taken !! system
    ensures forall j :: j in slots ==> slots[j].owned !! taken
  {
    forall x | x in taken
      ensures x !in system
    {
      assert !bits[x];
    }
    forall j | j in slots
      ensures slots[j].owned !! taken
    {
      forall x | x in taken
        ensures x !in slots[j].owned
      {
        assert !bits[x];
      }
    }
  }

  lemma BalanceAdd(bits: seq<bool>, system: set<int>, slots: map<int, Slot>, i: int, slot: Slot)
    requires Balanced(bits, system, slots) && i !in slots
    requires forall x :: x in slot.owned ==> 0 <= x < |bits| && !bits[x]
    ensures Balanced(Marked(bits, slot.owned), system, slots[i := slot])
  {
    var more := slots[i := slot];
    ClearIsFree(bits, system, slots, slot.owned);
    forall s | 0 <= s < |bits|
      ensures Marked(bits, slot.owned)[s] <==> s in system || exists j :: j in more && s in more[j].owned
    {
      if j :| j in slots && s in slots[j].owned {
        assert j in more && more[j] == slots[j];
      } else if s in slot.owned {
        assert i in more && s in more[i].owned;
      }
    }
  }

  lemma BalanceDrop(bits: seq<bool>, system: set<int>, slots: map<int, Slot>, i: int)
    requires Balanced(bits, system, slots) && i in slots
    ensures Balanced(Cleared(bits, slots[i].owned), system, slots - {i})
  {
    var fewer := slots - {i};
    forall s | 0 <= s < |bits|
      ensures Cleared(bits, slots[i].owned)[s] <==> s in system || exists j :: j in fewer && s in fewer[j].owned
    {
      if j :| j in slots && s in slots[j].owned && j != i {
        assert j in fewer && s in fewer[j].owned;
      }
    }
  }

  lemma ContentsOfSlot(slots: map<int, Slot>, i: int)
    requires NamesApart(slots) && i in slots
    ensures slots[i].name in NamesOf(slots) && ContentsOf(slots, slots[i].name) == slots[i].contents
  {}

  lemma NamesAdd(slots: map<int, Slot>, i: int, slot: Slot)
    requires NamesApart(slots) && i !in slots && slot.name !in NamesOf(slots)
    ensures NamesApart(slots[i := slot])
    ensures NamesOf(slots[i := slot]) == NamesOf(slots) + {slot.name}
  {
    var more := slots[i := slot];
    assert forall j :: j in slots ==> slots[j].name in NamesOf(slots);
    assert i in more && forall j :: j in slots ==> j in more && more[j] == slots[j];
    assert forall k :: k in NamesOf(slots) ==> k in NamesOf(more);
  }

  lemma ByNameAdd(slots: map<int, Slot>, i: int, slot: Slot)
    requires NamesApart(slots) && i !in slots && slot.name !in NamesOf(slots)
    ensures NamesApart(slots[i := slot])
    ensures ByName(slots[i := slot]) == ByName(slots)[slot.name := slot.contents]
  {
    var more := slots[i := slot];
    NamesAdd(slots, i, slot);
    ContentsOfSlot(more, i);
    forall k | k in NamesOf(slots)
      ensures ContentsOf(more, k) == ContentsOf(slots, k)
    {
      var j :| j in slots && slots[j].name == k;
      ContentsOfSlot(slots, j);
      ContentsOfSlot(more, j);
    }
  }

  lemma NamesDrop(slots: map<int, Slot>, i: int)
    requires NamesApart(slots) && i in slots
    ensures NamesApart(slots - {i})
    ensures NamesOf(slots - {i}) == NamesOf(slots) - {slots[i].name}
  {
    var fewer := slots - {i};
    forall k | k in NamesOf(slots) - {slots[i].name}
      ensures k in NamesOf(fewer)
    {
      var j :| j in slots && slots[j].name == k;
      assert j in fewer;
    }
  }

  lemma ByNameDrop(slots: map<int, Slot>, i: int)
    requires NamesApart(slots) && i in slots
    ensures NamesApart(slots - {i})
    ensures ByName(slots - {i}) == ByName(slots) - {slots[i].name}
    ensures slots[i].name in ByName(slots)
  {
    var fewer := slots - {i};
    NamesDrop(slots, i);
    forall k | k in NamesOf(fewer)
      ensures k in NamesOf(slots) && ContentsOf(fewer, k) == ContentsOf(slots, k)
    {
      var j :| j in fewer && fewer[j].name == k;
      ContentsOfSlot(slots, j);
      ContentsOfSlot(fewer, j);
    }
  }

  lemma NamesSame(slots: map<int, Slot>, i: int, bytes: seq<byte>)
    requires NamesApart(slots) && i in slots
    ensures NamesApart(slots[i := slots[i].(contents := bytes)])
    ensures NamesOf(slots[i := slots[i].(contents := bytes)]) == NamesOf(slots)
  {
    var same := slots[i := slots[i].(contents := bytes)];
    assert forall j :: j in slots <==> j in same;
    assert forall j :: j in slots ==> same[j].name == slots[j].name;
    assert forall j :: j in slots ==> slots[j].name in NamesOf(same);
  }

  lemma ByNameUpdate(slots: map<int, Slot>, i: int, bytes: seq<byte>)
    requires NamesApart(slots) && i in slots
    ensures NamesApart(slots[i := slots[i].(contents := bytes)])
    ensures ByName(slots[i := slots[i].(contents := bytes)]) == ByName(slots)[slots[i].name := bytes]
    ensures slots[i].name in ByName(slots) && ByName(slots)[slots[i].name] == slots[i].contents
  {
    var same := slots[i := slots[i].(contents := bytes)];
    NamesSame(slots, i, bytes);
    ContentsOfSlot(slots, i);
    ContentsOfSlot(same, i);
    forall k | k in NamesOf(slots) && k != slots[i].name
      ensures ContentsOf(same, k) == ContentsOf(slots, k)
    {
      var j :| j in slots && slots[j].name == k;
      ContentsOfSlot(slots, j);
      ContentsOfSlot(same, j);
    }
  }

  lemma BalanceSame(bits: seq<bool>, system: set<int>, slots: map<int, Slot>, i: int, bytes: seq<byte>)
    requires Balanced(bits, system, slots) && i in slots
    ensures Balanced(bits, system, slots[i := slots[i].(contents := bytes)])
  {
    var same := slots[i := slots[i].(contents := bytes)];
    assert forall j :: j in slots <==> j in same;
    assert forall j :: j in slots ==> same[j].owned == slots[j].owned;
    forall s | 0 <= s < |bits|
      ensures bits[s] <==> s in system || exists j :: j in same && s in same[j].owned
    {
      if j :| j in slots && s in slots[j].owned {
        assert j in same && s in same[j].owned;
      }
    }
  }

  // ---- create ----

  /** The sectors of a new file were all free. */
  lemma NewSectorsFree(bits: seq<bool>, s: int, h: Header)
    requires Good(h) && LowestClear(bits, [s] + h.data[..h.numSectors])
    ensures s !in Sectors(h)
    ensures forall x :: x in {s} + Sectors(h) ==> 0 <= x < |bits| && !bits[x]
  {
    TakenTogether(bits, s, h);
    forall x | x in Sectors(h)
      ensures x != s && 0 <= x < |bits| && !bits[x]
    {
      var k :| 0 <= k < h.numSectors && x == h.data[k];
    }
  }

  lemma TakenTogether(bits: seq<bool>, s: int, h: Header)
    requires Good(h) && LowestClear(bits, [s] + h.data[..h.numSectors])
    ensures 0 <= s < |bits| && !bits[s]
    ensures forall k :: 0 <= k < h.numSectors ==> s < h.data[k] < |bits| && !bits[h.data[k]]
  {
    var taken: seq<int> := [s] + h.data[..h.numSectors];
    assert taken[0] == s;
    forall k | 0 <= k < h.numSectors
      ensures s < h.data[k] < |bits| && !bits[h.data[k]]
    {
      assert taken[k + 1] == h.data[k];
    }
  }

  ghost function NewSlot(after: Image, name: CString, s: int, h: Header): Slot
    requires Good(h)
  {
    Slot({s} + Sectors(h), Key(name), Contents(after, h))
  }

  lemma CreateNew(before: Image, after: Image, name: CString, size: nat, i: int, s: int, h: Header)
    requires Inv(before) && Formatted(after) && Created(before, after, name, size, i, s, h)
    ensures InUse(after, i) && GoodFile(after, i) && SlotAt(after, i) == NewSlot(after, name, s, h)
    ensures System(after) == System(before)
  {
    NewSectorsFree(FreeMap(before), s, h);
    SystemStays(before, after, {s});
  }

  lemma CreateOthers(before: Image, after: Image, name: CString, size: nat, i: int, s: int, h: Header)
    requires Inv(before) && Formatted(after) && Created(before, after, name, size, i, s, h)
    ensures forall j :: InUse(before, j) ==> SameSlot(before, after, j)
  {
    forall j | InUse(before, j)
      ensures SameSlot(before, after, j)
    {
      CreateOther(before, after, name, size, i, s, h, j);
    }
  }

  lemma CreateOther(before: Image, after: Image, name: CString, size: nat, i: int, s: int, h: Header, j: int)
    requires Inv(before) && Formatted(after) && Created(before, after, name, size, i, s, h) && InUse(before, j)
    ensures SameSlot(before, after, j)
  {
    NewSectorsFree(FreeMap(before), s, h);
    ClearIsFree(FreeMap(before), System(before), Slots(before), {s});
    SlotIn(before, j);
    FileStays(before, after, j, {s});
  }

  /** The slots after a create: one more. */
  lemma CreateSlots(before: Image, after: Image, name: CString, size: nat, i: int, s: int, h: Header)
    requires Inv(before) && Formatted(after) && Created(before, after, name, size, i, s, h)
    ensures GoodFiles(after) && i !in Slots(before)
    ensures Slots(after) == Slots(before)[i := NewSlot(after, name, s, h)]
  {
    CreateNew(before, after, name, size, i, s, h);
    CreateOthers(before, after, name, size, i, s, h);
    SlotsUpdated(before, after, i, NewSlot(after, name, s, h));
  }

  lemma NameIsNew(d: Image, key: CString)
    requires Inv(d) && !HasName(Table(d), key)
    ensures key !in NamesOf(Slots(d))
  {
    forall j | j in Slots(d)
      ensures Slots(d)[j].name != key
    {
      assert Names(Table(d), j, Slots(d)[j].name);
    }
  }

  lemma CreateKeepsInv(before: Image, after: Image, name: CString, size: nat, i: int, s: int, h: Header)
    requires Inv(before) && Formatted(after) && Created(before, after, name, size, i, s, h)
    requires !HasName(Table(before), Key(name))
    ensures Inv(after)
  {
    NewSectorsFree(FreeMap(before), s, h);
    CreateNew(before, after, name, size, i, s, h);
    CreateSlots(before, after, name, size, i, s, h);
    NameIsNew(before, Key(name));
    BalanceAdd(FreeMap(before), System(before), Slots(before), i, NewSlot(after, name, s, h));
    ByNameAdd(Slots(before), i, NewSlot(after, name, s, h));
  }

  lemma CreateStepKeepsInv(before: Image, after: Image, name: CString, size: nat, ok: bool)
    requires Inv(before) && Formatted(after) && CreateStep(before, after, name, size, ok)
    ensures Inv(after)
    ensures MapHeader(after) == MapHeader(before) && DirHeader(after) == DirHeader(before)
  {
    if ok {
      var i, s, h :| Created(before, after, name, size, i, s, h);
      CreateKeepsInv(before, after, name, size, i, s, h);
      SystemStays(before, after, {s});
    }
  }

  /** Creating adds one file, of the wanted size, and leaves every other file as it was. */
  lemma CreateOnFiles(before: Image, after: Image, name: CString, size: nat, i: int, s: int, h: Header)
    requires Inv(before) && Inv(after) && Created(before, after, name, size, i, s, h)
    requires !HasName(Table(before), Key(name))
    ensures Key(name) !in Files(before) && |Contents(after, h)| == size
    ensures Files(after) == Files(before)[Key(name) := Contents(after, h)]
  {
    CreateSlots(before, after, name, size, i, s, h);
    NameIsNew(before, Key(name));
    ByNameAdd(Slots(before), i, NewSlot(after, name, s, h));
  }

  // ---- remove ----

  lemma RemoveOthers(before: Image, after: Image, i: int)
    requires Inv(before) && Formatted(after) && InUse(before, i) && Removed(before, after, i)
    ensures forall j :: InUse(before, j) && j != i ==> SameSlot(before, after, j)
  {
    forall j | InUse(before, j) && j != i
      ensures SameSlot(before, after, j)
    {
      FileStays(before, after, j, {});
    }
  }

  lemma RemoveSlots(before: Image, after: Image, i: int)
    requires Inv(before) && Formatted(after) && InUse(before, i) && Removed(before, after, i)
    ensures GoodFiles(after)
    ensures i in Slots(before) && Slots(before)[i] == SlotAt(before, i)
    ensures Slots(after) == Slots(before) - {i}
  {
    SlotIn(before, i);
    RemoveOthers(before, after, i);
    RemoveInUse(before, after, i);
    SlotsDropped(before, after, i);
  }

  lemma RemoveInUse(before: Image, after: Image, i: int)
    requires Formatted(before) && Formatted(after) && InUse(before, i)
    requires Table(after) == Table(before)[i := Table(before)[i].(inUse := false)]
    ensures forall j :: InUse(after, j) <==> j != i && InUse(before, j)
  {}

  lemma RemoveKeepsInv(before: Image, after: Image, i: int)
    requires Inv(before) && Formatted(after) && InUse(before, i) && Removed(before, after, i)
    ensures Inv(after)
  {
    SystemStays(before, after, {});
    RemoveSlots(before, after, i);
    BalanceDrop(FreeMap(before), System(before), Slots(before), i);
    ByNameDrop(Slots(before), i);
  }

  /** Removing drops one file and leaves every other file as it was. */
  lemma RemoveOnFiles(before: Image, after: Image, key: CString, i: int)
    requires Inv(before) && Inv(after) && Names(Table(before), i, key) && Removed(before, after, i)
    ensures key in Files(before) && Files(after) == Files(before) - {key}
  {
    assert InUse(before, i);
    RemoveSlots(before, after, i);
    ByNameDrop(Slots(before), i);
  }

  // ---- write ----

  /** A write changes sectors of its own file's data only. */
  lemma WriteSystem(before: Image, after: Image, i: int, position: nat, bytes: seq<byte>)
    requires Inv(before) && InUse(before, i) && WriteStep(before, after, i, position, bytes)
    ensures MapHeader(after) == MapHeader(before) && DirHeader(after) == DirHeader(before) && Formatted(after)
    ensures FreeMap(after) == FreeMap(before) && Table(after) == Table(before) && System(after) == System(before)
  {
    var h := FileHeaderOf(before, i);
    OwnedApart(before, i);
    assert FREE_MAP_SECTOR in System(before) && DIRECTORY_SECTOR in System(before);
    SameContents(before, after, MapHeader(before), Sectors(h));
    SameContents(before, after, DirHeader(before), Sectors(h));
  }

  lemma WriteOther(before: Image, after: Image, i: int, position: nat, bytes: seq<byte>, j: int)
    requires Inv(before) && InUse(before, i) && WriteStep(before, after, i, position, bytes)
    requires Formatted(after) && Table(after) == Table(before) && InUse(before, j) && j != i
    ensures SameSlot(before, after, j)
  {
    var h, g := FileHeaderOf(before, i), FileHeaderOf(before, j);
    var s := Table(before)[j].sector;
    TwoApart(before, i, j);
    assert s as int in Owned(before, j);
    assert after[s] == before[s];
    SameContents(before, after, g, Sectors(h));
  }

  lemma WriteOthers(before: Image, after: Image, i: int, position: nat, bytes: seq<byte>)
    requires Inv(before) && InUse(before, i) && WriteStep(before, after, i, position, bytes)
    requires Formatted(after) && Table(after) == Table(before)
    ensures forall j :: InUse(before, j) && j != i ==> SameSlot(before, after, j)
  {
    forall j | InUse(before, j) && j != i
      ensures SameSlot(before, after, j)
    {
      WriteOther(before, after, i, position, bytes, j);
    }
  }

  /** The file itself: the bytes spliced in. */
  ghost function Rewritten(before: Image, i: int, position: nat, bytes: seq<byte>): Slot
    requires GoodFiles(before) && InUse(before, i) && position + |bytes| <= |SlotAt(before, i).contents|
  {
    SlotAt(before, i).(contents := Splice(SlotAt(before, i).contents, position, bytes))
  }

  lemma WriteOwn(before: Image, after: Image, i: int, position: nat, bytes: seq<byte>)
    requires Inv(before) && InUse(before, i) && WriteStep(before, after, i, position, bytes) && bytes != []
    requires Formatted(after) && Table(after) == Table(before)
    ensures GoodFile(after, i) && position + |bytes| <= |SlotAt(before, i).contents|
    ensures SlotAt(after, i) == Rewritten(before, i, position, bytes)
  {}

  lemma WriteSlots(before: Image, after: Image, i: int, position: nat, bytes: seq<byte>)
    requires Inv(before) && InUse(before, i) && WriteStep(before, after, i, position, bytes) && bytes != []
    ensures Formatted(after) && GoodFiles(after) && FreeMap(after) == FreeMap(before) && System(after) == System(before)
    ensures i in Slots(before) && Slots(before)[i] == SlotAt(before, i)
    ensures position + |bytes| <= |SlotAt(before, i).contents|
    ensures Slots(after) == Slots(before)[i := Rewritten(before, i, position, bytes)]
  {
    WriteSystem(before, after, i, position, bytes);
    WriteOwn(before, after, i, position, bytes);
    WriteOthers(before, after, i, position, bytes);
    SlotIn(before, i);
    SlotsUpdated(before, after, i, Rewritten(before, i, position, bytes));
  }

  lemma WriteKeepsInv(before: Image, after: Image, i: int, position: nat, bytes: seq<byte>)
    requires Inv(before) && InUse(before, i) && WriteStep(before, after, i, position, bytes)
    ensures Inv(after)
  {
    if bytes != [] {
      WriteSlots(before, after, i, position, bytes);
      var now := Splice(Slots(before)[i].contents, position, bytes);
      BalanceSame(FreeMap(before), System(before), Slots(before), i, now);
      ByNameUpdate(Slots(before), i, now);
    }
  }

  /** A write splices the bytes into its own file, and leaves every other file as it was. */
  lemma WriteOnFiles(before: Image, after: Image, i: int, position: nat, bytes: seq<byte>)
    requires Inv(before) && Inv(after) && InUse(before, i) && WriteStep(before, after, i, position, bytes) && bytes != []
    ensures
      var key := StoredName(Table(before)[i]);
      && key in Files(before) && position + |bytes| <= |Files(before)[key]|
      && Files(after) == Files(before)[key := Splice(Files(before)[key], position, bytes)]
  {
    WriteSlots(before, after, i, position, bytes);
    ByNameUpdate(Slots(before), i, Splice(Slots(before)[i].contents, position, bytes));
  }
}
