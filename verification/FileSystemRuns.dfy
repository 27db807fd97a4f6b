/** Whole runs of the file system: every run of creates, removes, writes and reads on a formatted disk is
    a run of a map from names to byte strings with a bound on the number of files and on their space. */
module FileSystemRuns {
  import opened Sets
  import opened Words
  import opened Disks
  import opened Bitmaps
  import opened Allocations
  import opened FileHeaders
  import opened OpenFiles
  import opened Directories
  import opened FileSystemSpec
  import opened FileSystemProofs
  import opened FileSystems

  // ---- space: the number of clear flags follows from the files ----

  /** The sectors a file of the given size takes: one for its header, and just enough for its bytes. */
  function Cost(size: nat): (n: nat)
    ensures 128 * (n - 1) >= size > 128 * (n - 2)
  {
    1 + SectorsFor(size)
  }

  /** The sectors that all the files take. */
  ghost function Spent(files: map<CString, seq<byte>>): nat {
    if files == map[] then 0
    else
      var k :| k in files;
      Cost(|files[k]|) + Spent(files - {k})
  }

  lemma {:induction false} SpentWithout(files: map<CString, seq<byte>>, k: CString)
    requires k in files
    ensures Spent(files) == Cost(|files[k]|) + Spent(files - {k})
    decreases |files|
  {
    var j :| j in files && Spent(files) == Cost(|files[j]|) + Spent(files - {j});
    if j != k {
      SpentWithout(files - {j}, k);
      SpentWithout(files - {k}, j);
      assert files - {j} - {k} == files - {k} - {j};
    }
  }

  function MarkedSet(bits: seq<bool>): set<int> {
    set s | 0 <= s < |bits| && bits[s]
  }

  lemma {:induction false} CountByMarked(bits: seq<bool>)
    ensures CountClear(bits) + |MarkedSet(bits)| == |bits|
  {
    if |bits| > 0 {
      var n := |bits| - 1;
      CountByMarked(bits[..n]);
      if bits[n] {
        assert MarkedSet(bits) == MarkedSet(bits[..n]) + {n};
      } else {
        assert MarkedSet(bits) == MarkedSet(bits[..n]);
      }
    }
  }

  ghost function OwnedBy(slots: map<int, Slot>): set<int> {
    set i, s | i in slots && s in slots[i].owned :: s
  }

  /** Each slot owns as many sectors as its file costs. */
  ghost predicate Priced(slots: map<int, Slot>) {
    forall i :: i in slots ==> |slots[i].owned| == Cost(|slots[i].contents|)
  }

  ghost predicate Apart(slots: map<int, Slot>) {
    forall i, j :: i in slots && j in slots && i != j ==> slots[i].owned !! slots[j].owned
  }

  lemma OwnedWithout(slots: map<int, Slot>, i: int)
    requires Apart(slots) && i in slots
    ensures OwnedBy(slots) == OwnedBy(slots - {i}) + slots[i].owned
    ensures OwnedBy(slots - {i}) !! slots[i].owned
  {
    var fewer := slots - {i};
    forall s | s in OwnedBy(slots) && s !in slots[i].owned
      ensures s in OwnedBy(fewer)
    {
      var j :| j in slots && s in slots[j].owned;
      assert j in fewer && s in fewer[j].owned;
    }
    assert forall s :: s in slots[i].owned ==> s in OwnedBy(slots);
  }

  lemma {:induction false} OwnedCount(slots: map<int, Slot>)
    requires Apart(slots) && Priced(slots) && NamesApart(slots)
    ensures |OwnedBy(slots)| == Spent(ByName(slots))
    ensures |slots| == |ByName(slots)|
  {
    if slots == map[] {
      assert ByName(slots) == map[];
      assert OwnedBy(slots) == {};
    } else {
      var i := SomeKey(slots);
      var fewer, name := slots - {i}, slots[i].name;
      ByNameDrop(slots, i);
      ContentsOfSlot(slots, i);
      OwnedCount(fewer);
      OwnedWithout(slots, i);
      CountStep(slots, i, OwnedBy(fewer), ByName(slots));
    }
  }

  lemma SomeKey<K, V>(m: map<K, V>) returns (k: K)
    requires m != map[]
    ensures k in m
  {
    k :| k in m;
  }

  lemma CountStep(slots: map<int, Slot>, i: int, owned: set<int>, files: map<CString, seq<byte>>)
    requires i in slots && slots[i].owned !! owned && |slots[i].owned| == Cost(|slots[i].contents|)
    requires slots[i].name in files && files[slots[i].name] == slots[i].contents
    requires |owned| == Spent(files - {slots[i].name}) && |slots - {i}| == |files - {slots[i].name}|
    ensures |owned + slots[i].owned| == Spent(files) && |slots| == |files|
  {
    SpentWithout(files, slots[i].name);
    CountWithout(slots, i);
    CountWithout(files, slots[i].name);
  }

  lemma CountWithout<K, V>(m: map<K, V>, k: K)
    requires k in m
    ensures |m| == |m - {k}| + 1
  {
    assert m == (m - {k})[k := m[k]];
  }

  lemma {:induction false} FirstSectorsCount(h: Header, n: nat)
    requires Good(h) && n <= h.numSectors
    ensures |set i | 0 <= i < n :: h.data[i] as int| == n
  {
    var first := set i | 0 <= i < n :: h.data[i] as int;
    if n > 0 {
      FirstSectorsCount(h, n - 1);
      var fewer := set i | 0 <= i < n - 1 :: h.data[i] as int;
      assert first == fewer + {h.data[n - 1] as int};
      assert h.data[n - 1] as int !in fewer;
    } else {
      assert first == {};
    }
  }

  lemma SectorsCount(h: Header)
    requires Good(h)
    ensures |Sectors(h)| == SectorsFor(h.numBytes)
  {
    FirstSectorsCount(h, h.numSectors);
  }

  lemma SlotsPriced(d: Image)
    requires GoodFiles(d)
    ensures Priced(Slots(d))
  {
    forall i | i in Slots(d)
      ensures |Slots(d)[i].owned| == Cost(|Slots(d)[i].contents|)
    {
      SectorsCount(FileHeaderOf(d, i));
    }
  }

  const SYSTEM_SECTORS := 5

  lemma SystemCount(d: Image)
    requires Formatted(d)
    ensures |System(d)| == SYSTEM_SECTORS
  {
    SectorsCount(MapHeader(d));
    SectorsCount(DirHeader(d));
    var m, r := Sectors(MapHeader(d)), Sectors(DirHeader(d));
    var both := {FREE_MAP_SECTOR, DIRECTORY_SECTOR};
    assert |both| == 2;
    assert |both + m| == |both| + |m|;
    assert |both + m + r| == |both + m| + |r|;
  }

  /** No sector is lost: what is not the system's and not the files' is free. */
  lemma FreeSpace(d: Image)
    requires Inv(d)
    ensures CountClear(FreeMap(d)) == 1024 - 5 - Spent(Files(d))
    ensures |Slots(d)| == |Files(d)|
  {
    var bits, system, slots := FreeMap(d), System(d), Slots(d);
    CountByMarked(bits);
    SystemCount(d);
    SlotsPriced(d);
    OwnedCount(slots);
    OwnedWithin(d);
    MarkedOwned(bits, system, slots);
  }

  lemma OwnedWithin(d: Image)
    requires GoodFiles(d)
    ensures forall s :: s in System(d) + OwnedBy(Slots(d)) ==> 0 <= s < NUM_SECTORS
  {
    forall s | s in System(d) + OwnedBy(Slots(d))
      ensures 0 <= s < NUM_SECTORS
    {
      if s in OwnedBy(Slots(d)) {
        OwnerInRange(d, s);
      }
    }
  }

  lemma OwnerInRange(d: Image, s: int)
    requires GoodFiles(d) && s in OwnedBy(Slots(d))
    ensures 0 <= s < NUM_SECTORS
  {
    var i :| i in Slots(d) && s in Slots(d)[i].owned;
    OwnedInRange(d, i);
  }

  lemma MarkedOwned(bits: seq<bool>, system: set<int>, slots: map<int, Slot>)
    requires Balanced(bits, system, slots)
    requires forall s :: s in system + OwnedBy(slots) ==> 0 <= s < |bits|
    ensures |MarkedSet(bits)| == |system| + |OwnedBy(slots)|
  {
    assert MarkedSet(bits) == system + OwnedBy(slots);
    assert system !! OwnedBy(slots);
  }

  lemma RoomByUse(t: seq<Entry>, used: set<int>)
    requires forall i :: i in used <==> 0 <= i < |t| && t[i].inUse
    ensures HasRoom(t) <==> |used| < |t|
  {
    var spare := Below(|t|) - used;
    assert used <= Below(|t|) && |spare| == |t| - |used|;
    if i :| i in spare {
      assert |spare| > 0;
      FirstFree(t, i);
    } else {
      assert spare == {};
      forall i | 0 <= i < |t|
        ensures t[i].inUse
      {
        assert i in Below(|t|) && i !in spare;
      }
    }
  }

  lemma SlotsInUse(d: Image)
    requires GoodFiles(d)
    ensures forall i :: i in Slots(d).Keys <==> 0 <= i < |Table(d)| && Table(d)[i].inUse
    ensures |Slots(d).Keys| == |Slots(d)|
  {}

  /** A directory has room exactly when fewer than ten files are there. */
  lemma RoomByCount(d: Image)
    requires Inv(d)
    ensures HasRoom(Table(d)) <==> |Files(d)| < 10
  {
    var slots := Slots(d);
    SlotsPriced(d);
    OwnedCount(slots);
    SlotsInUse(d);
    RoomByUse(Table(d), slots.Keys);
  }

  lemma {:induction false} FirstFree(t: seq<Entry>, i: nat)
    requires i < |t| && !t[i].inUse
    ensures HasRoom(t)
  {
    if j :| 0 <= j < i && !t[j].inUse {
      FirstFree(t, j);
    } else {
      assert IsFirstFree(t, i);
    }
  }

  // ---- the abstract file system ----

  /** An operation and its outcome. Writes and reads go through a handle opened for them. */
  datatype Event =
    | Create(name: CString, size: nat, ok: bool)
    | Remove(name: CString, ok: bool)
    | Write(name: CString, position: nat, from: seq<byte>, moved: nat)
    | Read(name: CString, position: nat, numBytes: int, got: seq<byte>)

  type AbstractFiles = map<CString, seq<byte>>

  /** When a file can be added: the name is new, there are fewer than ten files, and the space is there. */
  ghost predicate CanAdd(files: AbstractFiles, key: CString, size: nat) {
    key !in files && |files| < 10 && Spent(files) + Cost(size) <= 1019
  }

  /** What each operation does to the files; a new file's contents are its size in arbitrary bytes. */
  ghost predicate AbstractStep(e: Event, before: AbstractFiles, after: AbstractFiles) {
    match e
    case Create(name, size, ok) =>
      && (ok <==> CanAdd(before, Key(name), size))
      && (!ok ==> after == before)
      && (ok ==> Key(name) in after && |after[Key(name)]| == size && after == before[Key(name) := after[Key(name)]])
    case Remove(name, ok) =>
      && (ok <==> Key(name) in before)
      && after == before - {Key(name)}
    case Write(name, position, from, moved) =>
      if Key(name) in before then
        && moved == Granted(|before[Key(name)]|, |from|, position)
        && moved <= |from| && (moved > 0 ==> position + moved <= |before[Key(name)]|)
        && after == if moved == 0 then before else before[Key(name) := Splice(before[Key(name)], position, from[..moved])]
      else
        moved == 0 && after == before
    case Read(name, position, numBytes, got) =>
      after == before && got == if Key(name) in before then Piece(before[Key(name)], numBytes, position) else []
  }

  /** What the operations' contracts say of the disk. */
  ghost predicate DiskStep(e: Event, before: Image, after: Image)
    requires Inv(before)
  {
    Formatted(after) &&
    match e
    case Create(name, size, ok) => CreateStep(before, after, name, size, ok)
    case Remove(name, ok) => RemoveStep(before, after, name, ok)
    case Write(name, position, from, moved) =>
      if Key(name) in Files(before) then exists i, h :: WriteThrough(before, after, Key(name), i, h, position, from, moved)
      else moved == 0 && after == before
    case Read(name, position, numBytes, got) =>
      after == before && got == if Key(name) in Files(before) then Piece(Files(before)[Key(name)], numBytes, position) else []
  }

  ghost predicate WriteThrough(before: Image, after: Image, key: CString, i: int, h: Header, position: nat,
                               from: seq<byte>, moved: nat)
    requires Inv(before)
  {
    && HeaderNamed(before, key, i, h)
    && moved == Granted(h.numBytes, |from|, position) <= |from|
    && Written(before, after, h, position, from[..moved])
  }

  /** A run: a formatted disk, then any number of operations. */
  ghost predicate Run(disks: seq<Image>, events: seq<Event>) {
    && |disks| == |events| + 1
    && Inv(disks[0]) && Files(disks[0]) == map[]
    && forall k :: 0 <= k < |events| && Inv(disks[k]) ==> DiskStep(events[k], disks[k], disks[k + 1])
  }

  // ---- refinement, step by step ----

  lemma CanAddIsCanCreate(d: Image, name: CString, size: nat)
    requires Inv(d)
    ensures CanCreate(d, name, size) <==> CanAdd(Files(d), Key(name), size)
  {
    FreeSpace(d);
    RoomByCount(d);
    NameThere(d, Key(name));
  }

  lemma NameThere(d: Image, key: CString)
    requires Inv(d)
    ensures HasName(Table(d), key) <==> key in Files(d)
  {
    if i :| Names(Table(d), i, key) {
      FileFound(d, i, key);
    } else {
      NameMissing(d, key);
    }
  }

  lemma CreateRefines(before: Image, after: Image, name: CString, size: nat, ok: bool)
    requires Inv(before) && Formatted(after) && CreateStep(before, after, name, size, ok)
    ensures Inv(after) && AbstractStep(Create(name, size, ok), Files(before), Files(after))
  {
    CanAddIsCanCreate(before, name, size);
    CreateStepKeepsInv(before, after, name, size, ok);
    if ok {
      var i, s, h :| Created(before, after, name, size, i, s, h);
      CreateOnFiles(before, after, name, size, i, s, h);
    }
  }

  lemma RemoveRefines(before: Image, after: Image, name: CString, ok: bool)
    requires Inv(before) && Formatted(after) && RemoveStep(before, after, name, ok)
    ensures Inv(after) && AbstractStep(Remove(name, ok), Files(before), Files(after))
  {
    NameThere(before, Key(name));
    if ok {
      var i :| Names(Table(before), i, Key(name)) && Removed(before, after, i);
      RemoveKeepsInv(before, after, i);
      RemoveOnFiles(before, after, Key(name), i);
    } else {
      var files, key := Files(before), Key(name);
      assert files - {key} == files;
    }
  }

  lemma WriteThroughRefines(before: Image, after: Image, name: CString, i: int, h: Header, position: nat,
                            from: seq<byte>, moved: nat)
    requires Inv(before) && WriteThrough(before, after, Key(name), i, h, position, from, moved)
    ensures Inv(after) && AbstractStep(Write(name, position, from, moved), Files(before), Files(after))
  {
    FileFound(before, i, Key(name));
    ghost var bytes := from[..moved];
    WriteKeepsInv(before, after, i, position, bytes);
    if moved > 0 {
      WriteOnFiles(before, after, i, position, bytes);
    } else {
      assert bytes == [];
    }
  }

  /** Each operation keeps the invariant and does to the files what it does to the map. */
  lemma StepRefines(e: Event, before: Image, after: Image)
    requires Inv(before) && DiskStep(e, before, after)
    ensures Inv(after) && AbstractStep(e, Files(before), Files(after))
  {
    match e {
      case Create(name, size, ok) => CreateRefines(before, after, name, size, ok);
      case Remove(name, ok) => RemoveRefines(before, after, name, ok);
      case Write(name, position, from, moved) =>
        if Key(name) in Files(before) {
          var i, h :| WriteThrough(before, after, Key(name), i, h, position, from, moved);
          WriteThroughRefines(before, after, name, i, h, position, from, moved);
        }
      case Read(name, position, numBytes, got) =>
    }
  }

  lemma {:induction false} RunKeeps(disks: seq<Image>, events: seq<Event>, k: nat)
    requires Run(disks, events) && k <= |events|
    ensures Inv(disks[k])
  {
    hide Inv, DiskStep, AbstractStep;
    if k > 0 {
      RunKeeps(disks, events, k - 1);
      StepRefines(events[k - 1], disks[k - 1], disks[k]);
    }
  }

  /** Over every run the invariant holds, and each event takes the files from one state of the abstract file system
      to the next. */
  lemma RunRefines(disks: seq<Image>, events: seq<Event>, k: nat)
    requires Run(disks, events) && k <= |events|
    ensures Inv(disks[k])
    ensures k < |events| ==> Inv(disks[k + 1]) && AbstractStep(events[k], Files(disks[k]), Files(disks[k + 1]))
  {
    RunKeeps(disks, events, k);
    if k < |events| {
      StepRefines(events[k], disks[k], disks[k + 1]);
    }
  }

  /** A create undone by a remove restores the map bit for bit ... */
  lemma CreateThenRemove(d0: Image, d1: Image, d2: Image, name: CString, size: nat, ok: bool)
    requires Inv(d0) && Formatted(d1) && CreateStep(d0, d1, name, size, true)
    requires Inv(d1) && Formatted(d2) && RemoveStep(d1, d2, name, ok)
    ensures ok && FreeMap(d2) == FreeMap(d0)
  {
    var i, s, h :| Created(d0, d1, name, size, i, s, h);
    CreateNew(d0, d1, name, size, i, s, h);
    assert Names(Table(d1), i, Key(name));
    var j :| Names(Table(d1), j, Key(name)) && Removed(d1, d2, j);
    CreatedOwns(d0, d1, name, size, i, s, h, j);
    MarkedThenCleared(FreeMap(d0), {s} + Sectors(h));
  }

  /** ... and the files. */
  lemma CreateThenRemoveFiles(d0: Image, d1: Image, d2: Image, name: CString, size: nat, ok: bool)
    requires Inv(d0) && Formatted(d1) && CreateStep(d0, d1, name, size, true)
    requires Inv(d1) && Formatted(d2) && RemoveStep(d1, d2, name, ok)
    ensures ok && Inv(d2) && Files(d2) == Files(d0)
  {
    CreateRefines(d0, d1, name, size, true);
    RemoveRefines(d1, d2, name, ok);
    AddThenDrop(Files(d0), Key(name), Files(d1)[Key(name)]);
  }

  lemma AddThenDrop<K, V>(m: map<K, V>, k: K, v: V)
    requires k !in m
    ensures m[k := v] - {k} == m
  {}

  /** The entry found under the new name owns just what the create took. */
  lemma CreatedOwns(d0: Image, d1: Image, name: CString, size: nat, i: int, s: int, h: Header, j: int)
    requires Inv(d0) && Inv(d1) && Created(d0, d1, name, size, i, s, h) && Names(Table(d1), j, Key(name))
    ensures GoodFile(d1, j) && Owned(d1, j) == {s} + Sectors(h)
    ensures forall x :: x in {s} + Sectors(h) ==> 0 <= x < NUM_SECTORS && !FreeMap(d0)[x]
  {
    CreateNew(d0, d1, name, size, i, s, h);
    NewSectorsFree(FreeMap(d0), s, h);
    NameFound(d1, i, Key(name));
  }

  lemma MarkedThenCleared(bits: seq<bool>, taken: set<int>)
    requires forall x :: x in taken ==> 0 <= x < |bits| && !bits[x]
    ensures Cleared(Marked(bits, taken), taken) == bits
  {}

  // ---- the operations, as a client uses them ----

  lemma WriteDone(before: Image, after: Image, name: CString, i: int, h: Header, position: nat, from: seq<byte>, moved: nat)
    requires Inv(before) && WriteThrough(before, after, Key(name), i, h, position, from, moved)
    ensures Inv(after) && MapHeader(after) == MapHeader(before) && DirHeader(after) == DirHeader(before)
    ensures DiskStep(Write(name, position, from, moved), before, after)
  {
    assert WriteThrough(before, after, Key(name), i, h, position, from, moved);
    FileFound(before, i, Key(name));
    WriteKeepsInv(before, after, i, position, from[..moved]);
    WriteSystem(before, after, i, position, from[..moved]);
  }

  /** A write to a file on sectors of its own leaves the system files open under their headers. */
  method WriteBeside(fs: FileSystem, file: OpenFile, position: offset, from: seq<byte>) returns (moved: offset)
    requires Formatted(fs.disk.image) && fs.Mounted() && file.Valid() && file.disk == fs.disk
    requires |from| < 0x8000_0000 && Fits(file.header.numBytes, |from|, position)
    requires Sectors(file.header) !! System(fs.disk.image)
    modifies fs.disk
    ensures Formatted(fs.disk.image) && fs.Mounted()
    ensures moved == Granted(file.header.numBytes, |from|, position) <= |from|
    ensures Written(old(fs.disk.image), fs.disk.image, file.header, position, from[..moved])
  {
    ghost var d, h := fs.disk.image, file.header;
    moved := file.WriteAt(from, |from|, position);
    SystemUntouched(d, fs.disk.image, h, position, from[..moved]);
  }

  lemma SystemUntouched(before: Image, after: Image, h: Header, position: nat, bytes: seq<byte>)
    requires Formatted(before) && Good(h) && Sectors(h) !! System(before) && Written(before, after, h, position, bytes)
    ensures Formatted(after) && MapHeader(after) == MapHeader(before) && DirHeader(after) == DirHeader(before)
  {
    assert FREE_MAP_SECTOR in System(before) && DIRECTORY_SECTOR in System(before);
  }

  /** A write through a handle that Open returned for an entry still in use. */
  method WriteHandle(fs: FileSystem, file: OpenFile, name: CString, position: offset, from: seq<byte>) returns (moved: offset)
    requires fs.Valid() && file.Valid() && file.disk == fs.disk
    requires |from| < 0x8000_0000 && Fits(file.header.numBytes, |from|, position)
    requires exists i :: HeaderNamed(fs.disk.image, Key(name), i, file.header)
    modifies fs.disk
    ensures fs.Valid()
    ensures DiskStep(Write(name, position, from, moved), old(fs.disk.image), fs.disk.image)
  {
    ghost var d, h := fs.disk.image, file.header;
    ghost var i :| HeaderNamed(d, Key(name), i, h);
    OwnSectors(d, Key(name), i, h);
    moved := WriteBeside(fs, file, position, from);
    WriteDone(d, fs.disk.image, name, i, h, position, from, moved);
  }

  lemma OwnSectors(d: Image, key: CString, i: int, h: Header)
    requires Inv(d) && HeaderNamed(d, key, i, h)
    ensures Sectors(h) !! System(d)
  {
    assert InUse(d, i);
    OwnedApart(d, i);
  }

  /** Opens the named file and writes to it. */
  method WriteFile(fs: FileSystem, name: CString, position: offset, from: seq<byte>) returns (moved: offset)
    requires fs.Valid() && |from| < 0x8000_0000
    requires Key(name) in Files(fs.disk.image) ==> Fits(|Files(fs.disk.image)[Key(name)]|, |from|, position)
    modifies fs.disk
    ensures fs.Valid()
    ensures DiskStep(Write(name, position, from, moved), old(fs.disk.image), fs.disk.image)
  {
    var file := fs.Open(name);
    if file == null {
      return 0;
    }
    moved := WriteHandle(fs, file, name, position, from);
  }

  /** Opens the named file and reads from it. */
  method ReadFile(fs: FileSystem, name: CString, position: offset, numBytes: int32) returns (got: seq<byte>)
    requires fs.Valid()
    requires Key(name) in Files(fs.disk.image) ==> Fits(|Files(fs.disk.image)[Key(name)]|, numBytes, position)
    ensures DiskStep(Read(name, position, numBytes, got), fs.disk.image, fs.disk.image)
  {
    var file := fs.Open(name);
    if file == null {
      return [];
    }
    got := file.ReadAt(numBytes, position);
  }
}
