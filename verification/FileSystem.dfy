/** The file system (filesys/filesys.cc): format, create, open and remove, each building the map, the
    directory and the header in memory and writing them back. */
module FileSystems {
  import opened Words
  import opened Disks
  import opened Bitmaps
  import opened Allocations
  import opened FileHeaders
  import opened OpenFiles
  import PersistentBitmaps
  import opened Directories
  import opened FileSystemSpec
  import opened FileSystemProofs

  // ---- what the write-backs add up to ----

  /** Overwriting a whole file. */
  lemma WholeWrite(before: Image, after: Image, h: Header, bytes: seq<byte>)
    requires Good(h) && Written(before, after, h, 0, bytes) && |bytes| == h.numBytes > 0
    ensures Contents(after, h) == bytes
    ensures SameOutside(before, after, Sectors(h))
  {}

  /** Writing back the directory and then the map. */
  lemma DirectoryThenMap(d: Image, d0: Image, d1: Image, d2: Image, changed: set<int>, t: seq<Entry>, bytes: seq<byte>)
    requires Formatted(d) && changed !! System(d) && |t| == NUM_DIR_ENTRIES && |bytes| == FREE_MAP_FILE_SIZE
    requires SameOutside(d, d0, changed)
    requires Written(d0, d1, DirHeader(d), 0, TableBytes(t)) && Written(d1, d2, MapHeader(d), 0, bytes)
    ensures SystemKept(d, d2, changed) && Formatted(d2)
    ensures Table(d2) == t && FreeMap(d2) == PersistentBitmaps.FlagsIn(bytes)
  {
    WholeWrite(d0, d1, DirHeader(d), TableBytes(t));
    WholeWrite(d1, d2, MapHeader(d), bytes);
    SystemStays(d, d2, changed);
    SameContents(d1, d2, DirHeader(d), Sectors(MapHeader(d)));
    TableRoundTrip(t);
  }

  /** Writing back the map and then the directory. */
  lemma MapThenDirectory(d: Image, d1: Image, d2: Image, t: seq<Entry>, bytes: seq<byte>)
    requires Formatted(d) && |t| == NUM_DIR_ENTRIES && |bytes| == FREE_MAP_FILE_SIZE
    requires Written(d, d1, MapHeader(d), 0, bytes) && Written(d1, d2, DirHeader(d), 0, TableBytes(t))
    ensures SystemKept(d, d2, {}) && Formatted(d2)
    ensures Table(d2) == t && FreeMap(d2) == PersistentBitmaps.FlagsIn(bytes)
  {
    WholeWrite(d, d1, MapHeader(d), bytes);
    WholeWrite(d1, d2, DirHeader(d), TableBytes(t));
    SystemStays(d, d2, {});
    SameContents(d1, d2, MapHeader(d), Sectors(DirHeader(d)));
    TableRoundTrip(t);
  }

  /** What a create leaves on the disk: the header in its sector, and the new directory and map. */
  ghost predicate Flushed(d: Image, after: Image, s: int, h: Header, t: seq<Entry>, bits: seq<bool>)
    requires Formatted(d)
  {
    && 0 <= s < NUM_SECTORS && SystemKept(d, after, {s}) && Decode(after[s]) == h
    && Formatted(after) && Table(after) == t && FreeMap(after) == bits
  }

  /** Storing the header, the directory and the map comes to that. */
  lemma FlushEffect(d: Image, d1: Image, d2: Image, d3: Image, s: int, h: Header, t: seq<Entry>, bytes: seq<byte>)
    requires Formatted(d) && 0 <= s < NUM_SECTORS && s !in System(d) && |h.data| == NUM_DIRECT
    requires |t| == NUM_DIR_ENTRIES && |bytes| == FREE_MAP_FILE_SIZE
    requires d1 == d[s := Encode(h)]
    requires Written(d1, d2, DirHeader(d), 0, TableBytes(t)) && Written(d2, d3, MapHeader(d), 0, bytes)
    ensures Flushed(d, d3, s, h, t, PersistentBitmaps.FlagsIn(bytes))
  {
    DirectoryThenMap(d, d1, d2, d3, {s}, t, bytes);
    WholeWrite(d1, d2, DirHeader(d), TableBytes(t));
    WholeWrite(d2, d3, MapHeader(d), bytes);
    HeaderRoundTrip(h);
  }

  /** A clear flag is not one of the system's. */
  ghost predicate ClearApart(bits: seq<bool>, system: set<int>) {
    forall s :: 0 <= s < |bits| && !bits[s] ==> s !in system
  }

  lemma FlushedIsCreated(d: Image, after: Image, name: CString, size: nat, s: int, h: Header, t: seq<Entry>, bits: seq<bool>)
    requires Formatted(d) && CanCreate(d, name, size) && h.numBytes == size
    requires Flushed(d, after, s, h, t, bits) && Allotted(FreeMap(d), bits, s, h)
    requires exists i :: TakesSlot(Table(d), t, i, name, s)
    ensures CreateStep(d, after, name, size, true)
  {
    var i :| TakesSlot(Table(d), t, i, name, s);
    assert Created(d, after, name, size, i, s, h);
  }

  /** An entry in use names a sector, so Find's answer tells whether the name is there. */
  lemma FoundSector(d: Image, key: CString, sector: int)
    requires GoodFiles(d)
    requires HasName(Table(d), key) ==> exists i :: Names(Table(d), i, key) && sector == Table(d)[i].sector
    requires !HasName(Table(d), key) ==> sector == -1
    ensures if HasName(Table(d), key) then sector >= 0 else sector == -1
  {
    if HasName(Table(d), key) {
      var i :| Names(Table(d), i, key) && sector == Table(d)[i].sector;
      assert InUse(d, i);
    }
  }

  /** The one entry of a name: a good file, all of whose sectors are marked. */
  ghost predicate OnlyEntry(d: Image, i: int, key: CString)
    requires Formatted(d)
  {
    && Names(Table(d), i, key) && GoodFile(d, i)
    && (forall j :: Names(Table(d), j, key) ==> j == i)
    && (forall s :: s in Owned(d, i) ==> 0 <= s < NUM_SECTORS && FreeMap(d)[s])
  }

  lemma OwnedMarked(bits: seq<bool>, system: set<int>, slots: map<int, Slot>, i: int)
    requires Balanced(bits, system, slots) && i in slots
    ensures forall s :: s in slots[i].owned && 0 <= s < |bits| ==> bits[s]
  {}

  lemma OwnedInRange(d: Image, i: int)
    requires Formatted(d) && InUse(d, i) && GoodFile(d, i)
    ensures forall s :: s in Owned(d, i) ==> 0 <= s < NUM_SECTORS
  {}

  lemma NameFound(d: Image, i: int, key: CString)
    requires Inv(d) && Names(Table(d), i, key)
    ensures OnlyEntry(d, i, key)
  {
    assert InUse(d, i);
    SlotIn(d, i);
    SectorsMarked(d, i);
    forall j | Names(Table(d), j, key)
      ensures j == i
    {
      assert InUse(d, j);
      SlotIn(d, j);
    }
  }

  lemma SectorsMarked(d: Image, i: int)
    requires Inv(d) && InUse(d, i)
    ensures forall s :: s in Owned(d, i) ==> 0 <= s < NUM_SECTORS && FreeMap(d)[s]
  {
    var bits, slots, owned := FreeMap(d), Slots(d), Owned(d, i);
    SlotIn(d, i);
    OwnedInRange(d, i);
    OwnedMarked(bits, System(d), slots, i);
    assert slots[i].owned == owned;
  }

  /** The header that a name stands for. */
  ghost predicate HeaderNamed(d: Image, key: CString, i: int, h: Header)
    requires Formatted(d)
  {
    Names(Table(d), i, key) && GoodFile(d, i) && h == FileHeaderOf(d, i)
  }

  lemma FileFound(d: Image, i: int, key: CString)
    requires Inv(d) && Names(Table(d), i, key)
    ensures GoodFile(d, i)
    ensures key in Files(d) && Contents(d, FileHeaderOf(d, i)) == Files(d)[key]
  {
    assert InUse(d, i);
    SlotIn(d, i);
    ContentsOfSlot(Slots(d), i);
  }

  lemma NameMissing(d: Image, key: CString)
    requires Inv(d) && !HasName(Table(d), key)
    ensures key !in Files(d)
  {
    NameIsNew(d, key);
  }

  lemma ClearedBoth(bits: seq<bool>, data: set<int>, s: int)
    requires 0 <= s < |bits|
    ensures Cleared(bits, data)[s := false] == Cleared(bits, {s} + data)
  {}

  lemma RemovedNow(d: Image, after: Image, i: int, t: seq<Entry>, bits: seq<bool>)
    requires Formatted(d) && InUse(d, i) && GoodFile(d, i) && BothStored(d, after, t, bits)
    requires bits == Cleared(FreeMap(d), Owned(d, i)) && t == Table(d)[i := Table(d)[i].(inUse := false)]
    ensures Removed(d, after, i)
  {}

  lemma HeaderSectorClear(bits: seq<bool>, now: seq<bool>, s: int, h: Header)
    requires Allotted(bits, now, s, h)
    ensures 0 <= s < |bits| && !bits[s]
  {
    assert ([s] + h.data[..h.numSectors])[0] == s;
  }

  lemma BalancedClearApart(bits: seq<bool>, system: set<int>, slots: map<int, Slot>)
    requires Balanced(bits, system, slots)
    ensures ClearApart(bits, system)
  {}

  /** The header's sector and then the data's: together the lowest clear ones. */
  lemma OneAndTheRest(bits: seq<bool>, now: seq<bool>, s: int, h: Header, taken: seq<int>)
    requires Good(h) && |bits| == NUM_SECTORS && IsFirstClear(bits, s)
    requires taken == h.data[..h.numSectors] && Taking(bits[s := true], now, taken)
    ensures Allotted(bits, now, s, h)
  {
    FirstThenRest(bits, s, taken);
    SameElements(h);
  }

  lemma SameElements(h: Header)
    requires Good(h)
    ensures Elements(h.data[..h.numSectors]) == Sectors(h)
  {
    var rest: seq<int> := h.data[..h.numSectors];
    assert forall k :: 0 <= k < |rest| ==> rest[k] == h.data[k];
  }

  lemma FirstThenRest(bits: seq<bool>, s: int, rest: seq<int>)
    requires IsFirstClear(bits, s) && LowestClear(bits[s := true], rest)
    ensures LowestClear(bits, [s] + rest)
  {
    var all := [s] + rest;
    RestAbove(bits, s, rest);
    forall i | 0 <= i < |all|
      ensures all[i] == if i == 0 then s else rest[i - 1]
    {}
    forall b | 0 <= b < |bits| && !bits[b] && b !in all
      ensures all[|all| - 1] < b
    {
      assert b != s by { assert all[0] == s; }
      NotPassedOver(bits, s, rest, b);
    }
  }

  lemma RestAbove(bits: seq<bool>, s: int, rest: seq<int>)
    requires IsFirstClear(bits, s) && LowestClear(bits[s := true], rest)
    ensures forall k :: 0 <= k < |rest| ==> s < rest[k] < |bits| && !bits[rest[k]]
  {
    forall k | 0 <= k < |rest|
      ensures s < rest[k] < |bits| && !bits[rest[k]]
    {
      assert !bits[s := true][rest[k]];
    }
  }

  lemma NotPassedOver(bits: seq<bool>, s: int, rest: seq<int>, b: int)
    requires IsFirstClear(bits, s) && LowestClear(bits[s := true], rest)
    requires 0 <= b < |bits| && !bits[b] && b != s && b !in rest
    ensures if rest == [] then s < b else rest[|rest| - 1] < b
  {
    assert !bits[s := true][b];
  }

  lemma NoClear(bits: seq<bool>)
    ensures AllSet(bits) ==> CountClear(bits) == 0
  {
    CountClearZero(bits);
  }

  // ---- format ----

  /** The sectors set aside on an empty disk: two headers and the data of the two system files. */
  ghost predicate LaidOut(bits: seq<bool>, m: Header, r: Header) {
    && Good(m) && m.numBytes == FREE_MAP_FILE_SIZE && Good(r) && r.numBytes == DIRECTORY_FILE_SIZE
    && Sectors(m) !! Sectors(r) !! {FREE_MAP_SECTOR, DIRECTORY_SECTOR}
    && |bits| == NUM_SECTORS
    && forall s :: 0 <= s < NUM_SECTORS ==>
         (bits[s] <==> s in {FREE_MAP_SECTOR, DIRECTORY_SECTOR} + Sectors(m) + Sectors(r))
  }

  lemma {:induction false} AllClearCount(bits: seq<bool>)
    requires forall s :: 0 <= s < |bits| ==> !bits[s]
    ensures CountClear(bits) == |bits|
  {
    if |bits| > 0 {
      AllClearCount(bits[..|bits| - 1]);
    }
  }

  lemma FormatLayout(b0: seq<bool>, b1: seq<bool>, b2: seq<bool>, m: Header, r: Header)
    requires |b0| == NUM_SECTORS && forall s :: 0 <= s < NUM_SECTORS ==> (b0[s] <==> s in {FREE_MAP_SECTOR, DIRECTORY_SECTOR})
    requires Good(m) && m.numBytes == FREE_MAP_FILE_SIZE && Good(r) && r.numBytes == DIRECTORY_FILE_SIZE
    requires Taking(b0, b1, m.data[..m.numSectors]) && Taking(b1, b2, r.data[..r.numSectors])
    ensures LaidOut(b2, m, r)
  {
    SameElements(m);
    SameElements(r);
    TakenClear(b0, m.data[..m.numSectors]);
    TakenClear(b1, r.data[..r.numSectors]);
  }

  lemma TakenClear(bits: seq<bool>, taken: seq<int>)
    requires LowestClear(bits, taken)
    ensures forall s :: s in Elements(taken) ==> 0 <= s < |bits| && !bits[s]
  {}

  /** With the two headers in place, the disk has its system files. */
  lemma HeadersMakeFormatted(d: Image, bits: seq<bool>, m: Header, r: Header)
    requires LaidOut(bits, m, r) && d[FREE_MAP_SECTOR] == Encode(m) && d[DIRECTORY_SECTOR] == Encode(r)
    ensures Formatted(d) && MapHeader(d) == m && DirHeader(d) == r
  {
    HeaderRoundTrip(m);
    HeaderRoundTrip(r);
  }

  /** The table and the map are on the disk, and nothing else changed. */
  ghost predicate BothStored(d: Image, after: Image, t: seq<Entry>, bits: seq<bool>)
    requires Formatted(d)
  {
    SystemKept(d, after, {}) && Formatted(after) && Table(after) == t && FreeMap(after) == bits
  }

  /** An empty directory and a map of the system's own sectors: the invariant holds, and there are no files. */
  lemma EmptyDisk(d: Image, after: Image, bits: seq<bool>, t: seq<Entry>)
    requires Formatted(d) && LaidOut(bits, MapHeader(d), DirHeader(d)) && BothStored(d, after, t, bits)
    requires forall i :: 0 <= i < |t| ==> !t[i].inUse
    ensures Inv(after) && Files(after) == map[]
  {
    SystemStays(d, after, {});
    assert forall i :: !InUse(after, i);
    SlotsAre(after, map[]);
    assert Balanced(bits, System(after), map[]);
  }

  class FileSystem {
    const disk: Disk
    const freeMapFile: OpenFile
    const directoryFile: OpenFile

    /** The disk is in order, and the two system files are open under their headers. */
    ghost predicate Valid()
      reads disk, freeMapFile.hdr, freeMapFile.hdr.dataSectors, directoryFile.hdr, directoryFile.hdr.dataSectors
    {
      Inv(disk.image) && Mounted()
    }

    ghost predicate Mounted()
      requires Formatted(disk.image)
      reads disk, freeMapFile.hdr, freeMapFile.hdr.dataSectors, directoryFile.hdr, directoryFile.hdr.dataSectors
    {
      && freeMapFile.Valid() && freeMapFile.disk == disk && freeMapFile.header == MapHeader(disk.image)
      && directoryFile.Valid() && directoryFile.disk == disk && directoryFile.header == DirHeader(disk.image)
    }

    /** Opens a disk already formatted. */
    constructor Mount(disk: Disk)
      requires Inv(disk.image)
      ensures Valid() && this.disk == disk
    {
      this.disk := disk;
      freeMapFile := new OpenFile(disk, FREE_MAP_SECTOR);
      directoryFile := new OpenFile(disk, DIRECTORY_SECTOR);
    }

    /** Formats the disk, whatever is on it, and opens it. */
    constructor Format(disk: Disk)
      modifies disk
      ensures Valid() && this.disk == disk && Files(disk.image) == map[]
      ensures Decode(disk.image[0]).numBytes == 128 && Decode(disk.image[1]).numBytes == 200
    {
      var freeMap := WriteHeaders(disk);
      var directory := new Directory(NUM_DIR_ENTRIES);
      this.disk := disk;
      freeMapFile := new OpenFile(disk, FREE_MAP_SECTOR);
      directoryFile := new OpenFile(disk, DIRECTORY_SECTOR);
      new;
      StoreEmpty(directory, freeMap);
    }

    /** The first contents of the two system files. */
    method StoreEmpty(directory: Directory, freeMap: Bitmap)
      requires Formatted(disk.image) && Mounted()
      requires freeMap.Valid() && freeMap.numBits == NUM_SECTORS && freeMap.numWords == 32
      requires LaidOut(freeMap.Bits(), MapHeader(disk.image), DirHeader(disk.image))
      requires directory.table.Length == NUM_DIR_ENTRIES && forall i :: 0 <= i < NUM_DIR_ENTRIES ==> !directory.Table()[i].inUse
      modifies disk
      ensures Valid() && Files(disk.image) == map[]
    {
      ghost var d, t, bits := disk.image, directory.Table(), freeMap.Bits();
      StoreBoth(directory, freeMap);
      EmptyDisk(d, disk.image, bits, t);
    }

    /** Puts the two headers on the disk, so that the files can be opened. */
    static method WriteHeaders(disk: Disk) returns (freeMap: Bitmap)
      modifies disk
      ensures fresh(freeMap) && fresh(freeMap.map_) && freeMap.Valid() && freeMap.numBits == NUM_SECTORS && freeMap.numWords == 32
      ensures Formatted(disk.image) && LaidOut(freeMap.Bits(), MapHeader(disk.image), DirHeader(disk.image))
    {
      var mapHdr, dirHdr;
      freeMap, mapHdr, dirHdr := LayOut();
      ghost var bits, m, r := freeMap.Bits(), mapHdr.Value(), dirHdr.Value();
      mapHdr.WriteBack(disk, FREE_MAP_SECTOR);
      dirHdr.WriteBack(disk, DIRECTORY_SECTOR);
      HeadersMakeFormatted(disk.image, bits, m, r);
    }

    /** Sets aside the sectors of the two system files; an empty disk has room for them. */
    static method LayOut() returns (freeMap: Bitmap, mapHdr: FileHeader, dirHdr: FileHeader)
      ensures fresh(freeMap) && fresh(freeMap.map_) && freeMap.Valid() && freeMap.numBits == NUM_SECTORS && freeMap.numWords == 32
      ensures fresh(mapHdr) && fresh(mapHdr.dataSectors) && mapHdr.Valid()
      ensures fresh(dirHdr) && fresh(dirHdr.dataSectors) && dirHdr.Valid()
      ensures LaidOut(freeMap.Bits(), mapHdr.Value(), dirHdr.Value())
    {
      freeMap := ReserveHeaders();
      mapHdr := new FileHeader();
      dirHdr := new FileHeader();
      ghost var b0 := freeMap.Bits();
      var mapPlaced := mapHdr.Allocate(freeMap, FREE_MAP_FILE_SIZE);
      assert mapPlaced;
      ghost var b1, m := freeMap.Bits(), mapHdr.Value();
      var dirPlaced := dirHdr.Allocate(freeMap, DIRECTORY_FILE_SIZE);
      assert dirPlaced;
      FormatLayout(b0, b1, freeMap.Bits(), m, dirHdr.Value());
    }

    /** A map with the two header sectors marked. */
    static method ReserveHeaders() returns (freeMap: Bitmap)
      ensures fresh(freeMap) && fresh(freeMap.map_) && freeMap.Valid() && freeMap.numBits == NUM_SECTORS && freeMap.numWords == 32
      ensures CountClear(freeMap.Bits()) == NUM_SECTORS - 2
      ensures forall s :: 0 <= s < NUM_SECTORS ==> (freeMap.Bits()[s] <==> s in {FREE_MAP_SECTOR, DIRECTORY_SECTOR})
    {
      freeMap := new Bitmap(NUM_SECTORS);
      AllClearCount(freeMap.Bits());
      CountClearUpdate(freeMap.Bits(), FREE_MAP_SECTOR);
      freeMap.Mark(FREE_MAP_SECTOR);
      CountClearUpdate(freeMap.Bits(), DIRECTORY_SECTOR);
      freeMap.Mark(DIRECTORY_SECTOR);
    }

    method LoadDirectory() returns (directory: Directory)
      requires Formatted(disk.image) && Mounted()
      ensures fresh(directory) && fresh(directory.table) && directory.Table() == Table(disk.image)
    {
      directory := new Directory(NUM_DIR_ENTRIES);
      directory.FetchFrom(directoryFile);
    }

    method LoadMap() returns (freeMap: Bitmap)
      requires Formatted(disk.image) && Mounted()
      ensures fresh(freeMap) && fresh(freeMap.map_) && freeMap.Valid() && freeMap.numBits == NUM_SECTORS && freeMap.numWords == 32
      ensures freeMap.Bits() == FreeMap(disk.image)
    {
      freeMap := new Bitmap(NUM_SECTORS);
      PersistentBitmaps.FetchFrom(freeMap, freeMapFile);
    }

    method Create(name: CString, initialSize: int) returns (success: bool)
      requires Valid() && 0 <= initialSize <= MAX_FILE_SIZE
      modifies disk
      ensures Valid()
      ensures CreateStep(old(disk.image), disk.image, name, initialSize, success)
    {
      ghost var d := disk.image;
      var directory := LoadDirectory();
      var sector := directory.Find(name);
      FoundSector(d, Key(name), sector);
      if sector != -1 {
        return false;
      }
      BalancedClearApart(FreeMap(d), System(d), Slots(d));
      success := CreateNew(name, initialSize, directory);
      CreateStepKeepsInv(d, disk.image, name, initialSize, success);
    }

    /** The part of Create for a name that is not in the directory. */
    method CreateNew(name: CString, initialSize: int, directory: Directory) returns (success: bool)
      requires Formatted(disk.image) && Mounted() && 0 <= initialSize <= MAX_FILE_SIZE
      requires ClearApart(FreeMap(disk.image), System(disk.image))
      requires directory.Table() == Table(disk.image) && !HasName(Table(disk.image), Key(name))
      modifies disk, directory.table
      ensures Formatted(disk.image) && Mounted()
      ensures CreateStep(old(disk.image), disk.image, name, initialSize, success)
    {
      ghost var d := disk.image;
      var freeMap := LoadMap();
      NoClear(FreeMap(d));
      var sector := freeMap.FindAndSet();
      if sector == -1 {
        return false;
      }
      var added := directory.Add(name, sector);
      if !added {
        return false;
      }
      var hdr, gotSpace := AllotData(freeMap, FreeMap(d), sector, initialSize);
      if !gotSpace {
        return false;
      }
      assert CanCreate(d, name, initialSize);
      assert exists i :: TakesSlot(Table(d), directory.Table(), i, name, sector);
      Flush(name, initialSize, hdr, sector, directory, freeMap);
      return true;
    }

    /** A new header, with sectors for its data; the map has just given up the sector for the header itself. */
    method AllotData(freeMap: Bitmap, ghost bits: seq<bool>, ghost sector: int, size: int)
        returns (hdr: FileHeader, gotSpace: bool)
      requires freeMap.Valid() && freeMap.numBits == NUM_SECTORS && 0 <= size <= MAX_FILE_SIZE
      requires |bits| == NUM_SECTORS && IsFirstClear(bits, sector) && freeMap.Bits() == bits[sector := true]
      modifies freeMap.map_
      ensures fresh(hdr) && fresh(hdr.dataSectors) && hdr.Valid()
      ensures gotSpace <==> size <= 128 * (CountClear(bits) - 1)
      ensures gotSpace ==> Allotted(bits, freeMap.Bits(), sector, hdr.Value()) && hdr.numBytes == size
    {
      CountClearUpdate(bits, sector);
      hdr := new FileHeader();
      gotSpace := hdr.Allocate(freeMap, size);
      if gotSpace {
        ghost var h := hdr.Value();
        OneAndTheRest(bits, freeMap.Bits(), sector, h, h.data[..h.numSectors]);
      }
    }

    /** Everything worked: all changes go to the disk. */
    method Flush(ghost name: CString, ghost size: nat, hdr: FileHeader, sector: int, directory: Directory, freeMap: Bitmap)
      requires Formatted(disk.image) && Mounted() && ClearApart(FreeMap(disk.image), System(disk.image))
      requires CanCreate(disk.image, name, size) && hdr.Valid() && hdr.numBytes == size
      requires freeMap.Valid() && freeMap.numBits == NUM_SECTORS && freeMap.numWords == 32
      requires Allotted(FreeMap(disk.image), freeMap.Bits(), sector, hdr.Value())
      requires exists i :: TakesSlot(Table(disk.image), directory.Table(), i, name, sector)
      modifies disk
      ensures Formatted(disk.image) && Mounted()
      ensures CreateStep(old(disk.image), disk.image, name, size, true)
    {
      ghost var d, h, t, bits := disk.image, hdr.Value(), directory.Table(), freeMap.Bits();
      HeaderSectorClear(FreeMap(d), bits, sector, h);
      StoreAll(hdr, sector, directory, freeMap);
      FlushedIsCreated(d, disk.image, name, size, sector, h, t, bits);
    }

    /** Stores a file's header, the directory and the map. */
    method StoreAll(hdr: FileHeader, sector: int, directory: Directory, freeMap: Bitmap)
      requires Formatted(disk.image) && Mounted() && hdr.Valid()
      requires 0 <= sector < NUM_SECTORS && sector !in System(disk.image)
      requires directory.table.Length == NUM_DIR_ENTRIES
      requires freeMap.Valid() && freeMap.numBits == NUM_SECTORS && freeMap.numWords == 32
      modifies disk
      ensures Formatted(disk.image) && Mounted()
      ensures Flushed(old(disk.image), disk.image, sector, hdr.Value(), directory.Table(), freeMap.Bits())
    {
      ghost var d, h, t := disk.image, hdr.Value(), directory.Table();
      hdr.WriteBack(disk, sector);
      ghost var d1 := disk.image;
      directory.WriteBack(directoryFile);
      ghost var d2 := disk.image;
      ghost var bytes := PersistentBitmaps.WriteBack(freeMap, freeMapFile);
      FlushEffect(d, d1, d2, disk.image, sector, h, t, bytes);
      SystemStays(d, disk.image, {sector});
    }

    /** A handle for the named file, or null. */
    method Open(name: CString) returns (openFile: OpenFile?)
      requires Valid()
      ensures openFile != null <==> Key(name) in Files(disk.image)
      ensures openFile != null ==>
        && fresh(openFile) && openFile.Valid() && openFile.disk == disk && openFile.seekPosition == 0
        && (exists i :: HeaderNamed(disk.image, Key(name), i, openFile.header))
        && openFile.Bytes() == Files(disk.image)[Key(name)]
    {
      ghost var d := disk.image;
      var directory := LoadDirectory();
      var sector := directory.Find(name);
      FoundSector(d, Key(name), sector);
      if sector >= 0 {
        ghost var i :| Names(Table(d), i, Key(name)) && sector == Table(d)[i].sector;
        FileFound(d, i, Key(name));
        openFile := new OpenFile(disk, sector);
        assert HeaderNamed(d, Key(name), i, openFile.header);
      } else {
        NameMissing(d, Key(name));
        openFile := null;
      }
    }

    method Remove(name: CString) returns (ok: bool)
      requires Valid()
      modifies disk
      ensures Valid()
      ensures RemoveStep(old(disk.image), disk.image, name, ok)
    {
      ghost var d := disk.image;
      var directory := LoadDirectory();
      var sector := directory.Find(name);
      FoundSector(d, Key(name), sector);
      if sector == -1 {
        return false;
      }
      ghost var i :| Names(Table(d), i, Key(name)) && sector == Table(d)[i].sector;
      NameFound(d, i, Key(name));
      RemoveEntry(name, directory, sector, i);
      RemoveKeepsInv(d, disk.image, i);
      SystemStays(d, disk.image, {});
      return true;
    }

    /** The part of Remove for a name found in the directory. */
    method RemoveEntry(name: CString, directory: Directory, sector: int, ghost i: int)
      requires Formatted(disk.image) && Mounted() && OnlyEntry(disk.image, i, Key(name))
      requires directory.Table() == Table(disk.image) && sector == Table(disk.image)[i].sector
      modifies disk, directory.table
      ensures Formatted(disk.image) && Mounted()
      ensures Removed(old(disk.image), disk.image, i)
    {
      ghost var d := disk.image;
      var freeMap := FreeFile(sector, i);
      var removed := directory.Remove(name);
      StoreBoth(directory, freeMap);
      RemovedNow(d, disk.image, i, directory.Table(), freeMap.Bits());
    }

    /** The free map, with the file's sectors given up. */
    method FreeFile(sector: int, ghost i: int) returns (freeMap: Bitmap)
      requires Formatted(disk.image) && Mounted() && 0 <= i < NUM_DIR_ENTRIES && GoodFile(disk.image, i)
      requires sector == Table(disk.image)[i].sector
      requires forall s :: s in Owned(disk.image, i) ==> 0 <= s < NUM_SECTORS && FreeMap(disk.image)[s]
      ensures fresh(freeMap) && fresh(freeMap.map_) && freeMap.Valid() && freeMap.numBits == NUM_SECTORS && freeMap.numWords == 32
      ensures freeMap.Bits() == Cleared(FreeMap(disk.image), Owned(disk.image, i))
    {
      var fileHdr := new FileHeader();
      fileHdr.FetchFrom(disk, sector);
      freeMap := LoadMap();
      fileHdr.Deallocate(freeMap);
      freeMap.Clear(sector);
      ClearedBoth(FreeMap(disk.image), Sectors(fileHdr.Value()), sector);
    }

    /** Stores the map and the directory. */
    method StoreBoth(directory: Directory, freeMap: Bitmap)
      requires Formatted(disk.image) && Mounted() && directory.table.Length == NUM_DIR_ENTRIES
      requires freeMap.Valid() && freeMap.numBits == NUM_SECTORS && freeMap.numWords == 32
      modifies disk
      ensures Formatted(disk.image) && Mounted()
      ensures BothStored(old(disk.image), disk.image, directory.Table(), freeMap.Bits())
    {
      ghost var d, t := disk.image, directory.Table();
      ghost var bytes := PersistentBitmaps.WriteBack(freeMap, freeMapFile);
      ghost var d1 := disk.image;
      directory.WriteBack(directoryFile);
      MapThenDirectory(d, d1, disk.image, t, bytes);
      SystemStays(d, disk.image, {});
    }
  }
}
