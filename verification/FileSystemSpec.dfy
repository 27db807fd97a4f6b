/** What a formatted disk means, and what the operations of the file system do to it. */
module FileSystemSpec {
  import opened Words
  import opened Disks
  import opened Bitmaps
  import opened Allocations
  import opened FileHeaders
  import opened OpenFiles
  import opened PersistentBitmaps
  import opened Directories

  const FREE_MAP_SECTOR := 0
  const DIRECTORY_SECTOR := 1
  const FREE_MAP_FILE_SIZE := 128
  const NUM_DIR_ENTRIES := 10
  const DIRECTORY_FILE_SIZE := 200

  // ---- reading a disk ----

  function MapHeader(d: Image): Header {
    Decode(d[FREE_MAP_SECTOR])
  }

  function DirHeader(d: Image): Header {
    Decode(d[DIRECTORY_SECTOR])
  }

  /** The free map and the directory are files on the disk that they describe, apart from each other
      and from the two sectors that hold their headers. */
  predicate Formatted(d: Image) {
    var m, r := MapHeader(d), DirHeader(d);
    && Good(m) && m.numBytes == FREE_MAP_FILE_SIZE
    && Good(r) && r.numBytes == DIRECTORY_FILE_SIZE
    && Sectors(m) !! Sectors(r) !! {FREE_MAP_SECTOR, DIRECTORY_SECTOR}
  }

  function System(d: Image): set<int>
    requires Formatted(d)
  {
    {FREE_MAP_SECTOR, DIRECTORY_SECTOR} + Sectors(MapHeader(d)) + Sectors(DirHeader(d))
  }

  /** The flags of the on-disk free map. */
  function FreeMap(d: Image): (bits: seq<bool>)
    requires Formatted(d)
    ensures |bits| == NUM_SECTORS
  {
    FlagsIn(Contents(d, MapHeader(d)))
  }

  /** The entries of the on-disk directory. */
  function Table(d: Image): (t: seq<Entry>)
    requires Formatted(d)
    ensures |t| == NUM_DIR_ENTRIES
  {
    ParseTable(Contents(d, DirHeader(d)))
  }

  predicate InUse(d: Image, i: int)
    requires Formatted(d)
  {
    0 <= i < NUM_DIR_ENTRIES && Table(d)[i].inUse
  }

  /** The header of a directory entry's file. */
  function FileHeaderOf(d: Image, i: int): Header
    requires Formatted(d) && 0 <= i < NUM_DIR_ENTRIES && 0 <= Table(d)[i].sector < NUM_SECTORS
  {
    Decode(d[Table(d)[i].sector])
  }

  predicate GoodFile(d: Image, i: int)
    requires Formatted(d) && 0 <= i < NUM_DIR_ENTRIES
  {
    var s := Table(d)[i].sector;
    0 <= s < NUM_SECTORS && Good(Decode(d[s])) && s as int !in Sectors(Decode(d[s]))
  }

  /** The sectors of a directory entry's file: its header and its data. */
  function Owned(d: Image, i: int): set<int>
    requires Formatted(d) && 0 <= i < NUM_DIR_ENTRIES && GoodFile(d, i)
  {
    {Table(d)[i].sector as int} + Sectors(FileHeaderOf(d, i))
  }

  /** What a slot of the directory stands for: some sectors, a name, and contents. */
  datatype Slot = Slot(owned: set<int>, name: CString, contents: seq<byte>)

  function SlotAt(d: Image, i: int): Slot
    requires Formatted(d) && 0 <= i < NUM_DIR_ENTRIES && GoodFile(d, i)
  {
    Slot(Owned(d, i), StoredName(Table(d)[i]), Contents(d, FileHeaderOf(d, i)))
  }

  /** Entry i is in use, and stands for that slot. */
  predicate IsSlot(d: Image, i: int, slot: Slot)
    requires Formatted(d)
  {
    InUse(d, i) && GoodFile(d, i) && SlotAt(d, i) == slot
  }

  ghost predicate GoodFiles(d: Image) {
    Formatted(d) && forall i :: InUse(d, i) ==> GoodFile(d, i)
  }

  ghost function Slots(d: Image): map<int, Slot>
    requires GoodFiles(d)
  {
    map i | 0 <= i < NUM_DIR_ENTRIES && InUse(d, i) :: SlotAt(d, i)
  }

  /** No two slots share a name. */
  ghost predicate NamesApart(slots: map<int, Slot>) {
    forall i, j :: i in slots && j in slots && i != j ==> slots[i].name != slots[j].name
  }

  /** Every marked sector has exactly one owner. */
  ghost predicate Balanced(bits: seq<bool>, system: set<int>, slots: map<int, Slot>) {
    && (forall i :: i in slots ==> slots[i].owned !! system)
    && (forall i, j :: i in slots && j in slots && i != j ==> slots[i].owned !! slots[j].owned)
    && (forall s :: 0 <= s < |bits| ==> (bits[s] <==> s in system || exists i :: i in slots && s in slots[i].owned))
  }

  /** The global invariant of the file system. */
  ghost predicate Inv(d: Image) {
    GoodFiles(d) && Balanced(FreeMap(d), System(d), Slots(d)) && NamesApart(Slots(d))
  }

  // ---- the effects of the operations ----

  /** Sectors outside a set are as they were. */
  predicate SameOutside(before: Image, after: Image, changed: set<int>) {
    forall s :: 0 <= s < NUM_SECTORS && s !in changed ==> after[s] == before[s]
  }

  /** The map and directory headers stay, and nothing but the map's and the directory's own data and
      the given sectors changes. */
  predicate SystemKept(before: Image, after: Image, changed: set<int>)
    requires Formatted(before)
  {
    && changed !! System(before)
    && SameOutside(before, after, Sectors(MapHeader(before)) + Sectors(DirHeader(before)) + changed)
  }

  /** The lowest clear sectors are taken, the first for a file's header and the others for its data. */
  ghost predicate Allotted(bits: seq<bool>, now: seq<bool>, s: int, h: Header) {
    && Good(h) && 0 <= s < NUM_SECTORS
    && LowestClear(bits, [s] + h.data[..h.numSectors])
    && now == Marked(bits, {s} + Sectors(h))
  }

  /** A file of the given name and size took directory slot i, header sector s and header h. */
  ghost predicate Created(before: Image, after: Image, name: CString, size: nat, i: int, s: int, h: Header)
    requires Formatted(before) && Formatted(after)
  {
    && Allotted(FreeMap(before), FreeMap(after), s, h) && h.numBytes == size
    && SystemKept(before, after, {s}) && Decode(after[s]) == h
    && TakesSlot(Table(before), Table(after), i, name, s)
  }

  /** The name is new, an entry is free, and besides the header's sector there are free ones for all the bytes. */
  ghost predicate CanCreate(d: Image, name: CString, size: nat)
    requires Formatted(d)
  {
    !HasName(Table(d), Key(name)) && HasRoom(Table(d)) && size <= 128 * (CountClear(FreeMap(d)) - 1)
  }

  ghost predicate CreateStep(before: Image, after: Image, name: CString, size: nat, ok: bool)
    requires Formatted(before) && Formatted(after)
  {
    && (ok <==> CanCreate(before, name, size))
    && (!ok ==> after == before)
    && (ok ==> exists i, s, h :: Created(before, after, name, size, i, s, h))
  }

  /** Slot i and all its sectors are given up. */
  ghost predicate Removed(before: Image, after: Image, i: int)
    requires Formatted(before) && Formatted(after) && InUse(before, i) && GoodFile(before, i)
  {
    && SystemKept(before, after, {})
    && FreeMap(after) == Cleared(FreeMap(before), Owned(before, i))
    && Table(after) == Table(before)[i := Table(before)[i].(inUse := false)]
  }

  ghost predicate RemoveStep(before: Image, after: Image, name: CString, ok: bool)
    requires GoodFiles(before) && Formatted(after)
  {
    && (ok <==> HasName(Table(before), Key(name)))
    && (!ok ==> after == before)
    && (ok ==> exists i :: Names(Table(before), i, Key(name)) && Removed(before, after, i))
  }

  /** A write through a handle opened under slot i. */
  ghost predicate WriteStep(before: Image, after: Image, i: int, position: nat, bytes: seq<byte>)
    requires Formatted(before) && InUse(before, i) && GoodFile(before, i)
  {
    Written(before, after, FileHeaderOf(before, i), position, bytes)
  }

  // ---- the abstract file system: a map from names to byte strings ----

  /** The files by name. */
  ghost function Files(d: Image): map<CString, seq<byte>>
    requires Inv(d)
  {
    ByName(Slots(d))
  }

  ghost function NamesOf(slots: map<int, Slot>): set<CString> {
    set i | i in slots :: slots[i].name
  }

  ghost function ByName(slots: map<int, Slot>): map<CString, seq<byte>>
    requires NamesApart(slots)
  {
    map k | k in NamesOf(slots) :: ContentsOf(slots, k)
  }

  ghost function ContentsOf(slots: map<int, Slot>, key: CString): seq<byte>
    requires key in NamesOf(slots)
  {
    var i :| i in slots && slots[i].name == key;
    slots[i].contents
  }
}
