/** Directories (filesys/directory.cc): a fixed table of names and header sectors. */
module Directories {
  import opened Words
  import opened Disks
  import opened FileHeaders
  import opened OpenFiles

  const FILE_NAME_MAX_LEN := 9
  const ENTRY_SIZE := 20

  /** A table entry as the compiler lays it out: a flag, padding, the sector, the name field with its
      terminator byte, padding. */
  datatype RawEntry = Entry(inUse: bool, pad: seq<byte>, sector: int32, name: seq<byte>, tail: seq<byte>)

  type Entry = e: RawEntry | |e.pad| == 3 && |e.name| == FILE_NAME_MAX_LEN + 1 && |e.tail| == 2
    witness RawEntry.Entry(false, [0, 0, 0], 0, [0, 0, 0, 0, 0, 0, 0, 0, 0, 0], [0, 0])

  // ---- names: only the first nine characters count ----

  function Key(name: CString): (key: CString)
    ensures |name| <= 9 ==> key == name
    ensures |name| > 9 ==> key == name[..9]
  {
    if |name| <= FILE_NAME_MAX_LEN then name else name[..FILE_NAME_MAX_LEN]
  }

  /** The name an entry holds. */
  function StoredName(e: Entry): CString {
    UpToNul(e.name[..FILE_NAME_MAX_LEN])
  }

  function CharAt(name: CString, i: nat): byte {
    if i < |name| then name[i] else 0
  }

  /** strncmp(field, name, n) == 0, from character i on. */
  predicate StrNCmp(field: seq<byte>, name: CString, i: nat, n: nat)
    requires i <= n <= |field|
    decreases n - i
  {
    i == n || (field[i] == CharAt(name, i) && (field[i] == 0 || StrNCmp(field, name, i + 1, n)))
  }

  /** strncpy(field, name, n): copy, then fill with NULs; what lies beyond n stays. */
  function StrNCpy(field: seq<byte>, name: CString, n: nat): (r: seq<byte>)
    requires n <= |field|
    ensures |r| == |field|
  {
    seq(n, i requires 0 <= i < n => CharAt(name, i)) + field[n..]
  }

  /** As much of the name as counts, from character i on. */
  function Counted(name: CString, i: nat, n: nat): (r: CString)
    requires i <= n && i <= |name|
  {
    if |name| <= n then name[i..] else name[i..n]
  }

  lemma CountedFrom(name: CString, i: nat, n: nat)
    requires i < n && i < |name|
    ensures Counted(name, i, n) == [name[i]] + Counted(name, i + 1, n)
  {}

  lemma UpToNulFrom(field: seq<byte>, i: nat, n: nat)
    requires i < n <= |field|
    ensures UpToNul(field[i..n]) == if field[i] == 0 then [] else [field[i]] + UpToNul(field[i + 1..n])
  {
    assert field[i..n][1..] == field[i + 1..n];
  }

  lemma SameFirst(a: byte, s: seq<byte>, b: byte, t: seq<byte>)
    ensures [a] + s == [b] + t <==> a == b && s == t
  {
    assert ([a] + s)[0] == a && ([a] + s)[1..] == s;
    assert ([b] + t)[0] == b && ([b] + t)[1..] == t;
  }

  /** strncmp compares what the field holds with as much of the name as counts. */
  lemma {:induction false} StrNCmpMeaning(field: seq<byte>, name: CString, i: nat, n: nat)
    requires i <= n <= |field| && i <= |name|
    ensures StrNCmp(field, name, i, n) <==> UpToNul(field[i..n]) == Counted(name, i, n)
    decreases n - i
  {
    if i < n {
      UpToNulFrom(field, i, n);
      if i < |name| {
        StrNCmpMeaning(field, name, i + 1, n);
        CountedFrom(name, i, n);
        SameFirst(field[i], UpToNul(field[i + 1..n]), name[i], Counted(name, i + 1, n));
        assert name[i] != 0;
      } else {
        assert Counted(name, i, n) == [];
      }
    } else {
      assert field[i..n] == [] && Counted(name, i, n) == [];
    }
  }

  lemma StrNCpyMeaning(field: seq<byte>, name: CString)
    requires |field| == FILE_NAME_MAX_LEN + 1
    ensures UpToNul(StrNCpy(field, name, FILE_NAME_MAX_LEN)[..FILE_NAME_MAX_LEN]) == Key(name)
  {
    var stored := StrNCpy(field, name, FILE_NAME_MAX_LEN)[..FILE_NAME_MAX_LEN];
    UpToNulCopy(stored, |Key(name)|);
    assert stored[..|Key(name)|] == Key(name);
  }

  // ---- the table ----

  /** Entry i is in use under the given name. */
  predicate Names(t: seq<Entry>, i: int, key: CString) {
    0 <= i < |t| && t[i].inUse && StoredName(t[i]) == key
  }

  ghost predicate HasName(t: seq<Entry>, key: CString) {
    exists i :: Names(t, i, key)
  }

  predicate IsFirstFree(t: seq<Entry>, i: int) {
    0 <= i < |t| && !t[i].inUse && forall j :: 0 <= j < i ==> t[j].inUse
  }

  ghost predicate HasRoom(t: seq<Entry>) {
    exists i :: IsFirstFree(t, i)
  }

  /** The first free entry, and no other, comes into use with the given name and sector. */
  ghost predicate TakesSlot(t: seq<Entry>, now: seq<Entry>, i: int, name: CString, sector: int) {
    && |now| == |t| && IsFirstFree(t, i) && now == t[i := now[i]]
    && now[i].inUse && now[i].sector == sector && StoredName(now[i]) == Key(name)
  }

  // ---- the table as bytes ----

  function EntryBytes(e: Entry): (s: seq<byte>)
    ensures |s| == ENTRY_SIZE
  {
    [if e.inUse then 1 else 0] + e.pad + WordBytes(IntWord(e.sector)) + e.name + e.tail
  }

  function ParseEntry(s: seq<byte>): Entry
    requires |s| == ENTRY_SIZE
  {
    RawEntry.Entry(s[0] != 0, s[1..4], WordInt(BytesWord(s[4..8])), s[8..18], s[18..20])
  }

  lemma EntryRoundTrip(e: Entry)
    ensures ParseEntry(EntryBytes(e)) == e
  {
    var s := EntryBytes(e);
    assert s[1..4] == e.pad && s[4..8] == WordBytes(IntWord(e.sector)) && s[8..18] == e.name && s[18..20] == e.tail;
    WordRoundTrip(IntWord(e.sector));
    IntRoundTrip(e.sector);
  }

  /** The fields of an entry in its twenty bytes. */
  lemma EntryLayout(e: Entry)
    ensures EntryBytes(e)[0] == (if e.inUse then 1 else 0)
    ensures EntryBytes(e)[4..8] == WordBytes(IntWord(e.sector)) && EntryBytes(e)[8..18] == e.name
  {}

  function TableBytes(t: seq<Entry>): (s: seq<byte>)
    ensures |s| == 20 * |t|
  {
    if t == [] then [] else TableBytes(t[..|t| - 1]) + EntryBytes(t[|t| - 1])
  }

  /** Entry i of the table is in bytes 20i to 20i + 19. */
  lemma {:induction false} TableLayout(t: seq<Entry>, i: nat)
    requires i < |t|
    ensures TableBytes(t)[20 * i..20 * i + 20] == EntryBytes(t[i])
  {
    var n := |t| - 1;
    if i < n {
      TableLayout(t[..n], i);
      assert TableBytes(t)[20 * i..20 * i + 20] == TableBytes(t[..n])[20 * i..20 * i + 20];
    }
  }

  function ParseTable(s: seq<byte>): (t: seq<Entry>)
    requires |s| % 20 == 0
    ensures |t| == |s| / 20
  {
    if s == [] then [] else ParseTable(s[..|s| - 20]) + [ParseEntry(s[|s| - 20..])]
  }

  lemma ParseLast(init: seq<byte>, last: seq<byte>)
    requires |init| % 20 == 0 && |last| == ENTRY_SIZE
    ensures ParseTable(init + last) == ParseTable(init) + [ParseEntry(last)]
  {
    var s := init + last;
    assert s[..|s| - 20] == init && s[|s| - 20..] == last;
  }

  lemma SplitLast<T>(s: seq<T>)
    requires s != []
    ensures s == s[..|s| - 1] + [s[|s| - 1]]
  {}

  lemma {:induction false} TableRoundTrip(t: seq<Entry>)
    ensures ParseTable(TableBytes(t)) == t
  {
    if t != [] {
      var init, e := t[..|t| - 1], t[|t| - 1];
      TableRoundTrip(init);
      EntryRoundTrip(e);
      ParseLast(TableBytes(init), EntryBytes(e));
      SplitLast(t);
    }
  }

  class Directory {
    const table: array<Entry>

    ghost function Table(): seq<Entry>
      reads table
    {
      table[..]
    }

    /** An empty table; beyond the flags, its memory holds whatever it held. */
    constructor (size: nat)
      ensures fresh(table) && table.Length == size
      ensures forall i :: 0 <= i < size ==> !table[i].inUse
    {
      table := new Entry[size];
      new;
      for i := 0 to size
        invariant fresh(table)
        invariant forall j :: 0 <= j < i ==> !table[j].inUse
        modifies table
      {
        table[i] := table[i].(inUse := false);
      }
    }

    method FetchFrom(file: OpenFile)
      requires file.Valid() && file.header.numBytes == 20 * table.Length
      modifies table
      ensures Table() == ParseTable(file.Bytes())
    {
      var got := file.ReadAt(20 * table.Length, 0);
      assert got == file.Bytes();
      var t := ParseTable(got);
      forall i | 0 <= i < table.Length {
        table[i] := t[i];
      }
    }

    method WriteBack(file: OpenFile)
      requires file.Valid() && file.header.numBytes == 20 * table.Length
      modifies file.disk
      ensures Written(old(file.disk.image), file.disk.image, file.header, 0, TableBytes(old(Table())))
    {
      var stored := TableBytes(table[..]);
      var n := file.WriteAt(stored, 20 * table.Length, 0);
      assert stored[..n] == stored;
    }

    method FindIndex(name: CString) returns (found: int)
      ensures found == -1 ==> !HasName(Table(), Key(name))
      ensures found != -1 ==> Names(Table(), found, Key(name)) && forall j :: 0 <= j < found ==> !Names(Table(), j, Key(name))
    {
      for i := 0 to table.Length
        invariant forall j :: 0 <= j < i ==> !Names(Table(), j, Key(name))
      {
        StrNCmpMeaning(table[i].name, name, 0, FILE_NAME_MAX_LEN);
        if table[i].inUse && StrNCmp(table[i].name, name, 0, FILE_NAME_MAX_LEN) {
          return i;
        }
      }
      return -1;
    }

    method Find(name: CString) returns (sector: int)
      ensures !HasName(Table(), Key(name)) ==> sector == -1
      ensures HasName(Table(), Key(name)) ==>
        exists i :: Names(Table(), i, Key(name)) && sector == Table()[i].sector
    {
      var i := FindIndex(name);
      if i != -1 {
        return table[i].sector;
      }
      return -1;
    }

    method Add(name: CString, newSector: int32) returns (ok: bool)
      modifies table
      ensures ok <==> !HasName(old(Table()), Key(name)) && HasRoom(old(Table()))
      ensures !ok ==> Table() == old(Table())
      ensures ok ==> exists i ::
        && TakesSlot(old(Table()), Table(), i, name, newSector)
        && !old(Table())[i].inUse && forall j :: 0 <= j < i ==> old(Table())[j].inUse
    {
      var found := FindIndex(name);
      if found != -1 {
        return false;
      }
      ghost var before := Table();
      for i := 0 to table.Length
        invariant Table() == before
        invariant forall j :: 0 <= j < i ==> table[j].inUse
      {
        if !table[i].inUse {
          StrNCpyMeaning(table[i].name, name);
          var e: Entry := table[i].(inUse := true, name := StrNCpy(table[i].name, name, FILE_NAME_MAX_LEN), sector := newSector);
          assert IsFirstFree(before, i);
          table[i] := e;
          assert TakesSlot(before, Table(), i, name, newSector);
          return true;
        }
      }
      return false;
    }

    method Remove(name: CString) returns (ok: bool)
      modifies table
      ensures ok <==> HasName(old(Table()), Key(name))
      ensures !ok ==> Table() == old(Table())
      ensures ok ==> exists i ::
        Names(old(Table()), i, Key(name)) && Table() == old(Table())[i := old(Table())[i].(inUse := false)]
    {
      var i := FindIndex(name);
      if i == -1 {
        return false;
      }
      table[i] := table[i].(inUse := false);
      return true;
    }
  }
}
