/** File headers (filesys/filehdr.cc): the table of sectors that hold a file's bytes. */
module FileHeaders {
  import opened Words
  import opened Disks
  import opened Bitmaps
  import opened Allocations

  const NUM_DIRECT := 30
  const MAX_FILE_SIZE := NUM_DIRECT * 128

  /** The value of a header, in memory or on disk. */
  datatype Header = Header(numBytes: int32, numSectors: int32, data: seq<int32>)

  /** The sectors that hold a given number of bytes: enough, and none too many. */
  function SectorsFor(size: nat): (n: nat)
    ensures 128 * n >= size > 128 * (n - 1)
  {
    size / 128 + (if size % 128 > 0 then 1 else 0)
  }

  lemma EnoughSectors(size: nat, n: nat)
    ensures n >= SectorsFor(size) <==> n * 128 >= size
  {}

  /** What Allocate leaves behind: a table long enough for the file, naming distinct sectors. */
  predicate Good(h: Header) {
    && |h.data| == NUM_DIRECT
    && 0 <= h.numBytes <= MAX_FILE_SIZE
    && h.numSectors == SectorsFor(h.numBytes)
    && (forall i :: 0 <= i < h.numSectors ==> 0 <= h.data[i] < NUM_SECTORS)
    && (forall i, j :: 0 <= i < j < h.numSectors ==> h.data[i] != h.data[j])
  }

  /** The sectors that hold the file's bytes. */
  function Sectors(h: Header): set<int>
    requires Good(h)
  {
    set i | 0 <= i < h.numSectors :: h.data[i] as int
  }

  /** The bytes of sectors lo..hi of the file, in order. */
  function SectorBytes(d: Image, h: Header, lo: nat, hi: nat): (bytes: seq<byte>)
    requires Good(h) && lo <= hi <= h.numSectors
    ensures |bytes| == (hi - lo) * 128
  {
    if lo == hi then [] else SectorBytes(d, h, lo, hi - 1) + d[h.data[hi - 1]]
  }

  /** The contents of the file on a given disk. */
  function Contents(d: Image, h: Header): (bytes: seq<byte>)
    requires Good(h)
    ensures |bytes| == h.numBytes
  {
    SectorBytes(d, h, 0, h.numSectors)[..h.numBytes]
  }

  lemma {:induction false} SectorByteAt(d: Image, h: Header, lo: nat, hi: nat, q: nat)
    requires Good(h) && lo <= hi <= h.numSectors && lo * 128 <= q < hi * 128
    ensures SectorBytes(d, h, lo, hi)[q - lo * 128] == d[h.data[q / 128]][q % 128]
  {
    if q < (hi - 1) * 128 {
      SectorByteAt(d, h, lo, hi - 1, q);
    }
  }

  /** Byte p of the file is in the sector that ByteToSector names. */
  lemma ContentsAt(d: Image, h: Header, p: nat)
    requires Good(h) && p < h.numBytes
    ensures Contents(d, h)[p] == d[h.data[p / 128]][p % 128]
  {
    SectorByteAt(d, h, 0, h.numSectors, p);
  }

  // ---- the header's own sector ----

  function HeaderWords(h: Header): (ws: seq<word>)
    ensures |ws| == 2 + |h.data|
  {
    [IntWord(h.numBytes), IntWord(h.numSectors)] + seq(|h.data|, i requires 0 <= i < |h.data| => IntWord(h.data[i]))
  }

  function Encode(h: Header): Sector
    requires |h.data| == NUM_DIRECT
  {
    Pack(HeaderWords(h))
  }

  function Decode(s: Sector): (h: Header)
    ensures |h.data| == NUM_DIRECT
  {
    FromWords(UnpackWords(s))
  }

  function FromWords(ws: seq<word>): (h: Header)
    requires |ws| == 2 + NUM_DIRECT
    ensures |h.data| == NUM_DIRECT
  {
    Header(WordInt(ws[0]), WordInt(ws[1]), seq(NUM_DIRECT, i requires 0 <= i < NUM_DIRECT => WordInt(ws[i + 2])))
  }

  /** The image of a header: its two counts, and then the sectors, as little-endian words. */
  lemma HeaderLayout(h: Header, i: nat)
    requires |h.data| == NUM_DIRECT && i < 30
    ensures Encode(h)[0..4] == WordBytes(IntWord(h.numBytes)) && Encode(h)[4..8] == WordBytes(IntWord(h.numSectors))
    ensures Encode(h)[8 + 4 * i..12 + 4 * i] == WordBytes(IntWord(h.data[i]))
  {
    PackAt(HeaderWords(h), 0);
    PackAt(HeaderWords(h), 1);
    PackAt(HeaderWords(h), i + 2);
  }

  lemma HeaderRoundTrip(h: Header)
    requires |h.data| == NUM_DIRECT
    ensures Decode(Encode(h)) == h
  {
    PackRoundTrip(HeaderWords(h));
    WordsRoundTrip(h);
  }

  lemma WordsRoundTrip(h: Header)
    requires |h.data| == NUM_DIRECT
    ensures FromWords(HeaderWords(h)) == h
  {
    var r := FromWords(HeaderWords(h));
    forall i | 0 <= i < NUM_DIRECT
      ensures r.data[i] == h.data[i]
    {
      IntRoundTrip(h.data[i]);
    }
    assert r.data == h.data;
  }

  // ---- allocation ----

  /** Sectors so taken make a good header. */
  lemma TakenIsGood(h: Header, before: seq<bool>)
    requires |h.data| == NUM_DIRECT && 0 <= h.numBytes <= MAX_FILE_SIZE && h.numSectors == SectorsFor(h.numBytes)
    requires |before| == NUM_SECTORS && LowestClear(before, h.data[..h.numSectors])
    ensures Good(h) && Sectors(h) == Elements(h.data[..h.numSectors])
  {
    var taken: seq<int> := h.data[..h.numSectors];
    assert forall i :: 0 <= i < h.numSectors ==> taken[i] == h.data[i];
  }

  class FileHeader {
    var numBytes: int32
    var numSectors: int32
    const dataSectors: array<int32>

    ghost predicate Valid() {
      dataSectors.Length == NUM_DIRECT
    }

    ghost function Value(): (h: Header)
      requires Valid()
      reads this, dataSectors
      ensures |h.data| == NUM_DIRECT
    {
      Header(numBytes, numSectors, dataSectors[..])
    }

    /** A header just created holds whatever its memory held. */
    constructor ()
      ensures Valid() && fresh(dataSectors)
    {
      dataSectors := new int32[NUM_DIRECT];
    }

    /** Takes the lowest clear sectors for a file of the given size, or fails and takes none. */
    method Allocate(freeMap: Bitmap, fileSize: int) returns (ok: bool)
      requires Valid() && freeMap.Valid() && freeMap.numBits == NUM_SECTORS
      requires 0 <= fileSize <= MAX_FILE_SIZE
      modifies this, dataSectors, freeMap.map_
      ensures ok <==> 128 * CountClear(old(freeMap.Bits())) >= fileSize
      ensures !ok ==> freeMap.Bits() == old(freeMap.Bits())
      ensures ok ==>
        && Good(Value()) && numBytes == fileSize && 128 * numSectors >= fileSize > 128 * (numSectors - 1)
        && Taking(old(freeMap.Bits()), freeMap.Bits(), Value().data[..numSectors])
    {
      numBytes := fileSize;
      numSectors := fileSize / 128 + if fileSize % 128 > 0 then 1 else 0;
      var clear := freeMap.NumClear();
      if clear < numSectors {
        return false;
      }
      ghost var before := freeMap.Bits();
      TakeNone(before);
      var i := 0;
      while i < numSectors
        invariant 0 <= i <= numSectors == SectorsFor(fileSize) && numBytes == fileSize
        invariant Taking(before, freeMap.Bits(), dataSectors[..i])
        modifies dataSectors, freeMap.map_
      {
        TakeSector(freeMap, i, before);
        i := i + 1;
      }
      TakenIsGood(Value(), before);
      return true;
    }

    /** One turn of the loop: the lowest clear sector is the next one of the file. */
    method TakeSector(freeMap: Bitmap, i: nat, ghost before: seq<bool>)
      requires Valid() && freeMap.Valid() && freeMap.numBits == NUM_SECTORS == |before| && i < NUM_DIRECT
      requires Taking(before, freeMap.Bits(), dataSectors[..i]) && i < CountClear(before)
      modifies dataSectors, freeMap.map_
      ensures Taking(before, freeMap.Bits(), dataSectors[..i + 1])
    {
      ghost var now, taken := freeMap.Bits(), dataSectors[..i];
      CountClearZero(now);
      var found := freeMap.FindAndSet();
      TakeOne(before, now, taken, found);
      dataSectors[i] := found;
      assert dataSectors[..i + 1] == taken + [found];
    }

    /** Clears the flags of the file's sectors; each ought to be marked. */
    method Deallocate(freeMap: Bitmap)
      requires Valid() && Good(Value())
      requires freeMap.Valid() && freeMap.numBits == NUM_SECTORS && freeMap.map_ as object != dataSectors
      requires forall s :: s in Sectors(Value()) ==> freeMap.Bits()[s]
      modifies freeMap.map_
      ensures freeMap.Bits() == Cleared(old(freeMap.Bits()), Sectors(Value()))
    {
      var i := 0;
      while i < numSectors
        invariant 0 <= i <= numSectors
        invariant freeMap.Bits() == Cleared(old(freeMap.Bits()), set j | 0 <= j < i :: dataSectors[j] as int)
        modifies freeMap.map_
      {
        assert Value().data[i] in Sectors(Value());
        var marked := freeMap.Test(dataSectors[i]);
        assert marked;
        freeMap.Clear(dataSectors[i]);
        i := i + 1;
      }
      assert Sectors(Value()) == set j | 0 <= j < numSectors :: dataSectors[j] as int;
    }

    /** Fills the header from its sector. */
    method FetchFrom(disk: Disk, sector: int)
      requires Valid() && 0 <= sector < NUM_SECTORS
      modifies this, dataSectors
      ensures Value() == Decode(disk.image[sector])
    {
      var raw := disk.ReadSector(sector);
      var ws := UnpackWords(raw);
      numBytes := WordInt(ws[0]);
      numSectors := WordInt(ws[1]);
      forall i | 0 <= i < NUM_DIRECT {
        dataSectors[i] := WordInt(ws[i + 2]);
      }
    }

    /** Stores the header in its sector. */
    method WriteBack(disk: Disk, sector: int)
      requires Valid() && 0 <= sector < NUM_SECTORS
      modifies disk
      ensures disk.image == old(disk.image)[sector := Encode(Value())]
    {
      disk.WriteSector(sector, Encode(Header(numBytes, numSectors, dataSectors[..])));
    }

    /** The sector that holds the byte at the given offset. */
    method ByteToSector(offset: int) returns (sector: int)
      requires Valid() && 0 <= offset < MAX_FILE_SIZE
      ensures sector == dataSectors[offset / 128]
      ensures Good(Value()) && offset < numBytes ==>
        && sector as int in Sectors(Value()) && 0 <= sector < NUM_SECTORS
        && forall d: Image :: Contents(d, Value())[offset] == d[sector][offset % 128]
    {
      sector := dataSectors[offset / 128];
      if Good(Value()) && offset < numBytes {
        assert Value().data[offset / 128] == sector;
        forall d: Image
          ensures Contents(d, Value())[offset] == d[sector][offset % 128]
        {
          ContentsAt(d, Value(), offset);
        }
      }
    }
  }
}
