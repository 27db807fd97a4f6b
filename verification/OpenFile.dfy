/** Open files (filesys/openfile.cc): reads and writes of any byte range, made of whole-sector
    transfers, against the plain byte sequence the file stands for. */
module OpenFiles {
  import opened Words
  import opened Disks
  import opened FileHeaders

  // ---- the size of a request ----

  /** How many bytes a request at the given position ought to move: what it asks for, cut off at the end of the file. */
  function Granted(length: int, numBytes: int, position: nat): (n: nat) {
    if numBytes <= 0 || position >= length then 0
    else if position + numBytes > length then length - position
    else numBytes
  }

  /** How many the code moves: its sum is a C int. */
  function Counted(length: int32, numBytes: int32, position: offset): int32 {
    if numBytes <= 0 || position >= length then 0
    else if WrapInt(position + numBytes) > length then length - position
    else numBytes
  }

  /** The request is turned down before the code adds, or the sum is a C int. */
  predicate Fits(length: int, numBytes: int, position: nat) {
    numBytes <= 0 || position >= length || position + numBytes < 0x8000_0000
  }

  /** The code moves the right number of bytes exactly when the sum fits. */
  lemma CountedIsGranted(length: int32, numBytes: int32, position: offset)
    ensures Counted(length, numBytes, position) == Granted(length, numBytes, position) <==> Fits(length, numBytes, position)
  {
    if position + numBytes >= 0x8000_0000 {
      WrapsBelow(position, numBytes);
    }
  }

  /** A sum that is too large becomes smaller than both its terms. */
  lemma WrapsBelow(m: offset, n: offset)
    requires m + n >= 0x8000_0000
    ensures WrapInt(m + n) == m + n - 0x1_0000_0000 < 0
  {}

  /** The last sector of the file that the code asks for; its division rounds toward zero. */
  function LastAsked(numBytes: int32, position: offset): int {
    var at: int := WrapInt(WrapInt(position + numBytes) - 1);
    if at >= 0 then at / 128 else -((-at) / 128)
  }

  /** When the sum does not fit, the request is not cut off at the end of the file, and the last sector it asks for
      is past the end of any header's table or before the first. */
  lemma TooLargeIsNotCut(length: int32, numBytes: int32, position: offset)
    requires length <= MAX_FILE_SIZE && !Fits(length, numBytes, position)
    ensures Counted(length, numBytes, position) == numBytes > length - position
    ensures LastAsked(numBytes, position) >= NUM_DIRECT || LastAsked(numBytes, position) < 0 <= position / 128
  {
    WrapsBelow(position, numBytes);
    var sum := WrapInt(position + numBytes);
    if sum > -0x8000_0000 {
      assert WrapInt(sum - 1) == sum - 1 <= -128;
    }
  }

  /** Such a request: all the bytes that an int can count, from byte 1 on. */
  lemma TooLargeExample(length: int32)
    requires 1 < length <= MAX_FILE_SIZE
    ensures Counted(length, 0x7fff_ffff, 1) == 0x7fff_ffff && Granted(length, 0x7fff_ffff, 1) == length - 1
    ensures LastAsked(0x7fff_ffff, 1) == 0xff_ffff
  {
    WrapsBelow(1, 0x7fff_ffff);
    assert WrapInt(-0x8000_0001) == 0x7fff_ffff;
  }

  // ---- what a write does ----

  /** after is before with the bytes written into the file and nothing else that matters changed:
      only sectors of the file that the range touches differ, and only the written range within the
      file's length. (Past the end of the file, the last sector may receive anything.) */
  ghost predicate Written(before: Image, after: Image, h: Header, position: nat, bytes: seq<byte>)
    requires Good(h)
  {
    && (bytes == [] ==> after == before)
    && (bytes != [] ==>
          && position + |bytes| <= h.numBytes
          && Contents(after, h) == Splice(Contents(before, h), position, bytes))
    && (forall s :: 0 <= s < NUM_SECTORS && s !in Touched(h, position, |bytes|) ==> after[s] == before[s])
  }

  /** The sectors that a range of the file's bytes lies in. */
  function Touched(h: Header, position: nat, n: nat): (r: set<int>)
    requires Good(h)
    ensures r <= Sectors(h)
  {
    if n == 0 then {} else Span(h, position / 128, (position + n - 1) / 128 + 1)
  }

  /** Sectors lo..hi of the file. */
  function Span(h: Header, lo: nat, hi: nat): (r: set<int>)
    requires Good(h)
    ensures r <= Sectors(h)
  {
    set k | 0 <= k < h.numSectors && lo <= k < hi :: h.data[k] as int
  }

  /** A write leaves the contents of every file on other sectors alone. */
  lemma WrittenElsewhere(before: Image, after: Image, h: Header, position: nat, bytes: seq<byte>, other: Header)
    requires Good(h) && Good(other) && Sectors(h) !! Sectors(other)
    requires Written(before, after, h, position, bytes)
    ensures Contents(after, other) == Contents(before, other)
  {
    forall p | 0 <= p < other.numBytes
      ensures Contents(after, other)[p] == Contents(before, other)[p]
    {
      ContentsAt(before, other, p);
      ContentsAt(after, other, p);
      assert other.data[p / 128] as int in Sectors(other);
    }
  }

  // ---- whole sectors ----

  /** The n bytes from position on lie in sectors first..last of the file, and touch both. */
  predicate Covers(first: nat, last: nat, position: nat, n: nat) {
    && first * 128 <= position < (first + 1) * 128
    && last * 128 < position + n <= (last + 1) * 128
    && first <= last && n > 0
  }

  lemma CoversTouched(h: Header, first: nat, last: nat, position: nat, n: nat)
    requires Good(h) && Covers(first, last, position, n)
    ensures Touched(h, position, n) == Span(h, first, last + 1)
  {
    assert first == position / 128 && last == (position + n - 1) / 128;
  }

  /** The requested bytes lie in the sectors read, from the right place on. */
  lemma PieceOfSectors(d: Image, h: Header, first: nat, last: nat, position: nat, n: nat)
    requires Good(h) && Covers(first, last, position, n) && position + n <= h.numBytes
    ensures last < h.numSectors
    ensures SectorBytes(d, h, first, last + 1)[position - first * 128..position - first * 128 + n]
         == Contents(d, h)[position..position + n]
  {
    LastInFile(h, first, last, position, n);
    SameBytes(d, h, first, last + 1, position, position + n);
    SamePart(SectorBytes(d, h, first, last + 1), first * 128, Contents(d, h), position, n);
  }

  lemma LastInFile(h: Header, first: nat, last: nat, position: nat, n: nat)
    requires Good(h) && Covers(first, last, position, n) && position + n <= h.numBytes
    ensures last < h.numSectors
  {}

  lemma SameBytes(d: Image, h: Header, lo: nat, hi: nat, from: nat, to: nat)
    requires Good(h) && lo <= hi <= h.numSectors && lo * 128 <= from <= to <= hi * 128 && to <= h.numBytes
    ensures forall q :: from <= q < to ==> Contents(d, h)[q] == SectorBytes(d, h, lo, hi)[q - lo * 128]
  {
    forall q | from <= q < to
      ensures Contents(d, h)[q] == SectorBytes(d, h, lo, hi)[q - lo * 128]
    {
      SameByte(d, h, lo, hi, q);
    }
  }

  lemma SamePart(s: seq<byte>, start: nat, t: seq<byte>, p: nat, n: nat)
    requires start <= p && p - start + n <= |s| && p + n <= |t|
    requires forall q :: p <= q < p + n ==> t[q] == s[q - start]
    ensures s[p - start..p - start + n] == t[p..p + n]
  {
    var got, wanted := s[p - start..p - start + n], t[p..p + n];
    forall j | 0 <= j < n
      ensures got[j] == wanted[j]
    {
      assert t[p + j] == s[p + j - start];
    }
  }

  lemma SameByte(d: Image, h: Header, lo: nat, hi: nat, q: nat)
    requires Good(h) && lo <= hi <= h.numSectors && lo * 128 <= q < hi * 128 && q < h.numBytes
    ensures SectorBytes(d, h, lo, hi)[q - lo * 128] == Contents(d, h)[q]
  {
    ContentsAt(d, h, q);
    SectorByteAt(d, h, lo, hi, q);
  }

  /** Sector k of a buffer. */
  function SectorOf(buf: seq<byte>, k: nat): Sector
    requires (k + 1) * 128 <= |buf|
  {
    buf[k * 128..(k + 1) * 128]
  }

  /** The disk after sectors lo..hi of the file receive the start of the buffer. */
  function Store(d: Image, h: Header, lo: nat, hi: nat, buf: seq<byte>): Image
    requires Good(h) && lo <= hi <= h.numSectors && (hi - lo) * 128 <= |buf|
  {
    if hi == lo then d else Store(d, h, lo, hi - 1, buf)[h.data[hi - 1] := SectorOf(buf, hi - 1 - lo)]
  }

  lemma SpanGrows(h: Header, lo: nat, hi: nat)
    requires Good(h) && lo <= hi < h.numSectors
    ensures Span(h, lo, hi + 1) == Span(h, lo, hi) + {h.data[hi] as int}
  {}

  lemma {:induction false} StoreEffect(d: Image, h: Header, lo: nat, hi: nat, buf: seq<byte>)
    requires Good(h) && lo <= hi <= h.numSectors && (hi - lo) * 128 <= |buf|
    ensures forall c :: 0 <= c < hi - lo ==> Store(d, h, lo, hi, buf)[h.data[lo + c]] == SectorOf(buf, c)
    ensures forall s :: 0 <= s < NUM_SECTORS && s !in Span(h, lo, hi) ==> Store(d, h, lo, hi, buf)[s] == d[s]
  {
    if lo < hi {
      StoreEffect(d, h, lo, hi - 1, buf);
      SpanGrows(h, lo, hi - 1);
    }
  }

  /** After a store, a byte of the file comes from the buffer or is what it was. */
  lemma StoredByte(d: Image, h: Header, lo: nat, hi: nat, buf: seq<byte>, p: nat)
    requires Good(h) && lo <= hi <= h.numSectors && (hi - lo) * 128 == |buf| && p < h.numBytes
    ensures Contents(Store(d, h, lo, hi, buf), h)[p] ==
            if lo * 128 <= p < hi * 128 then buf[p - lo * 128] else Contents(d, h)[p]
  {
    var after := Store(d, h, lo, hi, buf);
    StoreEffect(d, h, lo, hi, buf);
    ContentsAt(d, h, p);
    ContentsAt(after, h, p);
    var k := p / 128;
    if lo <= k < hi {
      var c := k - lo;
      assert SectorOf(buf, c)[p % 128] == buf[p - lo * 128];
    } else {
      assert h.data[k] as int !in Span(h, lo, hi);
    }
  }

  // ---- the buffer of a write ----

  /** The buffer, which starts at byte base of the file, holds the file's bytes lo..hi. */
  ghost predicate Holds(file: seq<byte>, buf: seq<byte>, base: nat, lo: nat, hi: nat)
    requires base <= lo && hi <= base + |buf|
  {
    forall q :: lo <= q < hi && q < |file| ==> file[q] == buf[q - base]
  }

  /** The buffer after reading in the file's sector at byte `at`. */
  function ReadIn(file: seq<byte>, buf: seq<byte>, base: nat, at: nat): (r: seq<byte>)
    requires base <= at && at + 128 <= base + |buf|
    ensures |r| == |buf|
  {
    Splice(buf, at - base, Piece(file, 128, at))
  }

  /** That sector is then held, and what was held before it still is. */
  lemma ReadInHolds(file: seq<byte>, buf: seq<byte>, base: nat, at: nat, lo: nat, hi: nat)
    requires base <= at && at + 128 <= base + |buf| && base <= lo && hi <= at
    requires Holds(file, buf, base, lo, hi)
    ensures Holds(file, ReadIn(file, buf, base, at), base, at, at + 128)
    ensures Holds(file, ReadIn(file, buf, base, at), base, lo, hi)
  {
    var piece, r := Piece(file, 128, at), ReadIn(file, buf, base, at);
    forall q | at <= q < at + 128 && q < |file|
      ensures file[q] == r[q - base]
    {
      SpliceAt(buf, at - base, piece, q - base);
      assert piece[q - at] == file[q];
    }
    forall q | lo <= q < hi && q < |file|
      ensures file[q] == r[q - base]
    {
      SpliceAt(buf, at - base, piece, q - base);
    }
  }

  /** A fresh buffer after reading in the first sector, if it will be written only in part. */
  function KeptFirst(file: seq<byte>, raw: seq<byte>, first: nat, position: nat): (r: seq<byte>)
    requires 128 <= |raw|
    ensures |r| == |raw|
  {
    if position == first * 128 then raw else ReadIn(file, raw, first * 128, first * 128)
  }

  /** ... and the last sector, if it will be written only in part and is not read in yet. */
  function KeptLast(file: seq<byte>, one: seq<byte>, first: nat, last: nat, position: nat, n: nat): (r: seq<byte>)
    requires first <= last && |one| == (1 + last - first) * 128
    ensures |r| == |one|
  {
    if position + n != (last + 1) * 128 && (first != last || position == first * 128)
    then ReadIn(file, one, first * 128, last * 128)
    else one
  }

  /** Whatever the alignment, it holds the file's bytes on both sides of the range. */
  lemma KeptHolds(file: seq<byte>, raw: seq<byte>, first: nat, last: nat, position: nat, n: nat)
    requires Covers(first, last, position, n) && |raw| == (1 + last - first) * 128
    ensures var kept := KeptLast(file, KeptFirst(file, raw, first, position), first, last, position, n);
      && Holds(file, kept, first * 128, first * 128, position)
      && Holds(file, kept, first * 128, position + n, (last + 1) * 128)
  {
    var base, lastAt := first * 128, last * 128;
    var one := KeptFirst(file, raw, first, position);
    ReadInHolds(file, raw, base, base, base, base);
    assert Holds(file, one, base, base, position);
    if position + n != lastAt + 128 && (first != last || position == base) {
      ReadInHolds(file, one, base, lastAt, base, if first != last then position else base);
    }
  }

  /** A byte that the buffer covers, after the splice, is the byte of the spliced file. */
  lemma BufferByte(file: seq<byte>, kept: seq<byte>, base: nat, position: nat, bytes: seq<byte>, p: nat)
    requires base <= position && position + |bytes| <= base + |kept| && position + |bytes| <= |file|
    requires Holds(file, kept, base, base, position) && Holds(file, kept, base, position + |bytes|, base + |kept|)
    requires p < |file|
    ensures Splice(file, position, bytes)[p] ==
            if base <= p < base + |kept| then Splice(kept, position - base, bytes)[p - base] else file[p]
  {
    SpliceAt(file, position, bytes, p);
    if base <= p < base + |kept| {
      SpliceAt(kept, position - base, bytes, p - base);
    }
  }

  /** Reading in, splicing and writing back whole sectors is the write, for every alignment. */
  lemma WriteRefines(d: Image, h: Header, first: nat, last: nat, position: nat, bytes: seq<byte>, kept: seq<byte>)
    requires Good(h) && Covers(first, last, position, |bytes|) && position + |bytes| <= h.numBytes
    requires |kept| == (1 + last - first) * 128
    requires Holds(Contents(d, h), kept, first * 128, first * 128, position)
    requires Holds(Contents(d, h), kept, first * 128, position + |bytes|, (last + 1) * 128)
    ensures last < h.numSectors
    ensures Written(d, Store(d, h, first, last + 1, Splice(kept, position - first * 128, bytes)), h, position, bytes)
  {
    var buf := Splice(kept, position - first * 128, bytes);
    StoredContents(d, h, first, last, position, bytes, kept);
    StoreEffect(d, h, first, last + 1, buf);
    CoversTouched(h, first, last, position, |bytes|);
  }

  lemma StoredContents(d: Image, h: Header, first: nat, last: nat, position: nat, bytes: seq<byte>, kept: seq<byte>)
    requires Good(h) && Covers(first, last, position, |bytes|) && position + |bytes| <= h.numBytes
    requires |kept| == (1 + last - first) * 128
    requires Holds(Contents(d, h), kept, first * 128, first * 128, position)
    requires Holds(Contents(d, h), kept, first * 128, position + |bytes|, (last + 1) * 128)
    ensures last < h.numSectors
    ensures Contents(Store(d, h, first, last + 1, Splice(kept, position - first * 128, bytes)), h)
         == Splice(Contents(d, h), position, bytes)
  {
    var buf := Splice(kept, position - first * 128, bytes);
    var file, now := Contents(d, h), Contents(Store(d, h, first, last + 1, buf), h);
    forall p | 0 <= p < h.numBytes
      ensures now[p] == Splice(file, position, bytes)[p]
    {
      StoredByte(d, h, first, last + 1, buf, p);
      BufferByte(file, kept, first * 128, position, bytes, p);
    }
  }

  // ---- reading in pieces ----

  /** What one read of the given size returns. */
  function Piece(file: seq<byte>, size: int, position: nat): seq<byte> {
    var n := Granted(|file|, size, position);
    if n == 0 then [] else file[position..position + n]
  }

  /** What a run of sequential reads of the given sizes returns, put together. */
  function Pieces(file: seq<byte>, sizes: seq<int>, position: nat): seq<byte> {
    if sizes == [] then []
    else
      var piece := Piece(file, sizes[0], position);
      piece + Pieces(file, sizes[1..], position + |piece|)
  }

  function Total(sizes: seq<int>): nat {
    if sizes == [] then 0 else (if sizes[0] > 0 then sizes[0] else 0) + Total(sizes[1..])
  }

  /** Two reads in a row are one longer read. */
  lemma PieceSplit(file: seq<byte>, a: int, b: nat, both: nat, position: nat)
    requires both == (if a > 0 then a else 0) + b
    ensures Piece(file, both, position) == Piece(file, a, position) + Piece(file, b, position + |Piece(file, a, position)|)
  {
    if position > |file| {
      return;
    }
    var n := Granted(|file|, a, position);
    var m := Granted(|file|, b, position + n);
    GrantedSplit(|file|, a, b, position);
    PieceIs(file, a, position, n);
    PieceIs(file, b, position + n, m);
    PieceIs(file, both, position, n + m);
    SliceJoin(file, position, n, m);
  }

  lemma SameJoined(s: seq<byte>, t: seq<byte>, first: seq<byte>, rest: seq<byte>)
    requires s == first + rest && t == first + rest
    ensures s == t
  {}

  lemma PieceOfNothing(file: seq<byte>, position: nat)
    ensures Piece(file, 0, position) == []
  {}

  lemma PieceIs(file: seq<byte>, size: int, position: nat, n: nat)
    requires n == Granted(|file|, size, position) && position + n <= |file|
    ensures Piece(file, size, position) == file[position..position + n]
  {}

  lemma GrantedSplit(length: nat, a: int, b: nat, position: nat)
    requires position <= length
    ensures var n := Granted(length, a, position);
      && position + n <= length && position + n + Granted(length, b, position + n) <= length
      && Granted(length, (if a > 0 then a else 0) + b, position) == n + Granted(length, b, position + n)
  {}

  lemma SliceJoin(file: seq<byte>, position: nat, n: nat, m: nat)
    requires position + n + m <= |file|
    ensures file[position..position + n] + file[position + n..position + n + m] == file[position..position + (n + m)]
  {}

  /** Reading in pieces, however they are cut, returns what one read of the total size would. */
  lemma {:induction false} PiecesAreOneRead(file: seq<byte>, sizes: seq<int>, position: nat)
    ensures Pieces(file, sizes, position) == Piece(file, Total(sizes), position)
  {
    if sizes != [] {
      var next := position + |Piece(file, sizes[0], position)|;
      PieceSplit(file, sizes[0], Total(sizes[1..]), Total(sizes), position);
      PiecesAreOneRead(file, sizes[1..], next);
      SameJoined(Pieces(file, sizes, position), Piece(file, Total(sizes), position),
                 Piece(file, sizes[0], position), Pieces(file, sizes[1..], next));
    } else {
      PieceOfNothing(file, position);
    }
  }

  /** Each of these reads fits when its turn comes. */
  predicate AllFit(length: nat, sizes: seq<int>, position: nat) {
    sizes == [] ||
    (Fits(length, sizes[0], position) && AllFit(length, sizes[1..], position + Granted(length, sizes[0], position)))
  }

  /** If one read of the total fits, so does every piece of it. */
  lemma {:induction false} PiecesFit(length: nat, sizes: seq<int>, position: nat)
    requires Fits(length, Total(sizes), position)
    ensures AllFit(length, sizes, position)
  {
    if sizes != [] {
      PiecesFit(length, sizes[1..], position + Granted(length, sizes[0], position));
    }
  }

  class OpenFile {
    const disk: Disk
    const hdr: FileHeader
    ghost const header: Header
    var seekPosition: offset

    /** The header in memory is the one the file was allocated with. */
    ghost predicate Valid()
      reads hdr, hdr.dataSectors
    {
      hdr.Valid() && hdr.Value() == header && Good(header)
    }

    ghost function Bytes(): (bytes: seq<byte>)
      requires Good(header)
      reads disk
      ensures |bytes| == header.numBytes
    {
      Contents(disk.image, header)
    }

    constructor (disk: Disk, sector: int)
      requires 0 <= sector < NUM_SECTORS && Good(Decode(disk.image[sector]))
      ensures Valid() && fresh(hdr) && fresh(hdr.dataSectors) && this.disk == disk
      ensures header == Decode(disk.image[sector]) && seekPosition == 0
    {
      var fetched := new FileHeader();
      fetched.FetchFrom(disk, sector);
      hdr := fetched;
      header := Decode(disk.image[sector]);
      this.disk := disk;
      seekPosition := 0;
    }

    method Seek(position: offset)
      modifies this
      ensures seekPosition == position
    {
      seekPosition := position;
    }

    method Read(numBytes: int32) returns (into: seq<byte>)
      requires Valid() && Fits(header.numBytes, numBytes, seekPosition)
      modifies this
      ensures into == Piece(Bytes(), numBytes, old(seekPosition))
      ensures seekPosition == old(seekPosition) + |into|
    {
      into := ReadAt(numBytes, seekPosition);
      seekPosition := seekPosition + |into|;
    }

    method Write(from: seq<byte>, numBytes: int32) returns (result: offset)
      requires Valid() && numBytes <= |from| && Fits(header.numBytes, numBytes, seekPosition)
      modifies this, disk
      ensures result == Granted(header.numBytes, numBytes, old(seekPosition))
      ensures seekPosition == old(seekPosition) + result
      ensures Written(old(disk.image), disk.image, header, old(seekPosition), from[..result])
    {
      result := WriteAt(from, numBytes, seekPosition);
      seekPosition := seekPosition + result;
    }

    /** Reads sectors first..last of the file. */
    method LoadSectors(first: nat, last: nat) returns (buf: seq<byte>)
      requires Valid() && first <= last < header.numSectors
      ensures buf == SectorBytes(disk.image, header, first, last + 1)
    {
      buf := [];
      var i := first;
      while i <= last
        invariant first <= i <= last + 1
        invariant buf == SectorBytes(disk.image, header, first, i)
      {
        var sector := hdr.ByteToSector(i * 128);
        var data := disk.ReadSector(sector);
        buf := buf + data;
        i := i + 1;
      }
    }

    /** Reads the sectors that the request touches and returns the part asked for. */
    method ReadAt(numBytes: int32, position: offset) returns (into: seq<byte>)
      requires Valid() && Fits(header.numBytes, numBytes, position)
      ensures into == Piece(Bytes(), numBytes, position)
    {
      var fileLength := hdr.numBytes;
      if numBytes <= 0 || position >= fileLength {
        return [];
      }
      CountedIsGranted(fileLength, numBytes, position);
      var n := if WrapInt(position + numBytes) > fileLength then fileLength - position else numBytes;
      var first, last := position / 128, (position + n - 1) / 128;
      var buf := LoadSectors(first, last);
      PieceOfSectors(disk.image, header, first, last, position, n);
      ghost var file := Bytes();
      assert buf[position - first * 128..position - first * 128 + n] == file[position..position + n];
      return buf[position - first * 128..position - first * 128 + n];
    }

    /** Writes the request, keeping the rest of the sectors it touches. */
    method WriteAt(from: seq<byte>, numBytes: int32, position: offset) returns (result: offset)
      requires Valid() && numBytes <= |from| && Fits(header.numBytes, numBytes, position)
      modifies disk
      ensures result == Granted(header.numBytes, numBytes, position)
      ensures Written(old(disk.image), disk.image, header, position, from[..result])
    {
      var fileLength := hdr.numBytes;
      if numBytes <= 0 || position >= fileLength {
        return 0;
      }
      CountedIsGranted(fileLength, numBytes, position);
      var n := if WrapInt(position + numBytes) > fileLength then fileLength - position else numBytes;
      var first, last := position / 128, (position + n - 1) / 128;
      var buf := ReadPartial(first, last, position, n);
      WriteRefines(disk.image, header, first, last, position, from[..n], buf);
      buf := Splice(buf, position - first * 128, from[..n]);
      StoreSectors(first, last, buf);
      return n;
    }

    /** Reads the sector of the file at byte `at` into its place in a buffer that starts at byte base. */
    method ReadInto(buf: seq<byte>, base: nat, at: nat) returns (r: seq<byte>)
      requires Valid() && base <= at && at + 128 <= base + |buf| && at < header.numBytes
      ensures r == ReadIn(Bytes(), buf, base, at)
    {
      var got := ReadAt(128, at);
      r := Splice(buf, at - base, got);
    }

    /** A fresh buffer for sectors first..last, with the first and the last of them read in if they are
        to be written only in part. */
    method ReadPartial(first: nat, last: nat, position: nat, n: nat) returns (buf: seq<byte>)
      requires Valid() && Covers(first, last, position, n) && position + n <= header.numBytes
      ensures |buf| == (1 + last - first) * 128
      ensures Holds(Bytes(), buf, first * 128, first * 128, position)
      ensures Holds(Bytes(), buf, first * 128, position + n, (last + 1) * 128)
    {
      var memory := new byte[(1 + last - first) * 128];
      buf := memory[..];
      KeptHolds(Bytes(), buf, first, last, position, n);
      var firstAligned := position == first * 128;
      var lastAligned := position + n == (last + 1) * 128;
      if !firstAligned {
        buf := ReadInto(buf, first * 128, first * 128);
      }
      if !lastAligned && (first != last || firstAligned) {
        buf := ReadInto(buf, first * 128, last * 128);
      }
    }

    /** Writes the buffer to sectors first..last of the file. */
    method StoreSectors(first: nat, last: nat, buf: seq<byte>)
      requires Valid() && first <= last < header.numSectors && |buf| == (1 + last - first) * 128
      modifies disk
      ensures disk.image == Store(old(disk.image), header, first, last + 1, buf)
    {
      var i := first;
      while i <= last
        invariant first <= i <= last + 1
        invariant disk.image == Store(old(disk.image), header, first, i, buf)
        modifies disk
      {
        var sector := hdr.ByteToSector(i * 128);
        disk.WriteSector(sector, SectorOf(buf, i - first));
        i := i + 1;
      }
    }
  }
}
