/** Bitmaps kept in a file (filesys/pbitmap.cc). */
module PersistentBitmaps {
  import opened Words
  import opened Disks
  import opened Bitmaps
  import opened FileHeaders
  import opened OpenFiles

  /** The flags that a file's bytes spell out. */
  function FlagsIn(bytes: seq<byte>): (bits: seq<bool>)
    requires |bytes| % 4 == 0
    ensures |bits| == 8 * |bytes|
  {
    Unpack(UnpackWords(bytes), 8 * |bytes|)
  }

  /** Flag i is digit i mod 8 of byte i / 8 of the file. */
  lemma FlagAt(bytes: seq<byte>, i: nat)
    requires |bytes| % 4 == 0 && i < 8 * |bytes|
    ensures FlagsIn(bytes)[i] == Bit(bytes[i / 8], i % 8)
  {
    var w := i / 32;
    WordBit(bytes[4 * w..4 * w + 4], i % 32);
    assert bytes[4 * w..4 * w + 4][i % 32 / 8] == bytes[i / 8];
  }

  /** Overwrites the bitmap with the one stored in the file. */
  method FetchFrom(bm: Bitmap, file: OpenFile)
    requires bm.Valid() && bm.numBits == 32 * bm.numWords
    requires file.Valid() && file.header.numBytes == 4 * bm.numWords
    modifies bm.map_
    ensures bm.Bits() == FlagsIn(file.Bytes())
  {
    var got := file.ReadAt(4 * bm.numWords, 0);
    assert got == file.Bytes();
    var ws := UnpackWords(got);
    forall i | 0 <= i < bm.numWords {
      bm.map_[i] := ws[i];
    }
    assert bm.map_[..] == ws;
  }

  /** Stores the bitmap in the file. */
  method WriteBack(bm: Bitmap, file: OpenFile) returns (ghost bytes: seq<byte>)
    requires bm.Valid() && bm.numBits == 32 * bm.numWords
    requires file.Valid() && file.header.numBytes == 4 * bm.numWords
    modifies file.disk
    ensures |bytes| == file.header.numBytes && FlagsIn(bytes) == bm.Bits()
    ensures Written(old(file.disk.image), file.disk.image, file.header, 0, bytes)
  {
    var ws := bm.map_[..];
    var stored := Pack(ws);
    PackRoundTrip(ws);
    bytes := stored;
    var n := file.WriteAt(stored, 4 * bm.numWords, 0);
    assert stored[..n] == stored;
  }
}
