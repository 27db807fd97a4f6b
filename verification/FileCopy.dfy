/** Copying a file in and printing one (threads/main.cc), over the handles and the file system beneath. */
module FileCopies {
  import opened Words
  import opened Disks
  import opened FileHeaders
  import opened OpenFiles
  import opened Directories
  import opened FileSystemSpec
  import opened FileSystemProofs
  import opened FileSystems
  import opened FileSystemRuns

  const TRANSFER_SIZE: int32 := 128

  /** A write through a handle leaves it a handle of the same file. */
  lemma HandleKept(before: Image, after: Image, key: CString, i: int, h: Header, position: nat,
                   from: seq<byte>, moved: nat)
    requires Inv(before) && WriteThrough(before, after, key, i, h, position, from, moved)
    ensures Formatted(after) && HeaderNamed(after, key, i, h)
  {
    hide Inv, Written, Contents, Table, FreeMap, System, Decode;
    FileFound(before, i, key);
    WriteSystem(before, after, i, position, from[..moved]);
    HeaderUntouched(before, after, h, position, from[..moved], Table(before)[i].sector);
  }

  lemma HeaderUntouched(before: Image, after: Image, h: Header, position: nat, bytes: seq<byte>, s: int)
    requires Good(h) && Written(before, after, h, position, bytes) && 0 <= s < NUM_SECTORS && s !in Sectors(h)
    ensures after[s] == before[s]
  {}

  /** A write at the handle's own position. */
  method WriteNext(fs: FileSystem, file: OpenFile, name: CString, ghost i: int, from: seq<byte>) returns (moved: offset)
    requires fs.Valid() && file.Valid() && file.disk == fs.disk
    requires Formatted(fs.disk.image) && HeaderNamed(fs.disk.image, Key(name), i, file.header)
    requires |from| < 0x8000_0000 && Fits(file.header.numBytes, |from|, file.seekPosition)
    modifies file, fs.disk
    ensures fs.Valid() && file.Valid() && Inv(old(fs.disk.image)) && Inv(fs.disk.image)
    ensures Formatted(fs.disk.image) && HeaderNamed(fs.disk.image, Key(name), i, file.header)
    ensures file.seekPosition == old(file.seekPosition) + moved
    ensures AbstractStep(Write(name, old(file.seekPosition), from, moved), Files(old(fs.disk.image)), Files(fs.disk.image))
  {
    hide Inv, Written, Contents, Table, FreeMap, System, Decode, HeaderNamed, Files, AbstractStep, Splice;
    ghost var d, h, position := fs.disk.image, file.header, file.seekPosition;
    OwnSectors(d, Key(name), i, h);
    moved := file.Write(from, |from|);
    SystemUntouched(d, fs.disk.image, h, position, from[..moved]);
    WriteThroughRefines(d, fs.disk.image, name, i, h, position, from, moved);
    HandleKept(d, fs.disk.image, Key(name), i, h, position, from, moved);
  }

  /** The files with the first n bytes of one of them already copied. */
  ghost function CopiedPart(files: AbstractFiles, key: CString, data: seq<byte>, n: nat): AbstractFiles
    requires key in files && |files[key]| == |data| && n <= |data|
  {
    files[key := data[..n] + files[key][n..]]
  }

  /** Writing the next bytes takes the copy from n bytes to m. */
  lemma CopyMore(files: AbstractFiles, now: AbstractFiles, after: AbstractFiles, name: CString, data: seq<byte>,
                 n: nat, m: nat, moved: nat)
    requires Key(name) in files && |files[Key(name)]| == |data| && n < m <= |data|
    requires now == CopiedPart(files, Key(name), data, n)
    requires AbstractStep(Write(name, n, data[n..m], moved), now, after)
    ensures moved == m - n && after == CopiedPart(files, Key(name), data, m)
  {
    var part := now[Key(name)];
    assert data[n..m][..moved] == data[n..m];
    assert Splice(part, n, data[n..m]) == data[..m] + files[Key(name)][m..];
  }

  /** Writes the data to the file from its start on, a piece at a time. */
  method Fill(fs: FileSystem, file: OpenFile, name: CString, ghost i: int, data: seq<byte>)
    requires fs.Valid() && file.Valid() && file.disk == fs.disk && file.seekPosition == 0
    requires Formatted(fs.disk.image) && HeaderNamed(fs.disk.image, Key(name), i, file.header)
    requires Inv(fs.disk.image) && Key(name) in Files(fs.disk.image) && |Files(fs.disk.image)[Key(name)]| == |data|
    requires |data| <= MAX_FILE_SIZE
    modifies file, fs.disk
    ensures fs.Valid() && Inv(fs.disk.image)
    ensures Files(fs.disk.image) == Files(old(fs.disk.image))[Key(name) := data]
  {
    hide Inv, Files, HeaderNamed, Formatted, FileSystem.Mounted, AbstractStep, CopiedPart;
    ghost var files := Files(fs.disk.image);
    var at := 0;
    CopyStart(files, Key(name), data);
    while at < |data|
      invariant fs.Valid() && file.Valid() && Inv(fs.disk.image)
      invariant Formatted(fs.disk.image) && HeaderNamed(fs.disk.image, Key(name), i, file.header)
      invariant file.seekPosition == at <= |data|
      invariant Files(fs.disk.image) == CopiedPart(files, Key(name), data, at)
    {
      ghost var now := Files(fs.disk.image);
      var next := if at + TRANSFER_SIZE <= |data| then at + TRANSFER_SIZE else |data|;
      var moved := WriteNext(fs, file, name, i, data[at..next]);
      CopyMore(files, now, Files(fs.disk.image), name, data, at, next, moved);
      at := next;
    }
    CopyEnd(files, Key(name), data);
  }

  lemma CopyStart(files: AbstractFiles, key: CString, data: seq<byte>)
    requires key in files && |files[key]| == |data|
    ensures CopiedPart(files, key, data, 0) == files
  {
    assert data[..0] + files[key][0..] == files[key];
  }

  lemma CopyEnd(files: AbstractFiles, key: CString, data: seq<byte>)
    requires key in files && |files[key]| == |data|
    ensures CopiedPart(files, key, data, |data|) == files[key := data]
  {
    assert data[..|data|] + [] == data;
  }

  method CreateFile(fs: FileSystem, name: CString, size: int) returns (ok: bool)
    requires fs.Valid() && Inv(fs.disk.image) && 0 <= size <= MAX_FILE_SIZE
    modifies fs.disk
    ensures fs.Valid() && Inv(fs.disk.image) && Formatted(fs.disk.image)
    ensures AbstractStep(Create(name, size, ok), Files(old(fs.disk.image)), Files(fs.disk.image))
  {
    hide Balanced, NamesApart, InUse, GoodFile, Formatted, Files, CanAdd, CreateStep, AbstractStep;
    ghost var d := fs.disk.image;
    ok := fs.Create(name, size);
    CreateRefines(d, fs.disk.image, name, size, ok);
  }

  /** Creates a file of the data's length and fills it with the data. */
  method Copy(fs: FileSystem, name: CString, data: seq<byte>) returns (ok: bool)
    requires fs.Valid() && Inv(fs.disk.image) && |data| <= MAX_FILE_SIZE
    modifies fs.disk
    ensures fs.Valid() && Inv(fs.disk.image)
    ensures ok <==> CanAdd(Files(old(fs.disk.image)), Key(name), |data|)
    ensures Files(fs.disk.image) == if ok then Files(old(fs.disk.image))[Key(name) := data] else Files(old(fs.disk.image))
  {
    hide Inv, Files, HeaderNamed, Formatted, FileSystem.Mounted, CanAdd;
    ok := CreateFile(fs, name, |data|);
    if ok {
      var file := fs.Open(name);
      ghost var i :| HeaderNamed(fs.disk.image, Key(name), i, file.header);
      Fill(fs, file, name, i, data);
    }
  }

  /** Reads an open file to its end, a piece at a time, until a read returns nothing. */
  method ReadToEnd(file: OpenFile) returns (printed: seq<byte>)
    requires file.Valid() && file.seekPosition == 0
    modifies file
    ensures printed == file.Bytes()
  {
    hide Contents;
    ghost var bytes := file.Bytes();
    printed := [];
    var read := file.Read(TRANSFER_SIZE);
    while read != []
      invariant file.Valid() && file.Bytes() == bytes
      invariant |printed| + |read| == file.seekPosition <= |bytes|
      invariant printed + read == bytes[..file.seekPosition]
      invariant read == [] ==> file.seekPosition == |bytes|
      decreases |bytes| - |printed|
    {
      printed := printed + read;
      read := file.Read(TRANSFER_SIZE);
    }
    assert printed + [] == printed;
  }

  /** Prints a file. */
  method Print(fs: FileSystem, name: CString) returns (printed: seq<byte>)
    requires fs.Valid() && Inv(fs.disk.image)
    ensures printed == if Key(name) in Files(fs.disk.image) then Files(fs.disk.image)[Key(name)] else []
  {
    hide Inv, Files, HeaderNamed, Formatted, FileSystem.Mounted, OpenFile.Valid, OpenFile.Bytes;
    printed := [];
    var file := fs.Open(name);
    if file != null {
      printed := ReadToEnd(file);
    }
  }
}
