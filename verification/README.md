# Nachos, verified

A Dafny model of the kernel and the machine emulator of this Nachos, with proofs of what its pieces are
for. `dafny verify dfyconfig.toml` checks all of it.

Four parts, each proved against a simple reference meaning:

1. **The file system on disk.** `Bitmap`, `FileHeader`, `OpenFile`, `PersistentBitmap`, `Directory` and
   `FileSystem` are classes that change maps, tables and sectors in place, down to the bits of a word and the
   bytes of an entry. The global invariant (`FileSystemSpec.Inv`) says that every marked sector has exactly
   one owner, although the map and the directory are themselves files on the disk they describe. Over every
   run, the disk is a map from nine-character names to byte strings with room for ten files and 1019 sectors
   (`FileSystemRuns.RunRefines`); copying a file in and printing it come on top (`FileCopies.Copy`, `Print`).
   One claim about reads and writes fails: a request is not cut off at the end of the file if its end is not a
   32-bit int (`OpenFiles.TooLargeExample`); `OpenFiles.CountedIsGranted` says exactly when it is cut off right,
   and the operations require just that.
2. **The machine emulator and address spaces.** The 64-bit multiplier; translation through a page table or
   a TLB; LWL, LWR, SWL and SWR across the load-delay slot; frames shared out among address spaces, which
   behave as if each had a memory of its own (`AddrSpaceSpec.RunRefines`); and the argument block that a
   program finds. One claim about the unaligned stores fails: if a load to the stored register is still
   pending, the two instructions find different values in it, and the word in memory may be neither
   (`Machines.PendingLoadTearsStore`); `Processors.StoreUnaligned` says exactly when it is one of them.
3. **Time, threads and synchronisation.** The interrupt queue; the scheduler and its semaphores; locks,
   conditions and the synchronised list; the disk and its driver; and the process table. Concurrency is
   a machine of atomic steps: a `...Spec` module has the state, the steps as functions, the invariant and the
   theorems over every run; the class beside it has the kernel's code for the steps, field by field, with
   the source's assertions, each method equal to its step. The layers meet in the plain semaphore of
   `Semaphores`: every run of the kernel is one of its runs (`KernelSpec.SemaphoreRun`), and so is every run of
   what is built on it.
4. **Lists and the hash table.** Linked lists with pointer surgery, which stand for sequences; and the table
   that grows by itself, whose buckets are such lists, none sharing a node with another, and which stands for
   a map.

Where the code and its comments differ, the model follows the code: Create adds the name to the directory
before it allocates the data (its comment has the data first), and a name longer than nine characters is
accepted and compared by its first nine.

C's ints and the machine's words have 32 bits, and wrap, where the code computes with them: file sizes, counts and
positions, header and directory fields, the operands of the multiplier and of ADD, ADDI and SUB, registers and
virtual addresses (bit vectors where the code shifts and masks). The host is little-endian, with 4-byte pointers
and signed chars. Numbers that only count are unbounded here: ticks, values of semaphores, lengths of lists and
tables, units waiting.

## Model

| member | source | states |
|---|---|---|
| Bitmaps.Bitmap.constructor | NachOS-4.0/code/lib/bitmap.cc:21-36 | a new map of any positive number of flags has every flag clear |
| Bitmaps.Bitmap.Mark | NachOS-4.0/code/lib/bitmap.cc:55-64 | exactly one flag of the packed map becomes set: the shift and the bitwise or on one word are a one-flag update of the whole map |
| Bitmaps.Bitmap.Clear | NachOS-4.0/code/lib/bitmap.cc:72-80 | exactly one flag becomes clear, through `&` and `~` on one word |
| Bitmaps.Bitmap.Test | NachOS-4.0/code/lib/bitmap.cc:89-99 | the masked word is non-zero exactly when the flag is set |
| Bitmaps.Bitmap.FindAndSet | NachOS-4.0/code/lib/bitmap.cc:110-120 | claims the lowest clear flag and no other; -1, and no change, exactly when there is none |
| Bitmaps.Bitmap.NumClear | NachOS-4.0/code/lib/bitmap.cc:128-139 | the number of clear flags |
| Bitmaps.UnpackUpdate | NachOS-4.0/code/lib/bitmap.cc:55-80 | changing one binary digit of one word of a packed map changes one flag and leaves all the others |
| Words.OrBit | NachOS-4.0/code/lib/bitmap.cc:60 | a bitwise or works digit by digit |
| Words.AndNonZero | NachOS-4.0/code/lib/bitmap.cc:93 | a word masked with one power of two is non-zero exactly when that digit is one |
| Allocations.TakeOne | NachOS-4.0/code/filesys/filehdr.cc:52-53 | claiming the lowest clear flag once more keeps an allocation under way right: the flags taken are the lowest clear ones, in order, and they and no others were marked |
| FileHeaders.FileHeader.Allocate | NachOS-4.0/code/filesys/filehdr.cc:43-57 | succeeds exactly when the free sectors can hold the bytes; then the header names just as many distinct sectors as hold them and no more (none for an empty file), the lowest free ones, and just those become marked; on failure the map is unchanged |
| FileHeaders.EnoughSectors | NachOS-4.0/code/lib/utility.h:25 | so many sectors are at least the divRoundUp of a size exactly when they hold that many bytes |
| FileHeaders.FileHeader.Deallocate | NachOS-4.0/code/filesys/filehdr.cc:67-75 | clears the flags of exactly the file's sectors; the "ought to be marked" assertion holds at every turn |
| FileHeaders.FileHeader.FetchFrom | NachOS-4.0/code/filesys/filehdr.cc:83-87 | the header in memory becomes the one in the sector |
| FileHeaders.FileHeader.WriteBack | NachOS-4.0/code/filesys/filehdr.cc:96-100 | only the header's sector changes, to the header's image |
| FileHeaders.HeaderRoundTrip | NachOS-4.0/code/filesys/filehdr.cc:83-100 | a header written to a sector and fetched from it is the same header |
| FileHeaders.HeaderLayout | NachOS-4.0/code/filesys/filehdr.h:60-64 | the image of a header is its two counts and then its sectors, as little-endian words |
| FileHeaders.ContentsAt | NachOS-4.0/code/filesys/filehdr.cc:112-116 | byte p of a file is byte p mod 128 of the sector that ByteToSector names for p |
| FileHeaders.TakenIsGood | NachOS-4.0/code/filesys/filehdr.cc:43-57 | the lowest clear sectors, taken in order, make a header whose sectors are distinct and on the disk |
| OpenFiles.OpenFile.constructor | NachOS-4.0/code/filesys/openfile.cc:29-35 | the handle has the header stored in the sector, and starts at byte 0 |
| OpenFiles.OpenFile.Read | NachOS-4.0/code/filesys/openfile.cc:92-98 | when the request fits at the current position, returns the next bytes of the file, cut off at its end, and moves on by as many |
| OpenFiles.OpenFile.Write | NachOS-4.0/code/filesys/openfile.cc:100-106 | when the request fits at the current position, writes there, cut off at the end of the file, and moves on by as many bytes |
| OpenFiles.OpenFile.ReadAt | NachOS-4.0/code/filesys/openfile.cc:134-161 | for every position from 0 and every length that fit (the length is not positive, or the position is past the end, or their sum is below 2^31): returns exactly that part of the file's byte sequence, cut off at its end |
| OpenFiles.OpenFile.WriteAt | NachOS-4.0/code/filesys/openfile.cc:163-202 | for every position from 0 and every length that fit, as for ReadAt: splices the bytes into the file's byte sequence; only sectors of the file that the range touches change |
| OpenFiles.CountedIsGranted | NachOS-4.0/code/filesys/openfile.cc:141-144 | for all lengths of a file, counts and positions from 0: the code, whose sum of count and position is a 32-bit int, moves the number of bytes asked for cut off at the end of the file if and only if the request fits |
| OpenFiles.TooLargeIsNotCut | NachOS-4.0/code/filesys/openfile.cc:141-149 | a request that does not fit is never cut off at the end of the file, and the last sector it asks for lies past the end of any header's table or before the file |
| OpenFiles.TooLargeExample | NachOS-4.0/code/filesys/openfile.cc:143-149 | such a request: 0x7fffffff bytes from byte 1 of any file longer than a byte; the code asks for sectors up to number 0xffffff |
| OpenFiles.WriteRefines | NachOS-4.0/code/filesys/openfile.cc:163-202 | reading in the partly written first and last sectors, copying the bytes over the buffer and writing the sectors back is a splice, whatever the alignment |
| OpenFiles.KeptHolds | NachOS-4.0/code/filesys/openfile.cc:181-192 | in every case (aligned or not at either end, one sector or more) the buffer holds the file's old bytes on both sides of the range before the copy |
| OpenFiles.OpenFile.ReadPartial | NachOS-4.0/code/filesys/openfile.cc:176-192 | the buffer of a write: the first and the last sector are read in if they are written only in part |
| OpenFiles.PieceOfSectors | NachOS-4.0/code/filesys/openfile.cc:149-158 | the requested bytes are the right part of the whole sectors read |
| OpenFiles.PiecesAreOneRead | NachOS-4.0/code/filesys/openfile.cc:92-98 | the bytes that sequential reads of any sizes ought to return are, put together, those that one read of the total size ought to; what Read does return, for reads that fit |
| OpenFiles.PiecesFit | NachOS-4.0/code/filesys/openfile.cc:92-98 | and if the one read fits, so does every one of the others in its turn |
| OpenFiles.WrittenElsewhere | NachOS-4.0/code/filesys/openfile.cc:163-202 | a write changes no byte of a file on other sectors |
| PersistentBitmaps.FetchFrom | NachOS-4.0/code/filesys/pbitmap.cc:62-68 | the map becomes the one that the file's bytes spell |
| PersistentBitmaps.FlagAt | NachOS-4.0/code/filesys/pbitmap.cc:62-68 | flag i is binary digit i mod 8 of byte i / 8 of the file |
| PersistentBitmaps.WriteBack | NachOS-4.0/code/filesys/pbitmap.cc:75-79 | the file's bytes become ones that spell the map; nothing else changes |
| Directories.Directory.FetchFrom | NachOS-4.0/code/filesys/directory.cc:62-66 | the table becomes the one that the file's bytes spell |
| Directories.Directory.WriteBack | NachOS-4.0/code/filesys/directory.cc:75-79 | the file's bytes become the table's |
| Directories.Directory.FindIndex | NachOS-4.0/code/filesys/directory.cc:89-96 | the first entry in use whose stored name is the first nine characters of the given one, or -1 when there is none |
| Directories.Directory.Find | NachOS-4.0/code/filesys/directory.cc:107-115 | the header sector of such an entry, or -1 |
| Directories.Directory.Add | NachOS-4.0/code/filesys/directory.cc:128-144 | succeeds exactly when the name is not there and an entry is free; then the first free entry, and no other, takes the name and the sector |
| Directories.Directory.Remove | NachOS-4.0/code/filesys/directory.cc:152-161 | succeeds exactly when the name is there; then only its entry's flag changes |
| Directories.StrNCmpMeaning | NachOS-4.0/code/filesys/directory.cc:89-96 | comparing nine characters at most compares the stored name with as much of the given one as counts |
| Directories.StrNCpyMeaning | NachOS-4.0/code/filesys/directory.cc:138-140 | the copied name, read back, is the first nine characters of the given one |
| Directories.TableRoundTrip | NachOS-4.0/code/filesys/directory.cc:62-79 | a table written to a file and fetched back is the same table, padding and all |
| Directories.TableLayout | NachOS-4.0/code/filesys/directory.cc:62-79 | entry i of the table is in bytes 20i to 20i + 19 of the file |
| Directories.EntryLayout | NachOS-4.0/code/filesys/directory.h:32-38 | an entry has its flag in byte 0, its sector in bytes 4 to 7 and its name from byte 8 on |
| FileSystems.FileSystem.Format | NachOS-4.0/code/filesys/filesys.cc:81-148 | from any disk, leaves one that satisfies the global invariant and has no files; both allocations succeed |
| FileSystems.FileSystem.Create | NachOS-4.0/code/filesys/filesys.cc:174-214 | TRUE exactly when the name prefix is absent, a directory entry is free, and besides one free sector for the header the free ones can hold the size; then header, directory and map are on the disk; FALSE leaves the disk unchanged; the invariant is kept |
| FileSystems.FileSystem.Open | NachOS-4.0/code/filesys/filesys.cc:226-240 | a handle exactly for the names that exist, onto the bytes that the name stands for |
| FileSystems.FileSystem.Remove | NachOS-4.0/code/filesys/filesys.cc:280-310 | TRUE exactly when the name exists; then its entry is free, its header and data sectors are clear, nothing else of map and directory changes; the invariant is kept |
| FileSystemProofs.CreateKeepsInv | NachOS-4.0/code/filesys/filesys.cc:174-214 | exact, disjoint ownership of sectors and distinct names survive a create |
| FileSystemProofs.RemoveKeepsInv | NachOS-4.0/code/filesys/filesys.cc:280-310 | ... a remove |
| FileSystemProofs.WriteKeepsInv | NachOS-4.0/code/filesys/openfile.cc:163-202 | ... and a write through a handle, which can hit neither map, directory nor another file |
| FileSystemProofs.CreateOnFiles | NachOS-4.0/code/filesys/filesys.cc:174-214 | as a map from names to byte strings, a create adds one string of the wanted length and keeps all others |
| FileSystemProofs.RemoveOnFiles | NachOS-4.0/code/filesys/filesys.cc:280-310 | a remove drops one name and keeps all others |
| FileSystemProofs.WriteOnFiles | NachOS-4.0/code/filesys/openfile.cc:163-202 | a write splices into one string and keeps all others |
| FileSystems.OneAndTheRest | NachOS-4.0/code/filesys/filesys.cc:190-199 | the header's sector and then the data's are together the lowest free sectors |
| FileSystems.NameFound | NachOS-4.0/code/filesys/filesys.cc:280-305 | an entry in use is the only one of its name, and all its sectors are marked |
| FileSystemRuns.FreeSpace | NachOS-4.0/code/filesys/filesys.cc:60-67 | no sector is lost: the free sectors are the 1024 of the disk less the system's 5 and what the files take, each one header and just enough sectors for its bytes |
| FileSystemRuns.RoomByCount | NachOS-4.0/code/filesys/filesys.cc:66 | an entry is free exactly when there are fewer than ten files |
| FileSystemRuns.CanAddIsCanCreate | NachOS-4.0/code/filesys/filesys.cc:160-172 | when Create can succeed, said of names and sizes alone |
| FileSystemRuns.StepRefines | NachOS-4.0/code/filesys/filesys.cc:174-310 | each operation keeps the invariant, and does to the files what it does to a map with a bound on files and space |
| FileSystemRuns.RunRefines | NachOS-4.0/code/filesys/filesys.cc:81-310 | over every run of creates, removes, writes and reads on a formatted disk the invariant holds, and every event does to the files what it does to that map |
| FileSystemRuns.CreateThenRemove | NachOS-4.0/code/filesys/filesys.cc:174-310 | a create followed by the remove of the name restores the free map bit for bit |
| FileSystemRuns.CreateThenRemoveFiles | NachOS-4.0/code/filesys/filesys.cc:174-310 | ... and the files |
| FileSystemRuns.WriteFile | NachOS-4.0/code/filesys/filesys.cc:226-240 | opening a file and writing to it is the write step of a run, for every name, and every position and length that fit in the file of that name, if there is one |
| FileSystemRuns.ReadFile | NachOS-4.0/code/filesys/filesys.cc:226-240 | opening a file and reading from it is the read step of a run, for every name, position and length that fit |
| FileCopies.Copy | NachOS-4.0/code/threads/main.cc:77-116 | copying data in 128 bytes at a time, through Create, Open and Write: it succeeds exactly when a file of the length can be added, and then the files are those before with one more, whose bytes are the data; otherwise they are as before |
| FileCopies.Print | NachOS-4.0/code/threads/main.cc:125-143 | reading a file 128 bytes at a time until a read returns nothing prints exactly its bytes; so a file printed after its Copy is the data copied |
| FileCopies.Fill | NachOS-4.0/code/threads/main.cc:107-111 | the writes at the handle's own position, one after the other, leave all the data in the file and every other file as it was |
| FileCopies.CopyMore | NachOS-4.0/code/threads/main.cc:107-111 | one more piece, put in by a write step, takes the copy from its first n bytes to its first m |
| Arithmetic.Mult | NachOS-4.0/code/machine/mipssim.cc:771-828 | for all 32-bit operands hi and lo spell the exact 64-bit product, signed or unsigned, the most negative operand included |
| Arithmetic.MultUnsigned | NachOS-4.0/code/machine/mipssim.cc:793-814 | the shift-and-add loop, with its arithmetic right shift of the multiplier and its early exit, yields the unsigned product |
| Arithmetic.NextDigit | NachOS-4.0/code/machine/mipssim.cc:799-814 | one turn of the loop: no carry out of the double word is lost, and the digits done, the digits left and the partial product stay in step |
| Arithmetic.AddDouble | NachOS-4.0/code/machine/mipssim.cc:800-804 | adding two double words with the carry found by comparing is exact |
| Arithmetic.NegateDouble | NachOS-4.0/code/machine/mipssim.cc:816-824 | complementing both words and adding one with carry is the two's complement of the double word |
| Arithmetic.Add | NachOS-4.0/code/machine/mipssim.cc:157-165 | an overflow exception exactly when the sum does not fit; otherwise the exact sum |
| Arithmetic.AddImmediate | NachOS-4.0/code/machine/mipssim.cc:167-175 | the same for ADDI, whose test looks at other signs |
| Arithmetic.Sub | NachOS-4.0/code/machine/mipssim.cc:532-540 | an overflow exception exactly when the difference does not fit; otherwise the exact difference |
| Processors.Machine.Translate | NachOS-4.0/code/machine/translate.cc:180-246 | the physical address or the exception that table or TLB give; the entry used has its use bit, and its dirty bit exactly if it had it or the access is a write; no other entry and no other field changes, and nothing on an exception |
| Processors.BitsRecord | NachOS-4.0/code/machine/translate.cc:236-238 | after any accesses an entry is dirty exactly if it was at first or a write went through it, and used exactly if it was or any access did |
| Translations.Outcomes | NachOS-4.0/code/machine/translate.cc:189-245 | the exact outcome of every access, by alignment, table size, valid, read-only, page and frame: where in memory it gets, or which exception it raises |
| Translations.TranslatedInMemory | NachOS-4.0/code/machine/translate.cc:239-243 | every successful translation stays inside one page and inside the memory: the final assertion holds |
| Translations.TranslatedUnique | NachOS-4.0/code/machine/translate.cc:180-246 | an access has one outcome, also with a TLB that has several entries for a page |
| Translations.BitsDoNotMatter | NachOS-4.0/code/machine/translate.cc:236-238 | setting use and dirty bits changes no later translation |
| Processors.Machine.ReadMem | NachOS-4.0/code/machine/translate.cc:82-116 | reads 1, 2 or 4 bytes at the translated address, a byte with its sign spread and a half word with zeros above; or raises the exception with the address in BadVAddr |
| Processors.Machine.WriteMem | NachOS-4.0/code/machine/translate.cc:131-165 | stores the low 1, 2 or 4 bytes at the translated address and nothing else, or raises the exception |
| Processors.WriteMemIsAccess | NachOS-4.0/code/machine/translate.cc:131-165 | what WriteMem promises is a write of the address space whose table is loaded |
| Processors.ReadMemIsAccess | NachOS-4.0/code/machine/translate.cc:82-116 | what ReadMem promises is a read of that space, and its value the bytes found there |
| Processors.Machine.LoadWordLeft | NachOS-4.0/code/machine/mipssim.cc:312-362 | LWL: merges the aligned word into the pending or current value of the register, as a delayed load; or raises the exception |
| Processors.Machine.LoadWordRight | NachOS-4.0/code/machine/mipssim.cc:364-418 | LWR likewise |
| Processors.Machine.StoreWordLeft | NachOS-4.0/code/machine/mipssim.cc:552-609 | SWL: reads the aligned word, replaces bytes, and writes it back; or raises the exception and stores nothing |
| Processors.Machine.StoreWordRight | NachOS-4.0/code/machine/mipssim.cc:611-668 | SWR likewise |
| Processors.Machine.DelayedLoad | NachOS-4.0/code/machine/mipssim.cc:711-718 | the pending load is applied, the next one becomes pending, and register 0 stays zero |
| Processors.Machine.RaiseException | NachOS-4.0/code/machine/machine.cc:102-111 | BadVAddr has the address, the pending load is applied and none is pending, and the program counters stay |
| Machines.AfterLoad | NachOS-4.0/code/machine/mipssim.cc:692-702 | after a load, the program counters have moved on by one instruction, BadVAddr stays, and the load is pending |
| Unaligned.MergeLeftBytes | NachOS-4.0/code/machine/mipssim.cc:338-361 | what LWL's shifts and masks do, byte by byte |
| Unaligned.MergeRightBytes | NachOS-4.0/code/machine/mipssim.cc:390-416 | what LWR's do |
| Unaligned.StoreLeftBytes | NachOS-4.0/code/machine/mipssim.cc:579-597 | what SWL's do |
| Unaligned.StoreRightBytes | NachOS-4.0/code/machine/mipssim.cc:640-657 | what SWR's do |
| Processors.LoadUnaligned | NachOS-4.0/code/machine/mipssim.cc:312-418 | LWR extra(rs) and LWL extra+3(rs), carried out one after the other: they succeed exactly when both words can be read, and then the register, or the load pending to it, is the little-endian word at the address, whether or not an interrupt retires the first load between them |
| Machines.UnalignedLoad | NachOS-4.0/code/machine/mipssim.cc:312-418 | the bytes that the two merges bring together are the four at the address, whatever its alignment |
| Processors.StoreUnaligned | NachOS-4.0/code/machine/mipssim.cc:552-668 | SWR extra(rs) and SWL extra+3(rs), carried out one after the other: they succeed exactly when both words can be written, and then write exactly the four bytes at the address; those are the word that the register held before exactly when it agrees with the value after on the bytes that SWL writes, and the word held after exactly when they agree on the others |
| Machines.UnalignedStore | NachOS-4.0/code/machine/mipssim.cc:552-668 | the two stores change the four bytes at the address and no others: low bytes from the value that SWR finds in the register, high bytes from the value that SWL finds |
| Machines.WordWritten | NachOS-4.0/code/machine/mipssim.cc:579-657 | when the bytes of two values are one word: if and only if the values agree on the bytes that come from the other |
| Machines.PendingLoadTearsStore | NachOS-4.0/code/machine/mipssim.cc:552-668 | registers for which the store of one word fails: register 2 holds 0x11111111 with a load of 0x22222222 to it pending; for every memory and every address one past a multiple of 4, the pair leaves the bytes 11 11 11 22, neither value's |
| Processors.StoreWhilePending | NachOS-4.0/code/machine/mipssim.cc:552-668 | carried out on any machine with those registers and a mapping of the words: the memory holds 11 11 11 22 afterwards, and the register 0x22222222 |
| Processors.StoreThenLoad | NachOS-4.0/code/machine/mipssim.cc:312-668 | the four instructions carried out: the pair of loads yields the word that was in the register exactly when the pair of stores wrote one word, and so always if no load to it was pending |
| Machines.LoadPairValue | NachOS-4.0/code/machine/mipssim.cc:338-341 | LWL sees what LWR loaded, forwarded from the delay slot or already in the register |
| Machines.RetiredValue | NachOS-4.0/code/machine/mipssim.cc:711-718 | the value reaches the register itself when the load is retired |
| Machines.SecondAddress | NachOS-4.0/code/machine/mipssim.cc:312-418 | the second instruction of a pair sees the address three bytes above exactly when no load of another value to the base register was pending |
| AddrSpaces.AddrSpace.AllocateMemory | NachOS-4.0/code/userprog/addrspace.cc:83-102 | gives a space the lowest free frames, marked, distinct and filled with zeros, and touches no other frame |
| AddrSpaces.AddrSpace.Destroy | NachOS-4.0/code/userprog/addrspace.cc:109-114 | gives exactly the space's frames back |
| AddrSpaceSpec.TranslationInjective | NachOS-4.0/code/userprog/addrspace.cc:83-114 | two live bytes, of one space or of two, are in the same place only if they are the same byte |
| AddrSpaceSpec.TranslationInSpace | NachOS-4.0/code/machine/translate.cc:180-246 | an access goes through exactly when it is aligned and inside the space |
| AddrSpaceSpec.AccessRefines | NachOS-4.0/code/machine/translate.cc:82-165 | an access through one space acts on that space's own memory, and no read through another can tell |
| AddrSpaceSpec.OtherReadsKept | NachOS-4.0/code/machine/translate.cc:82-165 | a read through one space after a write through another finds what was there before |
| AddrSpaceSpec.AllocateRefines | NachOS-4.0/code/userprog/addrspace.cc:83-102 | an allocation adds a space of zeros and changes no other; frames stay disjoint and exactly marked |
| AddrSpaceSpec.DestroyRefines | NachOS-4.0/code/userprog/addrspace.cc:109-114 | a destruction takes one space away and changes no other |
| AddrSpaceSpec.RunRefines | NachOS-4.0/code/userprog/addrspace.cc:83-114 | over every run of allocations, destructions and accesses, spaces that share the memory behave as if each had its own |
| AddrSpaces.AddrSpace.LoadArguments | NachOS-4.0/code/userprog/addrspace.cc:220-262 | lays the strings and the pointer table out below the top of the space, apart from each other, changes no other byte, and leaves the stack pointer 8-aligned and below the table |
| AddrSpaces.AddrSpace.StoreWord | NachOS-4.0/code/userprog/addrspace.cc:247-257 | a pointer store, made as one store to physical memory, is a store at the virtual address: it crosses no page |
| Arguments.ArgumentsRoundTrip | NachOS-4.0/code/userprog/addrspace.cc:220-262 | following the pointers through the page table up to the NULL yields the original strings |
| AddrSpaces.TableFits | NachOS-4.0/code/userprog/addrspace.cc:83-93 | a table of distinct frames has at most as many pages as the memory |
| Lists.List.Append | NachOS-4.0/code/lib/list.cc:74-92 | the sequence grows by the item at its end |
| Lists.List.Prepend | NachOS-4.0/code/lib/list.cc:97-115 | ... or at its front |
| Lists.List.RemoveFront | NachOS-4.0/code/lib/list.cc:124-144 | returns and drops the first item |
| Lists.List.Remove | NachOS-4.0/code/lib/list.cc:150-178 | drops the item, and nothing else; it is then not in the list |
| Lists.List.IsInList | NachOS-4.0/code/lib/list.cc:186-198 | whether the item is in the sequence |
| Lists.List.Insert | NachOS-4.0/code/lib/list.cc:233-262 | puts the item before the first larger one |
| Lists.List.SanityCheck | NachOS-4.0/code/lib/list.cc:271-289 | no assertion of the check fails in a valid list |
| Lists.ListIterator.Next | NachOS-4.0/code/lib/list.h:121-137 | an iterator passes one element more |
| Lists.InsertedSorted | NachOS-4.0/code/lib/list.cc:233-262 | insertion keeps a sorted list sorted, with an item after its equals |
| Lists.InsertedElements | NachOS-4.0/code/lib/list.cc:233-262 | insertion loses nothing |
| HashTables.HashTable.constructor | NachOS-4.0/code/lib/hash.cc:29-60 | an empty table of four buckets |
| HashTables.HashTable.Insert | NachOS-4.0/code/lib/hash.cc:109-124 | the map gains the item under its key; the table first grows, to four times the buckets, exactly when it has three items a bucket; at most three items a bucket on average, always |
| HashTables.HashTable.ReHash | NachOS-4.0/code/lib/hash.cc:135-153 | four times the buckets, the same items, each in the bucket of its key |
| HashTables.HashTable.Find | NachOS-4.0/code/lib/hash.cc:192-198 | whether the key is in the map, and its item |
| HashTables.HashTable.Remove | NachOS-4.0/code/lib/hash.cc:209-224 | the map loses the key, and its item is returned |
| HashTables.HashTable.SanityCheck | NachOS-4.0/code/lib/hash.cc:271-289 | no assertion of the check fails, nor any of the lists' own checks |
| HashTables.MoveAll | NachOS-4.0/code/lib/hash.cc:143-148 | the loops of ReHash empty every old list into the new ones; no item is lost, and the two arrays of lists never share a node |
| Buckets.BucketArray.Append | NachOS-4.0/code/lib/hash.cc:120 | one list of the array grows at its end, and all the others are as they were: no two share a node |
| Buckets.BucketArray.RemoveFront | NachOS-4.0/code/lib/hash.cc:145 | one list loses its front, and all the others are as they were |
| Buckets.BucketArray.Remove | NachOS-4.0/code/lib/hash.cc:217 | one list loses an item, and all the others are as they were |
| Buckets.EachStillValid | NachOS-4.0/code/lib/hash.cc:120-217 | a change to one list damages no other |
| HashTables.MoveItem | NachOS-4.0/code/lib/hash.cc:143-148 | moving one item from its old bucket to its new one loses, repeats and misplaces nothing |
| HashTables.MissingKey | NachOS-4.0/code/lib/hash.cc:167-198 | a key that is not in its bucket is nowhere in the table |
| HashSpec.ItemsCount | NachOS-4.0/code/lib/hash.cc:271-289 | the bucket lengths add up to the number of items |
| HashSpec.AppendItem | NachOS-4.0/code/lib/hash.cc:120-121 | appending to the bucket of its key adds one item and keeps all placed |
| HashSpec.MapInsert | NachOS-4.0/code/lib/hash.cc:109-124 | adding an item with a new key to the table's items adds one entry to its map |
| HashSpec.MapRemove | NachOS-4.0/code/lib/hash.cc:209-224 | taking an item out takes one entry out |
| HashTables.HashIterator.Next | NachOS-4.0/code/lib/hash.cc:348-360 | one item further along the buckets, over empty ones |
| HashTables.Visit | NachOS-4.0/code/lib/hash.cc:332-360 | the loop over an iterator meets every item of an unmodified table, and none twice |
| HashSpec.FlatOnce | NachOS-4.0/code/lib/hash.cc:332-360 | the buckets one after another hold each item of the table once |
| Interrupts.Interrupt.OneTick | NachOS-4.0/code/machine/interrupt.cc:142-169 | in system mode 10 ticks pass and count as system time, otherwise one passes and counts as user time; then exactly what was due fires, at that time and in the order of the queue, and nothing is due any more; a yield is asked for exactly when a handler asked |
| Interrupts.Interrupt.SetLevel | NachOS-4.0/code/machine/interrupt.cc:120-132 | the old level is returned, and a tick of 10 or 1 passes exactly when interrupts go from off to on |
| Interrupts.Interrupt.Idle | NachOS-4.0/code/machine/interrupt.cc:198-215 | goes to the time of the next interrupt, which counts as idle, and fires exactly what is due then; halts exactly when none is pending |
| Interrupts.Interrupt.Schedule | NachOS-4.0/code/machine/interrupt.cc:249-260 | the interrupt is queued for the time asked for, after those not later; nothing becomes due |
| Interrupts.Interrupt.CheckIfDue | NachOS-4.0/code/machine/interrupt.cc:272-311 | the queue, the history and the clock are exactly what firing front after front leads to, whatever handlers schedule meanwhile; the loop ends |
| Clocks.HistoryIsSound | NachOS-4.0/code/machine/interrupt.cc:142-311 | over every run: each call of Schedule has had its interrupt fired, once, not before the time it asked for and less than a system tick after, or has it pending, once, with its time still ahead whenever nothing is due |
| Clocks.FiringOrder | NachOS-4.0/code/machine/interrupt.cc:142-311 | over every run: interrupts fire by the times asked for, and in the order of the calls for ties; total time is the sum of idle, system and user time |
| Clocks.HistoryKept | NachOS-4.0/code/machine/interrupt.cc:249-311 | over every run: no request and no firing is taken back, and each request is for the time of its call plus the delay |
| Clocks.TimeIsTicks | NachOS-4.0/code/machine/interrupt.cc:147-153 | over every run user time is the number of user ticks, system time ten times that of system ticks, and idle time all the rest |
| Clocks.HistoryIsSeen | NachOS-4.0/code/machine/interrupt.cc:249-311 | over every run the requests are those of the calls of Schedule, in order, and the firings those of the fronts of the queue at their times; a skip goes to the time of the front |
| Clocks.DrainedFires | NachOS-4.0/code/machine/interrupt.cc:302-308 | the handler loop fires all that is due, in the order of the queue, and nothing else; no time passes |
| Clocks.DueIsFront | NachOS-4.0/code/machine/interrupt.cc:302-308 | what is due is the front part of the queue, up to the first interrupt that is later |
| Clocks.HandledAsks | NachOS-4.0/code/machine/interrupt.cc:249-260 | a handler asks for the times of its delays from now, in turn |
| Clocks.AskedBySome | NachOS-4.0/code/machine/interrupt.cc:182-185 | a yield is due exactly when some handler of the loop asked for it |
| Clocks.ScheduleKeeps | NachOS-4.0/code/machine/interrupt.cc:249-260 | scheduling keeps queue and history in order, and every interrupt at the time asked for |
| Clocks.HandledDue | NachOS-4.0/code/machine/interrupt.cc:304 | a handler adds nothing to what is due, and takes no time |
| Clocks.ServedOneFewer | NachOS-4.0/code/machine/interrupt.cc:302-308 | one turn of the loop fires the front and leaves one interrupt fewer due |
| Clocks.FrontDecides | NachOS-4.0/code/machine/interrupt.cc:285-292 | nothing is due when the front of the queue is not |
| DiskLatency.DiskHead.ComputeLatency | NachOS-4.0/code/machine/disk.cc:229-250 | a read of a sector that the track buffer has taken in whole takes one rotation time; anything else starts at the first rotation slot of the sector at or after the end of the seek; every latency is at least 500 and below 32000 |
| DiskLatency.DiskHead.TimeToSeek | NachOS-4.0/code/machine/disk.cc:176-191 | 500 ticks for each track between, and from there the time to the next sector boundary |
| DiskLatency.StartMeans | NachOS-4.0/code/machine/disk.cc:199-206 | a transfer of a sector can start after any number of whole turns of the disk and the sectors before it on its track |
| DiskLatency.DiskHead.UpdateLast | NachOS-4.0/code/machine/disk.cc:258-268 | after a seek the track buffer starts at the next sector boundary: always a multiple of the rotation time |
| DiskLatency.FirstFromBoundary | NachOS-4.0/code/machine/disk.cc:199-206 | rounding up to a sector boundary and adding the modular distance gives the first start of the sector |
| DiskLatency.BufferTest | NachOS-4.0/code/machine/disk.cc:237-241 | the comparison holds exactly when the whole sector passed under the head since the buffer began to fill |
| Schedulers.Scheduler.P | NachOS-4.0/code/threads/synch.cc:71-87 | from the test of its loop: takes a unit, or queues the thread, which is on no list, and sleeps |
| Schedulers.Scheduler.V | NachOS-4.0/code/threads/synch.cc:95-108 | adds a unit, and makes the front of the queue ready, which is the oldest waiter (KernelSpec.WakesInOrder) |
| Schedulers.Scheduler.Fork | NachOS-4.0/code/threads/thread.cc:91-118 | the new thread goes to the end of the ready list |
| Schedulers.Scheduler.Yield | NachOS-4.0/code/threads/thread.cc:207-222 | the front of the ready list runs, and the thread goes to its end; nothing happens if the list is empty |
| Schedulers.Scheduler.Sleep | NachOS-4.0/code/threads/thread.cc:243-257 | dispatches the front of the ready list, or finds it empty |
| Schedulers.Scheduler.Run | NachOS-4.0/code/threads/scheduler.cc:103-134 | the next thread is current; a finishing one is marked for deletion, and no other was |
| Schedulers.Scheduler.AfterSwitch | NachOS-4.0/code/threads/scheduler.cc:136-150 | the finished thread, which is not the current one, is deleted; a thread woken inside P tests the value again |
| Schedulers.AssertionsHold | NachOS-4.0/code/threads/scheduler.cc:56-167 | the invariant implies every assertion of scheduler, semaphores and their lists |
| KernelSpec.StepKeeps | NachOS-4.0/code/threads/scheduler.cc:56-167 | every step keeps the invariant: one place for each thread that is not running, units accounted for, no wake-up lost |
| KernelSpec.SemaphoreSound | NachOS-4.0/code/threads/synch.cc:71-108 | in every reachable state value = initial + Vs - Ps, and while a thread is queued the value is at most the number of woken threads that have not finished P, barging included |
| KernelSpec.SemaphoreRefines | NachOS-4.0/code/threads/synch.cc:71-108 | what locks, conditions, the disk and the process table rest on: a P ends only by taking a unit and takes one if there is one, a V adds one, and no other step moves the value |
| KernelSpec.SemaphoreRun | NachOS-4.0/code/threads/synch.cc:71-108 | any run of the kernel, with any number of threads and other semaphores, is to each semaphore, from its making on, a run of the plain semaphore of Semaphores.Step: a number that a completed P takes one from, that a P finds zero when it has to sleep, that a V adds one to, and that nothing else moves |
| KernelSpec.SemaphoreStarts | NachOS-4.0/code/threads/synch.cc:47-51 | and that run begins at the value the semaphore was made with |
| Semaphores.UnitsConserved | NachOS-4.0/code/threads/synch.cc:71-108 | at every point of every run of a semaphore, its value and the Ps that have ended make up its first value and the Vs |
| KernelSpec.ReapSound | NachOS-4.0/code/threads/scheduler.cc:103-167 | in every reachable state toBeDestroyed is NULL whenever Run is called and never the current thread; each other live thread is on one list, once |
| KernelSpec.FirstComeFirstServed | NachOS-4.0/code/threads/scheduler.cc:75-86 | a thread at place p of the ready list is the one that dispatch p + 1 runs, in every run |
| KernelSpec.VWakes | NachOS-4.0/code/threads/synch.cc:95-108 | a V with waiters wakes exactly one, so units and woken threads keep pace |
| KernelSpec.WakesInOrder | NachOS-4.0/code/threads/synch.cc:77-108 | in every run the threads that a semaphore's Vs make ready are those that found no unit in P, in the order in which they did, and its queue is the rest of them |
| KernelSpec.StepSwitches | NachOS-4.0/code/threads/thread.cc:207-260 | after each event: which thread has the processor, and whether it runs, sleeps, finishes or has just been switched to |
| KernelSpec.StepThreads | NachOS-4.0/code/threads/scheduler.cc:56-167 | after each event: the ready list, the threads that exist, and the one to be deleted |
| KernelSpec.RunningIsNowhere | NachOS-4.0/code/threads/synch.cc:77-79 | the running thread is on no list, so no append repeats |
| MonitorSpec.MutualExclusion | NachOS-4.0/code/threads/synch.cc:164-188 | in every reachable state the lock's semaphore value and its owners make one, and lockHolder is NULL or the owner, also inside Acquire |
| MonitorSpec.SignalsInOrder | NachOS-4.0/code/threads/synch.cc:225-263 | in every reachable state signals went to the oldest waiters in turn, and each return from Wait used up one signal to that waiter |
| MonitorSpec.HistoryIsSteps | NachOS-4.0/code/threads/synch.cc:225-263 | the waiters, signals and returns that this speaks of are those of the steps, in the order in which they were made |
| MonitorSpec.BroadcastEnds | NachOS-4.0/code/threads/synch.cc:271-275 | Broadcast makes at most as many turns as there were waiters and signals them in order, whatever other threads do inside its Vs |
| MonitorSpec.QueueIsTheHolders | NachOS-4.0/code/threads/synch.cc:225-275 | while a thread holds the lock no other touches the queue of waiters |
| MonitorSpec.StepKeeps | NachOS-4.0/code/threads/synch.cc:164-263 | every step of Acquire, Release, Wait and Signal keeps the invariant |
| MonitorSpec.HolderIsNew | NachOS-4.0/code/threads/synch.cc:164-167 | lockHolder is NULL between the end of P and its assignment in Acquire |
| MonitorSpec.CallsInStep | NachOS-4.0/code/threads/synch.cc:164-263 | over every run, by counting the steps of each thread: every Acquire is matched by a Release but for the one under way, and every Wait that returned woke up once and took the lock again |
| MonitorSpec.LockRun | NachOS-4.0/code/threads/synch.cc:164-183 | over every run of the monitor the lock's semaphore starts at 1 and is such a run of the plain semaphore: acquiring and returning take from it, Release and Wait add |
| MonitorSpec.WaiterRun | NachOS-4.0/code/threads/synch.cc:225-263 | so is each waiter's own semaphore, from 0: the end of the wait takes, a signal to that waiter adds |
| SynchListSpec.NoStrandedConsumer | NachOS-4.0/code/threads/synchlist.cc:51-81 | when the lock is free and a consumer waits unsignalled, there are at most as many items as signalled consumers on their way |
| SynchListSpec.ItemsInOrder | NachOS-4.0/code/threads/synchlist.cc:51-81 | items come out in the order they went in, none lost, none twice |
| SynchListSpec.StepKeeps | NachOS-4.0/code/threads/synchlist.cc:51-81 | every step keeps all that |
| SynchListSpec.SignalSends | NachOS-4.0/code/threads/synch.cc:253-263 | a signal with waiters puts one more consumer on its way |
| SynchListSpec.CallsAreServed | NachOS-4.0/code/threads/synchlist.cc:51-81 | over every run a thread does what it called: each Append puts in the item it was given and signals once, each RemoveFront takes one out, and the items put in and taken out are those, in order |
| SynchListSpec.LockRun | NachOS-4.0/code/threads/synchlist.cc:51-81 | over every run of the synchronised list its lock's semaphore starts at 1 and is a run of the plain semaphore |
| SynchLists.SynchListMonitor.SetHolder | NachOS-4.0/code/threads/synch.cc:164-167 | the end of Acquire |
| SynchLists.SynchListMonitor.Release | NachOS-4.0/code/threads/synch.cc:180-184 | by its holder only: lockHolder is NULL, and the unit is back |
| SynchLists.SynchListMonitor.Wait | NachOS-4.0/code/threads/synch.cc:225-237 | the waiter is at the end of the queue, with a semaphore of value 0, and the lock is released |
| SynchLists.SynchListMonitor.Signal | NachOS-4.0/code/threads/synch.cc:253-263 | the oldest waiter is off the queue, with a unit in its semaphore |
| SynchLists.SynchListMonitor.Insert | NachOS-4.0/code/threads/synchlist.cc:56-57 | the item is at the end of the list |
| SynchLists.SynchListMonitor.Test | NachOS-4.0/code/threads/synchlist.cc:75-79 | waits on an empty list, and otherwise takes the front |
| SynchDiskSpec.NoOverlap | NachOS-4.0/code/filesys/synchdisk.cc:57-94 | in every reachable state a free lock means an idle disk, semaphore 0 and no interrupt to come; a request finds the disk idle |
| SynchDiskSpec.RequestFindsDiskIdle | NachOS-4.0/code/machine/disk.cc:113-156 | the !active assertions hold |
| SynchDiskSpec.CallsAreAtomic | NachOS-4.0/code/filesys/synchdisk.cc:57-82 | while the call that is to end is still inside the lock, the sector holds what it wrote or what it read: calls act one at a time |
| SynchDiskSpec.RunIsArray | NachOS-4.0/code/filesys/synchdisk.cc:57-82 | every run is a run of a plain array of sectors, in the order of the requests: the disk is the initial image with the operations that the threads had called applied, and every job is its thread's call |
| SynchDiskSpec.CallEnds | NachOS-4.0/code/filesys/synchdisk.cc:57-82 | a call ends as the operation that its thread started: a write's sector then holds the data it was called with, and a read's result is what the array held at its request, and still does |
| SynchDiskSpec.ImageFrame | NachOS-4.0/code/filesys/synchdisk.cc:75-82 | a sector changes only at the request of a write to it that was called, and to the data of that call |
| SynchDiskSpec.StepKeeps | NachOS-4.0/code/filesys/synchdisk.cc:57-94 | every step of callers and interrupts keeps the invariant |
| SynchDiskSpec.SemaphoreRun | NachOS-4.0/code/filesys/synchdisk.cc:57-94 | over every run the disk's semaphore, from 0, and its lock's, from 1, are runs of the plain semaphore: the interrupt adds, the end of a caller's wait takes |
| SynchDisks.SynchDiskDriver.ReadRequest | NachOS-4.0/code/machine/disk.cc:113-131 | the sector's data, an active disk and one more interrupt to come |
| SynchDisks.SynchDiskDriver.WriteRequest | NachOS-4.0/code/machine/disk.cc:133-151 | the sector holds the data, the disk is active, and one more interrupt is to come |
| SynchDisks.SynchDiskDriver.CallBack | NachOS-4.0/code/machine/disk.cc:158-163 | the disk is idle, and the semaphore has one more unit |
| ProcessTableSpec.JoinsAndExits | NachOS-4.0/code/threads/ptable.cc:23-79 | in every reachable state: at most one Join on a child has returned, and then its exit code is set; a parent's ExitReleases are its children past ExitWait and its semaphore's value; outside bmsem a pid is marked exactly when its PCB exists |
| ProcessTableSpec.PcbsAreTallied | NachOS-4.0/code/threads/pcb.cc:90-120 | over every run a PCB's exit code is the one that Exit was called with, and its numwait and counts are those of the calls made on it |
| ProcessTableSpec.CallsInStep | NachOS-4.0/code/threads/ptable.cc:23-79 | over every run, by counting the calls of each process: a Join that was let in waited, counted and released once; an Exit set its code, released, counted and waited once; an Exec started each process that it made |
| ProcessTableSpec.JoinsWait | NachOS-4.0/code/threads/ptable.cc:49-57 | over every run each Join on a child of the caller waits, once, for that child |
| ProcessTableSpec.StepKeeps | NachOS-4.0/code/threads/ptable.cc:23-79 | every step of Exec, Join and Exit keeps the invariant |
| ProcessTableSpec.OneThread | NachOS-4.0/code/threads/pcb.cc:23-37 | the guard in Exec never finds a name: a pid gets one thread |
| ProcessTableSpec.PassExitWaitKeeps | NachOS-4.0/code/threads/ptable.cc:62-79 | a child past ExitWait uses up one ExitRelease of its parent |
| ProcessTableSpec.SemaphoreRuns | NachOS-4.0/code/threads/pcb.cc:90-96 | over every run bmsem, from 1, and every process's joinsem and exitsem, from 0, are runs of the plain semaphore |
| ProcessTableSpec.AssertionsHold | NachOS-4.0/code/threads/ptable.cc:23-79 | in every reachable state, wherever a process stands, what its next call takes for granted is there: the PCBs that it names exist, with the parent it relies on, the pid is in the table, no name is set yet, and past JoinWait the child's exit code is set; so the requires of every method of PTable are met once a P has its unit |
| ProcessTables.PTable.FindAndSet | NachOS-4.0/code/lib/bitmap.cc:110-120 | the lowest free pid, or -1 |
| ProcessTables.PTable.CallJoin | NachOS-4.0/code/threads/ptable.cc:49-54 | refused exactly when there is no such child of the caller |
| ProcessTables.PTable.Exec | NachOS-4.0/code/threads/pcb.cc:23-37 | names the PCB and starts its process, or fails if it has a name |
| ProcessTables.PTable.MakePcb | NachOS-4.0/code/threads/ptable.cc:30 | the new PCB is in the table, with the caller as parent |
| ProcessTables.PTable.JoinRelease | NachOS-4.0/code/threads/ptable.cc:70 | the child's join semaphore has one more unit |

## Left out

- OpenFiles.OpenFile.WriteAt: a file's last sector beyond its length may receive anything, because the code's buffer is not cleared; so a write is a relation between disks, not a function.
- FileSystems.FileSystem.Create: sizes above 30 sectors and negative sizes, which the code does not check; the contents of a new file are whatever its sectors held.
- OpenFiles.OpenFile.ReadAt: negative positions, which the code does not check; a request that does not fit, after which the code reads sectors outside the file.
- Clocks.HistoryIsSound: ticks and times are unbounded; the code keeps them in ints of 32 bits, so nothing is claimed past 2^31 - 1 ticks.
- DiskLatency.DiskHead.ComputeLatency: the same of its times.
- FileCopies.Copy: the file outside is the sequence of its bytes, read 128 at a time; data longer than 30 sectors.
- Processors.LoadUnaligned: what happens at the other address when a load to the base register is pending before the pair; `Machines.SecondAddress` says exactly when that is.
- AddrSpaces.AddrSpace.AllocateMemory: fewer free frames than pages, which the code does not check.
- AddrSpaces.AddrSpace.LoadArguments: arguments that do not fit below the top of the space, which the code does not check.
- Processors.Machine.Translate: the page table is a value of the machine; that it is the same table as the address space's is said by `WriteMemIsAccess`, not by sharing.
- ProcessTableSpec.StepKeeps: pids outside the table, which JoinUpdate does not check; Exit by process 0, which is refused; each PCB's own mutex is modelled by making what it guards one step; Exec with arguments follows the same steps.
- Interrupts.Interrupt.OneTick: the context switch that a handler may ask for is left to the caller, as a result.
- KernelSpec.SemaphoreSound: liveness beyond first-come dispatch; semaphores are never deleted.
- HashTables.HashTable.ReHash: freeing the old lists; `Apply`.
- SynchListSpec.StepKeeps: an Append of an item that is in the list already, which the list's assertion forbids.
- Lists.List.Insert: SortedList is the same class here, with the comparison as an argument; freeing of nodes.
- SynchLists.SynchListMonitor.Wait: a waiter's semaphore is its value, kept by thread; its queue is never longer than one.
- The argument block is stated of the space's bytes as numbers; the memory itself is 8-bit vectors throughout.
- The read and write buffers of OpenFile, the bitmap file and the directory file are byte sequences, not memory; PersistentBitmap is a pair of operations on Bitmap.
- The instruction decoder, fetching, branches, the logical instructions and the division instructions: each is one line, or a table.
- Logical right shifts: the code shifts a signed value, so no claim is made.
- Loading the code and data segments of a program; the read-only segment's loop runs to its address, not its size.
- The stub file system, `Open(name, type)` and its slots, handles that outlive Remove, crashes in the middle of an operation.
- Console, network, sockets, system call handlers, the debugger, self-tests, printing, stacks and saved registers.
