/** The processor that carries out those accesses (machine/translate.cc, machine/mipssim.cc), its registers,
    memory and translation tables updated in place. */
module Processors {
  import opened Words
  import opened Translations
  import opened Unaligned
  import opened Machines
  import AddrSpaceSpec

  /** The mapping after an access: the entry that translated it is used, and dirty if it was or is written; nothing else
      changes, and nothing on a fault. */
  ghost predicate Accessed(m: Mapping, n: Mapping, addr: word, writing: bool, r: Translated) {
    && SameMapping(m, n)
    && (r.Fault? ==> n == m)
    && (r.Physical? ==>
          exists i ::
            && 0 <= i < |m.entries| && IsLookup(m, addr / 128, Found(i))
            && n.entries[i].use && (n.entries[i].dirty <==> m.entries[i].dirty || writing)
            && forall j :: 0 <= j < |m.entries| && j != i ==> n.entries[j] == m.entries[j])
  }

  // ---- what the bits record ----

  datatype Access = Access(addr: word, size: int, writing: bool, result: Translated)

  /** Accesses one after another, and the mappings between them. */
  ghost predicate AccessRun(mappings: seq<Mapping>, accesses: seq<Access>) {
    && |mappings| == |accesses| + 1
    && forall k :: 0 <= k < |accesses| ==>
         var a := accesses[k];
         && IsTranslated(mappings[k], a.addr, a.size, a.writing, a.result)
         && Accessed(mappings[k], mappings[k + 1], a.addr, a.writing, a.result)
  }

  /** Access k went through entry i. */
  ghost predicate WentThrough(m: Mapping, a: Access, i: nat) {
    a.result.Physical? && IsLookup(m, a.addr / 128, Found(i))
  }

  /** After any accesses an entry is dirty exactly if it was at first or a write went through it, and used exactly if it
      was at first or any access did. */
  lemma {:induction false} BitsRecord(mappings: seq<Mapping>, accesses: seq<Access>, i: nat, n: nat)
    requires AccessRun(mappings, accesses) && n <= |accesses| && i < |mappings[0].entries|
    ensures SameMapping(mappings[0], mappings[n])
    ensures mappings[n].entries[i].dirty <==>
      mappings[0].entries[i].dirty || exists k :: 0 <= k < n && accesses[k].writing && WentThrough(mappings[0], accesses[k], i)
    ensures mappings[n].entries[i].use <==>
      mappings[0].entries[i].use || exists k :: 0 <= k < n && WentThrough(mappings[0], accesses[k], i)
  {
    if n > 0 {
      BitsRecord(mappings, accesses, i, n - 1);
      SameMappingTwice(mappings[0], mappings[n - 1], mappings[n]);
      BitsAfter(mappings[n - 1], mappings[n], accesses[n - 1], i);
      SameLookup(mappings[0], mappings[n - 1], accesses[n - 1].addr / 128, Found(i));
    }
  }

  /** One access more. */
  lemma BitsAfter(m: Mapping, n: Mapping, a: Access, i: nat)
    requires Accessed(m, n, a.addr, a.writing, a.result) && i < |m.entries|
    ensures n.entries[i].dirty <==> m.entries[i].dirty || (a.writing && WentThrough(m, a, i))
    ensures n.entries[i].use <==> m.entries[i].use || WentThrough(m, a, i)
  {
    if a.result.Physical? {
      var e :| 0 <= e < |m.entries| && IsLookup(m, a.addr / 128, Found(e)) && n.entries[e].use
            && (n.entries[e].dirty <==> m.entries[e].dirty || a.writing)
            && forall j :: 0 <= j < |m.entries| && j != e ==> n.entries[j] == m.entries[j];
      if IsLookup(m, a.addr / 128, Found(i)) {
        LookupUnique(m, a.addr / 128, Found(e), Found(i));
      }
    }
  }

  /** The bits have no part in finding an entry. */
  lemma SameLookup(m: Mapping, n: Mapping, vpn: nat, l: Translations.Lookup)
    requires SameMapping(m, n)
    ensures IsLookup(m, vpn, l) <==> IsLookup(n, vpn, l)
  {
    forall i | 0 <= i < |m.entries|
      ensures m.entries[i].valid == n.entries[i].valid && Answers(m.entries[i], vpn) == Answers(n.entries[i], vpn)
    {
      assert SameBut(m.entries[i], n.entries[i]);
    }
  }

  // ---- accesses under an address space's page table ----

  lemma StoredIsSplice(mem: Memory, p: nat, size: int, value: bv32)
    requires size in {1, 2, 4} && p + size <= MEMORY_SIZE
    ensures Stored(mem, p, size, value) == Splice(mem, p, Bytes(value)[..size])
  {
    var bytes := Bytes(value)[..size];
    forall x | 0 <= x < MEMORY_SIZE
      ensures Stored(mem, p, size, value)[x] == Splice(mem, p, bytes)[x]
    {
      SpliceAt(mem, p, bytes, x);
    }
  }

  /** What WriteMem promises is an access of the space whose table is loaded. */
  lemma WriteMemIsAccess(s: AddrSpaceSpec.Shared<bv8>, id: nat, n: Mapping, mem: Memory, addr: word, size: int, value: bv32,
                         r: Translated)
    requires AddrSpaceSpec.Inv(s) && id in s.spaces && size in {1, 2, 4}
    requires IsTranslated(PageTable(s.spaces[id]), addr, size, true, r) && SameMapping(PageTable(s.spaces[id]), n)
    requires r.Physical? ==> r.addr + size <= MEMORY_SIZE && mem == Stored(s.mem, r.addr, size, value)
    requires r.Fault? ==> mem == s.mem
    ensures AddrSpaceSpec.AccessStep(s, AddrSpaceSpec.Shared(s.used, s.spaces[id := n.entries], mem), id, addr, true,
                                     Bytes(value)[..size], r)
  {
    if r.Physical? {
      StoredIsSplice(s.mem, r.addr, size, value);
    }
  }

  /** The bytes that a read finds. */
  function BytesRead(mem: Memory, size: int, r: Translated): (s: seq<bv8>)
    requires size in {1, 2, 4} && (r.Physical? ==> r.addr + size <= MEMORY_SIZE)
    ensures |s| == size
  {
    match r
    case Physical(p) => mem[p..p + size]
    case Fault(_) => seq(size, i => 0)
  }

  /** What ReadMem promises is an access of the space whose table is loaded, and its value those bytes. */
  lemma ReadMemIsAccess(s: AddrSpaceSpec.Shared<bv8>, id: nat, n: Mapping, addr: word, size: int, value: bv32, r: Translated)
    requires AddrSpaceSpec.Inv(s) && id in s.spaces && size in {1, 2, 4}
    requires IsTranslated(PageTable(s.spaces[id]), addr, size, false, r) && SameMapping(PageTable(s.spaces[id]), n)
    requires r.Physical? ==> r.addr + size <= MEMORY_SIZE && value == ValueAt(s.mem, r.addr, size)
    ensures AddrSpaceSpec.AccessStep(s, s.(spaces := s.spaces[id := n.entries]), id, addr, false, BytesRead(s.mem, size, r), r)
    ensures r.Physical? ==> Bytes(value)[..size] == BytesRead(s.mem, size, r)
  {
    if r.Physical? {
      ValueBytes(s.mem, r.addr, size);
    }
  }

  lemma ValueBytes(mem: Memory, p: nat, size: int)
    requires size in {1, 2, 4} && p + size <= MEMORY_SIZE
    ensures Bytes(ValueAt(mem, p, size)) == mem[p..p + size] + Extension(mem, p, size)
    ensures Bytes(ValueAt(mem, p, size))[..size] == mem[p..p + size]
  {
    var value := ValueAt(mem, p, size);
    if size == 1 {
      SignedByte(mem[p]);
      assert mem[p..p + 1] == [mem[p]];
    } else if size == 2 {
      WordOfBytes(mem[p], mem[p + 1], 0, 0);
      assert Bytes(value) == [mem[p], mem[p + 1], 0, 0];
      assert mem[p..p + 2] == [mem[p], mem[p + 1]];
    } else {
      WordAtBytes(mem, p);
    }
  }

  /** The upper bytes of a value that was read: a byte spreads its sign, a half word does not. */
  function Extension(mem: Memory, p: nat, size: int): (s: seq<bv8>)
    requires size in {1, 2, 4} && p + size <= MEMORY_SIZE
    ensures |s| == 4 - size
  {
    if size == 4 then [] else if size == 2 then [0, 0] else if mem[p] >= 0x80 then [0xff, 0xff, 0xff] else [0, 0, 0]
  }

  lemma SignedByte(b: bv8)
    ensures Bytes(if b & 0x80 != 0 then (b as bv32) | 0xffffff00 else b as bv32)
         == [b] + if b >= 0x80 then [0xff, 0xff, 0xff] else [0, 0, 0]
  {}

  lemma NotWritable(m: Mapping, addr: word)
    requires WordFault(m, addr, false)
    ensures WordFault(m, addr, true)
  {
    var which :| IsTranslated(m, addr - addr % 4, 4, false, Fault(which));
    UnreadableIsUnwritable(m, addr - addr % 4, 4, which);
  }

  /** A write translated by a mapping that differs in bits only goes where the read went. */
  lemma WrittenWhereRead(m: Mapping, n: Mapping, base: word, p: nat, r: Translated)
    requires SameMapping(m, n) && IsTranslated(m, base, 4, false, Physical(p)) && IsTranslated(n, base, 4, true, r)
    ensures IsTranslated(m, base, 4, true, r)
    ensures r.Physical? ==> r.addr == p
    ensures r.Fault? ==> IsTranslated(m, base, 4, true, Fault(r.which))
  {
    SameMappingReversed(m, n);
    BitsDoNotMatter(n, m, base, 4, true, r);
    if r.Physical? {
      WritableIsReadable(m, base, 4, r.addr);
      TranslatedUnique(m, base, 4, false, Physical(p), r);
    }
  }

  class Machine {
    var registers: Registers
    const mainMemory: array<bv8>
    var mapping: Mapping

    ghost predicate Valid() {
      mainMemory.Length == MEMORY_SIZE
    }

    ghost function Memory(): Memory
      requires Valid()
      reads mainMemory
    {
      mainMemory[..]
    }

    constructor (mapping: Mapping)
      ensures Valid() && fresh(mainMemory) && this.mapping == mapping
      ensures forall i :: 0 <= i < MEMORY_SIZE ==> mainMemory[i] == 0
      ensures registers == Registers(seq(NUM_GP_REGS, i => 0), 0, 0, 0, 0, 0, 0)
    {
      registers := Registers(seq(NUM_GP_REGS, i => 0), 0, 0, 0, 0, 0, 0);
      mainMemory := new bv8[MEMORY_SIZE](i => 0);
      this.mapping := mapping;
    }

    /** The entry for a page: the table's own, or the first in the TLB that answers. */
    method Lookup(vpn: nat) returns (l: Translations.Lookup)
      ensures IsLookup(mapping, vpn, l)
    {
      if mapping.PageTable? {
        if vpn >= |mapping.entries| {
          return Missing(AddressErrorException);
        } else if !mapping.entries[vpn].valid {
          return Missing(PageFaultException);
        }
        return Found(vpn);
      }
      var i := 0;
      while i < |mapping.entries|
        invariant 0 <= i <= |mapping.entries|
        invariant forall j :: 0 <= j < i ==> !Answers(mapping.entries[j], vpn)
      {
        if Answers(mapping.entries[i], vpn) {
          return Found(i);
        }
        i := i + 1;
      }
      return Missing(PageFaultException);
    }

    method Translate(virtAddr: word, size: int, writing: bool) returns (r: Translated)
      modifies this`mapping
      ensures IsTranslated(old(mapping), virtAddr, size, writing, r)
      ensures Accessed(old(mapping), mapping, virtAddr, writing, r)
    {
      if !Aligned(virtAddr, size) {
        return Fault(AddressErrorException);
      }
      var vpn, offset := virtAddr / 128, virtAddr % 128;
      var l := Lookup(vpn);
      if l.Missing? {
        return Fault(l.which);
      }
      var entry := mapping.entries[l.index];
      if entry.readOnly && writing {
        r := Fault(ReadOnlyException);
        assert IsEntryAccess(mapping, l, offset, writing, r);
        return;
      }
      if IntWord(entry.physicalPage) >= NUM_PHYS_PAGES {
        r := Fault(BusErrorException);
        assert IsEntryAccess(mapping, l, offset, writing, r);
        return;
      }
      r := Physical(entry.physicalPage * 128 + offset);
      assert IsEntryAccess(mapping, l, offset, writing, r);
      entry := entry.(use := true);
      if writing {
        entry := entry.(dirty := true);
      }
      mapping := mapping.(entries := mapping.entries[l.index := entry]);
    }

    /** The trap to the kernel, up to its handler. */
    method RaiseException(badVAddr: word)
      modifies this`registers
      ensures registers == Raised(old(registers), badVAddr)
      ensures registers.badVAddr == badVAddr && registers.loadReg == 0
      ensures registers.pc == old(registers).pc && registers.nextPc == old(registers).nextPc
      ensures registers.prevPc == old(registers).prevPc
      ensures registers.gp == old(registers).gp[old(registers).loadReg := old(registers).loadValue][0 := 0]
    {
      registers := registers.(badVAddr := badVAddr);
      DelayedLoad(0, 0);
    }

    method DelayedLoad(nextReg: nat, nextValue: bv32)
      requires nextReg < NUM_GP_REGS
      modifies this`registers
      ensures registers == Retire(old(registers), nextReg, nextValue)
      ensures registers.gp == old(registers).gp[old(registers).loadReg := old(registers).loadValue][0 := 0]
      ensures registers.loadReg == nextReg && registers.loadValue == nextValue
    {
      registers := registers.(gp := registers.gp[registers.loadReg := registers.loadValue]);
      registers := registers.(loadReg := nextReg);
      registers := registers.(loadValue := nextValue);
      registers := registers.(gp := registers.gp[0 := 0]);
    }

    method ReadMem(addr: word, size: int) returns (ghost r: Translated, ok: bool, value: bv32)
      requires Valid() && size in {1, 2, 4}
      modifies this`mapping, this`registers
      ensures IsTranslated(old(mapping), addr, size, false, r) && Accessed(old(mapping), mapping, addr, false, r)
      ensures ok <==> r.Physical?
      ensures ok ==> registers == old(registers) && r.addr + size <= MEMORY_SIZE && value == ValueAt(Memory(), r.addr, size)
      ensures ok ==> Bytes(value)[..size] == Memory()[r.addr..r.addr + size]
      ensures ok && size == 2 ==> Bytes(value)[2..] == [0, 0]
      ensures ok && size == 1 ==> Bytes(value)[1..] == if mainMemory[r.addr] >= 0x80 then [0xff, 0xff, 0xff] else [0, 0, 0]
      ensures !ok ==> registers == Raised(old(registers), addr) && registers.badVAddr == addr
    {
      hide ValueAt, Bytes;
      var t := Translate(addr, size, false);
      r := t;
      if t.Fault? {
        RaiseException(addr);
        return r, false, 0;
      }
      TranslatedInMemory(old(mapping), addr, size, false, t.addr);
      ok := true;
      value := ReadPhysical(t.addr, size);
    }

    /** The bytes in memory as a register holds them: a byte keeps its sign, a half word does not. */
    method ReadPhysical(p: nat, size: int) returns (value: bv32)
      requires Valid() && size in {1, 2, 4} && p + size <= MEMORY_SIZE
      ensures value == ValueAt(Memory(), p, size) && Bytes(value)[..size] == Memory()[p..p + size]
      ensures size == 2 ==> Bytes(value)[2..] == [0, 0]
      ensures size == 1 ==> Bytes(value)[1..] == if mainMemory[p] >= 0x80 then [0xff, 0xff, 0xff] else [0, 0, 0]
    {
      if size == 1 {
        var b := mainMemory[p];
        value := if b & 0x80 != 0 then (b as bv32) | 0xffffff00 else b as bv32;
      } else if size == 2 {
        value := WordOf(mainMemory[p], mainMemory[p + 1], 0, 0);
      } else {
        value := WordOf(mainMemory[p], mainMemory[p + 1], mainMemory[p + 2], mainMemory[p + 3]);
      }
      ValueBytes(Memory(), p, size);
    }

    method WriteMem(addr: word, size: int, value: bv32) returns (ghost r: Translated, ok: bool)
      requires Valid() && size in {1, 2, 4}
      modifies this`mapping, this`registers, mainMemory
      ensures IsTranslated(old(mapping), addr, size, true, r) && Accessed(old(mapping), mapping, addr, true, r)
      ensures ok <==> r.Physical?
      ensures ok ==> registers == old(registers) && r.addr + size <= MEMORY_SIZE && Memory() == Stored(old(Memory()), r.addr, size, value)
      ensures !ok ==> registers == Raised(old(registers), addr) && registers.badVAddr == addr && Memory() == old(Memory())
    {
      var t := Translate(addr, size, true);
      r := t;
      if t.Fault? {
        RaiseException(addr);
        return r, false;
      }
      TranslatedInMemory(old(mapping), addr, size, true, t.addr);
      ok := true;
      mainMemory[t.addr] := ByteOf(value, 0);
      if size == 2 {
        mainMemory[t.addr + 1] := ByteOf(value, 1);
      } else if size == 4 {
        mainMemory[t.addr + 1] := ByteOf(value, 1);
        mainMemory[t.addr + 2] := ByteOf(value, 2);
        mainMemory[t.addr + 3] := ByteOf(value, 3);
      }
    }

    /** The end of an instruction that succeeded. */
    method Finish(nextLoadReg: nat, nextLoadValue: bv32, pcAfter: bv32)
      requires nextLoadReg < NUM_GP_REGS
      modifies this`registers
      ensures registers == Advance(Retire(old(registers), nextLoadReg, nextLoadValue), pcAfter)
    {
      DelayedLoad(nextLoadReg, nextLoadValue);
      registers := registers.(prevPc := registers.pc);
      registers := registers.(pc := registers.nextPc);
      registers := registers.(nextPc := pcAfter);
    }

    /** LWL at the address in base register plus offset. */
    method LoadWordLeft(rt: nat, tmp: word) returns (ghost p: nat, ok: bool)
      requires Valid() && rt < NUM_GP_REGS
      modifies this`mapping, this`registers
      ensures SameMapping(old(mapping), mapping)
      ensures if ok
        then WordMapped(old(mapping), tmp, false, p) && p + 4 <= MEMORY_SIZE
          && registers == AfterLoad(old(registers), rt, MergeLeft(Pending(old(registers), rt), WordAt(Memory(), p), tmp % 4))
        else WordFault(old(mapping), tmp, false) && registers == Raised(old(registers), tmp - tmp % 4)
    {
      var pcAfter := registers.nextPc + 4;
      var value;
      p, ok, value := ReadWord(tmp);
      if ok {
        var nextLoadValue := if registers.loadReg == rt then registers.loadValue else registers.gp[rt];
        assert nextLoadValue == Pending(old(registers), rt);
        Finish(rt, MergeLeft(nextLoadValue, value, tmp % 4), pcAfter);
      }
    }

    /** LWR. */
    method LoadWordRight(rt: nat, tmp: word) returns (ghost p: nat, ok: bool)
      requires Valid() && rt < NUM_GP_REGS
      modifies this`mapping, this`registers
      ensures SameMapping(old(mapping), mapping)
      ensures if ok
        then WordMapped(old(mapping), tmp, false, p) && p + 4 <= MEMORY_SIZE
          && registers == AfterLoad(old(registers), rt, MergeRight(Pending(old(registers), rt), WordAt(Memory(), p), tmp % 4))
        else WordFault(old(mapping), tmp, false) && registers == Raised(old(registers), tmp - tmp % 4)
    {
      var pcAfter := registers.nextPc + 4;
      var value;
      p, ok, value := ReadWord(tmp);
      if ok {
        var nextLoadValue := if registers.loadReg == rt then registers.loadValue else registers.gp[rt];
        assert nextLoadValue == Pending(old(registers), rt);
        Finish(rt, MergeRight(nextLoadValue, value, tmp % 4), pcAfter);
      }
    }

    /** SWL: reads the word, puts the register's bytes into it, and writes it back. */
    method StoreWordLeft(rt: nat, tmp: word) returns (ghost p: nat, ok: bool)
      requires Valid() && rt < NUM_GP_REGS
      modifies this`mapping, this`registers, mainMemory
      ensures SameMapping(old(mapping), mapping)
      ensures if ok
        then WordMapped(old(mapping), tmp, true, p) && p + 4 <= MEMORY_SIZE
          && Memory() == Stored(old(Memory()), p, 4, StoreLeft(WordAt(old(Memory()), p), old(registers).gp[rt], tmp % 4))
          && registers == AfterStore(old(registers))
        else WordFault(old(mapping), tmp, true) && Memory() == old(Memory()) && registers == Raised(old(registers), tmp - tmp % 4)
    {
      var pcAfter := registers.nextPc + 4;
      var value;
      p, ok, value := ReadWord(tmp);
      if !ok {
        NotWritable(old(mapping), tmp);
        return;
      }
      ok := WriteBack(tmp, old(mapping), p, StoreLeft(value, registers.gp[rt], tmp % 4));
      if ok {
        Finish(0, 0, pcAfter);
      }
    }

    /** SWR. */
    method StoreWordRight(rt: nat, tmp: word) returns (ghost p: nat, ok: bool)
      requires Valid() && rt < NUM_GP_REGS
      modifies this`mapping, this`registers, mainMemory
      ensures SameMapping(old(mapping), mapping)
      ensures if ok
        then WordMapped(old(mapping), tmp, true, p) && p + 4 <= MEMORY_SIZE
          && Memory() == Stored(old(Memory()), p, 4, StoreRight(WordAt(old(Memory()), p), old(registers).gp[rt], tmp % 4))
          && registers == AfterStore(old(registers))
        else WordFault(old(mapping), tmp, true) && Memory() == old(Memory()) && registers == Raised(old(registers), tmp - tmp % 4)
    {
      var pcAfter := registers.nextPc + 4;
      var value;
      p, ok, value := ReadWord(tmp);
      if !ok {
        NotWritable(old(mapping), tmp);
        return;
      }
      ok := WriteBack(tmp, old(mapping), p, StoreRight(value, registers.gp[rt], tmp % 4));
      if ok {
        Finish(0, 0, pcAfter);
      }
    }

    /** The aligned read that all four make. */
    method ReadWord(tmp: word) returns (ghost p: nat, ok: bool, value: bv32)
      requires Valid()
      modifies this`mapping, this`registers
      ensures SameMapping(old(mapping), mapping)
      ensures if ok
        then WordMapped(old(mapping), tmp, false, p) && p + 4 <= MEMORY_SIZE && value == WordAt(Memory(), p)
          && registers == old(registers)
        else WordFault(old(mapping), tmp, false) && registers == Raised(old(registers), tmp - tmp % 4)
    {
      ghost var r;
      r, ok, value := ReadMem(tmp - tmp % 4, 4);
      p := if ok then r.addr else 0;
      if !ok {
        assert IsTranslated(old(mapping), tmp - tmp % 4, 4, false, Fault(r.which));
      }
    }

    /** The write of SWL and SWR: the word goes back where it was read. */
    method WriteBack(tmp: word, ghost m: Mapping, ghost p: nat, value: bv32) returns (ok: bool)
      requires Valid() && SameMapping(m, mapping) && WordMapped(m, tmp, false, p) && p + 4 <= MEMORY_SIZE
      modifies this`mapping, this`registers, mainMemory
      ensures SameMapping(m, mapping)
      ensures if ok
        then WordMapped(m, tmp, true, p) && Memory() == Stored(old(Memory()), p, 4, value) && registers == old(registers)
        else WordFault(m, tmp, true) && Memory() == old(Memory()) && registers == Raised(old(registers), tmp - tmp % 4)
    {
      ghost var r, before := Fault(BusErrorException), mapping;
      var base: word := tmp - tmp % 4;
      r, ok := WriteMem(base, 4, value);
      SameMappingTwice(m, before, mapping);
      WrittenWhereRead(m, before, base, p, r);
    }
  }

  // ---- the unaligned pairs ----

  lemma SameFaults(m: Mapping, n: Mapping, addr: word, writing: bool)
    requires SameMapping(m, n)
    ensures WordFault(n, addr, writing) <==> WordFault(m, addr, writing)
  {
    SameMappingReversed(m, n);
    if which :| IsTranslated(m, addr - addr % 4, 4, writing, Fault(which)) {
      BitsDoNotMatter(m, n, addr - addr % 4, 4, writing, Fault(which));
    }
    if which :| IsTranslated(n, addr - addr % 4, 4, writing, Fault(which)) {
      BitsDoNotMatter(n, m, addr - addr % 4, 4, writing, Fault(which));
    }
  }

  lemma MappedDoesNotFault(m: Mapping, addr: word, writing: bool, p: nat)
    requires WordMapped(m, addr, writing, p)
    ensures !WordFault(m, addr, writing)
  {
    if which :| IsTranslated(m, addr - addr % 4, 4, writing, Fault(which)) {
      TranslatedUnique(m, addr - addr % 4, 4, writing, Physical(p), Fault(which));
    }
  }

  /** Where an access under the bits set by an earlier one is. */
  lemma MappedBefore(m: Mapping, n: Mapping, addr: word, writing: bool, p: nat)
    requires SameMapping(m, n) && WordMapped(n, addr, writing, p)
    ensures WordMapped(m, addr, writing, p) && !WordFault(m, addr, writing)
  {
    SameMappingReversed(m, n);
    BitsDoNotMatter(n, m, addr - addr % 4, 4, writing, Physical(p));
    MappedDoesNotFault(m, addr, writing, p);
  }

  /** LWR rt, extra(rs) and then LWL rt, extra+3(rs), with or without an interrupt between the two. */
  method LoadUnaligned(machine: Machine, rs: nat, extra: int, rt: nat, interrupted: bool) returns (ok: bool)
    requires machine.Valid() && rs < NUM_GP_REGS && 0 < rt < NUM_GP_REGS && rs != rt
    modifies machine`mapping, machine`registers
    ensures SameMapping(old(machine.mapping), machine.mapping)
    ensures Settled(old(machine.registers), rs) ==>
      var addr := AddressOf(old(machine.registers).gp[rs], extra);
      && (ok <==> BothMapped(old(machine.mapping), addr, false))
      && (ok ==> Spells(old(machine.mapping), machine.Memory(), addr, Pending(machine.registers, rt)))
  {
    ghost var r, m := machine.registers, machine.mapping;
    SecondAddress(r, rs, extra);
    var addr := AddressOf(machine.registers.gp[rs], extra);
    ghost var p, q;
    p, ok := machine.LoadWordRight(rt, addr);
    if !ok {
      return;
    }
    MappedDoesNotFault(m, addr, false, p);
    if interrupted {
      machine.DelayedLoad(0, 0);
    }
    BaseKept(r, rs, rt, MergeRight(Pending(r, rt), WordAt(machine.Memory(), p), addr % 4), interrupted);
    var next := AddressOf(machine.registers.gp[rs], extra + 3);
    q, ok := SecondLoad(machine, m, rt, next);
    if ok && Settled(r, rs) {
      UnalignedLoad(m, r, machine.Memory(), rt, addr, p, q, interrupted);
    }
  }

  /** LWL, with its promise in terms of an earlier mapping. */
  method SecondLoad(machine: Machine, ghost m: Mapping, rt: nat, next: word) returns (ghost q: nat, ok: bool)
    requires machine.Valid() && rt < NUM_GP_REGS && SameMapping(m, machine.mapping)
    modifies machine`mapping, machine`registers
    ensures SameMapping(m, machine.mapping)
    ensures if ok
      then WordMapped(m, next, false, q) && !WordFault(m, next, false) && q + 4 <= MEMORY_SIZE
        && machine.registers
           == AfterLoad(old(machine.registers), rt, MergeLeft(Pending(old(machine.registers), rt), WordAt(machine.Memory(), q), next % 4))
      else WordFault(m, next, false)
  {
    ghost var between := machine.mapping;
    q, ok := machine.LoadWordLeft(rt, next);
    SameMappingTwice(m, between, machine.mapping);
    SameFaults(m, between, next, false);
    if ok {
      MappedBefore(m, between, next, false, q);
    }
  }

  /** SWR rt, extra(rs) and then SWL rt, extra+3(rs), with or without an interrupt between the two. They write
      exactly the four bytes at the address; and those are one word, the register's, unless a load to it was
      pending: then they are so exactly if old and new value agree on the bytes that come from the other. */
  method StoreUnaligned(machine: Machine, rs: nat, extra: int, rt: nat, interrupted: bool)
    returns (ghost p: nat, ghost q: nat, ok: bool)
    requires machine.Valid() && rs < NUM_GP_REGS && rt < NUM_GP_REGS
    modifies machine`mapping, machine`registers, machine.mainMemory
    ensures SameMapping(old(machine.mapping), machine.mapping)
    ensures ok ==> machine.registers.gp == Retire(old(machine.registers), 0, 0).gp && machine.registers.loadReg == 0
    ensures Settled(old(machine.registers), rs) ==>
      var addr := AddressOf(old(machine.registers).gp[rs], extra);
      var first, second := old(machine.registers).gp[rt], NextValue(old(machine.registers), rt);
      && (ok <==> BothMapped(old(machine.mapping), addr, true))
      && (ok ==> PairWritten(old(machine.mapping), old(machine.Memory()), machine.Memory(), first, second, addr, p, q))
  {
    ghost var r, m, mem := machine.registers, machine.mapping, machine.Memory();
    q := 0;
    SecondAddress(r, rs, extra);
    var addr := AddressOf(machine.registers.gp[rs], extra);
    p, ok := FirstStore(machine, rt, addr, interrupted);
    if !ok {
      return;
    }
    ghost var mem1 := machine.Memory();
    var next := AddressOf(machine.registers.gp[rs], extra + 3);
    q, ok := SecondStore(machine, m, rt, next);
    if ok && Settled(r, rs) {
      PairStored(m, mem, mem1, machine.Memory(), r.gp[rt], NextValue(r, rt), addr, p, q);
    }
  }

  /** The pair on a machine where a load to the stored register is pending: the word in memory is neither value. */
  method StoreWhilePending(machine: Machine, extra: int) returns (ghost p: nat, ghost q: nat)
    requires machine.Valid() && machine.registers == TornRegisters()
    requires AddressOf(0, extra) % 4 == 1 && BothMapped(machine.mapping, AddressOf(0, extra), true)
    modifies machine`mapping, machine`registers, machine.mainMemory
    ensures machine.registers.gp[2] == 0x22222222
    ensures p + 4 <= MEMORY_SIZE && q + 4 <= MEMORY_SIZE
    ensures WrittenAt(old(machine.Memory()), machine.Memory(), [0x11, 0x11, 0x11, 0x22], 1, p, q)
    ensures !WrittenAt(old(machine.Memory()), machine.Memory(), Bytes(0x11111111), 1, p, q)
    ensures !WrittenAt(old(machine.Memory()), machine.Memory(), Bytes(0x22222222), 1, p, q)
  {
    ghost var mem := machine.Memory();
    var ok;
    p, q, ok := StoreUnaligned(machine, 0, extra, 2, false);
    TornBytes();
    TornIsNeither(mem, machine.Memory(), p, q);
  }

  /** SWR, and perhaps an interrupt: either way no load is pending then. */
  method FirstStore(machine: Machine, rt: nat, addr: word, interrupted: bool) returns (ghost p: nat, ok: bool)
    requires machine.Valid() && rt < NUM_GP_REGS
    modifies machine`mapping, machine`registers, machine.mainMemory
    ensures SameMapping(old(machine.mapping), machine.mapping)
    ensures if ok
      then WordMapped(old(machine.mapping), addr, true, p) && !WordFault(old(machine.mapping), addr, true) && p + 4 <= MEMORY_SIZE
        && machine.Memory()
           == Stored(old(machine.Memory()), p, 4, StoreRight(WordAt(old(machine.Memory()), p), old(machine.registers).gp[rt], addr % 4))
        && machine.registers.gp == Retire(old(machine.registers), 0, 0).gp && machine.registers.loadReg == 0
        && Retire(machine.registers, 0, 0).gp == machine.registers.gp
      else WordFault(old(machine.mapping), addr, true)
  {
    ghost var r, m := machine.registers, machine.mapping;
    p, ok := machine.StoreWordRight(rt, addr);
    if ok {
      MappedDoesNotFault(m, addr, true, p);
      if interrupted {
        machine.DelayedLoad(0, 0);
      }
      FirstStoreRetires(r, interrupted);
    }
  }

  /** SWL, with its promise in terms of an earlier mapping. */
  method SecondStore(machine: Machine, ghost m: Mapping, rt: nat, next: word) returns (ghost q: nat, ok: bool)
    requires machine.Valid() && rt < NUM_GP_REGS && SameMapping(m, machine.mapping)
    modifies machine`mapping, machine`registers, machine.mainMemory
    ensures SameMapping(m, machine.mapping)
    ensures if ok
      then WordMapped(m, next, true, q) && !WordFault(m, next, true) && q + 4 <= MEMORY_SIZE
        && machine.Memory()
           == Stored(old(machine.Memory()), q, 4, StoreLeft(WordAt(old(machine.Memory()), q), old(machine.registers).gp[rt], next % 4))
        && machine.registers.gp == Retire(old(machine.registers), 0, 0).gp && machine.registers.loadReg == 0
      else WordFault(m, next, true)
  {
    ghost var between := machine.mapping;
    q, ok := machine.StoreWordLeft(rt, next);
    SameMappingTwice(m, between, machine.mapping);
    SameFaults(m, between, next, true);
    if ok {
      MappedBefore(m, between, next, true, q);
    }
  }

  /** What the pair of stores wrote, the pair of loads finds: the register's word, exactly when one word was written. */
  method StoreThenLoad(machine: Machine, rs: nat, extra: int, rt: nat, rd: nat, interrupted: bool, interruptedAgain: bool)
    returns (ok: bool)
    requires machine.Valid() && rs < NUM_GP_REGS && rt < NUM_GP_REGS && 0 < rd < NUM_GP_REGS && rs != rd
    requires Settled(machine.registers, rs)
    modifies machine`mapping, machine`registers, machine.mainMemory
    ensures ok <==> BothMapped(old(machine.mapping), AddressOf(old(machine.registers).gp[rs], extra), true)
    ensures ok ==>
      var first, second := old(machine.registers).gp[rt], NextValue(old(machine.registers), rt);
      var boundary := Boundary(AddressOf(old(machine.registers).gp[rs], extra) % 4);
      && (Pending(machine.registers, rd) == first <==> SameHigh(first, second, boundary))
      && (Pending(machine.registers, rd) == second <==> SameLow(first, second, boundary))
      && (Settled(old(machine.registers), rt) ==> Pending(machine.registers, rd) == first)
  {
    ghost var r, m, mem := machine.registers, machine.mapping, machine.Memory();
    ghost var addr := AddressOf(r.gp[rs], extra);
    ghost var p, q;
    p, q, ok := StoreUnaligned(machine, rs, extra, rt, interrupted);
    if !ok {
      return;
    }
    SettledValue(r, rs);
    SettledValue(r, rt);
    ghost var between := machine.mapping;
    BothReadable(m, between, addr);
    ok := LoadUnaligned(machine, rs, extra, rd, interruptedAgain);
    SpelledBefore(m, between, machine.Memory(), addr, Pending(machine.registers, rd));
    RoundTrip(m, mem, machine.Memory(), addr, p, q, r.gp[rt], NextValue(r, rt), Pending(machine.registers, rd));
  }

  lemma BothReadable(m: Mapping, n: Mapping, addr: word)
    requires SameMapping(m, n) && BothMapped(m, addr, true)
    ensures BothMapped(n, addr, false)
  {
    SameFaults(m, n, addr, false);
    SameFaults(m, n, AddressPlus(addr, 3), false);
    if WordFault(m, addr, false) {
      NotWritable(m, addr);
    }
    if WordFault(m, AddressPlus(addr, 3), false) {
      NotWritable(m, AddressPlus(addr, 3));
    }
  }
}
