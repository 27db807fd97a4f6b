/** The simulated processor's memory accesses (machine/translate.cc, machine/mipssim.cc): loads with their
    delay slot, and the unaligned pairs. */
module Machines {
  import opened Words
  import opened Translations
  import opened Unaligned

  const NUM_GP_REGS := 32

  /** The registers that loads and stores touch. */
  datatype RegisterFile = Registers(gp: seq<bv32>, pc: bv32, nextPc: bv32, prevPc: bv32,
                                    loadReg: nat, loadValue: bv32, badVAddr: word)

  type Registers = r: RegisterFile | |r.gp| == NUM_GP_REGS && r.loadReg < NUM_GP_REGS
    witness Registers(seq<bv32>(NUM_GP_REGS, i => 0), 0, 0, 0, 0, 0, 0)

  type Memory = m: seq<bv8> | |m| == MEMORY_SIZE witness seq<bv8>(MEMORY_SIZE, i => 0)

  // ---- the delay slot ----

  /** DelayedLoad: the pending load is applied, and the next one becomes pending. */
  function Retire(r: Registers, nextReg: nat, nextValue: bv32): (after: Registers)
    requires nextReg < NUM_GP_REGS
    ensures after.gp[0] == 0 && after.loadReg == nextReg && after.loadValue == nextValue
    ensures forall reg :: 0 < reg < NUM_GP_REGS ==> after.gp[reg] == if reg == r.loadReg then r.loadValue else r.gp[reg]
  {
    r.(gp := r.gp[r.loadReg := r.loadValue][0 := 0], loadReg := nextReg, loadValue := nextValue)
  }

  /** The end of an instruction. */
  function Advance(r: Registers, pcAfter: bv32): Registers {
    r.(prevPc := r.pc, pc := r.nextPc, nextPc := pcAfter)
  }

  /** The value that LWL and LWR start from: the pending one, if it is for the same register. */
  function Pending(r: Registers, rt: nat): bv32
    requires rt < NUM_GP_REGS
  {
    if r.loadReg == rt then r.loadValue else r.gp[rt]
  }

  /** On to the next instruction, or to the target of the branch before. */
  predicate NextInstruction(before: Registers, after: Registers) {
    && after.prevPc == before.pc && after.pc == before.nextPc && after.nextPc == before.nextPc + 4
    && after.badVAddr == before.badVAddr
  }

  /** The instruction is still to be done, and the address that it could not get at is known. */
  predicate SameInstruction(before: Registers, after: Registers, badVAddr: word) {
    && after.prevPc == before.prevPc && after.pc == before.pc && after.nextPc == before.nextPc
    && after.badVAddr == badVAddr
  }

  /** The registers after a load into rt. */
  function AfterLoad(r: Registers, rt: nat, value: bv32): (after: Registers)
    requires rt < NUM_GP_REGS
    ensures NextInstruction(r, after) && after.loadReg == rt && after.loadValue == value
  {
    Advance(Retire(r, rt, value), r.nextPc + 4)
  }

  function AfterStore(r: Registers): (after: Registers)
    ensures NextInstruction(r, after) && after.loadReg == 0
  {
    Advance(Retire(r, 0, 0), r.nextPc + 4)
  }

  /** The registers when an exception reaches the kernel. */
  function Raised(r: Registers, badVAddr: word): (after: Registers)
    ensures SameInstruction(r, after, badVAddr) && after.loadReg == 0
  {
    Retire(r.(badVAddr := badVAddr), 0, 0)
  }

  // ---- memory ----

  function WordAt(mem: Memory, p: nat): bv32
    requires p + 4 <= MEMORY_SIZE
  {
    WordOf(mem[p], mem[p + 1], mem[p + 2], mem[p + 3])
  }

  /** What a read of 1, 2 or 4 bytes yields; a byte is a signed char. */
  function ValueAt(mem: Memory, p: nat, size: int): bv32
    requires size in {1, 2, 4} && p + size <= MEMORY_SIZE
  {
    if size == 1 then (if mem[p] & 0x80 != 0 then (mem[p] as bv32) | 0xffffff00 else mem[p] as bv32)
    else if size == 2 then WordOf(mem[p], mem[p + 1], 0, 0)
    else WordAt(mem, p)
  }

  /** The memory after the low bytes of a value are stored. */
  function Stored(mem: Memory, p: nat, size: int, value: bv32): Memory
    requires size in {1, 2, 4} && p + size <= MEMORY_SIZE
  {
    if size == 1 then mem[p := ByteOf(value, 0)]
    else if size == 2 then mem[p := ByteOf(value, 0)][p + 1 := ByteOf(value, 1)]
    else mem[p := ByteOf(value, 0)][p + 1 := ByteOf(value, 1)][p + 2 := ByteOf(value, 2)][p + 3 := ByteOf(value, 3)]
  }

  lemma WordAtBytes(mem: Memory, p: nat)
    requires p + 4 <= MEMORY_SIZE
    ensures Bytes(WordAt(mem, p)) == mem[p..p + 4]
  {
    WordOfBytes(mem[p], mem[p + 1], mem[p + 2], mem[p + 3]);
  }

  lemma StoredBytes(mem: Memory, p: nat, w: bv32)
    requires p + 4 <= MEMORY_SIZE
    ensures Stored(mem, p, 4, w) == mem[..p] + Bytes(w) + mem[p + 4..]
  {}

  // ---- where the four bytes at an address are ----

  function AddressPlus(addr: word, k: nat): word {
    (addr + k) % 0x1_0000_0000
  }

  /** The aligned word around an address is at p. */
  ghost predicate WordMapped(m: Mapping, addr: word, writing: bool, p: nat) {
    IsTranslated(m, addr - addr % 4, 4, writing, Physical(p))
  }

  /** It cannot be read, or written. */
  ghost predicate WordFault(m: Mapping, addr: word, writing: bool) {
    exists which :: IsTranslated(m, addr - addr % 4, 4, writing, Fault(which))
  }

  /** The two words around the four bytes at an address can be read, or written. */
  ghost predicate BothMapped(m: Mapping, addr: word, writing: bool) {
    !WordFault(m, addr, writing) && !WordFault(m, AddressPlus(addr, 3), writing)
  }

  /** From the address up to the end of its word, and on in the next word. */
  function Place(byte: nat, p: nat, q: nat, k: nat): nat
    requires byte < 4
  {
    if byte + k < 4 then p + byte + k else q + (byte + k - 4)
  }

  /** The four bytes from an address on, aligned or not, are at these places; those are distinct. */
  ghost predicate Located(m: Mapping, addr: word, writing: bool, byte: nat, p: nat, q: nat)
    requires byte < 4
  {
    && p + 4 <= MEMORY_SIZE && q + 4 <= MEMORY_SIZE
    && (if byte == 0 then p == q else p + 4 <= q || q + 4 <= p)
    && forall k :: 0 <= k < 4 ==> IsTranslated(m, AddressPlus(addr, k), 1, writing, Physical(Place(byte, p, q, k)))
  }

  /** The word around the last of the four bytes: the same as around the first, or the next one. */
  lemma WordAbove(addr: word, base: word, next: word, byte: nat)
    requires byte == addr % 4 && base == addr - byte && next == (base + 4) % 0x1_0000_0000
    ensures AddressPlus(addr, 3) - AddressPlus(addr, 3) % 4 == if byte == 0 then base else next
    ensures addr == base + byte && base % 4 == 0
  {
    AboveIn(base, byte);
  }

  lemma AboveIn(base: word, byte: nat)
    requires base % 4 == 0 && byte < 4
    ensures base + byte + 3 < 0x1_0000_0000 ==> (base + byte + 3) % 4 == (byte + 3) % 4
    ensures base + byte + 3 >= 0x1_0000_0000 ==> base + 4 == 0x1_0000_0000
  {}

  lemma NextOffset(base: word)
    requires base % 4 == 0
    ensures ((base + 4) % 0x1_0000_0000) % 128 == (base % 128 + 4) % 128 != base % 128
  {}

  lemma AlignedPlace(base: word, p: nat)
    requires base % 4 == 0 && p % 128 == base % 128
    ensures p % 4 == 0
  {
    var t := base / 4 - 32 * (base / 128);
    assert base % 128 == 4 * t;
    assert p == 4 * (32 * (p / 128) + t);
  }

  lemma WordsApart(m: Mapping, base: word, next: word, writing: bool, p: nat, q: nat)
    requires base % 4 == 0 && next == (base + 4) % 0x1_0000_0000
    requires IsTranslated(m, base, 4, writing, Physical(p)) && IsTranslated(m, next, 4, writing, Physical(q))
    ensures p + 4 <= MEMORY_SIZE && q + 4 <= MEMORY_SIZE && (p + 4 <= q || q + 4 <= p)
  {
    TranslatedInMemory(m, base, 4, writing, p);
    TranslatedInMemory(m, next, 4, writing, q);
    NextOffset(base);
    AlignedPlace(base, p);
    AlignedPlace(next, q);
  }

  lemma NextByte(base: word, byte: nat, k: nat)
    requires base % 4 == 0 && byte < 4 && k < 4 && base + byte < 0x1_0000_0000
    ensures AddressPlus(base + byte, k) ==
            if byte + k < 4 then base + byte + k else (base + 4) % 0x1_0000_0000 + (byte + k - 4)
  {}

  lemma BytesLocated(m: Mapping, addr: word, writing: bool, p: nat, q: nat)
    requires WordMapped(m, addr, writing, p) && WordMapped(m, AddressPlus(addr, 3), writing, q)
    ensures Located(m, addr, writing, addr % 4, p, q)
  {
    var byte: nat := addr % 4;
    var base: word := addr - byte;
    var next: word := (base + 4) % 0x1_0000_0000;
    WordAbove(addr, base, next, byte);
    SameOrNext(m, base, next, byte, writing, p, q);
    forall k | 0 <= k < 4
      ensures IsTranslated(m, AddressPlus(addr, k), 1, writing, Physical(Place(byte, p, q, k)))
    {
      ByteLocated(m, base, next, byte, writing, p, q, k);
    }
  }

  lemma SameOrNext(m: Mapping, base: word, next: word, byte: nat, writing: bool, p: nat, q: nat)
    requires base % 4 == 0 && next == (base + 4) % 0x1_0000_0000 && byte < 4
    requires IsTranslated(m, base, 4, writing, Physical(p))
    requires IsTranslated(m, if byte == 0 then base else next, 4, writing, Physical(q))
    ensures p + 4 <= MEMORY_SIZE && q + 4 <= MEMORY_SIZE
    ensures if byte == 0 then p == q else p + 4 <= q || q + 4 <= p
  {
    if byte == 0 {
      TranslatedUnique(m, base, 4, writing, Physical(p), Physical(q));
      TranslatedInMemory(m, base, 4, writing, p);
    } else {
      WordsApart(m, base, next, writing, p, q);
    }
  }

  lemma ByteLocated(m: Mapping, base: word, next: word, byte: nat, writing: bool, p: nat, q: nat, k: nat)
    requires base % 4 == 0 && next == (base + 4) % 0x1_0000_0000 && byte < 4 && k < 4 && base + byte < 0x1_0000_0000
    requires IsTranslated(m, base, 4, writing, Physical(p))
    requires byte > 0 ==> IsTranslated(m, next, 4, writing, Physical(q))
    ensures IsTranslated(m, AddressPlus(base + byte, k), 1, writing, Physical(Place(byte, p, q, k)))
  {
    if byte + k < 4 {
      InWord(m, base, AddressPlus(base + byte, k), writing, p, byte + k) by {
        NextByte(base, byte, k);
      }
    } else {
      InWord(m, next, AddressPlus(base + byte, k), writing, q, byte + k - 4) by {
        NextByte(base, byte, k);
      }
    }
  }

  lemma InWord(m: Mapping, base: word, addr: word, writing: bool, p: nat, j: nat)
    requires base % 4 == 0 && j < 4 && addr == base + j && IsTranslated(m, base, 4, writing, Physical(p))
    ensures IsTranslated(m, addr, 1, writing, Physical(p + j))
  {
    Translations.BytesOfWord(m, base, writing, p, j);
  }

  /** The address is mapped to a byte of that value. */
  ghost predicate MapsTo(m: Mapping, mem: Memory, addr: word, b: bv8) {
    exists p :: 0 <= p < MEMORY_SIZE && IsTranslated(m, addr, 1, false, Physical(p)) && mem[p] == b
  }

  /** The four bytes from an address on, aligned or not, spell the word. */
  ghost predicate Spells(m: Mapping, mem: Memory, addr: word, w: bv32) {
    forall k :: 0 <= k < 4 ==> MapsTo(m, mem, AddressPlus(addr, k), Bytes(w)[k])
  }

  // ---- the unaligned load ----

  /** Where the second instruction of a pair stands in its word, given where the first does. */
  function TopByte(byte: nat): nat
    requires byte < 4
  {
    if byte == 0 then 3 else byte - 1
  }

  lemma TopOf(addr: word)
    ensures AddressPlus(addr, 3) % 4 == TopByte(addr % 4)
  {}

  /** The registers after LWR at an address, then perhaps an interrupt, then LWL three bytes above. */
  function LoadPair(r: Registers, mem: Memory, rt: nat, addr: word, p: nat, q: nat, interrupted: bool): Registers
    requires rt < NUM_GP_REGS && p + 4 <= MEMORY_SIZE && q + 4 <= MEMORY_SIZE
  {
    var r1 := AfterLoad(r, rt, MergeRight(Pending(r, rt), WordAt(mem, p), addr % 4));
    var r2 := if interrupted then Retire(r1, 0, 0) else r1;
    AfterLoad(r2, rt, MergeLeft(Pending(r2, rt), WordAt(mem, q), AddressPlus(addr, 3) % 4))
  }

  /** LWL sees what LWR loaded, forwarded from the delay slot or already retired. */
  lemma LoadPairValue(r: Registers, mem: Memory, rt: nat, addr: word, p: nat, q: nat, interrupted: bool)
    requires 0 < rt < NUM_GP_REGS && p + 4 <= MEMORY_SIZE && q + 4 <= MEMORY_SIZE
    ensures Pending(LoadPair(r, mem, rt, addr, p, q, interrupted), rt)
         == MergeLeft(MergeRight(Pending(r, rt), WordAt(mem, p), addr % 4), WordAt(mem, q), AddressPlus(addr, 3) % 4)
  {}

  lemma MergedBytes(pending: bv32, mem: Memory, byte: nat, p: nat, q: nat)
    requires byte < 4 && p + 4 <= MEMORY_SIZE && q + 4 <= MEMORY_SIZE && (byte == 0 ==> p == q)
    ensures Bytes(MergeLeft(MergeRight(pending, WordAt(mem, p), byte), WordAt(mem, q), TopByte(byte)))
         == mem[p + byte..p + 4] + mem[q..q + byte]
  {
    var low, high := WordAt(mem, p), WordAt(mem, q);
    WordAtBytes(mem, p);
    WordAtBytes(mem, q);
    if byte == 0 {
      var right := MergeRight(pending, low, byte);
      MergeLeftBytes(right, high, 3);
      WholeOf(Bytes(right), mem[q..q + 4]);
    } else {
      MergeBoth(pending, low, high, byte);
      InPlace(mem, byte, p, q);
    }
  }

  lemma WholeOf(s: seq<bv8>, t: seq<bv8>)
    requires |t| == 4
    ensures s[..0] + t[..4] == t == t + []
  {}

  lemma InPlace(mem: Memory, byte: nat, p: nat, q: nat)
    requires byte < 4 && p + 4 <= MEMORY_SIZE && q + 4 <= MEMORY_SIZE
    ensures mem[p..p + 4][byte..] == mem[p + byte..p + 4] && mem[q..q + 4][..byte] == mem[q..q + byte]
  {}

  lemma MergedByte(mem: Memory, bytes: seq<bv8>, byte: nat, p: nat, q: nat, k: nat)
    requires byte < 4 && k < 4 && p + 4 <= MEMORY_SIZE && q + 4 <= MEMORY_SIZE
    requires bytes == mem[p + byte..p + 4] + mem[q..q + byte]
    ensures |bytes| == 4 && bytes[k] == mem[Place(byte, p, q, k)]
  {}

  lemma PlacedSpells(m: Mapping, mem: Memory, addr: word, w: bv32, byte: nat, p: nat, q: nat)
    requires byte < 4 && Located(m, addr, false, byte, p, q)
    requires Bytes(w) == mem[p + byte..p + 4] + mem[q..q + byte]
    ensures Spells(m, mem, addr, w)
  {
    forall k | 0 <= k < 4
      ensures MapsTo(m, mem, AddressPlus(addr, k), Bytes(w)[k])
    {
      MergedByte(mem, Bytes(w), byte, p, q, k);
    }
  }

  /** The pair leaves in rt the word that the four bytes at the address spell, whatever its alignment. */
  lemma UnalignedLoad(m: Mapping, r: Registers, mem: Memory, rt: nat, addr: word, p: nat, q: nat, interrupted: bool)
    requires 0 < rt < NUM_GP_REGS && p + 4 <= MEMORY_SIZE && q + 4 <= MEMORY_SIZE
    requires WordMapped(m, addr, false, p) && WordMapped(m, AddressPlus(addr, 3), false, q)
    ensures Spells(m, mem, addr, Pending(LoadPair(r, mem, rt, addr, p, q, interrupted), rt))
  {
    BytesLocated(m, addr, false, p, q);
    TopOf(addr);
    LoadPairValue(r, mem, rt, addr, p, q, interrupted);
    MergedBytes(Pending(r, rt), mem, addr % 4, p, q);
    PlacedSpells(m, mem, addr, Pending(LoadPair(r, mem, rt, addr, p, q, interrupted), rt), addr % 4, p, q);
  }

  /** The value reaches the register itself when the next instruction, or an interrupt, retires the load. */
  lemma RetiredValue(r: Registers, rt: nat, nextReg: nat, nextValue: bv32)
    requires 0 < rt < NUM_GP_REGS && nextReg < NUM_GP_REGS
    ensures Retire(r, nextReg, nextValue).gp[rt] == Pending(r, rt)
  {}

  // ---- what the second instruction of a pair finds ----

  /** No load to the register is pending, or only one of the value that it already has. */
  predicate Settled(r: Registers, reg: nat)
    requires reg < NUM_GP_REGS
  {
    if reg == 0 then r.gp[0] == 0 else r.loadReg == reg ==> r.loadValue == r.gp[reg]
  }

  /** The value that a register has for the next instruction. */
  function NextValue(r: Registers, reg: nat): bv32
    requires reg < NUM_GP_REGS
  {
    Retire(r, 0, 0).gp[reg]
  }

  lemma SettledValue(r: Registers, reg: nat)
    requires reg < NUM_GP_REGS
    ensures Settled(r, reg) <==> NextValue(r, reg) == r.gp[reg]
  {}

  function Number(w: bv32): word {
    w as word
  }

  function Offset(base: word, extra: int): (addr: word)
    ensures (addr - base - extra) % 0x1_0000_0000 == 0
  {
    (base + extra) % 0x1_0000_0000
  }

  /** Base register plus offset. */
  function AddressOf(base: bv32, extra: int): word {
    Offset(Number(base), extra)
  }

  /** A load into another register leaves a register with its next value. */
  lemma BaseKept(r: Registers, rs: nat, rt: nat, value: bv32, interrupted: bool)
    requires rs < NUM_GP_REGS && 0 < rt < NUM_GP_REGS && rs != rt
    ensures
      var r1 := AfterLoad(r, rt, value);
      (if interrupted then Retire(r1, 0, 0) else r1).gp[rs] == NextValue(r, rs)
  {}

  /** The address that the second instruction of a pair uses is three bytes above the first one's exactly when the
      base register is settled. */
  lemma SecondAddress(r: Registers, rs: nat, extra: int)
    requires rs < NUM_GP_REGS
    ensures AddressOf(NextValue(r, rs), extra + 3) == AddressPlus(AddressOf(r.gp[rs], extra), 3) <==> Settled(r, rs)
  {
    SettledValue(r, rs);
    SameAddress(r.gp[rs], NextValue(r, rs), extra);
  }

  lemma SameAddress(x: bv32, y: bv32, extra: int)
    ensures AddressOf(y, extra + 3) == AddressPlus(AddressOf(x, extra), 3) <==> x == y
  {
    SameNumber(x, y);
    SameSum(Number(x), Number(y), extra);
  }

  lemma SameNumber(x: bv32, y: bv32)
    ensures Number(x) == Number(y) ==> x == y
  {
    assert (x as int) as bv32 == x && (y as int) as bv32 == y;
  }

  lemma SameSum(m: word, n: word, extra: int)
    ensures Offset(n, extra + 3) == AddressPlus(Offset(m, extra), 3) <==> m == n
  {}

  // ---- the unaligned store ----

  /** The memory after SWR at an address and SWL three bytes above, with what each finds in the register. */
  function StorePair(mem: Memory, first: bv32, second: bv32, addr: word, p: nat, q: nat): Memory
    requires p + 4 <= MEMORY_SIZE && q + 4 <= MEMORY_SIZE
  {
    var mem1 := Stored(mem, p, 4, StoreRight(WordAt(mem, p), first, addr % 4));
    Stored(mem1, q, 4, StoreLeft(WordAt(mem1, q), second, AddressPlus(addr, 3) % 4))
  }

  /** The bytes from this one on come from SWL, which writes the whole word if the address is aligned. */
  function Boundary(byte: nat): (k: nat)
    requires byte < 4
    ensures k < 4
  {
    if byte == 0 then 0 else 4 - byte
  }

  function PairBytes(first: bv32, second: bv32, byte: nat): (s: seq<bv8>)
    requires byte < 4
    ensures |s| == 4
  {
    Bytes(first)[..Boundary(byte)] + Bytes(second)[Boundary(byte)..]
  }

  /** A word whose first or last bytes are those already in memory, put there. */
  lemma JoinFront(mem: Memory, after: Memory, p: nat, n: nat, bytes: seq<bv8>, stored: seq<bv8>)
    requires p + 4 <= MEMORY_SIZE && n <= 4 && stored == mem[p..p + 4][..n] + bytes
    requires after == mem[..p] + stored + mem[p + 4..]
    ensures after == mem[..p + n] + bytes + mem[p + 4..]
  {
    assert mem[..p] + mem[p..p + 4][..n] == mem[..p + n];
  }

  lemma JoinBack(mem: Memory, after: Memory, p: nat, n: nat, bytes: seq<bv8>, stored: seq<bv8>)
    requires p + 4 <= MEMORY_SIZE && n <= 4 && stored == bytes + mem[p..p + 4][n..]
    requires after == mem[..p] + stored + mem[p + 4..]
    ensures after == mem[..p] + bytes + mem[p + n..]
  {
    assert mem[p..p + 4][n..] + mem[p + 4..] == mem[p + n..];
  }

  lemma RightInMemory(mem: Memory, reg: bv32, p: nat, byte: nat)
    requires p + 4 <= MEMORY_SIZE && byte < 4
    ensures Bytes(StoreRight(WordAt(mem, p), reg, byte)) == mem[p..p + 4][..byte] + Bytes(reg)[..4 - byte]
  {
    WordAtBytes(mem, p);
    StoreRightBytes(WordAt(mem, p), reg, byte);
  }

  lemma LeftInMemory(mem: Memory, reg: bv32, q: nat, byte: nat)
    requires q + 4 <= MEMORY_SIZE && byte < 4
    ensures Bytes(StoreLeft(WordAt(mem, q), reg, byte)) == Bytes(reg)[3 - byte..] + mem[q..q + 4][byte + 1..]
  {
    WordAtBytes(mem, q);
    StoreLeftBytes(WordAt(mem, q), reg, byte);
  }

  /** SWR replaces the bytes from the address on, in its word. */
  lemma StoredRight(mem: Memory, after: Memory, reg: bv32, w: bv32, p: nat, byte: nat)
    requires p + 4 <= MEMORY_SIZE && byte < 4
    requires w == StoreRight(WordAt(mem, p), reg, byte) && after == Stored(mem, p, 4, w)
    ensures after == mem[..p + byte] + Bytes(reg)[..4 - byte] + mem[p + 4..]
  {
    RightInMemory(mem, reg, p, byte);
    StoredBytes(mem, p, w);
    JoinFront(mem, after, p, byte, Bytes(reg)[..4 - byte], Bytes(w));
  }

  /** SWL replaces the bytes up to the address, in its word. */
  lemma StoredLeft(mem: Memory, after: Memory, reg: bv32, w: bv32, q: nat, byte: nat)
    requires q + 4 <= MEMORY_SIZE && byte < 4
    requires w == StoreLeft(WordAt(mem, q), reg, byte) && after == Stored(mem, q, 4, w)
    ensures after == mem[..q] + Bytes(reg)[3 - byte..] + mem[q + (byte + 1)..]
  {
    LeftInMemory(mem, reg, q, byte);
    StoredBytes(mem, q, w);
    JoinBack(mem, after, q, byte + 1, Bytes(reg)[3 - byte..], Bytes(w));
  }

  /** Four bytes written into two words. */
  ghost predicate WrittenAt(before: Memory, after: Memory, bytes: seq<bv8>, byte: nat, p: nat, q: nat)
    requires |bytes| == 4 && byte < 4 && p + 4 <= MEMORY_SIZE && q + 4 <= MEMORY_SIZE
  {
    && (forall k :: 0 <= k < 4 ==> after[Place(byte, p, q, k)] == bytes[k])
    && (forall x :: 0 <= x < MEMORY_SIZE ==> after[x] == before[x] || exists k :: 0 <= k < 4 && x == Place(byte, p, q, k))
  }

  lemma TwoSplices(mem: seq<bv8>, mem1: seq<bv8>, mem2: seq<bv8>, bytes: seq<bv8>, byte: nat, p: nat, q: nat, x: nat)
    requires |mem| == MEMORY_SIZE && |bytes| == 4 && 0 < byte < 4
    requires p + 4 <= MEMORY_SIZE && q + 4 <= MEMORY_SIZE && (p + 4 <= q || q + 4 <= p) && x < MEMORY_SIZE
    requires mem1 == mem[..p + byte] + bytes[..4 - byte] + mem[p + 4..]
    requires mem2 == mem1[..q] + bytes[4 - byte..] + mem1[q + byte..]
    ensures |mem2| == MEMORY_SIZE
    ensures mem2[x] == if p + byte <= x < p + 4 then bytes[x - p - byte]
                       else if q <= x < q + byte then bytes[x - q + 4 - byte] else mem[x]
  {
    assert mem1[x] == if p + byte <= x < p + 4 then bytes[x - p - byte] else mem[x];
    assert mem2[x] == if q <= x < q + byte then bytes[x - q + 4 - byte] else mem1[x];
  }

  lemma PairWrites(mem: Memory, first: bv32, second: bv32, addr: word, p: nat, q: nat)
    requires p + 4 <= MEMORY_SIZE && q + 4 <= MEMORY_SIZE
    requires if addr % 4 == 0 then p == q else p + 4 <= q || q + 4 <= p
    ensures WrittenAt(mem, StorePair(mem, first, second, addr, p, q), PairBytes(first, second, addr % 4), addr % 4, p, q)
  {
    var byte: nat := addr % 4;
    var mem1 := Stored(mem, p, 4, StoreRight(WordAt(mem, p), first, byte));
    var mem2 := StorePair(mem, first, second, addr, p, q);
    TopOf(addr);
    StoredRight(mem, mem1, first, StoreRight(WordAt(mem, p), first, byte), p, byte);
    StoredLeft(mem1, mem2, second, StoreLeft(WordAt(mem1, q), second, TopByte(byte)), q, TopByte(byte));
    WrittenBoth(mem, mem1, mem2, Bytes(first), Bytes(second), byte, p, q);
  }

  lemma WrittenBoth(mem: Memory, mem1: Memory, mem2: Memory, first: seq<bv8>, second: seq<bv8>, byte: nat, p: nat, q: nat)
    requires |first| == |second| == 4 && byte < 4 && p + 4 <= MEMORY_SIZE && q + 4 <= MEMORY_SIZE
    requires if byte == 0 then p == q else p + 4 <= q || q + 4 <= p
    requires mem1 == mem[..p + byte] + first[..4 - byte] + mem[p + 4..]
    requires mem2 == mem1[..q] + second[3 - TopByte(byte)..] + mem1[q + (TopByte(byte) + 1)..]
    ensures WrittenAt(mem, mem2, first[..Boundary(byte)] + second[Boundary(byte)..], byte, p, q)
  {
    if byte == 0 {
      WrittenWhole(mem, mem1, mem2, first, second, p);
    } else {
      WrittenInTwo(mem, mem1, mem2, first, second, byte, p, q);
    }
  }

  /** At an aligned address the second store writes over the first. */
  lemma WrittenWhole(mem: Memory, mem1: Memory, mem2: Memory, first: seq<bv8>, second: seq<bv8>, p: nat)
    requires |first| == |second| == 4 && p + 4 <= MEMORY_SIZE
    requires mem1 == mem[..p] + first[..4] + mem[p + 4..]
    requires mem2 == mem1[..p] + second[0..] + mem1[p + 4..]
    ensures WrittenAt(mem, mem2, first[..0] + second[0..], 0, p, p)
  {
    forall x | 0 <= x < MEMORY_SIZE
      ensures mem2[x] == mem[x] || exists k :: 0 <= k < 4 && x == Place(0, p, p, k)
    {
      assert p <= x < p + 4 ==> x == Place(0, p, p, x - p);
    }
  }

  lemma WrittenInTwo(mem: Memory, mem1: Memory, mem2: Memory, first: seq<bv8>, second: seq<bv8>, byte: nat, p: nat, q: nat)
    requires |first| == |second| == 4 && 0 < byte < 4 && p + 4 <= MEMORY_SIZE && q + 4 <= MEMORY_SIZE
    requires p + 4 <= q || q + 4 <= p
    requires mem1 == mem[..p + byte] + first[..4 - byte] + mem[p + 4..]
    requires mem2 == mem1[..q] + second[4 - byte..] + mem1[q + byte..]
    ensures WrittenAt(mem, mem2, first[..4 - byte] + second[4 - byte..], byte, p, q)
  {
    var bytes := first[..4 - byte] + second[4 - byte..];
    assert bytes[..4 - byte] == first[..4 - byte] && bytes[4 - byte..] == second[4 - byte..];
    forall x | 0 <= x < MEMORY_SIZE
      ensures mem2[x] == if p + byte <= x < p + 4 then bytes[x - p - byte]
                         else if q <= x < q + byte then bytes[x - q + 4 - byte] else mem[x]
    {
      TwoSplices(mem, mem1, mem2, bytes, byte, p, q, x);
    }
    forall x | 0 <= x < MEMORY_SIZE
      ensures mem2[x] == mem[x] || exists k :: 0 <= k < 4 && x == Place(byte, p, q, k)
    {
      assert p + byte <= x < p + 4 ==> x == Place(byte, p, q, x - p - byte);
      assert q <= x < q + byte ==> x == Place(byte, p, q, x - q + 4 - byte);
    }
  }

  /** The pair writes exactly the four bytes at the address: the low ones of what SWR finds in the register, and the
      high ones of what SWL finds. */
  lemma UnalignedStore(m: Mapping, mem: Memory, first: bv32, second: bv32, addr: word, p: nat, q: nat)
    requires WordMapped(m, addr, true, p) && WordMapped(m, AddressPlus(addr, 3), true, q)
    ensures Located(m, addr, true, addr % 4, p, q)
    ensures WrittenAt(mem, StorePair(mem, first, second, addr, p, q), PairBytes(first, second, addr % 4), addr % 4, p, q)
  {
    BytesLocated(m, addr, true, p, q);
    PairWrites(mem, first, second, addr, p, q);
  }

  /** So what is written is the register's word, as it is before or as it is after the pair, exactly when the two
      agree on the bytes that come from the other. */
  lemma WordWritten(before: Memory, after: Memory, first: bv32, second: bv32, byte: nat, p: nat, q: nat)
    requires byte < 4 && p + 4 <= MEMORY_SIZE && q + 4 <= MEMORY_SIZE
    requires WrittenAt(before, after, PairBytes(first, second, byte), byte, p, q)
    ensures WrittenAt(before, after, Bytes(first), byte, p, q) <==> SameHigh(first, second, Boundary(byte))
    ensures WrittenAt(before, after, Bytes(second), byte, p, q) <==> SameLow(first, second, Boundary(byte))
  {
    var bytes := PairBytes(first, second, byte);
    Halves(Bytes(first), Bytes(second), Boundary(byte));
    OneWriting(before, after, bytes, Bytes(first), byte, p, q);
    OneWriting(before, after, bytes, Bytes(second), byte, p, q);
  }

  lemma Halves(s: seq<bv8>, t: seq<bv8>, k: nat)
    requires |s| == |t| && k <= |s|
    ensures s == s[..k] + t[k..] <==> s[k..] == t[k..]
    ensures t == s[..k] + t[k..] <==> s[..k] == t[..k]
  {
    assert s == s[..k] + s[k..] && t == t[..k] + t[k..];
    assert (s[..k] + t[k..])[..k] == s[..k] && (s[..k] + t[k..])[k..] == t[k..];
  }

  predicate SameHigh(first: bv32, second: bv32, k: nat)
    requires k < 4
  {
    Bytes(first)[k..] == Bytes(second)[k..]
  }

  predicate SameLow(first: bv32, second: bv32, k: nat)
    requires k < 4
  {
    Bytes(first)[..k] == Bytes(second)[..k]
  }

  lemma OneWriting(before: Memory, after: Memory, bytes: seq<bv8>, others: seq<bv8>, byte: nat, p: nat, q: nat)
    requires |bytes| == |others| == 4 && byte < 4 && p + 4 <= MEMORY_SIZE && q + 4 <= MEMORY_SIZE
    requires WrittenAt(before, after, bytes, byte, p, q)
    ensures WrittenAt(before, after, others, byte, p, q) <==> others == bytes
  {
    if WrittenAt(before, after, others, byte, p, q) {
      forall k | 0 <= k < 4
        ensures others[k] == bytes[k]
      {
        assert after[Place(byte, p, q, k)] == bytes[k] && after[Place(byte, p, q, k)] == others[k];
      }
    }
  }

  /** What the two stores leave in memory, and when it is the register's word. */
  ghost predicate PairWritten(m: Mapping, before: Memory, after: Memory, first: bv32, second: bv32, addr: word, p: nat, q: nat) {
    && Located(m, addr, true, addr % 4, p, q)
    && WrittenAt(before, after, PairBytes(first, second, addr % 4), addr % 4, p, q)
    && (WrittenAt(before, after, Bytes(first), addr % 4, p, q) <==> SameHigh(first, second, Boundary(addr % 4)))
    && (WrittenAt(before, after, Bytes(second), addr % 4, p, q) <==> SameLow(first, second, Boundary(addr % 4)))
  }

  lemma PairStored(m: Mapping, before: Memory, between: Memory, after: Memory, first: bv32, second: bv32, addr: word, p: nat, q: nat)
    requires p + 4 <= MEMORY_SIZE && q + 4 <= MEMORY_SIZE
    requires between == Stored(before, p, 4, StoreRight(WordAt(before, p), first, addr % 4))
    requires after == Stored(between, q, 4, StoreLeft(WordAt(between, q), second, AddressPlus(addr, 3) % 4))
    requires WordMapped(m, addr, true, p) && WordMapped(m, AddressPlus(addr, 3), true, q)
    ensures PairWritten(m, before, after, first, second, addr, p, q)
  {
    UnalignedStore(m, before, first, second, addr, p, q);
    WordWritten(before, after, first, second, addr % 4, p, q);
  }

  /** Between the stores no load is pending, and every register has its next value. */
  lemma FirstStoreRetires(r: Registers, interrupted: bool)
    ensures
      var r1 := if interrupted then Retire(AfterStore(r), 0, 0) else AfterStore(r);
      r1.gp == Retire(r, 0, 0).gp == AfterStore(r1).gp
  {}

  /** Registers in which a load of another value to register 2 is pending. */
  function TornRegisters(): Registers {
    Registers(seq(NUM_GP_REGS, i => 0)[2 := 0x11111111], 0, 4, 0, 2, 0x22222222, 0)
  }

  /** With such registers SWR 2 and SWL 2 find different values, and the word in memory is neither of them. */
  lemma PendingLoadTearsStore(mem: Memory, addr: word, p: nat, q: nat)
    requires addr % 4 == 1 && p + 4 <= MEMORY_SIZE && q + 4 <= MEMORY_SIZE && (p + 4 <= q || q + 4 <= p)
    ensures
      var r := TornRegisters();
      var after := StorePair(mem, r.gp[2], NextValue(r, 2), addr, p, q);
      && Settled(r, 0)
      && WrittenAt(mem, after, [0x11, 0x11, 0x11, 0x22], 1, p, q)
      && !WrittenAt(mem, after, Bytes(r.gp[2]), 1, p, q)
      && !WrittenAt(mem, after, Bytes(NextValue(r, 2)), 1, p, q)
  {
    var r := TornRegisters();
    PairWrites(mem, r.gp[2], NextValue(r, 2), addr, p, q);
    TornBytes();
    TornIsNeither(mem, StorePair(mem, r.gp[2], NextValue(r, 2), addr, p, q), p, q);
  }

  lemma TornBytes()
    ensures Bytes(0x11111111) == [0x11, 0x11, 0x11, 0x11] && Bytes(0x22222222) == [0x22, 0x22, 0x22, 0x22]
    ensures PairBytes(0x11111111, 0x22222222, 1) == [0x11, 0x11, 0x11, 0x22]
  {}

  lemma TornIsNeither(before: Memory, after: Memory, p: nat, q: nat)
    requires p + 4 <= MEMORY_SIZE && q + 4 <= MEMORY_SIZE
    requires WrittenAt(before, after, [0x11, 0x11, 0x11, 0x22], 1, p, q)
    ensures !WrittenAt(before, after, Bytes(0x11111111), 1, p, q)
    ensures !WrittenAt(before, after, Bytes(0x22222222), 1, p, q)
  {
    TornBytes();
    OneWriting(before, after, [0x11, 0x11, 0x11, 0x22], Bytes(0x11111111), 1, p, q);
    OneWriting(before, after, [0x11, 0x11, 0x11, 0x22], Bytes(0x22222222), 1, p, q);
    assert [0x11, 0x11, 0x11, 0x22][3] == 0x22 != Bytes(0x11111111)[3];
    assert [0x11, 0x11, 0x11, 0x22][0] == 0x11 != Bytes(0x22222222)[0];
  }

  /** The word that the pair of loads finds is the one that was written there. */
  lemma WrittenIsSpelled(m: Mapping, before: Memory, after: Memory, addr: word, p: nat, q: nat, stored: seq<bv8>, loaded: bv32)
    requires |stored| == 4 && Located(m, addr, true, addr % 4, p, q) && WrittenAt(before, after, stored, addr % 4, p, q)
    requires Spells(m, after, addr, loaded)
    ensures Bytes(loaded) == stored
  {
    forall k | 0 <= k < 4
      ensures Bytes(loaded)[k] == stored[k]
    {
      var at := Place(addr % 4, p, q, k);
      WritableIsReadable(m, AddressPlus(addr, k), 1, at);
      assert MapsTo(m, after, AddressPlus(addr, k), Bytes(loaded)[k]);
      var x :| 0 <= x < MEMORY_SIZE && IsTranslated(m, AddressPlus(addr, k), 1, false, Physical(x)) && after[x] == Bytes(loaded)[k];
      TranslatedUnique(m, AddressPlus(addr, k), 1, false, Physical(x), Physical(at));
    }
  }

  /** The round trip is exact just when the stores write one word. */
  lemma RoundTrip(m: Mapping, before: Memory, after: Memory, addr: word, p: nat, q: nat, first: bv32, second: bv32, loaded: bv32)
    requires Located(m, addr, true, addr % 4, p, q) && Spells(m, after, addr, loaded)
    requires WrittenAt(before, after, PairBytes(first, second, addr % 4), addr % 4, p, q)
    ensures loaded == first <==> SameHigh(first, second, Boundary(addr % 4))
    ensures loaded == second <==> SameLow(first, second, Boundary(addr % 4))
  {
    var bytes := PairBytes(first, second, addr % 4);
    WrittenIsSpelled(m, before, after, addr, p, q, bytes, loaded);
    WordWritten(before, after, first, second, addr % 4, p, q);
    OneWriting(before, after, bytes, Bytes(first), addr % 4, p, q);
    OneWriting(before, after, bytes, Bytes(second), addr % 4, p, q);
    if bytes == Bytes(first) {
      SameBytes(loaded, first);
    }
    if bytes == Bytes(second) {
      SameBytes(loaded, second);
    }
  }

  /** The bits that accesses set do not matter to what is found at an address. */
  lemma SpelledBefore(m: Mapping, n: Mapping, mem: Memory, addr: word, w: bv32)
    requires SameMapping(m, n) && Spells(n, mem, addr, w)
    ensures Spells(m, mem, addr, w)
  {
    SameMappingReversed(m, n);
    forall k | 0 <= k < 4
      ensures MapsTo(m, mem, AddressPlus(addr, k), Bytes(w)[k])
    {
      assert MapsTo(n, mem, AddressPlus(addr, k), Bytes(w)[k]);
      var p :| 0 <= p < MEMORY_SIZE && IsTranslated(n, AddressPlus(addr, k), 1, false, Physical(p)) && mem[p] == Bytes(w)[k];
      BitsDoNotMatter(n, m, AddressPlus(addr, k), 1, false, Physical(p));
    }
  }
}
