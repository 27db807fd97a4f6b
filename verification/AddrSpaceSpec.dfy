/** What address spaces stand for (userprog/addrspace.cc, machine/translate.cc): each one its own memory,
    though all of them share the machine's. */
module AddrSpaceSpec {
  import opened Words
  import opened Bitmaps
  import opened Allocations
  import opened Translations

  type Table = seq<TranslationEntry>

  /** What AllocateMemory leaves behind, whatever bits the machine sets later. */
  predicate GoodTable(t: Table) {
    && (forall i :: 0 <= i < |t| ==> t[i].valid && !t[i].readOnly && 0 <= t[i].physicalPage < NUM_PHYS_PAGES)
    && (forall i, j :: 0 <= i < j < |t| ==> t[i].physicalPage != t[j].physicalPage)
  }

  /** Fresh from AllocateMemory. */
  predicate NewTable(t: Table) {
    forall i :: 0 <= i < |t| ==>
      && t[i].virtualPage == i && t[i].valid && !t[i].readOnly && !t[i].use && !t[i].dirty
  }

  function FrameList(t: Table): (s: seq<int>)
    ensures |s| == |t|
  {
    seq(|t|, i requires 0 <= i < |t| => t[i].physicalPage as int)
  }

  function Frames(t: Table): set<int> {
    set i | 0 <= i < |t| :: t[i].physicalPage as int
  }

  /** Where byte k of the space is in the machine's memory. */
  function PhysOf(t: Table, k: nat): int
    requires k < 128 * |t|
  {
    t[k / 128].physicalPage * 128 + k % 128
  }

  lemma PhysInFrame(t: Table, k: nat)
    requires GoodTable(t) && k < 128 * |t|
    ensures 0 <= PhysOf(t, k) < MEMORY_SIZE && PhysOf(t, k) / 128 in Frames(t)
    ensures PhysOf(t, k) / 128 == t[k / 128].physicalPage && PhysOf(t, k) % 128 == k % 128
  {}

  /** The space's own memory. */
  function Contents<T>(mem: seq<T>, t: Table): (s: seq<T>)
    requires |mem| == MEMORY_SIZE && GoodTable(t)
    ensures |s| == 128 * |t|
  {
    seq(128 * |t|, k requires 0 <= k < 128 * |t| => (PhysInFrame(t, k); mem[PhysOf(t, k)]))
  }

  // ---- the machine's memory, shared ----

  datatype Shared<T> = Shared(used: seq<bool>, spaces: map<nat, Table>, mem: seq<T>)

  ghost predicate InSome(spaces: map<nat, Table>, f: int) {
    exists id :: id in spaces && f in Frames(spaces[id])
  }

  /** Every marked frame belongs to one page of one live space. */
  ghost predicate Inv<T>(s: Shared<T>) {
    && |s.used| == NUM_PHYS_PAGES && |s.mem| == MEMORY_SIZE
    && (forall id :: id in s.spaces ==> GoodTable(s.spaces[id]))
    && (forall i, j :: i in s.spaces && j in s.spaces && i != j ==> Frames(s.spaces[i]) !! Frames(s.spaces[j]))
    && (forall f :: 0 <= f < NUM_PHYS_PAGES ==> (s.used[f] <==> InSome(s.spaces, f)))
  }

  /** AllocateMemory gave a new space the lowest free frames, and cleared them. */
  ghost predicate Allocated<T>(before: Shared<T>, after: Shared<T>, id: nat, n: nat, zero: T)
    requires Inv(before)
  {
    && id !in before.spaces && id in after.spaces
    && var t := after.spaces[id];
    && |t| == n && NewTable(t) && LowestClear(before.used, FrameList(t))
    && after.spaces == before.spaces[id := t]
    && after.used == Marked(before.used, Frames(t))
    && |after.mem| == MEMORY_SIZE
    && forall p :: 0 <= p < MEMORY_SIZE ==> after.mem[p] == if p / 128 in Frames(t) then zero else before.mem[p]
  }

  /** The destructor gave a space's frames up. */
  ghost predicate Destroyed<T>(before: Shared<T>, after: Shared<T>, id: nat)
    requires Inv(before)
  {
    && id in before.spaces
    && after == before.(used := Cleared(before.used, Frames(before.spaces[id])), spaces := before.spaces - {id})
  }

  /** An access by the processor under a space's page table: the machine sets use and dirty bits, and a write
      changes the bytes at the translated address. */
  ghost predicate AccessStep<T>(before: Shared<T>, after: Shared<T>, id: nat, addr: word, writing: bool, bytes: seq<T>, r: Translated)
    requires Inv(before)
  {
    && |bytes| in {1, 2, 4}
    && id in before.spaces && id in after.spaces
    && IsTranslated(PageTable(before.spaces[id]), addr, |bytes|, writing, r)
    && after.spaces == before.spaces[id := after.spaces[id]]
    && SameMapping(PageTable(before.spaces[id]), PageTable(after.spaces[id]))
    && after.used == before.used
    && match r
       case Fault(_) => after.mem == before.mem
       case Physical(p) =>
         p + |bytes| <= MEMORY_SIZE
         && if writing then after.mem == Splice(before.mem, p, bytes)
            else after.mem == before.mem && bytes == before.mem[p..p + |bytes|]
  }

  // ---- the memories the programs see ----

  ghost function Memories<T>(s: Shared<T>): map<nat, seq<T>>
    requires Inv(s)
  {
    map id | id in s.spaces :: Contents(s.mem, s.spaces[id])
  }

  /** An access to a space's own memory: it goes through exactly when it is aligned and inside. */
  ghost predicate OwnAccess<T>(before: map<nat, seq<T>>, after: map<nat, seq<T>>, id: nat, addr: word, writing: bool,
                               bytes: seq<T>, r: Translated) {
    && id in before
    && (r.Physical? <==> Aligned(addr, |bytes|) && addr + |bytes| <= |before[id]|)
    && (r.Physical? && writing ==> addr + |bytes| <= |before[id]| && after == before[id := Splice(before[id], addr, bytes)])
    && (r.Physical? && !writing ==> addr + |bytes| <= |before[id]| && bytes == before[id][addr..addr + |bytes|])
    && (!(r.Physical? && writing) ==> after == before)
  }

  // ---- proofs ----

  /** A good table translates what is inside the space, and nothing else. */
  lemma TranslationInSpace(t: Table, addr: word, size: int, writing: bool, r: Translated)
    requires GoodTable(t) && size in {1, 2, 4} && IsTranslated(PageTable(t), addr, size, writing, r)
    ensures r.Physical? <==> Aligned(addr, size) && addr + size <= 128 * |t|
    ensures r.Physical? ==> addr / 128 < |t| && r.addr == t[addr / 128].physicalPage * 128 + addr % 128
  {
    if Aligned(addr, size) {
      WithinPage(addr, size);
      var l :| IsLookup(PageTable(t), addr / 128, l) && IsEntryAccess(PageTable(t), l, addr % 128, writing, r);
    }
  }

  /** Two live bytes, of the same space or of two, are in the same place only if they are the same byte. */
  lemma TranslationInjective<T>(s: Shared<T>, i: nat, k: nat, j: nat, l: nat)
    requires Inv(s) && i in s.spaces && j in s.spaces && k < 128 * |s.spaces[i]| && l < 128 * |s.spaces[j]|
    requires PhysOf(s.spaces[i], k) == PhysOf(s.spaces[j], l)
    ensures i == j && k == l
  {
    var t, u := s.spaces[i], s.spaces[j];
    PhysInFrame(t, k);
    PhysInFrame(u, l);
    if i == j {
      assert t[k / 128].physicalPage == t[l / 128].physicalPage;
    }
  }

  /** Bytes k of the two spaces, before and after a write at address a of the first. */
  lemma WrittenByte<T>(s: Shared<T>, i: nat, addr: nat, bytes: seq<T>, j: nat, l: nat)
    requires Inv(s) && i in s.spaces && j in s.spaces && l < 128 * |s.spaces[j]|
    requires |bytes| > 0 && addr + |bytes| <= 128 * |s.spaces[i]| && addr % 128 + |bytes| <= 128
    ensures
      var p := PhysOf(s.spaces[i], addr);
      var x := PhysOf(s.spaces[j], l);
      p <= x < p + |bytes| <==> i == j && addr <= l < addr + |bytes|
  {
    var t, u := s.spaces[i], s.spaces[j];
    var p, x := PhysOf(t, addr), PhysOf(u, l);
    if p <= x < p + |bytes| {
      var k := addr + (x - p);
      SamePage(t, addr, x - p);
      TranslationInjective(s, i, k, j, l);
    }
    if i == j && addr <= l < addr + |bytes| {
      SamePage(t, addr, l - addr);
    }
  }

  lemma SamePage(t: Table, addr: nat, d: nat)
    requires addr + d < 128 * |t| && addr % 128 + d < 128
    ensures PhysOf(t, addr + d) == PhysOf(t, addr) + d
  {
    assert (addr + d) / 128 == addr / 128 && (addr + d) % 128 == addr % 128 + d;
  }

  lemma WrittenContents<T>(s: Shared<T>, i: nat, addr: nat, bytes: seq<T>, p: nat, j: nat)
    requires Inv(s) && i in s.spaces && j in s.spaces
    requires |bytes| > 0 && addr + |bytes| <= 128 * |s.spaces[i]| && addr % 128 + |bytes| <= 128
    requires p == PhysOf(s.spaces[i], addr) && p + |bytes| <= MEMORY_SIZE
    ensures Contents(Splice(s.mem, p, bytes), s.spaces[j])
         == if i == j then Splice(Contents(s.mem, s.spaces[j]), addr, bytes) else Contents(s.mem, s.spaces[j])
  {
    var u := s.spaces[j];
    var after, before := Contents(Splice(s.mem, p, bytes), u), Contents(s.mem, u);
    var expected := if i == j then Splice(before, addr, bytes) else before;
    forall l | 0 <= l < 128 * |u|
      ensures after[l] == expected[l]
    {
      WrittenAt(s, i, addr, bytes, p, j, l);
      if i == j {
        SpliceAt(before, addr, bytes, l);
      }
    }
    assert after == expected;
  }

  lemma WrittenAt<T>(s: Shared<T>, i: nat, addr: nat, bytes: seq<T>, p: nat, j: nat, l: nat)
    requires Inv(s) && i in s.spaces && j in s.spaces && l < 128 * |s.spaces[j]|
    requires |bytes| > 0 && addr + |bytes| <= 128 * |s.spaces[i]| && addr % 128 + |bytes| <= 128
    requires p == PhysOf(s.spaces[i], addr) && p + |bytes| <= MEMORY_SIZE
    ensures Contents(Splice(s.mem, p, bytes), s.spaces[j])[l]
         == if i == j && addr <= l < addr + |bytes| then bytes[l - addr] else Contents(s.mem, s.spaces[j])[l]
  {
    var u := s.spaces[j];
    PhysInFrame(u, l);
    SpliceAt(s.mem, p, bytes, PhysOf(u, l));
    WrittenByte(s, i, addr, bytes, j, l);
    if i == j && addr <= l < addr + |bytes| {
      SamePage(u, addr, l - addr);
    }
  }

  /** The bits that the machine sets do not move anything. */
  lemma SameFrames(t: Table, u: Table)
    requires SameMapping(PageTable(t), PageTable(u))
    ensures Frames(t) == Frames(u) && (GoodTable(t) ==> GoodTable(u))
    ensures forall i :: 0 <= i < |t| ==> u[i].physicalPage == t[i].physicalPage
  {
    forall i | 0 <= i < |t|
      ensures u[i].physicalPage == t[i].physicalPage && u[i].valid == t[i].valid && u[i].readOnly == t[i].readOnly
    {
      assert SameBut(PageTable(t).entries[i], PageTable(u).entries[i]);
    }
  }

  lemma SameContents<T>(mem: seq<T>, t: Table, u: Table)
    requires |mem| == MEMORY_SIZE && GoodTable(t) && GoodTable(u) && |t| == |u|
    requires forall i :: 0 <= i < |t| ==> u[i].physicalPage == t[i].physicalPage
    ensures Contents(mem, t) == Contents(mem, u)
  {}

  /** An access through one space acts on that space's memory as on a memory of its own, and on no other. */
  lemma AccessRefines<T>(before: Shared<T>, after: Shared<T>, id: nat, addr: word, writing: bool, bytes: seq<T>, r: Translated)
    requires Inv(before) && AccessStep(before, after, id, addr, writing, bytes, r)
    ensures Inv(after)
    ensures OwnAccess(Memories(before), Memories(after), id, addr, writing, bytes, r)
  {
    var t, u := before.spaces[id], after.spaces[id];
    SameFrames(t, u);
    AccessKeepsInv(before, after, id);
    TranslationInSpace(t, addr, |bytes|, writing, r);
    if r.Physical? {
      WithinPage(addr, |bytes|);
      if writing {
        WriteRefines(before, after, id, addr, bytes, r.addr);
      } else {
        ReadRefines(before, id, addr, bytes, r.addr);
      }
    }
    if !(r.Physical? && writing) {
      SameMemories(before, after, id);
    }
  }

  /** A write through one space never changes a read through another: it finds what was there before. */
  lemma OtherReadsKept<T>(s: Shared<T>, s1: Shared<T>, s2: Shared<T>, i: nat, addr: word, bytes: seq<T>, r: Translated,
                          j: nat, addr2: word, found: seq<T>, r2: Translated)
    requires Inv(s) && AccessStep(s, s1, i, addr, true, bytes, r)
    requires Inv(s1) && AccessStep(s1, s2, j, addr2, false, found, r2)
    requires i != j && r2.Physical?
    ensures j in Memories(s) && addr2 + |found| <= |Memories(s)[j]| && found == Memories(s)[j][addr2..addr2 + |found|]
  {
    AccessRefines(s, s1, i, addr, true, bytes, r);
    AccessRefines(s1, s2, j, addr2, false, found, r2);
  }

  lemma AccessKeepsInv<T>(before: Shared<T>, after: Shared<T>, id: nat)
    requires Inv(before) && id in before.spaces && id in after.spaces
    requires after.spaces == before.spaces[id := after.spaces[id]] && after.used == before.used && |after.mem| == MEMORY_SIZE
    requires Frames(after.spaces[id]) == Frames(before.spaces[id]) && GoodTable(after.spaces[id])
    ensures Inv(after)
  {
    forall f | 0 <= f < NUM_PHYS_PAGES
      ensures InSome(after.spaces, f) <==> InSome(before.spaces, f)
    {
      if i :| i in before.spaces && f in Frames(before.spaces[i]) {
        assert i in after.spaces && f in Frames(after.spaces[i]);
      }
      if i :| i in after.spaces && f in Frames(after.spaces[i]) {
        assert i in before.spaces && f in Frames(before.spaces[i]);
      }
    }
  }

  lemma SameMemories<T>(before: Shared<T>, after: Shared<T>, id: nat)
    requires Inv(before) && Inv(after) && id in before.spaces && id in after.spaces && after.mem == before.mem
    requires after.spaces == before.spaces[id := after.spaces[id]]
    requires SameMapping(PageTable(before.spaces[id]), PageTable(after.spaces[id]))
    ensures Memories(after) == Memories(before)
  {
    SameFrames(before.spaces[id], after.spaces[id]);
    SameContents(before.mem, before.spaces[id], after.spaces[id]);
  }

  lemma ReadRefines<T>(s: Shared<T>, id: nat, addr: nat, bytes: seq<T>, p: nat)
    requires Inv(s) && id in s.spaces && addr % 128 + |bytes| <= 128 && addr + |bytes| <= 128 * |s.spaces[id]| && bytes != []
    requires p == PhysOf(s.spaces[id], addr) && p + |bytes| <= MEMORY_SIZE && bytes == s.mem[p..p + |bytes|]
    ensures bytes == Contents(s.mem, s.spaces[id])[addr..addr + |bytes|]
  {
    var t := s.spaces[id];
    forall d | 0 <= d < |bytes|
      ensures bytes[d] == Contents(s.mem, t)[addr + d]
    {
      SamePage(t, addr, d);
      PhysInFrame(t, addr + d);
    }
  }

  lemma MemoriesUpdated<T>(before: Shared<T>, after: Shared<T>, id: nat, bytes: seq<T>)
    requires Inv(before) && Inv(after) && after.spaces.Keys == before.spaces.Keys + {id}
    requires Contents(after.mem, after.spaces[id]) == bytes
    requires forall j :: j in before.spaces && j != id ==>
      Contents(after.mem, after.spaces[j]) == Contents(before.mem, before.spaces[j])
    ensures Memories(after) == Memories(before)[id := bytes]
  {}

  lemma WriteRefines<T>(before: Shared<T>, after: Shared<T>, id: nat, addr: nat, bytes: seq<T>, p: nat)
    requires Inv(before) && Inv(after) && id in before.spaces && id in after.spaces
    requires after.spaces == before.spaces[id := after.spaces[id]]
    requires SameMapping(PageTable(before.spaces[id]), PageTable(after.spaces[id]))
    requires bytes != [] && addr % 128 + |bytes| <= 128 && addr + |bytes| <= 128 * |before.spaces[id]|
    requires p == PhysOf(before.spaces[id], addr) && p + |bytes| <= MEMORY_SIZE && after.mem == Splice(before.mem, p, bytes)
    ensures Memories(after) == Memories(before)[id := Splice(Memories(before)[id], addr, bytes)]
  {
    SameFrames(before.spaces[id], after.spaces[id]);
    SameContents(after.mem, before.spaces[id], after.spaces[id]);
    forall j | j in before.spaces
      ensures Contents(after.mem, after.spaces[j])
           == if id == j then Splice(Contents(before.mem, before.spaces[j]), addr, bytes) else Contents(before.mem, before.spaces[j])
    {
      WrittenContents(before, id, addr, bytes, p, j);
    }
    MemoriesUpdated(before, after, id, Splice(Contents(before.mem, before.spaces[id]), addr, bytes));
  }

  // ---- allocation and destruction ----

  lemma NewFrames(bits: seq<bool>, t: Table)
    requires |bits| == NUM_PHYS_PAGES && NewTable(t) && LowestClear(bits, FrameList(t))
    ensures GoodTable(t) && forall f :: f in Frames(t) ==> 0 <= f < NUM_PHYS_PAGES && !bits[f]
  {
    var list := FrameList(t);
    assert forall i :: 0 <= i < |t| ==> list[i] == t[i].physicalPage;
  }

  lemma AllocateRefines<T>(before: Shared<T>, after: Shared<T>, id: nat, n: nat, zero: T)
    requires Inv(before) && Allocated(before, after, id, n, zero)
    ensures Inv(after) && id !in Memories(before)
    ensures Memories(after) == Memories(before)[id := seq(128 * n, k => zero)]
  {
    var t := after.spaces[id];
    NewFrames(before.used, t);
    AllocateKeepsInv(before, after, id, n, zero);
    ZeroContents(after.mem, t, zero);
    forall j | j in before.spaces
      ensures Contents(after.mem, before.spaces[j]) == Contents(before.mem, before.spaces[j])
    {
      ApartContents(before, after.mem, j, Frames(t));
    }
    MemoriesUpdated(before, after, id, seq(128 * n, k => zero));
  }

  /** A space none of whose frames changed is as it was. */
  lemma ApartContents<T>(s: Shared<T>, mem: seq<T>, j: nat, changed: set<int>)
    requires Inv(s) && j in s.spaces && |mem| == MEMORY_SIZE
    requires forall f :: f in changed && 0 <= f < NUM_PHYS_PAGES ==> !s.used[f]
    requires forall p :: 0 <= p < MEMORY_SIZE && p / 128 !in changed ==> mem[p] == s.mem[p]
    ensures Contents(mem, s.spaces[j]) == Contents(s.mem, s.spaces[j])
  {
    var u := s.spaces[j];
    forall k | 0 <= k < 128 * |u|
      ensures mem[PhysOf(u, k)] == s.mem[PhysOf(u, k)]
    {
      PhysInFrame(u, k);
      assert InSome(s.spaces, PhysOf(u, k) / 128);
    }
  }

  lemma ZeroContents<T>(mem: seq<T>, t: Table, zero: T)
    requires |mem| == MEMORY_SIZE && GoodTable(t)
    requires forall p :: 0 <= p < MEMORY_SIZE && p / 128 in Frames(t) ==> mem[p] == zero
    ensures Contents(mem, t) == seq(128 * |t|, k => zero)
  {
    forall k | 0 <= k < 128 * |t|
      ensures Contents(mem, t)[k] == zero
    {
      PhysInFrame(t, k);
    }
  }

  lemma AllocateKeepsInv<T>(before: Shared<T>, after: Shared<T>, id: nat, n: nat, zero: T)
    requires Inv(before) && Allocated(before, after, id, n, zero)
    ensures Inv(after)
  {
    var t := after.spaces[id];
    NewFrames(before.used, t);
    forall f | 0 <= f < NUM_PHYS_PAGES
      ensures after.used[f] <==> InSome(after.spaces, f)
    {
      if i :| i in before.spaces && f in Frames(before.spaces[i]) {
        assert i in after.spaces && f in Frames(after.spaces[i]);
        assert InSome(before.spaces, f);
      }
      if f in Frames(t) {
        assert id in after.spaces;
      }
      if i :| i in after.spaces && f in Frames(after.spaces[i]) {
        assert i != id ==> i in before.spaces && f in Frames(before.spaces[i]);
      }
    }
    forall j | j in before.spaces
      ensures Frames(before.spaces[j]) !! Frames(t)
    {
      forall f | f in Frames(before.spaces[j])
        ensures f !in Frames(t)
      {
        assert InSome(before.spaces, f);
      }
    }
  }

  lemma DestroyRefines<T>(before: Shared<T>, after: Shared<T>, id: nat)
    requires Inv(before) && Destroyed(before, after, id)
    ensures Inv(after) && id in Memories(before) && Memories(after) == Memories(before) - {id}
  {
    forall f | 0 <= f < NUM_PHYS_PAGES
      ensures after.used[f] <==> InSome(after.spaces, f)
    {
      if i :| i in before.spaces && f in Frames(before.spaces[i]) {
        assert InSome(before.spaces, f);
        assert i != id ==> i in after.spaces && f in Frames(after.spaces[i]);
      }
      if i :| i in after.spaces && f in Frames(after.spaces[i]) {
        assert i in before.spaces && f in Frames(before.spaces[i]) && InSome(before.spaces, f);
      }
    }
  }

  // ---- runs ----

  datatype Event<T> =
    | Allocate(id: nat, n: nat)
    | Destroy(id: nat)
    | Access(id: nat, addr: word, writing: bool, bytes: seq<T>, r: Translated)

  ghost predicate Step<T>(e: Event<T>, before: Shared<T>, after: Shared<T>, zero: T)
    requires Inv(before)
  {
    match e
    case Allocate(id, n) => Allocated(before, after, id, n, zero)
    case Destroy(id) => Destroyed(before, after, id)
    case Access(id, addr, writing, bytes, r) => AccessStep(before, after, id, addr, writing, bytes, r)
  }

  /** The same events, with a memory for each space and nothing shared. */
  ghost predicate PrivateStep<T>(e: Event<T>, before: map<nat, seq<T>>, after: map<nat, seq<T>>, zero: T) {
    match e
    case Allocate(id, n) => id !in before && after == before[id := seq(128 * n, k => zero)]
    case Destroy(id) => id in before && after == before - {id}
    case Access(id, addr, writing, bytes, r) => OwnAccess(before, after, id, addr, writing, bytes, r)
  }

  ghost predicate Run<T>(states: seq<Shared<T>>, events: seq<Event<T>>, zero: T) {
    && |states| == |events| + 1
    && Inv(states[0]) && states[0].spaces == map[]
    && forall k :: 0 <= k < |events| && Inv(states[k]) ==> Step(events[k], states[k], states[k + 1], zero)
  }

  /** Over every run, spaces that share the machine's memory behave as if each had a memory of its own. */
  lemma {:induction false} RunRefines<T>(states: seq<Shared<T>>, events: seq<Event<T>>, zero: T, k: nat)
    requires Run(states, events, zero) && k <= |events|
    ensures forall j :: 0 <= j <= k ==> Inv(states[j])
    ensures forall j :: 0 <= j < k ==> PrivateStep(events[j], Memories(states[j]), Memories(states[j + 1]), zero)
  {
    if k > 0 {
      RunRefines(states, events, zero, k - 1);
      match events[k - 1] {
        case Allocate(id, n) => AllocateRefines(states[k - 1], states[k], id, n, zero);
        case Destroy(id) => DestroyRefines(states[k - 1], states[k], id);
        case Access(id, addr, writing, bytes, r) =>
          AccessRefines(states[k - 1], states[k], id, addr, writing, bytes, r);
      }
    }
  }
}
