/** Virtual memory (machine/translate.cc): the translation of addresses by a page table or a TLB. */
module Translations {
  import opened Words

  // A page has 128 bytes and the memory 128 pages; both are written as numerals, which keeps division
  // and remainder by them linear for the solver.
  const NUM_PHYS_PAGES := 128
  const MEMORY_SIZE := NUM_PHYS_PAGES * 128

  datatype Exception = AddressErrorException | PageFaultException | ReadOnlyException | BusErrorException

  datatype TranslationEntry =
    TranslationEntry(virtualPage: int32, physicalPage: int32, valid: bool, readOnly: bool, use: bool, dirty: bool)

  /** The machine has either a page table or a TLB. */
  datatype Mapping =
    | PageTable(entries: seq<TranslationEntry>)
    | Tlb(entries: seq<TranslationEntry>)

  datatype Lookup = Found(index: nat) | Missing(which: Exception)

  datatype Translated = Physical(addr: nat) | Fault(which: Exception)

  /** Entry i of a TLB answers for the page. */
  predicate Answers(e: TranslationEntry, vpn: nat) {
    e.valid && e.virtualPage == vpn
  }

  /** The entry that translates a page. */
  ghost predicate IsLookup(m: Mapping, vpn: nat, r: Lookup) {
    match m
    case PageTable(entries) =>
      if vpn >= |entries| then r == Missing(AddressErrorException)
      else if !entries[vpn].valid then r == Missing(PageFaultException)
      else r == Found(vpn)
    case Tlb(entries) =>
      match r
      case Found(i) => i < |entries| && Answers(entries[i], vpn) && forall j :: 0 <= j < i ==> !Answers(entries[j], vpn)
      case Missing(which) => which == PageFaultException && forall j :: 0 <= j < |entries| ==> !Answers(entries[j], vpn)
  }

  predicate Aligned(addr: word, size: int) {
    (size == 4 ==> addr % 4 == 0) && (size == 2 ==> addr % 2 == 0)
  }

  /** What an access of the given size comes to. */
  ghost predicate IsTranslated(m: Mapping, addr: word, size: int, writing: bool, r: Translated) {
    if !Aligned(addr, size) then r == Fault(AddressErrorException)
    else exists l :: IsLookup(m, addr / 128, l) && IsEntryAccess(m, l, addr % 128, writing, r)
  }

  predicate IsEntryAccess(m: Mapping, l: Lookup, offset: nat, writing: bool, r: Translated) {
    match l
    case Missing(which) => r == Fault(which)
    case Found(i) =>
      i < |m.entries| &&
      var e := m.entries[i];
      if e.readOnly && writing then r == Fault(ReadOnlyException)
      else if IntWord(e.physicalPage) >= NUM_PHYS_PAGES then r == Fault(BusErrorException)
      else r == Physical(e.physicalPage * 128 + offset)
  }

  /** Two mappings that differ in use and dirty bits only. */
  predicate SameBut(e: TranslationEntry, f: TranslationEntry) {
    e.(use := f.use, dirty := f.dirty) == f
  }

  predicate SameMapping(m: Mapping, n: Mapping) {
    m.Tlb? == n.Tlb? && |m.entries| == |n.entries|
    && forall i :: 0 <= i < |m.entries| ==> SameBut(m.entries[i], n.entries[i])
  }

  lemma SameMappingReversed(m: Mapping, n: Mapping)
    requires SameMapping(m, n)
    ensures SameMapping(n, m)
  {
    forall i | 0 <= i < |m.entries|
      ensures SameBut(n.entries[i], m.entries[i])
    {
      assert SameBut(m.entries[i], n.entries[i]);
    }
  }

  lemma SameMappingTwice(m: Mapping, n: Mapping, o: Mapping)
    requires SameMapping(m, n) && SameMapping(n, o)
    ensures SameMapping(m, o)
  {
    forall i | 0 <= i < |m.entries|
      ensures SameBut(m.entries[i], o.entries[i])
    {
      assert SameBut(m.entries[i], n.entries[i]) && SameBut(n.entries[i], o.entries[i]);
    }
  }

  // ---- what translation guarantees ----

  /** Entry i answers for the address: it is the page's own in a page table, or the first in a TLB that is valid and for
      the page. */
  ghost predicate AnswersFor(m: Mapping, addr: word, i: nat) {
    i < |m.entries| && m.entries[i].valid &&
    match m
    case PageTable(_) => i == addr / 128
    case Tlb(entries) =>
      && entries[i].virtualPage == addr / 128
      && forall j :: 0 <= j < i ==> !(entries[j].valid && entries[j].virtualPage == addr / 128)
  }

  /** When an access gets to memory, and where; and which exception it raises otherwise. */
  lemma Outcomes(m: Mapping, addr: word, size: int, writing: bool, r: Translated, i: nat)
    requires size in {1, 2, 4}
    ensures addr % size != 0 ==> (IsTranslated(m, addr, size, writing, r) <==> r == Fault(AddressErrorException))
    ensures addr % size == 0 && AnswersFor(m, addr, i) ==>
      (IsTranslated(m, addr, size, writing, r) <==>
         r == if m.entries[i].readOnly && writing then Fault(ReadOnlyException)
              else if 0 <= m.entries[i].physicalPage < 128 then Physical(128 * m.entries[i].physicalPage + addr % 128)
              else Fault(BusErrorException))
    ensures addr % size == 0 && (forall j: nat :: !AnswersFor(m, addr, j)) ==>
      (IsTranslated(m, addr, size, writing, r) <==>
         r == Fault(if m.PageTable? && addr / 128 >= |m.entries| then AddressErrorException else PageFaultException))
  {
    if Aligned(addr, size) && AnswersFor(m, addr, i) {
      assert IsLookup(m, addr / 128, Found(i));
      if l :| IsLookup(m, addr / 128, l) && IsEntryAccess(m, l, addr % 128, writing, r) {
        LookupUnique(m, addr / 128, l, Found(i));
      }
    } else if Aligned(addr, size) && (forall j: nat :: !AnswersFor(m, addr, j)) {
      NoneAnswers(m, addr, size, writing, r);
    }
  }

  lemma NoneAnswers(m: Mapping, addr: word, size: int, writing: bool, r: Translated)
    requires Aligned(addr, size) && forall j: nat :: !AnswersFor(m, addr, j)
    ensures IsTranslated(m, addr, size, writing, r) <==>
      r == Fault(if m.PageTable? && addr / 128 >= |m.entries| then AddressErrorException else PageFaultException)
  {
    var vpn := addr / 128;
    var l := Missing(if m.PageTable? && vpn >= |m.entries| then AddressErrorException else PageFaultException);
    if m.Tlb? {
      NoEntry(m, addr, |m.entries|);
    } else {
      assert vpn < |m.entries| ==> !AnswersFor(m, addr, vpn);
    }
    assert IsLookup(m, vpn, l);
    if k :| IsLookup(m, vpn, k) && IsEntryAccess(m, k, addr % 128, writing, r) {
      LookupUnique(m, vpn, k, l);
    }
  }

  lemma {:induction false} NoEntry(m: Mapping, addr: word, n: nat)
    requires m.Tlb? && n <= |m.entries| && forall j: nat :: !AnswersFor(m, addr, j)
    ensures forall j :: 0 <= j < n ==> !Answers(m.entries[j], addr / 128)
  {
    if n > 0 {
      NoEntry(m, addr, n - 1);
      assert !AnswersFor(m, addr, n - 1);
    }
  }

  lemma LookupUnique(m: Mapping, vpn: nat, l: Lookup, k: Lookup)
    requires IsLookup(m, vpn, l) && IsLookup(m, vpn, k)
    ensures l == k
  {
    if m.Tlb? && l.Found? && k.Found? {
      assert Answers(m.entries[l.index], vpn) && Answers(m.entries[k.index], vpn);
    }
  }

  /** An access has one outcome. */
  lemma TranslatedUnique(m: Mapping, addr: word, size: int, writing: bool, r: Translated, s: Translated)
    requires IsTranslated(m, addr, size, writing, r) && IsTranslated(m, addr, size, writing, s)
    ensures r == s
  {
    if Aligned(addr, size) {
      var l :| IsLookup(m, addr / 128, l) && IsEntryAccess(m, l, addr % 128, writing, r);
      var k :| IsLookup(m, addr / 128, k) && IsEntryAccess(m, k, addr % 128, writing, s);
      LookupUnique(m, addr / 128, l, k);
    }
  }

  /** A successful access lies inside the memory, and inside one page. */
  lemma TranslatedInMemory(m: Mapping, addr: word, size: int, writing: bool, p: nat)
    requires size in {1, 2, 4} && IsTranslated(m, addr, size, writing, Physical(p))
    ensures p % 128 == addr % 128 && p / 128 < NUM_PHYS_PAGES
    ensures p % 128 + size <= 128 && p + size <= MEMORY_SIZE
  {
    var l :| IsLookup(m, addr / 128, l) && IsEntryAccess(m, l, addr % 128, writing, Physical(p));
    var frame := m.entries[l.index].physicalPage as int;
    assert p == frame * 128 + addr % 128;
    WithinPage(addr, size);
  }

  lemma WithinPage(addr: word, size: int)
    requires size in {1, 2, 4} && Aligned(addr, size)
    ensures addr % 128 + size <= 128
  {
    if size == 4 {
      InWords(addr);
    } else if size == 2 {
      InHalves(addr);
    }
  }

  lemma InWords(addr: word)
    requires addr % 4 == 0
    ensures addr % 128 <= 124
  {
    assert addr % 128 == 4 * (addr / 4 - 32 * (addr / 128));
  }

  lemma InHalves(addr: word)
    requires addr % 2 == 0
    ensures addr % 128 <= 126
  {
    assert addr % 128 == 2 * (addr / 2 - 64 * (addr / 128));
  }

  /** The bits that an access sets do not change any translation. */
  lemma BitsDoNotMatter(m: Mapping, n: Mapping, addr: word, size: int, writing: bool, r: Translated)
    requires SameMapping(m, n) && IsTranslated(m, addr, size, writing, r)
    ensures IsTranslated(n, addr, size, writing, r)
  {
    if Aligned(addr, size) {
      var l :| IsLookup(m, addr / 128, l) && IsEntryAccess(m, l, addr % 128, writing, r);
      forall i | 0 <= i < |m.entries|
        ensures Answers(m.entries[i], addr / 128) == Answers(n.entries[i], addr / 128)
      {
        assert SameBut(m.entries[i], n.entries[i]);
      }
      if l.Found? {
        assert SameBut(m.entries[l.index], n.entries[l.index]);
      } else if m.PageTable? && addr / 128 < |m.entries| {
        assert SameBut(m.entries[addr / 128], n.entries[addr / 128]);
      }
      assert IsLookup(n, addr / 128, l);
    }
  }

  /** Where a word can be written it can be read, at the same place; and so can each of its bytes. */
  lemma WritableIsReadable(m: Mapping, addr: word, size: int, p: nat)
    requires IsTranslated(m, addr, size, true, Physical(p))
    ensures IsTranslated(m, addr, size, false, Physical(p))
  {
    var l :| IsLookup(m, addr / 128, l) && IsEntryAccess(m, l, addr % 128, true, Physical(p));
    assert IsEntryAccess(m, l, addr % 128, false, Physical(p));
  }

  /** Where a word cannot be read it cannot be written. */
  lemma UnreadableIsUnwritable(m: Mapping, addr: word, size: int, which: Exception)
    requires IsTranslated(m, addr, size, false, Fault(which))
    ensures exists w :: IsTranslated(m, addr, size, true, Fault(w))
  {
    if Aligned(addr, size) {
      var l :| IsLookup(m, addr / 128, l) && IsEntryAccess(m, l, addr % 128, false, Fault(which));
      var w := if l.Found? && m.entries[l.index].readOnly then ReadOnlyException else which;
      assert IsEntryAccess(m, l, addr % 128, true, Fault(w));
      assert IsTranslated(m, addr, size, true, Fault(w));
    } else {
      assert IsTranslated(m, addr, size, true, Fault(which));
    }
  }

  lemma BytesOfWord(m: Mapping, addr: word, writing: bool, p: nat, k: nat)
    requires addr % 4 == 0 && k < 4 && IsTranslated(m, addr, 4, writing, Physical(p))
    ensures addr + k < 0x1_0000_0000
    ensures IsTranslated(m, addr + k, 1, writing, Physical(p + k))
  {
    var l :| IsLookup(m, addr / 128, l) && IsEntryAccess(m, l, addr % 128, writing, Physical(p));
    WithinPage(addr, 4);
    assert (addr + k) / 128 == addr / 128 && (addr + k) % 128 == addr % 128 + k;
    assert IsEntryAccess(m, l, (addr + k) % 128, writing, Physical(p + k));
  }
}
