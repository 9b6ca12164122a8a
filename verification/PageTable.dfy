/**
 * The first-level page table built by MMUInit and MMUMemRegionMap.
 *
 * A 32-bit word is written as its upper 12 bits and its lower 20 bits. Every operation the code
 * uses acts on the two parts separately: the masks and ORs are bitwise, `>> 20` is the upper part,
 * and adding `idx << 20` only moves the upper part, modulo 4096.
 */
module PageTable {

  datatype Word = Word(hi: bv12, lo: bv20)

  /** A table entry: the upper 12 bits as a number, the lower 20 as a bit field. */
  datatype Entry = Entry(page: int, attr: bv20)

  datatype Region = Region(pgType: Word, startAddr: Word, numPages: nat,
                           memAttrib: Word, secureType: Word, accsCtrl: Word)

  const NumEntries: nat := 4096
  const FaultEntry: Entry := Entry(0, 0)
  const SectionType: Word := Word(0xFFF, 0x04002)
  const PgAddrMask: Word := Word(0xFFF, 0x00000)
  const PgTypeMask: Word := Word(0x000, 0x40002)

  function And(a: Word, b: Word): Word { Word(a.hi & b.hi, a.lo & b.lo) }
  function Or(a: Word, b: Word): Word { Word(a.hi | b.hi, a.lo | b.lo) }

  /** `w >> MMU_PAGEBOUND_SHIFT`. */
  function Page(w: Word): (p: nat)
    ensures p < NumEntries
  {
    Number(w.hi)
  }

  function Number(h: bv12): (p: nat)
    ensures p < NumEntries
  {
    h as nat
  }

  function Attributes(r: Region): Word {
    Or(Or(r.accsCtrl, r.memAttrib), r.secureType)
  }

  /** The word that MMUMemRegionMap computes once, before its loop. */
  function Template(r: Region): Word {
    Or(And(And(r.startAddr, r.pgType), PgAddrMask),
       Or(Or(Or(And(PgTypeMask, r.pgType), r.accsCtrl), r.memAttrib), r.secureType))
  }

  /** `w + (idx << MMU_PAGEBOUND_SHIFT)`. */
  function Advanced(w: Word, idx: nat): Entry {
    Entry((Page(w) + idx) % 4096, w.lo)
  }

  predicate Fits(r: Region) {
    Page(r.startAddr) + r.numPages <= NumEntries
  }

  predicate Covers(r: Region, k: int) {
    Page(r.startAddr) <= k < Page(r.startAddr) + r.numPages
  }

  /** What entry `k` holds after the regions have been mapped one after the other. */
  ghost function EntryFor(regions: seq<Region>, k: nat): Entry {
    if regions == [] then FaultEntry
    else
      var r := regions[|regions| - 1];
      if Covers(r, k) then Advanced(Template(r), k - Page(r.startAddr))
      else EntryFor(regions[..|regions| - 1], k)
  }

  class MasterTable {
    const entries: array<Entry>
    ghost var regions: seq<Region>

    ghost predicate Valid()
      reads this, entries
    {
      && entries.Length == NumEntries
      && forall k :: 0 <= k < NumEntries ==> entries[k] == EntryFor(regions, k)
    }

    /** MMUInit, without the CP15 writes. */
    constructor (pt: array<Entry>)
      requires pt.Length == NumEntries
      modifies pt
      ensures Valid() && regions == [] && entries == pt
      ensures forall k :: 0 <= k < 4096 ==> entries[k] == Entry(0, 0)
    {
      entries, regions := pt, [];
      new;
      var at := 0;
      for idx := NumEntries downto 0
        invariant at == NumEntries - idx && regions == []
        invariant forall k :: 0 <= k < at ==> entries[k] == FaultEntry
      {
        entries[at] := FaultEntry;
        at := at + 1;
      }
    }

    /** MMUMemRegionMap: the entries are written from the last one down. */
    method Map(r: Region)
      requires Valid() && Fits(r)
      modifies this`regions, entries
      ensures Valid() && regions == old(regions) + [r]
      ensures forall k :: 0 <= k < 4096 && !(Page(r.startAddr) <= k < Page(r.startAddr) + r.numPages) ==>
                entries[k] == old(entries[k])
    {
      var at: int := Page(r.startAddr);
      at := at + (r.numPages - 1);
      var ptEntry := Template(r);
      for idx := r.numPages downto 0
        invariant at == Page(r.startAddr) + idx - 1 && regions == old(regions)
        invariant forall k :: 0 <= k < NumEntries ==>
          entries[k] == if Covers(r, k) && k > at then Advanced(ptEntry, k - Page(r.startAddr))
                        else old(entries[k])
      {
        entries[at] := Advanced(ptEntry, idx);
        at := at - 1;
      }
      regions := regions + [r];
      assert regions[..|regions| - 1] == old(regions);
    }
  }

  /** The order of the calls decides: an entry shows the last region that covers it, and no other. */
  lemma {:induction false} LastRegionWins(regions: seq<Region>, k: nat, j: nat)
    requires j < |regions| && Covers(regions[j], k)
    requires forall i :: j < i < |regions| ==> !Covers(regions[i], k)
    ensures EntryFor(regions, k) == Advanced(Template(regions[j]), k - Page(regions[j].startAddr))
  {
    var n := |regions| - 1;
    if j < n {
      assert !Covers(regions[n], k);
      LastRegionWins(regions[..n], k, j);
    }
  }

  lemma {:induction false} UncoveredFaults(regions: seq<Region>, k: nat)
    requires forall i :: 0 <= i < |regions| ==> !Covers(regions[i], k)
    ensures EntryFor(regions, k) == FaultEntry == Entry(0, 0) && Walked(EntryFor(regions, k)) == NoAccess
  {
    if regions != [] {
      var n := |regions| - 1;
      assert !Covers(regions[n], k);
      UncoveredFaults(regions[..n], k);
    }
  }

  /**
   * What the table walk makes of a first-level descriptor, after section B3.5.1 of ARM DDI 0406C:
   * bits 1:0 give the kind, and bit 18 tells supersections from sections.
   */
  datatype Walk = NoAccess | SecondLevel | Reserved | SuperSection | Section(page: int, attr: bv20)

  function Walked(e: Entry): Walk {
    if e.attr & 3 == 0 then NoAccess
    else if e.attr & 3 == 1 then SecondLevel
    else if e.attr & 3 == 3 then Reserved
    else if e.attr & 0x40000 != 0 then SuperSection
    else Section(e.page, e.attr)
  }

  /** Bits 0 and 18 are clear. */
  predicate KindClear(a: bv20) { a & 0x40001 == 0 }

  /** Attributes with the kind bits of a section. */
  function Tagged(a: bv20): bv20 { 2 | a }

  /**
   * What a caller must see to: attribute bits above bit 19 must not disturb the start address, and
   * the attributes must leave the kind bits (0 and 18) alone.
   */
  predicate Plain(r: Region) {
    && Page(Or(r.startAddr, Attributes(r))) == Page(r.startAddr)
    && KindClear(Attributes(r).lo)
  }

  /** The attribute values of mmu.h: MMU_CACHE_*, MMU_MEMTYPE_*, MMU_AP_* and MMU_REGION_*. */
  datatype Cache = NonCacheable | WriteBackAlloc | WriteThrough | WriteBack
  datatype MemType = StronglyOrdered | DeviceShareable | DeviceNonShareable
                   | Normal(shareable: bool, inner: Cache, outer: Cache)
  datatype Access = NoAccessAtAll | PrivRw | PrivRwUserRo | AllRw | PrivRo

  function CacheBits(c: Cache): bv20 {
    match c
    case NonCacheable => 0
    case WriteBackAlloc => 1
    case WriteThrough => 2
    case WriteBack => 3
  }

  function MemBits(m: MemType): bv20 {
    match m
    case StronglyOrdered => 0x00000
    case DeviceShareable => 0x00004
    case DeviceNonShareable => 0x02000
    case Normal(s, i, o) => (if s then 0x14000 else 0x04000) | (CacheBits(o) << 12) | (CacheBits(i) << 2)
  }

  function AccessBits(ap: Access, execNever: bool): bv20 {
    (match ap
     case NoAccessAtAll => 0x0000
     case PrivRw => 0x0400
     case PrivRwUserRo => 0x0800
     case AllRw => 0x0C00
     case PrivRo => 0x8400)
    | (if execNever then 0x00010 else 0)
  }

  function SecureBits(nonSecure: bool): bv20 { if nonSecure then 0x80000 else 0 }

  /** A region described with the values of mmu.h. */
  function HeaderRegion(start: Word, pages: nat, m: MemType, nonSecure: bool, ap: Access, execNever: bool): Region {
    Region(SectionType, start, pages,
           Word(0, MemBits(m)), Word(0, SecureBits(nonSecure)), Word(0, AccessBits(ap, execNever)))
  }

  lemma HeaderBits(m: MemType, nonSecure: bool, ap: Access, execNever: bool)
    ensures MemBits(m) & 0x40001 == 0 && SecureBits(nonSecure) & 0x40001 == 0
    ensures AccessBits(ap, execNever) & 0x40001 == 0
  {
    if m.Normal? {
      CacheFields(CacheBits(m.inner), CacheBits(m.outer));
    }
  }

  lemma CacheFields(i: bv20, o: bv20)
    requires i <= 3 && o <= 3
    ensures ((0x14000 | (o << 12)) | (i << 2)) & 0x40001 == 0
    ensures ((0x04000 | (o << 12)) | (i << 2)) & 0x40001 == 0
  {
  }

  /** Every region described with the values of mmu.h is plain, so it is mapped to itself. */
  lemma HeaderValuesArePlain(start: Word, pages: nat, m: MemType, nonSecure: bool, ap: Access, execNever: bool)
    ensures Plain(HeaderRegion(start, pages, m, nonSecure, ap, execNever))
  {
    HeaderBits(m, nonSecure, ap, execNever);
    FieldsArePlain(HeaderRegion(start, pages, m, nonSecure, ap, execNever));
  }

  /** Attribute fields below bit 20 that are clear in bits 0 and 18 are enough. */
  lemma FieldsArePlain(r: Region)
    requires r.memAttrib.hi == 0 && r.secureType.hi == 0 && r.accsCtrl.hi == 0
    requires r.memAttrib.lo & 0x40001 == 0 && r.secureType.lo & 0x40001 == 0
    requires r.accsCtrl.lo & 0x40001 == 0
    ensures Plain(r)
  {
    hide Number;
    assert Or(r.startAddr, Attributes(r)).hi == r.startAddr.hi;
    KindBitsClear(r.accsCtrl.lo, r.memAttrib.lo, r.secureType.lo);
  }

  lemma KindBitsClear(a: bv20, m: bv20, c: bv20)
    requires a & 0x40001 == 0 && m & 0x40001 == 0 && c & 0x40001 == 0
    ensures ((a | m) | c) & 0x40001 == 0
  {
  }

  lemma TemplateOfSection(r: Region)
    requires r.pgType == SectionType
    ensures Template(r).hi == Or(r.startAddr, Attributes(r)).hi
    ensures Template(r).lo == Tagged(Attributes(r).lo)
  {
    var s, a, m, c := r.startAddr.hi, r.accsCtrl.hi, r.memAttrib.hi, r.secureType.hi;
    var al, ml, cl, sl := r.accsCtrl.lo, r.memAttrib.lo, r.secureType.lo, r.startAddr.lo;
    HighBits(s, a, m, c);
    LowBits(sl, al, ml, cl);
  }

  lemma HighBits(s: bv12, a: bv12, m: bv12, c: bv12)
    ensures ((s & 0xFFF) & 0xFFF) | ((((0 & 0xFFF) | a) | m) | c) == s | ((a | m) | c)
  {
  }

  lemma LowBits(s: bv20, a: bv20, m: bv20, c: bv20)
    ensures ((s & 0x04002) & 0x00000) | ((((0x40002 & 0x04002) | a) | m) | c) == 2 | ((a | m) | c)
  {
  }

  lemma KindBits(a: bv20)
    ensures (2 | a) & 3 == 2 || (2 | a) & 3 == 3
    ensures (2 | a) & 3 == 2 && (2 | a) & 0x40000 == 0 <==> a & 0x40001 == 0
  {
  }

  /** The walk of a section entry with attributes a. */
  lemma WalkOf(e: Entry, a: bv20, k: int)
    requires e.attr == Tagged(a)
    ensures Walked(e) == Section(k, Tagged(a)) <==> e.page == k && KindClear(a)
    ensures Walked(e) != NoAccess
  {
    KindBits(a);
  }

  /** The walk of the entry that a region leaves at k. */
  lemma RegionWalk(r: Region, k: nat)
    requires r.pgType == SectionType && Fits(r) && Covers(r, k)
    ensures var e := Advanced(Template(r), k - Page(r.startAddr));
            && (Walked(e) == Section(k, Tagged(Attributes(r).lo)) <==> Plain(r))
            && Walked(e) != NoAccess
  {
    hide Number, Template, Or, Attributes, Walked, Tagged, KindClear;
    TemplateOfSection(r);
    SamePage(r, k);
    WalkOf(Advanced(Template(r), k - Page(r.startAddr)), Attributes(r).lo, k);
  }

  /**
   * The table is an identity map: an address whose entry some section region covers translates to
   * itself, with the attributes of the last such region, exactly when that region is plain.
   */
  lemma IdentityMap(regions: seq<Region>, k: nat, j: nat)
    requires forall i :: 0 <= i < |regions| ==> regions[i].pgType == SectionType && Fits(regions[i])
    requires j < |regions| && Covers(regions[j], k)
    requires forall i :: j < i < |regions| ==> !Covers(regions[i], k)
    ensures var r := regions[j];
            var bits := Or(Or(r.accsCtrl, r.memAttrib), r.secureType);
            Walked(EntryFor(regions, k)) == Section(k, Tagged(bits.lo))
            <==> Page(Or(r.startAddr, bits)) == Page(r.startAddr) && KindClear(bits.lo)
    ensures var r := regions[j];
            Plain(r) <==> var bits := Or(Or(r.accsCtrl, r.memAttrib), r.secureType);
                          Page(Or(r.startAddr, bits)) == Page(r.startAddr) && KindClear(bits.lo)
    ensures Walked(EntryFor(regions, k)) != NoAccess
  {
    hide Number, Template, Or, Attributes, Walked, Plain, Advanced, Tagged, KindClear, Page;
    LastRegionWins(regions, k, j);
    RegionWalk(regions[j], k);
    PlainIs(regions[j]);
  }

  /** Plain and the attributes in terms of the three attribute words. */
  lemma PlainIs(r: Region)
    ensures var bits := Or(Or(r.accsCtrl, r.memAttrib), r.secureType);
            && Attributes(r) == bits
            && (Plain(r) <==> Page(Or(r.startAddr, bits)) == Page(r.startAddr) && KindClear(bits.lo))
  {
    hide Or, Page, KindClear;
  }

  /** The bit operations: OR on both parts, the kind bits of a section, and the two bits that must stay
      clear. */
  lemma BitsAre(a: Word, b: Word, x: bv20)
    ensures Or(a, b) == Word(a.hi | b.hi, a.lo | b.lo) && And(a, b) == Word(a.hi & b.hi, a.lo & b.lo)
    ensures Tagged(x) == 2 | x && (KindClear(x) <==> x & 0x40001 == 0)
  {
  }

  /** `>> 20` is the upper part, and a region covers as many entries as it has pages from there on. */
  lemma CoversExactly(r: Region, k: int)
    ensures Page(r.startAddr) == r.startAddr.hi as nat
    ensures Covers(r, k) <==> r.startAddr.hi as nat <= k < r.startAddr.hi as nat + r.numPages
  {
  }

  lemma NoWrap(p: nat, q: nat, k: nat)
    requires p < 4096 && q <= k < 4096
    ensures (p + (k - q)) % 4096 == k <==> p == q
  {
    var x := p + (k - q);
    assert x < 4096 ==> x % 4096 == x;
    assert x >= 4096 ==> x % 4096 == x - 4096;
  }

  lemma SamePage(r: Region, k: nat)
    requires r.pgType == SectionType && Fits(r) && Covers(r, k)
    ensures Advanced(Template(r), k - Page(r.startAddr)).page == k
            <==> Page(Or(r.startAddr, Attributes(r))) == Page(r.startAddr)
  {
    hide Number, Template, Or, Attributes, Tagged;
    TemplateOfSection(r);
    NoWrap(Page(Template(r)), Page(r.startAddr), k);
  }

  /** Two regions that are not plain: attribute bit 18 turns a section into a supersection, and
      attribute bit 20 sends the first megabyte to the second. */
  lemma NotPlainReached()
    ensures var r := Region(SectionType, Word(0, 0), 1, Word(0, 0x40000), Word(0, 0), Word(0, 0));
            !Plain(r) && Fits(r) && Walked(EntryFor([r], 0)) == SuperSection
    ensures var r := Region(SectionType, Word(0, 0), 1, Word(1, 0), Word(0, 0), Word(0, 0));
            !Plain(r) && Fits(r) && Walked(EntryFor([r], 0)) == Section(1, 2)
  {
    assert Number(0) == 0 && Number(1) == 1;
    var r1 := Region(SectionType, Word(0, 0), 1, Word(0, 0x40000), Word(0, 0), Word(0, 0));
    LastRegionWins([r1], 0, 0);
    assert Template(r1) == Word(0, 0x40002);
    var r2 := Region(SectionType, Word(0, 0), 1, Word(1, 0), Word(0, 0), Word(0, 0));
    LastRegionWins([r2], 0, 0);
    assert Template(r2) == Word(1, 2) && Or(r2.startAddr, Attributes(r2)) == Word(1, 0);
  }
}
