/** The bit layer of kernel/src/memory/paging.c: 64-bit page-table words, the
    occupancy count kept in their bits 52..61, the index macros of paging.h and
    the computed self-map addresses.  Every fact about shifts and masks that the
    tree proofs need is settled here, so that no other module looks at bits.

    Masks are written out: 0xFFFF_FFFF_F000 is PAGING_ENTRY_ADDR_MASK (bits
    47:12), 0x3FF0_0000_0000_0000 covers the count, and 0xC00F_0000_0000_0FFF is
    what the two leave over. */
module PageWords {

  /** paging_level_t: PT, PD, PDP and PML4 are 0, 1, 2 and 3. */
  type Level = n: nat | n < 4

  const PT: Level := 0
  const PD: Level := 1
  const PDP: Level := 2
  const PML4: Level := 3

  /** PAGING_FLAG_PRESENT */
  predicate Present(e: bv64) {
    e & 1 != 0
  }

  /** `e & PAGING_ENTRY_ADDR_MASK` */
  function Address(e: bv64): bv64 {
    e & 0xFFFF_FFFF_F000
  }

  /** A page address within 48 bits. */
  predicate Aligned(page: bv64) {
    page & 0xFFFF_0000_0000_0FFF == 0
  }

  /** Bits 51:12, where the processor looks for a physical page (section 4.5 of
      the Intel SDM, volume 3A). */
  function Frame(e: bv64): bv64 {
    e & 0xF_FFFF_FFFF_F000
  }

  /** Bit 7: in a PDP or PD entry it ends the walk at a large page. */
  predicate LargePage(e: bv64) {
    e & 0x80 != 0
  }

  /** The access rights that one entry grants: bits 1, 2 and 63. */
  predicate Writable(e: bv64) {
    e & 2 != 0
  }

  predicate User(e: bv64) {
    e & 4 != 0
  }

  predicate NoExecute(e: bv64) {
    e & 0x8000_0000_0000_0000 != 0
  }

  /** PAGING_PT_IDX, PAGING_PD_IDX, PAGING_PDP_IDX and PAGING_PML4_IDX */
  function IndexBits(virt: bv64, level: Level): (i: bv64)
    ensures i <= 511
  {
    match level
    case 0 => (virt >> 12) & 0x1FF
    case 1 => (virt >> 21) & 0x1FF
    case 2 => (virt >> 30) & 0x1FF
    case 3 => (virt >> 39) & 0x1FF
  }

  function ToSlot(i: bv64): (slot: nat)
    requires i <= 511
    ensures slot < 512
  {
    (i as bv9) as nat
  }

  function Index(virt: bv64, level: Level): (slot: nat)
    ensures slot < 512
  {
    ToSlot(IndexBits(virt, level))
  }

  // ----- the occupancy count

  function CountBits(e: bv64): (c: bv64)
    ensures c <= 0x3FF
  {
    (e >> 52) & 0x3FF
  }

  function ToCount(c: bv64): (n: nat)
    requires c <= 0x3FF
    ensures n < 1024
  {
    (c as bv10) as nat
  }

  /** paging_get_subcount, as a number. */
  function Subcount(e: bv64): (c: nat)
    ensures c < 1024
  {
    ToCount(CountBits(e))
  }

  /** paging_set_subcount, as the word it leaves in the entry. */
  function SetSubcount(e: bv64, count: bv64): bv64 {
    (e & !(0x3FF << 52)) | ((count & 0x3FF) << 52)
  }

  /** paging_increment_subcount */
  function Increment(e: bv64): bv64 {
    SetSubcount(e, CountBits(e) + 1)
  }

  /** paging_decrement_subcount */
  function Decrement(e: bv64): bv64 {
    SetSubcount(e, CountBits(e) - 1)
  }

  /** Everything in an entry but its count. */
  function Uncounted(e: bv64): bv64 {
    e & 0xC00F_FFFF_FFFF_FFFF
  }

  lemma SetSubcountBits(e: bv64, count: bv64)
    ensures CountBits(SetSubcount(e, count)) == count & 0x3FF
  {
  }

  lemma CountFieldApart(c: bv64)
    ensures (c << 52) & 0x000F_FFFF_FFFF_FFFF == 0
    ensures c <= 0x3FF ==> (c << 52) & 0xC000_0000_0000_0000 == 0
  {
  }

  lemma ClearedField(e: bv64, x: bv64)
    requires x & 0x000F_FFFF_FFFF_FFFF == 0 && x & 0xC000_0000_0000_0000 == 0
    ensures ((e & !(0x3FF << 52)) | x) & 0xC00F_FFFF_FFFF_FFFF == e & 0xC00F_FFFF_FFFF_FFFF
  {
  }

  lemma SetSubcountRest(e: bv64, count: bv64)
    ensures Uncounted(SetSubcount(e, count)) == Uncounted(e)
  {
    CountFieldApart(count & 0x3FF);
    ClearedField(e, (count & 0x3FF) << 52);
  }

  lemma TenBitsUp(c: bv10)
    requires c as nat < 1023
    ensures (c + 1) as nat == c as nat + 1
  {
  }

  lemma TenBitsDown(c: bv10)
    requires c as nat > 0
    ensures (c - 1) as nat == c as nat - 1
  {
  }

  lemma NarrowUp(c: bv64)
    requires c <= 0x3FF
    ensures ((c + 1) & 0x3FF) as bv10 == (c as bv10) + 1
  {
  }

  lemma NarrowDown(c: bv64)
    requires c <= 0x3FF
    ensures ((c - 1) & 0x3FF) as bv10 == (c as bv10) - 1
  {
  }

  lemma CountUp(c: bv64)
    requires c <= 0x3FF && ToCount(c) < 1023
    ensures ToCount((c + 1) & 0x3FF) == ToCount(c) + 1
  {
    NarrowUp(c);
    TenBitsUp(c as bv10);
  }

  lemma CountDown(c: bv64)
    requires c <= 0x3FF && ToCount(c) > 0
    ensures ToCount((c - 1) & 0x3FF) == ToCount(c) - 1
  {
    NarrowDown(c);
    TenBitsDown(c as bv10);
  }

  /** An increment adds one to the count and touches nothing else, as long as the
      ten bits do not wrap. */
  lemma IncrementIsExact(e: bv64)
    requires Subcount(e) < 1023
    ensures Subcount(Increment(e)) == Subcount(e) + 1
    ensures Uncounted(Increment(e)) == Uncounted(e)
  {
    var c := CountBits(e);
    SetSubcountBits(e, c + 1);
    SetSubcountRest(e, c + 1);
    CountUp(c);
  }

  lemma DecrementIsExact(e: bv64)
    requires Subcount(e) > 0
    ensures Subcount(Decrement(e)) == Subcount(e) - 1
    ensures Uncounted(Decrement(e)) == Uncounted(e)
  {
    var c := CountBits(e);
    SetSubcountBits(e, c - 1);
    SetSubcountRest(e, c - 1);
    CountDown(c);
  }

  /** The wrap the invariant keeps away: from 1023 the count falls back to 0. */
  lemma IncrementWraps(e: bv64)
    requires CountBits(e) == 0x3FF
    ensures CountBits(Increment(e)) == 0
  {
    SetSubcountBits(e, CountBits(e) + 1);
  }

  lemma CountIsZero(e: bv64)
    ensures Subcount(e) == 0 <==> CountBits(e) == 0
  {
    if Subcount(e) == 0 {
      CountInjective(CountBits(e), 0);
    }
  }

  // ----- what an interior entry looks like

  /** An entry that leads to the table `page`: PRESENT, RW and USER are its only
      flags.  Its count is left open. */
  predicate Leads(e: bv64, page: bv64) {
    && Address(e) == page
    && e & 0xC00F_0000_0000_0FFF == 7
  }

  /** ... and one that records `count` used slots there. */
  predicate PointsTo(e: bv64, page: bv64, count: nat) {
    Leads(e, page) && Subcount(e) == count
  }

  lemma FlagsOfTable(e: bv64)
    requires e & 0xC00F_0000_0000_0FFF == 7
    ensures Present(e)
    ensures Frame(e) == Address(e)
    ensures !LargePage(e) && Writable(e) && User(e) && !NoExecute(e)
  {
  }

  lemma AddressIsAligned(e: bv64)
    ensures Aligned(Address(e))
  {
  }

  lemma LeadsBits(e: bv64, page: bv64)
    requires Leads(e, page)
    ensures Present(e) && Frame(e) == page && Aligned(page)
    ensures !LargePage(e) && Writable(e) && User(e) && !NoExecute(e)
  {
    FlagsOfTable(e);
    AddressIsAligned(e);
  }

  /** paging.c:91, 118 and 148 */
  function TableEntry(page: bv64): bv64 {
    page | 1 | 2 | 4
  }

  lemma TableEntryCount(page: bv64)
    requires Aligned(page)
    ensures CountBits(TableEntry(page)) == 0
  {
  }

  lemma TableEntryAddress(page: bv64)
    requires Aligned(page)
    ensures Address(TableEntry(page)) == page
  {
  }

  lemma TableEntryFlags(page: bv64)
    requires Aligned(page)
    ensures TableEntry(page) & 0xC00F_0000_0000_0FFF == 7
  {
  }

  lemma NewEntry(page: bv64)
    requires Aligned(page)
    ensures PointsTo(TableEntry(page), page, 0)
  {
    TableEntryCount(page);
    TableEntryAddress(page);
    TableEntryFlags(page);
  }

  lemma SameAddress(e: bv64, f: bv64)
    requires Uncounted(e) == Uncounted(f)
    ensures Address(e) == Address(f)
  {
  }

  lemma SameFlags(e: bv64, f: bv64)
    requires Uncounted(e) == Uncounted(f)
    ensures e & 0xC00F_0000_0000_0FFF == f & 0xC00F_0000_0000_0FFF
  {
  }

  lemma SamePresent(e: bv64, f: bv64)
    requires Uncounted(e) == Uncounted(f)
    ensures Present(e) == Present(f)
  {
  }

  lemma SameButCount(e: bv64, f: bv64, page: bv64)
    requires Uncounted(e) == Uncounted(f)
    ensures Present(e) == Present(f)
    ensures Leads(e, page) <==> Leads(f, page)
  {
    SameAddress(e, f);
    SameFlags(e, f);
    SamePresent(e, f);
  }

  lemma Incremented(e: bv64, page: bv64, count: nat)
    requires PointsTo(e, page, count) && count < 1023
    ensures PointsTo(Increment(e), page, count + 1) && Present(e) && Present(Increment(e))
  {
    IncrementIsExact(e);
    SameButCount(e, Increment(e), page);
    LeadsBits(e, page);
  }

  lemma Decremented(e: bv64, page: bv64, count: nat)
    requires PointsTo(e, page, count) && 0 < count
    ensures PointsTo(Decrement(e), page, count - 1) && Present(e) && Present(Decrement(e))
  {
    DecrementIsExact(e);
    SameButCount(e, Decrement(e), page);
    LeadsBits(e, page);
  }

  /** paging.c:178 */
  function LeafWord(phy: bv64, flags: bv64): bv64 {
    flags | 1 | Address(phy)
  }

  lemma LeafWordFlags(phy: bv64, flags: bv64)
    ensures Present(LeafWord(phy, flags))
    ensures Writable(LeafWord(phy, flags)) == Writable(flags)
    ensures User(LeafWord(phy, flags)) == User(flags)
    ensures NoExecute(LeafWord(phy, flags)) == NoExecute(flags)
  {
  }

  /** The bits of an entry that are not those of the page: 63:52 and 11:0. */
  function OutsideFrame(e: bv64): bv64 {
    e & 0xFFF0_0000_0000_0FFF
  }

  /** A leaf holds what was asked for, bit by bit: outside bits 51:12 it is the flags with the
      present bit set, in them the flags and the aligned physical address joined. */
  predicate AsAsked(e: bv64, phy: bv64, flags: bv64) {
    && OutsideFrame(e) == (flags & 0xFFF0_0000_0000_0FFE) | 1
    && Frame(e) == (flags & 0x000F_FFFF_FFFF_F000) | (phy & 0xFFFF_FFFF_F000)
  }

  lemma LeafWordIsAsAsked(phy: bv64, flags: bv64)
    ensures AsAsked(LeafWord(phy, flags), phy, flags)
  {
  }

  /** AsAsked leaves no bit open, and with flags outside the address field it is their sum. */
  lemma AsAskedDetermines(e: bv64, f: bv64, phy: bv64, flags: bv64)
    requires AsAsked(e, phy, flags) && AsAsked(f, phy, flags)
    ensures e == f
  {
    hide Frame, OutsideFrame;
    FrameAndRest(e);
    FrameAndRest(f);
  }

  lemma FrameAndRest(e: bv64)
    ensures e == OutsideFrame(e) | Frame(e)
  {
  }

  /** PAGING_FLAG_RW alone: the aligned physical address plus 3. */
  lemma AskedForWriting(e: bv64, phy: bv64)
    requires AsAsked(e, phy, 2)
    ensures e == (phy & 0xFFFF_FFFF_F000) + 3
  {
  }

  /** The page the processor finds in a leaf is the requested one exactly when the
      flags stay out of the address field, but for bits that the address has too. */
  lemma LeafWordFrame(phy: bv64, flags: bv64)
    ensures Frame(LeafWord(phy, flags)) == Address(phy) <==> Frame(flags) & !Address(phy) == 0
  {
  }

  lemma NineBits(i: bv9)
    ensures (i as nat) as bv9 == i
  {
  }

  lemma Widen9(i: bv64)
    requires i <= 511
    ensures (i as bv9) as bv64 == i
  {
  }

  lemma SlotInjective(i: bv64, j: bv64)
    requires i <= 511 && j <= 511 && ToSlot(i) == ToSlot(j)
    ensures i == j
  {
    NineBits(i as bv9);
    NineBits(j as bv9);
    Widen9(i);
    Widen9(j);
  }

  lemma FullSlot()
    ensures ToSlot(511) == 511
  {
  }

  lemma TenBits(c: bv10)
    ensures (c as nat) as bv10 == c
  {
  }

  lemma Widen10(c: bv64)
    requires c <= 0x3FF
    ensures (c as bv10) as bv64 == c
  {
  }

  lemma Reassembled(e: bv64)
    ensures e == Address(e) | (CountBits(e) << 52) | (e & 0xC00F_0000_0000_0FFF)
  {
  }

  lemma CountInjective(c: bv64, d: bv64)
    requires c <= 0x3FF && d <= 0x3FF && ToCount(c) == ToCount(d)
    ensures c == d
  {
    TenBits(c as bv10);
    TenBits(d as bv10);
    Widen10(c);
    Widen10(d);
  }

  /** PointsTo leaves no bit of the word open. */
  lemma PointsToDetermines(e: bv64, f: bv64, page: bv64, count: nat)
    requires PointsTo(e, page, count) && PointsTo(f, page, count)
    ensures e == f
  {
    CountInjective(CountBits(e), CountBits(f));
    Reassembled(e);
    Reassembled(f);
  }

  lemma PageFromIndices(v: bv64)
    ensures Address(v) == (IndexBits(v, PML4) << 39) | (IndexBits(v, PDP) << 30) |
                          (IndexBits(v, PD) << 21) | (IndexBits(v, PT) << 12)
  {
  }

  lemma IndexIgnoresOffset(v: bv64, level: Level)
    ensures IndexBits(Address(v), level) == IndexBits(v, level)
  {
    assert level == 0 || level == 1 || level == 2 || level == 3;
  }

  ghost predicate SameIndices(v: bv64, w: bv64) {
    forall level: Level :: Index(v, level) == Index(w, level)
  }

  /** Four equal indices are the same page, and only that. */
  lemma IndicesNamePage(v: bv64, w: bv64)
    ensures SameIndices(v, w) <==> Address(v) == Address(w)
  {
    if SameIndices(v, w) {
      forall level: Level ensures IndexBits(v, level) == IndexBits(w, level) {
        assert Index(v, level) == Index(w, level);
        SlotInjective(IndexBits(v, level), IndexBits(w, level));
      }
      PageFromIndices(v);
      PageFromIndices(w);
    }
    if Address(v) == Address(w) {
      forall level: Level ensures Index(v, level) == Index(w, level) {
        IndexIgnoresOffset(v, level);
        IndexIgnoresOffset(w, level);
      }
    }
  }

  // ----- the self-map

  /** paging_fractal_access: the virtual address at which the table holding
      virt's entry of the given level shows up through slot 511. */
  function FractalAccess(virt: bv64, level: Level): bv64 {
    match level
    case 0 => ((0x1FF_FFFF << 39) | (virt >> 9)) & !0xFFF
    case 1 => ((0x1FF_FFFF << 39) | (0x1FF << 30) | (virt >> 18)) & !0xFFF
    case 2 => ((0x1FF_FFFF << 39) | (0x1FF << 30) | (0x1FF << 21) | (virt >> 27)) & !0xFFF
    case 3 => ((0x1FF_FFFF << 39) | (0x1FF << 30) | (0x1FF << 21) | (0x1FF << 12) | (virt >> 27)) & !0xFFF
  }

  /** Canonical addresses: bits 63:47 are ones. */
  lemma FractalIsCanonical(virt: bv64, level: Level)
    ensures FractalAccess(virt, level) >> 47 == 0x1_FFFF
    ensures FractalAccess(virt, level) & 0xFFF == 0
  {
    assert level == 0 || level == 1 || level == 2 || level == 3;
  }

  lemma FractalPml4(virt: bv64)
    requires Aligned(virt)
    ensures IndexBits(FractalAccess(virt, PML4), PML4) == 511
    ensures IndexBits(FractalAccess(virt, PML4), PDP) == 511
    ensures IndexBits(FractalAccess(virt, PML4), PD) == 511
    ensures IndexBits(FractalAccess(virt, PML4), PT) == 511
  {
  }

  lemma FractalPdp(virt: bv64)
    requires Aligned(virt)
    ensures IndexBits(FractalAccess(virt, PDP), PML4) == 511
    ensures IndexBits(FractalAccess(virt, PDP), PDP) == 511
    ensures IndexBits(FractalAccess(virt, PDP), PD) == 511
    ensures IndexBits(FractalAccess(virt, PDP), PT) == IndexBits(virt, PML4)
  {
  }

  lemma FractalPd(virt: bv64)
    requires Aligned(virt)
    ensures IndexBits(FractalAccess(virt, PD), PML4) == 511
    ensures IndexBits(FractalAccess(virt, PD), PDP) == 511
    ensures IndexBits(FractalAccess(virt, PD), PD) == IndexBits(virt, PML4)
    ensures IndexBits(FractalAccess(virt, PD), PT) == IndexBits(virt, PDP)
  {
  }

  lemma FractalPt(virt: bv64)
    requires Aligned(virt)
    ensures IndexBits(FractalAccess(virt, PT), PML4) == 511
    ensures IndexBits(FractalAccess(virt, PT), PDP) == IndexBits(virt, PML4)
    ensures IndexBits(FractalAccess(virt, PT), PD) == IndexBits(virt, PDP)
    ensures IndexBits(FractalAccess(virt, PT), PT) == IndexBits(virt, PD)
  {
  }

  /** A self-map address is a multiple of 4096 in the upper half, so it is never
      the address of a physical table. */
  lemma FractalIsNoTable(virt: bv64, level: Level)
    ensures FractalAccess(virt, level) & 0xFFF == 0
    ensures !Aligned(FractalAccess(virt, level))
    ensures FractalAccess(virt, level) != 0
  {
    assert level == 0 || level == 1 || level == 2 || level == 3;
  }

  // ----- pointers to words

  /** `&table[i]` */
  function WordPointer(table: bv64, i: bv64): bv64 {
    table + (i << 3)
  }

  /** The page and the slot that a word pointer addresses. */
  function PageOf(ptr: bv64): bv64 {
    ptr & !0xFFF
  }

  function SlotBits(ptr: bv64): (i: bv64)
    ensures i <= 511
  {
    (ptr >> 3) & 0x1FF
  }

  lemma PointerPage(table: bv64, i: bv64)
    requires table & 0xFFF == 0 && i <= 511
    ensures PageOf(WordPointer(table, i)) == table
  {
  }

  lemma PointerSlot(table: bv64, i: bv64)
    requires table & 0xFFF == 0 && i <= 511
    ensures SlotBits(WordPointer(table, i)) == i
  {
  }

  lemma PointerIndices(table: bv64, i: bv64, level: Level)
    requires table & 0xFFF == 0 && i <= 511
    ensures IndexBits(WordPointer(table, i), level) == IndexBits(table, level)
  {
    PointerPage(table, i);
    OffsetIgnored(WordPointer(table, i), level);
  }

  lemma OffsetIgnored(ptr: bv64, level: Level)
    ensures IndexBits(ptr, level) == IndexBits(PageOf(ptr), level)
  {
    assert level == 0 || level == 1 || level == 2 || level == 3;
  }

  lemma AlignedLow(page: bv64)
    requires Aligned(page)
    ensures page & 0xFFF == 0
  {
  }
}
