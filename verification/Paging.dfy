/** kernel/src/memory/paging.c, lines 69-294: the code that edits page tables, by
    physical address when it is given a PML4 and through the self-map when it is
    given NULL. */
module Paging {
  import opened PageWords
  import opened PageTree
  import opened PageNumbers
  import opened SelfMap
  import AddressSpace
  import PagingRuns

  datatype Location = NoAccess | Word(page: PageAddr, slot: nat)

  /** Where the processor finds the word behind a kernel pointer: before paging is
      enabled a pointer is a physical address, later it is translated first. */
  function Locate(mem: Memory, root: PageAddr, frac: bool, ptr: bv64): Location {
    var slot := ToSlot(SlotBits(ptr));
    if !frac then Word(PageAddr(PageOf(ptr)), slot)
    else match Translate(mem, root, ptr)
      case Mapped(page, writable, _, _) => if writable then Word(PageAddr(page), slot) else NoAccess
      case _ => NoAccess
  }

  /** The pointer by which the code reaches virt's table of the given level. */
  function TablePtr(tables: Tables, frac: bool, virt: bv64, level: Level): bv64
    requires PathTo(virt, level) in tables
  {
    if frac then FractalAccess(virt, level) else tables[PathTo(virt, level)].bits
  }

  function EntryPtr(tables: Tables, frac: bool, virt: bv64, level: Level): bv64
    requires PathTo(virt, level) in tables
  {
    WordPointer(TablePtr(tables, frac, virt, level), IndexBits(virt, level))
  }

  lemma PointerTranslates(mem: Memory, root: PageAddr, table: bv64, i: bv64)
    requires table & 0xFFF == 0 && i <= 511
    ensures Translate(mem, root, WordPointer(table, i)) == Translate(mem, root, table)
  {
    PointerIndices(table, i, PT);
    PointerIndices(table, i, PD);
    PointerIndices(table, i, PDP);
    PointerIndices(table, i, PML4);
    assert At(WordPointer(table, i)) == At(table);
  }

  /** Both kinds of pointer reach the same physical word. */
  lemma EntryLocated(mem: Memory, tables: Tables, frac: bool, virt: bv64, level: Level)
    requires Aligned(virt) && Linked(mem, tables, virt, level) && PathTo(virt, level) in tables
    requires Aligned(tables[PathTo(virt, level)].bits)
    ensures Locate(mem, tables[Root], frac, EntryPtr(tables, frac, virt, level)) ==
            Word(tables[PathTo(virt, level)], Index(virt, level))
  {
    var table, i := TablePtr(tables, frac, virt, level), IndexBits(virt, level);
    if frac {
      FractalIsNoTable(virt, level);
      PointerTranslates(mem, tables[Root], table, i);
      FractalAccessFindsTable(mem, tables, virt, level);
    } else {
      AlignedLow(table);
      PointerPage(table, i);
    }
    PointerSlot(table, i);
  }

  lemma EntryReached(mem: Memory, tables: Tables, frac: bool, virt: bv64, level: Level)
    requires Tree(mem, tables) && Aligned(virt) && Ordinary(virt) && PathTo(virt, level) in tables
    ensures tables[PathTo(virt, level)] in mem
    ensures Locate(mem, tables[Root], frac, EntryPtr(tables, frac, virt, level)) ==
            Word(tables[PathTo(virt, level)], Index(virt, level))
  {
    TreeIsLinked(mem, tables, virt, level);
    EntryLocated(mem, tables, frac, virt, level);
  }

  lemma TableLocated(mem: Memory, tables: Tables, frac: bool, virt: bv64, level: Level)
    requires Aligned(virt) && Linked(mem, tables, virt, level) && PathTo(virt, level) in tables
    requires Aligned(tables[PathTo(virt, level)].bits)
    ensures var at := Locate(mem, tables[Root], frac, TablePtr(tables, frac, virt, level));
      at.Word? && at.page == tables[PathTo(virt, level)]
  {
    var table := TablePtr(tables, frac, virt, level);
    if frac {
      FractalAccessFindsTable(mem, tables, virt, level);
    } else {
      AlignedPage(table);
    }
  }

  lemma AlignedPage(page: bv64)
    requires Aligned(page)
    ensures PageOf(page) == page
  {
  }

  // ----- the memory between the stores of one hung-in table

  ghost predicate Lacks(mem: Memory, tables: Tables, virt: bv64, level: Level) {
    && Tree(mem, tables) && Ordinary(virt) && Aligned(virt)
    && level < PML4 && PathTo(virt, level + 1) in tables && PathTo(virt, level) !in tables
  }

  /** paging.c:91, 118 and 148 */
  function Entered(mem: Memory, tables: Tables, virt: bv64, level: Level, page: PageAddr): Memory
    requires level < PML4 && PathTo(virt, level + 1) in tables && tables[PathTo(virt, level + 1)] in mem
  {
    Write(mem, tables[PathTo(virt, level + 1)], Index(virt, level + 1), TableEntry(page.bits))
  }

  lemma EnteredLocatesTable(mem: Memory, tables: Tables, frac: bool, virt: bv64, level: Level, page: PageAddr)
    requires Lacks(mem, tables, virt, level) && Aligned(page.bits)
    ensures var at := Locate(Entered(mem, tables, virt, level, page), tables[Root], frac,
                             if frac then FractalAccess(virt, level) else page.bits);
      at.Word? && at.page == page
  {
    EnteredIsLinked(mem, tables, virt, level, page);
    TableLocated(Entered(mem, tables, virt, level, page), tables[PathTo(virt, level) := page], frac, virt, level);
  }

  lemma ClearedLocatesAbove(mem: Memory, tables: Tables, frac: bool, virt: bv64, level: Level, page: PageAddr)
    requires Lacks(mem, tables, virt, level) && level < PDP && page !in tables.Values
    requires PathTo(virt, level + 2) in tables
    ensures Locate(Entered(mem, tables, virt, level, page)[page := ZeroPage()], tables[Root], frac,
                   EntryPtr(tables, frac, virt, level + 2)) ==
            Word(tables[PathTo(virt, level + 2)], Index(virt, level + 2))
    ensures tables[PathTo(virt, level + 2)] in Entered(mem, tables, virt, level, page)
  {
    ClearedIsLinked(mem, tables, virt, level, page);
    EntryLocated(Entered(mem, tables, virt, level, page)[page := ZeroPage()], tables, frac, virt, level + 2);
  }

  lemma StoresCommute(mem: Memory, a: PageAddr, x: Page, b: PageAddr, y: Page)
    requires a != b
    ensures mem[a := x][b := y] == mem[b := y][a := x]
  {
  }

  lemma AttachIsAdjust(mem: Memory, tables: Tables, p: Path, slot: nat, page: PageAddr)
    requires Shape(tables) && Placed(mem, tables) && p in tables && slot < 512
    requires tables[p] != page && !Present(mem[tables[p]][slot]) && Present(TableEntry(page.bits))
    ensures var cleared := Write(mem, tables[p], slot, TableEntry(page.bits))[page := ZeroPage()];
      Attach(mem, tables, p, slot, page) ==
      if p.Root? then cleared
      else
        var above := cleared[tables[p.up]][p.slot];
        Write(cleared, tables[p.up], p.slot, Increment(above))
  {
    StoresCommute(mem, tables[p], mem[tables[p]][slot := TableEntry(page.bits)], page, ZeroPage());
  }

  /** The entry of a missing table is clear, and the entry for a new one is not. */
  lemma LackingEntry(mem: Memory, tables: Tables, virt: bv64, level: Level, page: PageAddr)
    requires Lacks(mem, tables, virt, level) && Aligned(page.bits)
    ensures !Present(mem[tables[PathTo(virt, level + 1)]][Index(virt, level + 1)])
    ensures Present(TableEntry(page.bits))
    ensures level < PDP ==> PathTo(virt, level + 2) in tables
  {
    assert EntryOk(mem, tables, PathTo(virt, level + 1), Index(virt, level + 1));
    ZeroNotPresent();
    NewEntry(page.bits);
    LeadsBits(TableEntry(page.bits), page.bits);
    TablesOnTheWay(tables, virt, level + 1);
  }

  /** The stores of the block add up to Attach. */
  lemma HangInAttaches(mem: Memory, tables: Tables, virt: bv64, level: Level, page: PageAddr)
    requires Lacks(mem, tables, virt, level) && Aligned(page.bits) && page !in tables.Values
    requires level < PDP ==> PathTo(virt, level + 2) in tables
    ensures var cleared := Entered(mem, tables, virt, level, page)[page := ZeroPage()];
      Attach(mem, tables, PathTo(virt, level + 1), Index(virt, level + 1), page) ==
      if level < PDP then
        var up, j := tables[PathTo(virt, level + 2)], Index(virt, level + 2);
        Write(cleared, up, j, Increment(cleared[up][j]))
      else cleared
  {
    LackingEntry(mem, tables, virt, level, page);
    assert tables[PathTo(virt, level + 1)] in tables.Values;
    AttachIsAdjust(mem, tables, PathTo(virt, level + 1), Index(virt, level + 1), page);
  }

  // ----- the memory between the stores of one leaf entry

  /** Memory after a store to virt's entry of the given level. */
  function Put(mem: Memory, tables: Tables, virt: bv64, level: Level, e: bv64): Memory {
    var p := PathTo(virt, level);
    if p in tables && tables[p] in mem then Write(mem, tables[p], Index(virt, level), e) else mem
  }

  /** The code's pointer to virt's entry of the given level reaches that entry. */
  ghost predicate Reaches(mem: Memory, tables: Tables, frac: bool, virt: bv64, level: Level) {
    var p := PathTo(virt, level);
    && p in tables && Root in tables && tables[p] in mem
    && Locate(mem, tables[Root], frac, EntryPtr(tables, frac, virt, level)) == Word(tables[p], Index(virt, level))
  }

  ghost predicate HasTable(mem: Memory, tables: Tables, virt: bv64, level: Level) {
    Tree(mem, tables) && Ordinary(virt) && Aligned(virt) && PathTo(virt, level) in tables
  }

  ghost predicate LeadsToTable(above: bv64, tables: Tables, virt: bv64, level: Level) {
    PathTo(virt, level) in tables && Leads(above, tables[PathTo(virt, level)].bits)
  }

  /** After a store to virt's entry of a level, the entry above is within reach. */
  lemma WrittenReaches(mem: Memory, tables: Tables, frac: bool, virt: bv64, level: Level, e: bv64)
    requires HasTable(mem, tables, virt, level) && level < PML4
    ensures Reaches(Put(mem, tables, virt, level, e), tables, frac, virt, level + 1)
  {
    hide Index, Locate, EntryPtr, Linked, EntriesOk, Aligned, Distinct;
    var written := Put(mem, tables, virt, level, e);
    TablesOnTheWay(tables, virt, level);
    TreeIsLinked(mem, tables, virt, level + 1);
    WriteKeepsWay(mem, tables, virt, level, e);
    assert SameWay(mem, written, tables, virt, level + 1);
    LinkedKept(mem, written, tables, virt, level + 1);
    EntryLocated(written, tables, frac, virt, level + 1);
  }

  /** After a store to the entry above that still leads down, virt's entry is. */
  lemma RelinkedReaches(mem: Memory, tables: Tables, frac: bool, virt: bv64, level: Level, above: bv64)
    requires HasTable(mem, tables, virt, level) && level < PML4
    requires LeadsToTable(above, tables, virt, level)
    ensures Reaches(Put(mem, tables, virt, level + 1, above), tables, frac, virt, level)
  {
    hide Index, Locate, EntryPtr, Linked, EntriesOk, Aligned, Distinct;
    var written := Put(mem, tables, virt, level + 1, above);
    TablesOnTheWay(tables, virt, level);
    TreeIsLinked(mem, tables, virt, level + 1);
    WriteKeepsWay(mem, tables, virt, level + 1, above);
    LinkedKept(mem, written, tables, virt, level + 1);
    LinkedFurther(written, tables, virt, level);
    EntryLocated(written, tables, frac, virt, level);
  }

  /** virt's entry of the given level. */
  function EntryOf(mem: Memory, tables: Tables, virt: bv64, level: Level): bv64 {
    var p := PathTo(virt, level);
    if p in tables && tables[p] in mem then mem[tables[p]][Index(virt, level)] else 0
  }

  lemma WritesCommute(mem: Memory, a: PageAddr, i: nat, x: bv64, b: PageAddr, j: nat, y: bv64)
    requires a in mem && b in mem && a != b && i < 512 && j < 512
    ensures Write(Write(mem, a, i, x), b, j, y) == Write(Write(mem, b, j, y), a, i, x)
  {
    StoresCommute(mem, a, mem[a][i := x], b, mem[b][j := y]);
  }

  lemma PutApart(mem: Memory, tables: Tables, virt: bv64, level: Level, e: bv64, above: bv64)
    requires Shape(tables) && Distinct(tables) && Placed(mem, tables) && PathTo(virt, level) in tables && level < PML4
    ensures EntryOf(Put(mem, tables, virt, level, e), tables, virt, level + 1) == EntryOf(mem, tables, virt, level + 1)
    ensures EntryOf(Put(mem, tables, virt, level + 1, above), tables, virt, level) == EntryOf(mem, tables, virt, level)
    ensures Put(Put(mem, tables, virt, level, e), tables, virt, level + 1, above) ==
            Put(Put(mem, tables, virt, level + 1, above), tables, virt, level, e)
  {
    hide Index, Aligned;
    WayDown(tables, virt, level, level + 1);
    WritesCommute(mem, tables[PathTo(virt, level)], Index(virt, level), e,
                  tables[PathTo(virt, level + 1)], Index(virt, level + 1), above);
  }

  lemma EntryKept(mem: Memory, tables: Tables, virt: bv64, level: Level, e: bv64)
    requires HasTable(mem, tables, virt, level) && level < PML4
    ensures EntryOf(Put(mem, tables, virt, level, e), tables, virt, level + 1) == EntryOf(mem, tables, virt, level + 1)
  {
    PutApart(mem, tables, virt, level, e, e);
  }

  lemma TableAbove(mem: Memory, tables: Tables, virt: bv64, level: Level)
    requires HasTable(mem, tables, virt, level) && level < PML4
    ensures HasTable(mem, tables, virt, level + 1)
  {
    TablesOnTheWay(tables, virt, level);
  }

  /** The entry above an existing table. */
  lemma AboveLeads(mem: Memory, tables: Tables, virt: bv64, level: Level)
    requires HasTable(mem, tables, virt, level) && level < PML4
    ensures var a := EntryOf(mem, tables, virt, level + 1);
      && LeadsToTable(a, tables, virt, level) && Present(a)
      && PathTo(virt, level + 1) in tables
      && Subcount(a) == Used(mem[tables[PathTo(virt, level)]])
      && (Subcount(a) < 1023 ==> LeadsToTable(Increment(a), tables, virt, level))
  {
    var a := EntryOf(mem, tables, virt, level + 1);
    TablesOnTheWay(tables, virt, level);
    assert EntryOk(mem, tables, PathTo(virt, level + 1), Index(virt, level + 1));
    LeadsBits(a, tables[PathTo(virt, level)].bits);
    if Subcount(a) < 1023 {
      Incremented(a, tables[PathTo(virt, level)].bits, Subcount(a));
    }
  }

  /** The stores of paging.c:172-178 add up to SetLeaf. */
  lemma SetLeafStores(mem: Memory, tables: Tables, virt: bv64, e: bv64)
    requires HasTable(mem, tables, virt, PT) && Present(e)
    ensures SetLeaf(mem, tables, virt, e) ==
            if Present(EntryOf(mem, tables, virt, PT)) then Put(mem, tables, virt, PT, e)
            else Put(Put(mem, tables, virt, PD, Increment(EntryOf(mem, tables, virt, PD))), tables, virt, PT, e)
  {
    hide Index, EntriesOk, Aligned, Present;
    TablesOnTheWay(tables, virt, PT);
    PutApart(mem, tables, virt, PT, e, Increment(EntryOf(mem, tables, virt, PD)));
    assert PathTo(virt, PT) == Child(PathTo(virt, PD), Index(virt, PD));
  }

  /** ... and those of paging.c:246-249 to clearing the leaf. */
  lemma ClearLeafStores(mem: Memory, tables: Tables, virt: bv64)
    requires HasTable(mem, tables, virt, PT) && Present(EntryOf(mem, tables, virt, PT))
    ensures SetLeaf(mem, tables, virt, 0) ==
            Put(Put(mem, tables, virt, PT, 0), tables, virt, PD, Decrement(EntryOf(mem, tables, virt, PD)))
  {
    ZeroNotPresent();
    hide Index, EntriesOk, Aligned, Present;
    TablesOnTheWay(tables, virt, PT);
    PutApart(mem, tables, virt, PT, 0, 0);
    assert PathTo(virt, PT) == Child(PathTo(virt, PD), Index(virt, PD));
  }

  /** ... and those of paging.c:257-260, 268-271 and 279 to Detach. */
  lemma DetachStores(mem: Memory, tables: Tables, virt: bv64, level: Level)
    requires HasTable(mem, tables, virt, level) && level < PML4
    ensures Detach(mem, tables, PathTo(virt, level)) ==
            if level == PDP then Put(mem, tables, virt, PML4, 0)
            else Put(Put(mem, tables, virt, level + 1, 0), tables, virt, level + 2,
                     Decrement(EntryOf(mem, tables, virt, level + 2)))
  {
    ZeroNotPresent();
    AboveLeads(mem, tables, virt, level);
    TablesOnTheWay(tables, virt, level);
    assert PathTo(virt, level) == Child(PathTo(virt, level + 1), Index(virt, level + 1));
    if level < PDP {
      PutApart(mem, tables, virt, level + 1, 0, 0);
    }
    AdjustIsPut(mem, tables, virt, level + 1, 0);
  }

  /** Adjust in terms of stores, for a present entry that is cleared. */
  lemma AdjustIsPut(mem: Memory, tables: Tables, virt: bv64, level: Level, e: bv64)
    requires Shape(tables) && Distinct(tables) && Placed(mem, tables) && PathTo(virt, level) in tables
    requires !Present(e) && Present(EntryOf(mem, tables, virt, level))
    ensures Adjust(mem, tables, PathTo(virt, level), Index(virt, level), e) ==
            if level == PML4 then Put(mem, tables, virt, PML4, e)
            else Put(Put(mem, tables, virt, level, e), tables, virt, level + 1,
                     Decrement(EntryOf(mem, tables, virt, level + 1)))
  {
    hide Index, Aligned, Present;
    if level < PML4 {
      PutApart(mem, tables, virt, level, e, 0);
      TablesOnTheWay(tables, virt, level);
      assert PathTo(virt, level) == Child(PathTo(virt, level + 1), Index(virt, level + 1));
    }
  }

  lemma TopTable(tables: Tables, frac: bool, virt: bv64)
    requires Root in tables
    ensures PathTo(virt, PML4) == Root
    ensures TablePtr(tables, frac, virt, PML4) == if frac then FractalAccess(virt, PML4) else tables[Root].bits
  {
  }

  lemma SamePointer(tables: Tables, frac: bool, virt: bv64, level: Level, page: PageAddr)
    requires level < PML4 && PathTo(virt, level + 1) in tables
    ensures var grown := tables[PathTo(virt, level) := page];
      && PathTo(virt, level + 1) in grown
      && EntryPtr(grown, frac, virt, level + 1) == EntryPtr(tables, frac, virt, level + 1)
    ensures PathTo(virt, level) == Child(PathTo(virt, level + 1), Index(virt, level + 1))
  {
    hide Index, FractalAccess, IndexBits;
    assert Depth(PathTo(virt, level)) != Depth(PathTo(virt, level + 1));
  }

  lemma TablePage(tables: Tables, frac: bool, virt: bv64, level: Level)
    requires PathTo(virt, level) in tables
    ensures !frac ==> tables[PathTo(virt, level)] == PageAddr(TablePtr(tables, frac, virt, level))
  {
  }

  lemma EntryWithout(mem: Memory, tables: Tables, virt: bv64, level: Level, k: Level)
    requires level < k
    ensures EntryOf(mem, tables - {PathTo(virt, level)}, virt, k) == EntryOf(mem, tables, virt, k)
  {
    hide Index;
    assert Depth(PathTo(virt, k)) != Depth(PathTo(virt, level));
  }

  /** s is sound but for virt's table of the given level, and pruning from there leads
      to `target`. */
  ghost predicate Pruning(s: AddressSpace.State, cr3: PageAddr, target: AddressSpace.State, virt: bv64,
                          level: Level, explicit: bool)
  {
    && AddressSpace.Sound(s, PathTo(virt, level)) && PathTo(virt, level) in s.tables
    && Root in s.tables && s.tables[Root] == cr3
    && AddressSpace.Prune(s, PathTo(virt, level), explicit) == target
  }

  class Mmu {
    const cr3: PageAddr
    var mem: Memory
    var held: set<PageAddr>
    var free: set<PageAddr>
    ghost var tables: Tables

    /** paging_init_pml4 (lines 13-17) for a PML4 that is switched to: nothing is mapped
        yet but the PML4 itself. */
    constructor (mem: Memory, pml4: PageAddr, free: set<PageAddr>)
      requires Aligned(pml4.bits) && pml4 !in free
      requires forall page :: page in free ==> page in mem && Aligned(page.bits)
      ensures Valid() && AddressSpace.Conserved(State())
      ensures cr3 == pml4 && this.mem == InitPml4(mem, pml4) && this.tables == map[Root := pml4]
      ensures this.held == {} && this.free == free
    {
      cr3 := pml4;
      this.mem := InitPml4(mem, pml4);
      this.held, this.free := {}, free;
      tables := map[Root := pml4];
      new;
      InitIsTree(mem, pml4);
      assert tables.Values == {pml4};
    }

    ghost function State(): AddressSpace.State
      reads this
    {
      AddressSpace.State(mem, tables, held, free)
    }

    ghost predicate Valid()
      reads this
    {
      AddressSpace.Sound(State(), Root) && tables[Root] == cr3
    }

    /** `ptr` is the code's pointer to virt's entry of the given level. */
    ghost predicate IsEntry(ptr: bv64, frac: bool, virt: bv64, level: Level)
      reads this`tables
    {
      PathTo(virt, level) in tables && ptr == EntryPtr(tables, frac, virt, level)
    }

    /** The state is s grown down to the given level. */
    ghost predicate GrownTo(s: AddressSpace.State, virt: bv64, level: Level, given: seq<PageAddr>)
      reads this
    {
      && AddressSpace.Sound(s, Root) && Ordinary(virt) && AddressSpace.Ready(s, virt, level, given)
      && State() == AddressSpace.Grow(s, virt, level, given)
    }

    method Load(frac: bool, ptr: bv64) returns (e: bv64)
      requires var at := Locate(mem, cr3, frac, ptr); at.Word? && at.page in mem
      ensures var at := Locate(mem, cr3, frac, ptr); e == mem[at.page][at.slot]
    {
      var at := Locate(mem, cr3, frac, ptr);
      e := mem[at.page][at.slot];
    }

    method Store(frac: bool, ptr: bv64, e: bv64)
      requires var at := Locate(mem, cr3, frac, ptr); at.Word? && at.page in mem
      modifies this`mem
      ensures var at := Locate(old(mem), cr3, frac, ptr); mem == Write(old(mem), at.page, at.slot, e)
    {
      var at := Locate(mem, cr3, frac, ptr);
      mem := Write(mem, at.page, at.slot, e);
    }

    /** memset(table, 0, PAGING_TABLE_SIZE) */
    method Clear(frac: bool, table: bv64)
      requires Locate(mem, cr3, frac, table).Word?
      modifies this`mem
      ensures mem == old(mem)[Locate(old(mem), cr3, frac, table).page := ZeroPage()]
    {
      mem := mem[Locate(mem, cr3, frac, table).page := ZeroPage()];
    }

    /** palloc_alloc(1), which happens to choose `page`. */
    method TakePage(page: PageAddr)
      requires page in free
      modifies this`held, this`free
      ensures held == old(held) + {page} && free == old(free) - {page}
    {
      held, free := held + {page}, free - {page};
    }

    /** palloc_free(page, 1): it changes nothing for the address of a table in the self-map
        (KernelMemory.SelfMapIsNotManaged, PageAllocator.PageAllocator.Free). */
    method GiveBack(page: PageAddr)
      modifies this`held, this`free
      ensures page in old(held) ==> held == old(held) - {page} && free == old(free) + {page}
      ensures page !in old(held) ==> held == old(held) && free == old(free)
    {
      if page in held {
        held, free := held - {page}, free + {page};
      }
    }

    lemma PresentIsTable(virt: bv64, level: Level)
      requires Tree(mem, tables) && Ordinary(virt) && level < PML4 && PathTo(virt, level + 1) in tables
      ensures var e := mem[tables[PathTo(virt, level + 1)]][Index(virt, level + 1)];
        && (Present(e) <==> PathTo(virt, level) in tables)
        && (Present(e) ==> Address(e) == tables[PathTo(virt, level)].bits)
    {
      var e := mem[tables[PathTo(virt, level + 1)]][Index(virt, level + 1)];
      assert EntryOk(mem, tables, PathTo(virt, level + 1), Index(virt, level + 1));
      if PathTo(virt, level) in tables {
        LeadsBits(e, tables[PathTo(virt, level)].bits);
      } else {
        ZeroNotPresent();
      }
    }

    /** The table is missing: enter it, clear it, and count it above unless it is a
        PDP.  Every access has to reach a writable word. */
    method HangIn(frac: bool, entry: bv64, table: bv64, counted: bool, above: bv64, page: PageAddr)
      requires page in free
      requires var at := Locate(mem, cr3, frac, entry); at.Word? && at.page in mem
      requires var at := Locate(mem, cr3, frac, entry);
        Locate(Write(mem, at.page, at.slot, TableEntry(page.bits)), cr3, frac, table).Word?
      requires var at := Locate(mem, cr3, frac, entry);
        var entered := Write(mem, at.page, at.slot, TableEntry(page.bits));
        var cleared := entered[Locate(entered, cr3, frac, table).page := ZeroPage()];
        counted ==> Locate(cleared, cr3, frac, above).Word? && Locate(cleared, cr3, frac, above).page in cleared
      modifies this`mem, this`held, this`free
      ensures held == old(held) + {page} && free == old(free) - {page}
      ensures var at := Locate(old(mem), cr3, frac, entry);
        var entered := Write(old(mem), at.page, at.slot, TableEntry(page.bits));
        var cleared := entered[Locate(entered, cr3, frac, table).page := ZeroPage()];
        var up := Locate(cleared, cr3, frac, above);
        mem == if counted then Write(cleared, up.page, up.slot, Increment(cleared[up.page][up.slot])) else cleared
    {
      TakePage(page);
      Store(frac, entry, TableEntry(page.bits));
      Clear(frac, table);
      if counted {
        var a := Load(frac, above);
        Store(frac, above, Increment(a));
      }
    }

    /** HangIn for virt's missing table of the given level. */
    method MakeTable(frac: bool, virt: bv64, level: Level, entry: bv64, above: bv64, page: PageAddr)
      returns (table: bv64)
      requires Lacks(mem, tables, virt, level) && tables[Root] == cr3
      requires Locate(mem, cr3, frac, entry) == Word(tables[PathTo(virt, level + 1)], Index(virt, level + 1))
      requires level < PDP ==> PathTo(virt, level + 2) in tables && above == EntryPtr(tables, frac, virt, level + 2)
      requires page in free && Aligned(page.bits) && page !in tables.Values
      modifies this`mem, this`held, this`free, this`tables
      ensures State() == AddressSpace.EnsureTable(old(State()), PathTo(virt, level + 1), Index(virt, level + 1), page)
      ensures PathTo(virt, level) in tables && table == TablePtr(tables, frac, virt, level)
    {
      HangInAttaches(mem, tables, virt, level, page);
      EnteredLocatesTable(mem, tables, frac, virt, level, page);
      if level < PDP {
        ClearedLocatesAbove(mem, tables, frac, virt, level, page);
      }
      table := if frac then FractalAccess(virt, level) else page.bits;
      HangIn(frac, entry, table, level < PDP, above, page);
      tables := tables[PathTo(virt, level) := page];
    }

    /** The table is there. */
    method FindTable(frac: bool, virt: bv64, level: Level, e: bv64, ghost page: PageAddr) returns (table: bv64)
      requires Tree(mem, tables) && level < PML4 && PathTo(virt, level + 1) in tables && PathTo(virt, level) in tables
      requires Address(e) == tables[PathTo(virt, level)].bits
      ensures State() == AddressSpace.EnsureTable(State(), PathTo(virt, level + 1), Index(virt, level + 1), page)
      ensures table == TablePtr(tables, frac, virt, level)
    {
      table := if frac then FractalAccess(virt, level) else Address(e);
    }

    /** The block that paging_map has three times over (lines 85-109, 112-139 and
        142-169): make virt's table of the given level if it is missing, and return
        the pointer to it.  `entry` is the pointer to virt's entry one level up and
        `above` the pointer to the entry above that one. */
    method EnsureTable(frac: bool, virt: bv64, level: Level, entry: bv64, above: bv64, page: PageAddr)
      returns (table: bv64)
      requires level < PML4 && Tree(mem, tables) && Aligned(virt) && Ordinary(virt) && tables[Root] == cr3
      requires IsEntry(entry, frac, virt, level + 1)
      requires level < PDP ==> IsEntry(above, frac, virt, level + 2)
      requires PathTo(virt, level) !in tables ==> page in free && Aligned(page.bits) && page !in tables.Values
      modifies this`mem, this`held, this`free, this`tables
      ensures State() == AddressSpace.EnsureTable(old(State()), PathTo(virt, level + 1), Index(virt, level + 1), page)
      ensures PathTo(virt, level) in tables && table == TablePtr(tables, frac, virt, level)
    {
      hide Tree, Ordinary, Index, TablePtr, Locate, EntryPtr, Present, Address, Aligned;
      hide AddressSpace.EnsureTable;
      EntryReached(mem, tables, frac, virt, level + 1);
      PresentIsTable(virt, level);
      var e := Load(frac, entry);
      if !Present(e) {
        table := MakeTable(frac, virt, level, entry, above, page);
      } else {
        table := FindTable(frac, virt, level, e, page);
      }
    }

    /** paging.c:172-178: count the page unless it was mapped, and enter it. */
    method SetEntry(frac: bool, virt: bv64, pde: bv64, pte: bv64, e: bv64)
      requires HasTable(mem, tables, virt, PT) && Root in tables && tables[Root] == cr3 && Present(e)
      requires IsEntry(pte, frac, virt, PT) && IsEntry(pde, frac, virt, PD)
      modifies this`mem
      ensures mem == SetLeaf(old(mem), tables, virt, e)
    {
      hide Index, Aligned, Present, Locate, EntryPtr, SetLeaf, Tree, IndexBits, Ordinary;
      SetLeafStores(mem, tables, virt, e);
      EntryReached(mem, tables, frac, virt, PT);
      var was := Load(frac, pte);
      if !Present(was) {
        CountEntry(frac, virt, pde);
      }
      StoreEntry(frac, virt, PT, pte, e);
    }

    method StoreEntry(frac: bool, virt: bv64, level: Level, entry: bv64, e: bv64)
      requires Root in tables && tables[Root] == cr3
      requires Reaches(mem, tables, frac, virt, level) && IsEntry(entry, frac, virt, level)
      modifies this`mem
      ensures mem == Put(old(mem), tables, virt, level, e)
    {
      Store(frac, entry, e);
    }

    method CountEntry(frac: bool, virt: bv64, pde: bv64)
      requires HasTable(mem, tables, virt, PT) && tables[Root] == cr3
      requires IsEntry(pde, frac, virt, PD)
      modifies this`mem
      ensures mem == Put(old(mem), tables, virt, PD, Increment(EntryOf(old(mem), tables, virt, PD)))
      ensures Reaches(mem, tables, frac, virt, PT)
    {
      hide Index, EntriesOk, Aligned, Present, Locate, EntryPtr, Leads, Shape, Distinct, IndexBits;
      EntryReached(mem, tables, frac, virt, PD);
      AboveLeads(mem, tables, virt, PT);
      UsedBound(mem[tables[PathTo(virt, PT)]]);
      var d := Load(frac, pde);
      RelinkedReaches(mem, tables, frac, virt, PT, Increment(d));
      Store(frac, pde, Increment(d));
    }

    /** One level of paging_map. */
    method GrowDown(frac: bool, virt: bv64, level: Level, entry: bv64, above: bv64, given: seq<PageAddr>,
                    ghost s: AddressSpace.State) returns (table: bv64)
      requires level < PML4 && Aligned(virt) && Root in s.tables && s.tables[Root] == cr3 && |given| == 3
      requires GrownTo(s, virt, level + 1, given) && AddressSpace.Ready(s, virt, level, given)
      requires IsEntry(entry, frac, virt, level + 1)
      requires level < PDP ==> IsEntry(above, frac, virt, level + 2)
      modifies this`mem, this`held, this`free, this`tables
      ensures GrownTo(s, virt, level, given)
      ensures PathTo(virt, level) in tables && table == TablePtr(tables, frac, virt, level)
      ensures IsEntry(entry, frac, virt, level + 1)
    {
      hide Index, Aligned, Present, IndexBits, Tree, Ordinary, TablePtr, EntryPtr;
      hide AddressSpace.Grown, AddressSpace.Sound, AddressSpace.Ready;
      AddressSpace.GrowNext(s, virt, level, given);
      SamePointer(tables, frac, virt, level, given[level]);
      table := EnsureTable(frac, virt, level, entry, above, given[level]);
    }

    /** paging_map (lines 69-182); `given` holds the pages that palloc_alloc hands
        out for tables of each level. */
    method Map(pml4: bv64, virt: bv64, phy: bv64, flags: bv64, given: seq<PageAddr>)
      requires Valid() && cr3.bits != 0 && (pml4 == 0 || pml4 == cr3.bits)
      requires AddressSpace.Mappable(State(), virt, given)
      modifies this`mem, this`held, this`free, this`tables
      ensures Valid()
      ensures State() == AddressSpace.Map(old(State()), virt, phy, flags, given)
      ensures PathTo(virt, PT) in tables && tables[PathTo(virt, PT)] in mem
      ensures AsAsked(mem[tables[PathTo(virt, PT)]][Index(virt, PT)], phy, flags)
    {
      hide Index, Aligned, Present, IndexBits, TablePtr, SetLeaf, Tree, Ordinary, AsAsked;
      hide AddressSpace.Grow, AddressSpace.Grown, AddressSpace.Sound, AddressSpace.Ready, AddressSpace.SameElsewhere;
      hide AddressSpace.LeafUpdated;
      var frac := pml4 == 0;
      var v := Address(virt);
      ghost var s := State();
      AddressIsAligned(virt);
      AddressSpace.GrowStart(s, virt, given);
      AddressSpace.GrowEnd(s, virt, given);
      AddressSpace.MapState(s, virt, phy, flags, given);
      PagingRuns.MapStores(s, virt, phy, flags, given);
      TopTable(tables, frac, v);
      var top := if frac then FractalAccess(v, PML4) else pml4;
      var pml4e := WordPointer(top, IndexBits(v, PML4));
      var pdp := GrowDown(frac, v, PDP, pml4e, pml4e, given, s);
      var pdpe := WordPointer(pdp, IndexBits(v, PDP));
      var pd := GrowDown(frac, v, PD, pdpe, pml4e, given, s);
      var pde := WordPointer(pd, IndexBits(v, PD));
      var pt := GrowDown(frac, v, PT, pde, pdpe, given, s);
      var pte := WordPointer(pt, IndexBits(v, PT));
      LeafWordFlags(phy, flags);
      SetEntry(frac, v, pde, pte, LeafWord(phy, flags));
    }

    /** One of the look-ups of paging_unmap (lines 208-226): is virt's table of the
        given level there, and how is it reached? */
    method Descend(frac: bool, virt: bv64, level: Level, entry: bv64) returns (present: bool, table: bv64)
      requires level < PML4 && HasTable(mem, tables, virt, level + 1)
      requires Root in tables && tables[Root] == cr3 && IsEntry(entry, frac, virt, level + 1)
      ensures present <==> PathTo(virt, level) in tables
      ensures present ==> table == TablePtr(tables, frac, virt, level)
    {
      hide Index, TablePtr, Locate, EntryPtr, Present, Address, Aligned;
      EntryReached(mem, tables, frac, virt, level + 1);
      PresentIsTable(virt, level);
      var e := Load(frac, entry);
      present := Present(e);
      table := 0;
      if present {
        table := FindTable(frac, virt, level, e, cr3);
      }
    }

    /** paging_decrement_subcount on virt's entry of the given level; is the count now
        zero? */
    method Uncount(frac: bool, virt: bv64, level: Level, entry: bv64) returns (empty: bool)
      requires Root in tables && tables[Root] == cr3
      requires Reaches(mem, tables, frac, virt, level) && IsEntry(entry, frac, virt, level)
      modifies this`mem
      ensures mem == Put(old(mem), tables, virt, level, Decrement(EntryOf(old(mem), tables, virt, level)))
      ensures empty <==> CountBits(EntryOf(mem, tables, virt, level)) == 0
    {
      hide Index, Present, Locate, EntryPtr, IndexBits, CountBits;
      var d := Load(frac, entry);
      StoreEntry(frac, virt, level, entry, Decrement(d));
      var c := CountBits(Decrement(d));
      empty := c == 0;
    }

    /** paging.c:246-250: clear the entry and uncount it; is its table now empty? */
    method ClearEntry(frac: bool, virt: bv64, pde: bv64, pte: bv64) returns (empty: bool)
      requires HasTable(mem, tables, virt, PT) && Present(EntryOf(mem, tables, virt, PT))
      requires Root in tables && tables[Root] == cr3
      requires IsEntry(pte, frac, virt, PT) && IsEntry(pde, frac, virt, PD)
      modifies this`mem
      ensures mem == SetLeaf(old(mem), tables, virt, 0)
      ensures empty <==> CountBits(EntryOf(mem, tables, virt, PD)) == 0
    {
      hide Index, Present, Locate, EntryPtr, SetLeaf, Tree, IndexBits, Ordinary, Aligned, CountBits;
      ClearLeafStores(mem, tables, virt);
      EntryReached(mem, tables, frac, virt, PT);
      WrittenReaches(mem, tables, frac, virt, PT, 0);
      EntryKept(mem, tables, virt, PT, 0);
      StoreEntry(frac, virt, PT, pte, 0);
      empty := Uncount(frac, virt, PD, pde);
    }

    /** The count that the code looks at is that of the table below. */
    lemma EmptyByCount(virt: bv64, level: Level)
      requires HasTable(mem, tables, virt, level) && level < PML4
      ensures PathTo(virt, level) in tables && tables[PathTo(virt, level)] in mem
      ensures CountBits(EntryOf(mem, tables, virt, level + 1)) == 0 <==> Used(mem[tables[PathTo(virt, level)]]) == 0
    {
      hide Index, Aligned, Used, CountBits, Subcount;
      AboveLeads(mem, tables, virt, level);
      CountIsZero(EntryOf(mem, tables, virt, level + 1));
    }

    /** The stores that remove an empty PT or PD (paging.c:257-260 and 268-271); is the
        table that held its entry empty now? */
    method DropTable(frac: bool, virt: bv64, level: Level, entry: bv64, above: bv64) returns (empty: bool)
      requires level < PDP && HasTable(mem, tables, virt, level) && Root in tables && tables[Root] == cr3
      requires IsEntry(entry, frac, virt, level + 1) && IsEntry(above, frac, virt, level + 2)
      modifies this`mem
      ensures mem == Detach(old(mem), tables, PathTo(virt, level))
      ensures empty <==> CountBits(EntryOf(mem, tables, virt, level + 2)) == 0
    {
      hide Index, Present, Locate, EntryPtr, Detach, Tree, IndexBits, Ordinary, Aligned, CountBits, TablePtr;
      DetachStores(mem, tables, virt, level);
      TableAbove(mem, tables, virt, level);
      EntryReached(mem, tables, frac, virt, level + 1);
      WrittenReaches(mem, tables, frac, virt, level + 1, 0);
      EntryKept(mem, tables, virt, level + 1, 0);
      StoreEntry(frac, virt, level + 1, entry, 0);
      empty := Uncount(frac, virt, level + 2, above);
    }

    /** The store that removes an empty PDP (paging.c:279). */
    method DropPdp(frac: bool, virt: bv64, entry: bv64)
      requires HasTable(mem, tables, virt, PDP) && Root in tables && tables[Root] == cr3
      requires IsEntry(entry, frac, virt, PML4)
      modifies this`mem
      ensures mem == Detach(old(mem), tables, PathTo(virt, PDP))
    {
      hide Index, Present, Locate, EntryPtr, Detach, Tree, IndexBits, Ordinary, Aligned, CountBits, TablePtr;
      DetachStores(mem, tables, virt, PDP);
      TableAbove(mem, tables, virt, PDP);
      EntryReached(mem, tables, frac, virt, PML4);
      StoreEntry(frac, virt, PML4, entry, 0);
    }

    ghost predicate PrunesTo(target: AddressSpace.State, virt: bv64, level: Level, explicit: bool)
      reads this
    {
      Pruning(State(), cr3, target, virt, level, explicit)
    }

    ghost predicate Empty(virt: bv64, level: Level)
      reads this
    {
      PathTo(virt, level) in tables && tables[PathTo(virt, level)] in mem && Used(mem[tables[PathTo(virt, level)]]) == 0
    }

    /** palloc_free of a table, by its physical or its self-map address: the latter is
        no address palloc knows. */
    method GiveBackTable(frac: bool, table: bv64, ghost page: PageAddr)
      requires PageAddr(table) in held <==> !frac
      requires !frac ==> page == PageAddr(table)
      modifies this`held, this`free
      ensures held == if !frac then old(held) - {page} else old(held)
      ensures free == if !frac then old(free) + {page} else old(free)
    {
      GiveBack(PageAddr(table));
    }

    /** The state before a removal, taken apart. */
    lemma RemovalReady(target: AddressSpace.State, frac: bool, virt: bv64, level: Level)
      requires level < PML4 && PrunesTo(target, virt, level, !frac) && Empty(virt, level)
      requires Aligned(virt) && Ordinary(virt)
      ensures HasTable(mem, tables, virt, level) && PathTo(virt, level) in tables
      ensures Root in tables && tables[Root] == cr3
      ensures PageAddr(TablePtr(tables, frac, virt, level)) in held <==> !frac
      ensures Shape(tables) && Placed(mem, tables)
      ensures PathTo(virt, level) == Child(PathTo(virt, level + 1), Index(virt, level + 1))
      ensures Pruning(AddressSpace.Removed(State(), PathTo(virt, level), !frac), cr3, target, virt, level + 1, !frac)
    {
      hide Index, IndexBits, FractalAccess, EntriesOk, Bushy;
      assert PathTo(virt, level) == Child(PathTo(virt, level + 1), Index(virt, level + 1));
      AddressSpace.PruneUnfolds(State(), PathTo(virt, level), !frac);
      AddressSpace.TableIsHeld(State(), PathTo(virt, level));
      FractalIsNoTable(virt, level);
    }

    /** paging.c:251-260 and 262-271: give an empty PT or PD back and remove it. */
    method RemoveTable(frac: bool, virt: bv64, level: Level, table: bv64, entry: bv64, above: bv64,
                       ghost target: AddressSpace.State) returns (empty: bool)
      requires level < PDP && PrunesTo(target, virt, level, !frac) && Empty(virt, level)
      requires Aligned(virt) && Ordinary(virt)
      requires PathTo(virt, level) in tables && table == TablePtr(tables, frac, virt, level)
      requires IsEntry(entry, frac, virt, level + 1) && IsEntry(above, frac, virt, level + 2)
      modifies this`mem, this`held, this`free, this`tables
      ensures PrunesTo(target, virt, level + 1, !frac)
      ensures tables == old(tables) - {PathTo(virt, level)}
      ensures empty <==> CountBits(EntryOf(mem, tables, virt, level + 2)) == 0
    {
      hide Index, Present, Locate, EntryPtr, Detach, HasTable, IndexBits, Ordinary, Aligned, CountBits, EntryOf;
      hide Pruning, Shape, Placed, Used, IsEntry;
      RemovalReady(target, frac, virt, level);
      TablePage(tables, frac, virt, level);
      GiveBackTable(frac, table, tables[PathTo(virt, level)]);
      hide TablePtr;
      empty := DropTable(frac, virt, level, entry, above);
      EntryWithout(mem, tables, virt, level, level + 2);
      tables := tables - {PathTo(virt, level)};
    }

    /** paging.c:273-279: give an empty PDP back and remove it. */
    method RemovePdp(frac: bool, virt: bv64, table: bv64, entry: bv64, ghost target: AddressSpace.State)
      requires PrunesTo(target, virt, PDP, !frac) && Empty(virt, PDP)
      requires Aligned(virt) && Ordinary(virt)
      requires PathTo(virt, PDP) in tables && table == TablePtr(tables, frac, virt, PDP)
      requires IsEntry(entry, frac, virt, PML4)
      modifies this`mem, this`held, this`free, this`tables
      ensures PrunesTo(target, virt, PML4, !frac)
    {
      hide Index, Present, Locate, EntryPtr, Detach, HasTable, IndexBits, Ordinary, Aligned, CountBits, EntryOf;
      hide Pruning, Shape, Placed, Used, IsEntry;
      RemovalReady(target, frac, virt, PDP);
      TablePage(tables, frac, virt, PDP);
      GiveBackTable(frac, table, tables[PathTo(virt, PDP)]);
      hide TablePtr;
      DropPdp(frac, virt, entry);
      tables := tables - {PathTo(virt, PDP)};
    }

    /** After a removal the pointers to the tables further up are still good ... */
    lemma PointersAfter(was: Tables, frac: bool, virt: bv64, level: Level)
      requires level < PML4 && tables == was - {PathTo(virt, level)}
      ensures forall k: Level :: level < k && PathTo(virt, k) in was ==>
                PathTo(virt, k) in tables &&
                TablePtr(tables, frac, virt, k) == TablePtr(was, frac, virt, k) &&
                EntryPtr(tables, frac, virt, k) == EntryPtr(was, frac, virt, k)
    {
      hide Index, IndexBits, FractalAccess, WordPointer;
      forall k: Level | level < k ensures PathTo(virt, k) != PathTo(virt, level) {
        assert Depth(PathTo(virt, k)) != Depth(PathTo(virt, level));
      }
    }

    /** ... and the count tells whether the next one up is empty now. */
    lemma CountAfter(target: AddressSpace.State, explicit: bool, virt: bv64, level: Level)
      requires level < PML4 && Aligned(virt) && Ordinary(virt)
      requires PrunesTo(target, virt, level, explicit)
      ensures CountBits(EntryOf(mem, tables, virt, level + 1)) == 0 <==> Empty(virt, level)
      ensures PathTo(virt, level) in tables && PathTo(virt, level + 1) in tables
    {
      hide Index, IndexBits, Aligned, EntriesOk, Bushy, Used, CountBits;
      hide AddressSpace.Prune;
      EmptyByCount(virt, level);
      TablesOnTheWay(tables, virt, level);
    }

    /** Where nothing is empty there is nothing left to prune. */
    lemma NothingToPrune(target: AddressSpace.State, explicit: bool, virt: bv64, level: Level)
      requires PrunesTo(target, virt, level, explicit)
      requires level == PML4 || !Empty(virt, level)
      ensures State() == target
    {
      hide Index, EntriesOk, Bushy, Used;
    }

    /** paging.c:245-282: clear the mapped entry, then remove what has become empty. */
    method RemoveMapping(frac: bool, virt: bv64, pdp: bv64, pd: bv64, pt: bv64,
                         pml4e: bv64, pdpe: bv64, pde: bv64, pte: bv64, ghost target: AddressSpace.State)
      requires Aligned(virt) && Ordinary(virt) && Root in tables && tables[Root] == cr3
      requires HasTable(mem, tables, virt, PT) && Present(EntryOf(mem, tables, virt, PT))
      requires Pruning(State().(mem := SetLeaf(mem, tables, virt, 0)), cr3, target, virt, PT, !frac)
      requires IsTable(pdp, frac, virt, PDP) && IsTable(pd, frac, virt, PD) && IsTable(pt, frac, virt, PT)
      requires IsEntry(pml4e, frac, virt, PML4) && IsEntry(pdpe, frac, virt, PDP)
      requires IsEntry(pde, frac, virt, PD) && IsEntry(pte, frac, virt, PT)
      modifies this`mem, this`held, this`free, this`tables
      ensures State() == target
    {
      hide Index, Present, EntryPtr, TablePtr, HasTable, IndexBits, Ordinary, Aligned, CountBits, EntryOf, Pruning;
      hide SetLeaf, Empty, Tree;
      var emptyPt := ClearEntry(frac, virt, pde, pte);
      CountAfter(target, !frac, virt, PT);
      if emptyPt {
        PruneTables(frac, virt, pdp, pd, pt, pml4e, pdpe, pde, target);
      } else {
        NothingToPrune(target, !frac, virt, PT);
      }
    }

    ghost predicate IsTable(ptr: bv64, frac: bool, virt: bv64, level: Level)
      reads this`tables
    {
      PathTo(virt, level) in tables && ptr == TablePtr(tables, frac, virt, level)
    }

    /** The nested removals of paging.c:250-282. */
    method PruneTables(frac: bool, virt: bv64, pdp: bv64, pd: bv64, pt: bv64,
                       pml4e: bv64, pdpe: bv64, pde: bv64, ghost target: AddressSpace.State)
      requires Aligned(virt) && Ordinary(virt)
      requires PrunesTo(target, virt, PT, !frac) && Empty(virt, PT)
      requires IsTable(pdp, frac, virt, PDP) && IsTable(pd, frac, virt, PD) && IsTable(pt, frac, virt, PT)
      requires IsEntry(pml4e, frac, virt, PML4) && IsEntry(pdpe, frac, virt, PDP) && IsEntry(pde, frac, virt, PD)
      modifies this`mem, this`held, this`free, this`tables
      ensures State() == target
    {
      hide Index, Present, EntryPtr, TablePtr, IndexBits, Ordinary, Aligned, CountBits, EntryOf, Pruning, Empty;
      ghost var was := tables;
      var emptyPd := RemoveTable(frac, virt, PT, pt, pde, pdpe, target);
      PointersAfter(was, frac, virt, PT);
      CountAfter(target, !frac, virt, PD);
      if emptyPd {
        was := tables;
        var emptyPdp := RemoveTable(frac, virt, PD, pd, pdpe, pml4e, target);
        PointersAfter(was, frac, virt, PD);
        CountAfter(target, !frac, virt, PDP);
        if emptyPdp {
          RemovePdp(frac, virt, pdp, pml4e, target);
          NothingToPrune(target, !frac, virt, PML4);
        } else {
          NothingToPrune(target, !frac, virt, PDP);
        }
      } else {
        NothingToPrune(target, !frac, virt, PD);
      }
    }

    /** What the four look-ups of paging_unmap find decides what Unmap does. */
    lemma UnmapCases(virt: bv64, explicit: bool)
      requires Valid() && Ordinary(Address(virt))
      ensures var v := Address(virt);
        && Aligned(v) && HasTable(mem, tables, v, PML4) && PathTo(v, PML4) == Root
        && (PathTo(v, PT) !in tables || !Present(EntryOf(mem, tables, v, PT)) ==>
              AddressSpace.Unmap(State(), virt, explicit) == State())
        && (PathTo(v, PT) in tables && Present(EntryOf(mem, tables, v, PT)) ==>
              Pruning(State().(mem := SetLeaf(mem, tables, v, 0)), cr3, AddressSpace.Unmap(State(), virt, explicit),
                      v, PT, explicit))
    {
      hide Index, Present, Aligned, EntriesOk, Bushy, SetLeaf;
      var v := Address(virt);
      AddressIsAligned(virt);
      ZeroNotPresent();
      assert EntryOf(mem, tables, v, PT) == LeafEntry(mem, tables, v);
      if Present(LeafEntry(mem, tables, v)) {
        AddressSpace.UnmapReady(State(), v);
      }
    }

    lemma Above(virt: bv64, level: Level)
      requires Tree(mem, tables)
      ensures level < PML4 && PathTo(virt, level) in tables ==> PathTo(virt, level + 1) in tables
    {
      hide Index, Distinct, Placed, EntriesOk;
      if level < PML4 && PathTo(virt, level) in tables {
        TablesOnTheWay(tables, virt, level);
      }
    }

    /** paging_unmap (lines 192-287) */
    method Unmap(pml4: bv64, virt: bv64)
      requires Valid() && cr3.bits != 0 && (pml4 == 0 || pml4 == cr3.bits)
      requires Ordinary(Address(virt))
      modifies this`mem, this`held, this`free, this`tables
      ensures Valid()
      ensures State() == AddressSpace.Unmap(old(State()), virt, pml4 != 0)
    {
      hide Index, IndexBits, Present, Aligned, Tree, Ordinary, SetLeaf, Pruning, TablePtr, Locate;
      hide AddressSpace.Sound, AddressSpace.Unmap, AddressSpace.SameElsewhere, AddressSpace.LeafUpdated;
      var frac := pml4 == 0;
      var v := Address(virt);
      UnmapCases(virt, !frac);
      AddressSpace.UnmapState(State(), virt, !frac);
      TopTable(tables, frac, v);
      Above(v, PT);
      Above(v, PD);
      var top := if frac then FractalAccess(v, PML4) else pml4;
      var pml4e := WordPointer(top, IndexBits(v, PML4));
      var hasPdp, pdp := Descend(frac, v, PDP, pml4e);
      if !hasPdp { return; }
      var pdpe := WordPointer(pdp, IndexBits(v, PDP));
      var hasPd, pd := Descend(frac, v, PD, pdpe);
      if !hasPd { return; }
      var pde := WordPointer(pd, IndexBits(v, PD));
      var hasPt, pt := Descend(frac, v, PT, pde);
      if !hasPt { return; }
      var pte := WordPointer(pt, IndexBits(v, PT));
      EntryReached(mem, tables, frac, v, PT);
      var e := Load(frac, pte);
      if !Present(e) { return; }
      RemoveMapping(frac, v, pdp, pd, pt, pml4e, pdpe, pde, pte, AddressSpace.Unmap(State(), virt, !frac));
    }

    /** paging_map_multiple (lines 184-190); given[i] is for the i-th page. */
    method MapMultiple(pml4: bv64, virt: bv64, phy: bv64, flags: bv64, count: bv64, given: seq<seq<PageAddr>>)
      requires Valid() && cr3.bits != 0 && (pml4 == 0 || pml4 == cr3.bits)
      requires |given| == Value(count) && PagingRuns.ManyMappable(State(), virt, phy, flags, given)
      modifies this`mem, this`held, this`free, this`tables
      ensures Valid()
      ensures State() == PagingRuns.MapMany(old(State()), virt, phy, flags, given)
    {
      hide AddressSpace.Sound, AddressSpace.Mappable, AddressSpace.Map, Value;
      var v, p := virt, phy;
      for i := 0 to Value(count)
        invariant Valid()
        invariant PagingRuns.ManyMappable(State(), v, p, flags, given[i..])
        invariant PagingRuns.MapMany(State(), v, p, flags, given[i..]) ==
                  PagingRuns.MapMany(old(State()), virt, phy, flags, given)
      {
        assert given[i..][0] == given[i] && given[i..][1..] == given[i + 1..];
        Map(pml4, v, p, flags, given[i]);
        v, p := v + 4096, p + 4096;
      }
    }
  }

  /** With a PML4 that is new nothing is mapped and all tables are missing. */
  lemma NewIsEmpty(s: AddressSpace.State, virt: bv64, given: seq<PageAddr>)
    requires AddressSpace.Sound(s, Root) && s.tables.Keys == {Root} && Ordinary(Address(virt)) && |given| == 3
    requires s.free == {given[0], given[1], given[2]}
    requires given[0] != given[1] && given[0] != given[2] && given[1] != given[2]
    ensures AddressSpace.Mappable(s, virt, given) && PagingRuns.Alone(s, virt)
  {
    hide Index, AddressSpace.Sound, Ordinary;
    RootIsPlaced(s);
    ZeroNotPresent();
    PagingRuns.PathDepth(Address(virt));
  }

  lemma RootIsPlaced(s: AddressSpace.State)
    requires AddressSpace.Sound(s, Root)
    ensures AddressSpace.Rooted(s)
  {
  }

  /** From a new PML4 on, a page mapped and unmapped through the self-map: tables made for it are
      lost to palloc. */
  method LoseTables(memory: Memory, pml4: PageAddr, virt: bv64, phy: bv64, flags: bv64, given: seq<PageAddr>)
    returns (m: Mmu)
    requires Aligned(pml4.bits) && pml4.bits != 0 && Ordinary(Address(virt)) && |given| == 3
    requires forall i :: 0 <= i < 3 ==> given[i] in memory && Aligned(given[i].bits) && given[i] != pml4
    requires given[0] != given[1] && given[0] != given[2] && given[1] != given[2]
    ensures m.Valid() && Root in m.tables && !AddressSpace.Conserved(m.State())
  {
    hide Ordinary, AddressSpace.Mappable, PagingRuns.Alone, AddressSpace.Sound, AddressSpace.Conserved;
    hide AddressSpace.Map, AddressSpace.Unmap, Address, Aligned;
    m := new Mmu(memory, pml4, {given[0], given[1], given[2]});
    ghost var s := m.State();
    NewIsEmpty(s, virt, given);
    m.Map(0, virt, phy, flags, given);
    PagingRuns.MapThenUnmapConservesIff(s, virt, phy, flags, given, false);
    m.Unmap(0, virt);
  }
}
