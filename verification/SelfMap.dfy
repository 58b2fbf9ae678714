/** The self-map of kernel/src/memory/paging.c:13-39: slot 511 of the PML4 leads
    back to the PML4, so that every table of the tree has a virtual address that
    can be computed. */
module SelfMap {
  import opened PageWords
  import opened PageTree

  /** Slot 511 leads back to the root with exactly the rights present and writable:
      bits 63, 7, 2, 1 and 0 are 0, 0, 0, 1 and 1. */
  ghost predicate SelfMapped(mem: Memory, root: PageAddr) {
    root in mem && Frame(mem[root][511]) == root.bits && mem[root][511] & 0x8000_0000_0000_0087 == 3
  }

  /** The entry of virt at level k leads to virt's table below. */
  ghost predicate Link(mem: Memory, tables: Tables, virt: bv64, k: Level)
    requires k > PT
  {
    && PathTo(virt, k) in tables && PathTo(virt, k - 1) in tables
    && tables[PathTo(virt, k)] in mem
    && Leads(mem[tables[PathTo(virt, k)]][Index(virt, k)], tables[PathTo(virt, k - 1)].bits)
  }

  /** Memory leads from the PML4 to virt's table of the given level.  Counts do not
      matter here, so this also holds in the middle of paging_map. */
  ghost predicate Linked(mem: Memory, tables: Tables, virt: bv64, level: Level) {
    && Root in tables && SelfMapped(mem, tables[Root])
    && forall k: Level :: level < k ==> Link(mem, tables, virt, k)
  }

  lemma KernelRights(e: bv64)
    requires e & 0x8000_0000_0000_0087 == 3
    ensures Present(e) && !LargePage(e) && Writable(e) && !User(e) && !NoExecute(e)
  {
  }

  lemma SelfEntryRights(root: bv64)
    requires Aligned(root)
    ensures (root | 1 | 2) & 0x8000_0000_0000_0087 == 3
  {
  }

  lemma SelfEntryFrame(root: bv64)
    requires Aligned(root)
    ensures Frame(root | 1 | 2) == root
  {
  }

  /** paging_init_pml4 (paging.c:13-17): the cleared PML4 that maps itself. */
  function InitPml4(mem: Memory, pml4: PageAddr): Memory {
    mem[pml4 := ZeroPage()[511 := SelfEntry(pml4)]]
  }

  lemma InitIsTree(mem: Memory, pml4: PageAddr)
    requires Aligned(pml4.bits)
    ensures Tree(InitPml4(mem, pml4), map[Root := pml4])
    ensures Bushy(InitPml4(mem, pml4), map[Root := pml4], Root)
    ensures SelfMapped(InitPml4(mem, pml4), pml4)
  {
    var after, tables := InitPml4(mem, pml4), map[Root := pml4];
    SelfEntryRights(pml4.bits);
    SelfEntryFrame(pml4.bits);
    forall p, slot | p in tables && 0 <= slot < 512 ensures EntryOk(after, tables, p, slot) {
    }
  }

  /** A walk step through slot 511 of the PML4 stays there, and loses the user right. */
  lemma SelfStep(mem: Memory, root: PageAddr, at: Coordinates, level: Level, user: bool)
    requires SelfMapped(mem, root) && level > PT && at[level] == 511
    ensures Walk(mem, root, at, level, true, user, false) == Walk(mem, root, at, level - 1, true, false, false)
  {
    KernelRights(mem[root][511]);
  }

  lemma SelfEnd(mem: Memory, root: PageAddr, at: Coordinates)
    requires SelfMapped(mem, root) && at[PT] == 511
    ensures Walk(mem, root, at, PT, true, false, false) == Mapped(root.bits, true, false, false)
  {
    KernelRights(mem[root][511]);
  }

  /** A walk step through virt's entry of level k. */
  lemma LinkStep(mem: Memory, tables: Tables, virt: bv64, k: Level, at: Coordinates, level: Level)
    requires k > PT && Link(mem, tables, virt, k) && at[level] == Index(virt, k)
    ensures Walk(mem, tables[PathTo(virt, k)], at, level, true, false, false) ==
            if level == PT then Mapped(tables[PathTo(virt, k - 1)].bits, true, false, false)
            else Walk(mem, tables[PathTo(virt, k - 1)], at, level - 1, true, false, false)
  {
    LeadsBits(mem[tables[PathTo(virt, k)]][at[level]], tables[PathTo(virt, k - 1)].bits);
  }

  /** The coordinates of a computed address: 511 as often as the level asks, then
      virt's own upper coordinates, moved down. */
  lemma FractalCoordinates(virt: bv64, level: Level)
    requires Aligned(virt)
    ensures var at := At(FractalAccess(virt, level));
      && at[PML4] == 511
      && at[PDP] == (if level >= PD then 511 else Index(virt, PML4))
      && at[PD] == (if level >= PDP then 511 else if level == PD then Index(virt, PML4) else Index(virt, PDP))
      && at[PT] == (if level == PML4 then 511
                     else Index(virt, if level == PDP then PML4 else if level == PD then PDP else PD))
  {
    FullSlot();
    if level == PML4 {
      FractalPml4(virt);
    } else if level == PDP {
      FractalPdp(virt);
    } else if level == PD {
      FractalPd(virt);
    } else {
      FractalPt(virt);
    }
  }

  /** From the PML4 through virt's upper entries down to its page table. */
  lemma WalkToPt(mem: Memory, tables: Tables, virt: bv64, at: Coordinates)
    requires PathTo(virt, PML4) in tables
    requires Link(mem, tables, virt, PML4) && Link(mem, tables, virt, PDP) && Link(mem, tables, virt, PD)
    requires at[PDP] == Index(virt, PML4) && at[PD] == Index(virt, PDP) && at[PT] == Index(virt, PD)
    ensures Walk(mem, tables[PathTo(virt, PML4)], at, PDP, true, false, false) ==
            Mapped(tables[PathTo(virt, PT)].bits, true, false, false)
  {
    LinkStep(mem, tables, virt, PML4, at, PDP);
    LinkStep(mem, tables, virt, PDP, at, PD);
    LinkStep(mem, tables, virt, PD, at, PT);
  }

  lemma WalkToPd(mem: Memory, tables: Tables, virt: bv64, at: Coordinates)
    requires PathTo(virt, PML4) in tables
    requires Link(mem, tables, virt, PML4) && Link(mem, tables, virt, PDP)
    requires at[PD] == Index(virt, PML4) && at[PT] == Index(virt, PDP)
    ensures Walk(mem, tables[PathTo(virt, PML4)], at, PD, true, false, false) ==
            Mapped(tables[PathTo(virt, PD)].bits, true, false, false)
  {
    LinkStep(mem, tables, virt, PML4, at, PD);
    LinkStep(mem, tables, virt, PDP, at, PT);
  }

  lemma SelfSteps(mem: Memory, root: PageAddr, at: Coordinates)
    requires SelfMapped(mem, root) && at[PML4] == 511
    ensures Walk(mem, root, at, PML4, true, true, false) == Walk(mem, root, at, PDP, true, false, false)
    ensures at[PDP] == 511 ==>
              Walk(mem, root, at, PML4, true, true, false) == Walk(mem, root, at, PD, true, false, false)
    ensures at[PDP] == 511 && at[PD] == 511 ==>
              Walk(mem, root, at, PML4, true, true, false) == Walk(mem, root, at, PT, true, false, false)
  {
    SelfStep(mem, root, at, PML4, true);
    if at[PDP] == 511 {
      SelfStep(mem, root, at, PDP, false);
      if at[PD] == 511 {
        SelfStep(mem, root, at, PD, false);
      }
    }
  }

  /** The computed address of virt's table of any level translates to that table,
      writable and for the kernel only. */
  lemma FractalAccessFindsTable(mem: Memory, tables: Tables, virt: bv64, level: Level)
    requires Aligned(virt) && Linked(mem, tables, virt, level)
    ensures PathTo(virt, level) in tables
    ensures Translate(mem, tables[Root], FractalAccess(virt, level)) ==
            Mapped(tables[PathTo(virt, level)].bits, true, false, false)
  {
    var at := At(FractalAccess(virt, level));
    FractalCoordinates(virt, level);
    SelfSteps(mem, tables[Root], at);
    if level == PML4 {
      SelfEnd(mem, tables[Root], at);
    } else if level == PDP {
      LinkStep(mem, tables, virt, PML4, at, PT);
    } else if level == PD {
      WalkToPd(mem, tables, virt, at);
    } else {
      WalkToPt(mem, tables, virt, at);
    }
  }

  lemma TreeLink(mem: Memory, tables: Tables, virt: bv64, k: Level)
    requires Tree(mem, tables) && Ordinary(virt) && k > PT && PathTo(virt, k - 1) in tables
    ensures Link(mem, tables, virt, k)
  {
    TablesOnTheWay(tables, virt, k - 1);
    assert EntryOk(mem, tables, PathTo(virt, k), Index(virt, k));
  }

  lemma TreeIsSelfMapped(mem: Memory, tables: Tables)
    requires Tree(mem, tables)
    ensures SelfMapped(mem, tables[Root])
  {
    assert EntryOk(mem, tables, Root, 511);
    SelfEntryRights(tables[Root].bits);
    SelfEntryFrame(tables[Root].bits);
  }

  /** In a sound tree every table is linked. */
  lemma TreeIsLinked(mem: Memory, tables: Tables, virt: bv64, level: Level)
    requires Tree(mem, tables) && Ordinary(virt) && PathTo(virt, level) in tables
    ensures Linked(mem, tables, virt, level)
  {
    TablesOnTheWay(tables, virt, level);
    TreeIsSelfMapped(mem, tables);
    forall k: Level | level < k ensures Link(mem, tables, virt, k) {
      TreeLink(mem, tables, virt, k);
    }
  }

  /** A link survives whatever leaves its word and its two tables alone. */
  lemma LinkKept(mem: Memory, tables: Tables, mem': Memory, tables': Tables, virt: bv64, k: Level)
    requires k > PT && Link(mem, tables, virt, k)
    requires PathTo(virt, k) in tables' && tables'[PathTo(virt, k)] == tables[PathTo(virt, k)]
    requires PathTo(virt, k - 1) in tables' && tables'[PathTo(virt, k - 1)] == tables[PathTo(virt, k - 1)]
    requires tables[PathTo(virt, k)] in mem'
    requires mem'[tables[PathTo(virt, k)]][Index(virt, k)] == mem[tables[PathTo(virt, k)]][Index(virt, k)]
    ensures Link(mem', tables', virt, k)
  {
  }

  /** mem' has the words of mem that virt's walk down to `level` goes through. */
  ghost predicate SameWay(mem: Memory, mem': Memory, tables: Tables, virt: bv64, level: Level) {
    && Root in tables && tables[Root] in mem && tables[Root] in mem'
    && mem'[tables[Root]][511] == mem[tables[Root]][511]
    && forall k: Level :: level < k && PathTo(virt, k) in tables && tables[PathTo(virt, k)] in mem ==>
         tables[PathTo(virt, k)] in mem' &&
         mem'[tables[PathTo(virt, k)]][Index(virt, k)] == mem[tables[PathTo(virt, k)]][Index(virt, k)]
  }

  lemma LinkedKept(mem: Memory, mem': Memory, tables: Tables, virt: bv64, level: Level)
    requires Linked(mem, tables, virt, level) && SameWay(mem, mem', tables, virt, level)
    ensures Linked(mem', tables, virt, level)
  {
    forall k: Level | level < k ensures Link(mem', tables, virt, k) {
      LinkKept(mem, tables, mem', tables, virt, k);
    }
  }

  lemma LinkedFurther(mem: Memory, tables: Tables, virt: bv64, level: Level)
    requires level < PML4 && Linked(mem, tables, virt, level + 1) && Link(mem, tables, virt, level + 1)
    ensures Linked(mem, tables, virt, level)
  {
  }

  lemma LinkedMoreTables(mem: Memory, tables: Tables, tables': Tables, virt: bv64, level: Level)
    requires Linked(mem, tables, virt, level)
    requires forall p :: p in tables ==> p in tables' && tables'[p] == tables[p]
    ensures Linked(mem, tables', virt, level)
  {
    forall k: Level | level < k ensures Link(mem, tables', virt, k) {
      LinkKept(mem, tables, mem, tables', virt, k);
    }
  }

  lemma WayDown(tables: Tables, virt: bv64, level: Level, k: Level)
    requires Shape(tables) && Distinct(tables) && level < k && PathTo(virt, level) in tables
    ensures PathTo(virt, k) in tables
    ensures tables[PathTo(virt, k)] != tables[PathTo(virt, level)]
  {
    TablesOnTheWay(tables, virt, level);
    assert Depth(PathTo(virt, k)) != Depth(PathTo(virt, level));
  }

  /** Writing virt's entry at `level` is no obstacle on the way there. */
  lemma WriteKeepsWay(mem: Memory, tables: Tables, virt: bv64, level: Level, e: bv64)
    requires Shape(tables) && Distinct(tables) && Placed(mem, tables)
    requires PathTo(virt, level) in tables && Ordinary(virt)
    ensures SameWay(mem, Write(mem, tables[PathTo(virt, level)], Index(virt, level), e), tables, virt, level)
  {
    forall k: Level | level < k
      ensures PathTo(virt, k) in tables && tables[PathTo(virt, k)] != tables[PathTo(virt, level)]
    {
      WayDown(tables, virt, level, k);
    }
    if level < PML4 {
      WayDown(tables, virt, level, PML4);
    }
  }

  /** While a new table is being hung in: once its entry is written, the way down to
      it is open, whatever the table holds and whatever the count above says. */
  lemma EnteredIsLinked(mem: Memory, tables: Tables, virt: bv64, level: Level, page: PageAddr)
    requires level < PML4 && Ordinary(virt)
    requires Tree(mem, tables) && PathTo(virt, level + 1) in tables && PathTo(virt, level) !in tables
    requires Aligned(page.bits)
    ensures var entered := Write(mem, tables[PathTo(virt, level + 1)], Index(virt, level + 1), TableEntry(page.bits));
      Linked(entered, tables[PathTo(virt, level) := page], virt, level)
  {
    var p, i := PathTo(virt, level + 1), Index(virt, level + 1);
    var entered := Write(mem, tables[p], i, TableEntry(page.bits));
    var grown := tables[PathTo(virt, level) := page];
    TreeIsLinked(mem, tables, virt, level + 1);
    WriteKeepsWay(mem, tables, virt, level + 1, TableEntry(page.bits));
    LinkedKept(mem, entered, tables, virt, level + 1);
    LinkedMoreTables(entered, tables, grown, virt, level + 1);
    NewLink(entered, grown, virt, level, page);
    LinkedFurther(entered, grown, virt, level);
  }

  lemma NewLink(mem: Memory, tables: Tables, virt: bv64, level: Level, page: PageAddr)
    requires level < PML4 && PathTo(virt, level + 1) in tables && tables[PathTo(virt, level + 1)] in mem
    requires PathTo(virt, level) in tables && tables[PathTo(virt, level)] == page && Aligned(page.bits)
    requires mem[tables[PathTo(virt, level + 1)]][Index(virt, level + 1)] == TableEntry(page.bits)
    ensures Link(mem, tables, virt, level + 1)
  {
    NewEntry(page.bits);
  }

  /** ... and the entries two levels up and more can still be reached afterwards. */
  lemma ClearedIsLinked(mem: Memory, tables: Tables, virt: bv64, level: Level, page: PageAddr)
    requires level < PDP && Ordinary(virt)
    requires Tree(mem, tables) && PathTo(virt, level + 1) in tables && page !in tables.Values
    ensures var entered := Write(mem, tables[PathTo(virt, level + 1)], Index(virt, level + 1), TableEntry(page.bits));
      Linked(entered[page := ZeroPage()], tables, virt, level + 2)
  {
    var entered := Write(mem, tables[PathTo(virt, level + 1)], Index(virt, level + 1), TableEntry(page.bits));
    TablesOnTheWay(tables, virt, level + 1);
    TreeIsLinked(mem, tables, virt, level + 2);
    WriteKeepsWay(mem, tables, virt, level + 1, TableEntry(page.bits));
    ClearingKeepsWay(mem, entered, tables, virt, level + 2, page);
    LinkedKept(mem, entered[page := ZeroPage()], tables, virt, level + 2);
  }

  lemma ClearingKeepsWay(mem: Memory, entered: Memory, tables: Tables, virt: bv64, level: Level, page: PageAddr)
    requires PD < level && SameWay(mem, entered, tables, virt, level - 1)
    requires page !in tables.Values
    ensures SameWay(mem, entered[page := ZeroPage()], tables, virt, level)
  {
    assert tables[Root] in tables.Values;
    forall k: Level | level < k && PathTo(virt, k) in tables ensures tables[PathTo(virt, k)] != page {
      assert tables[PathTo(virt, k)] in tables.Values;
    }
  }
}
