/** paging_map and paging_unmap as functions on memory, and what they promise over
    single calls and whole runs.  Module Paging ties the code to these functions. */
module AddressSpace {
  import opened PageWords
  import opened PageTree

  /** Physical memory, the tables hanging off one PML4, the pages taken from
      palloc for tables and not given back, and the pages palloc may still hand
      out. */
  datatype State = State(mem: Memory, tables: Tables, held: set<PageAddr>, free: set<PageAddr>)

  /** `hole` names the one table that is allowed to be empty; Root for none. */
  ghost predicate Sound(s: State, hole: Path) {
    match s
    case State(mem, tables, _, _) => Tree(mem, tables) && Bushy(mem, tables, hole) && PagesSound(s)
  }

  ghost predicate PagesSound(s: State)
    requires Root in s.tables
  {
    && s.held !! s.free
    && s.tables[Root] !in s.held + s.free
    && s.tables.Values <= s.held + {s.tables[Root]}
    && (forall page :: page in s.held + s.free ==> page in s.mem && Aligned(page.bits))
  }

  /** The pages held from palloc are exactly the non-root tables. */
  ghost predicate Conserved(s: State)
    requires Root in s.tables
  {
    s.held == s.tables.Values - {s.tables[Root]}
  }

  /** Pages that palloc handed out for tables and that are tables no more. */
  function Leaked(s: State): set<PageAddr>
    requires Root in s.tables
  {
    s.held - (s.tables.Values - {s.tables[Root]})
  }

  lemma NothingLeaked(s: State)
    requires Root in s.tables && PagesSound(s)
    ensures Conserved(s) <==> Leaked(s) == {}
  {
  }

  /** Same root, same pool of pages, and no word outside the root and that pool
      has changed. */
  ghost predicate SameElsewhere(s: State, t: State)
    requires Root in s.tables && Root in t.tables
  {
    && t.tables[Root] == s.tables[Root]
    && t.mem.Keys == s.mem.Keys
    && t.held + t.free == s.held + s.free
    && (forall page :: page in s.mem && page != s.tables[Root] && page !in s.held + s.free ==>
        t.mem[page] == s.mem[page])
  }

  ghost predicate SameMapping(s: State, t: State)
    requires Placed(s.mem, s.tables) && Placed(t.mem, t.tables)
  {
    SameLeaves(s.mem, s.tables, t.mem, t.tables)
  }

  ghost predicate Rooted(s: State) {
    Root in s.tables && Placed(s.mem, s.tables)
  }

  /** t has every table of s, and otherwise only differs in tables that map
      nothing. */
  ghost predicate Extends(s: State, t: State)
    requires Rooted(s) && Rooted(t)
  {
    && SameElsewhere(s, t) && SameMapping(s, t)
    && s.tables.Keys <= t.tables.Keys && Agree(s.tables, t.tables)
    && Leaked(t) == Leaked(s)
  }

  lemma ExtendsTransitive(s: State, u: State, t: State)
    requires Rooted(s) && Rooted(u) && Rooted(t)
    requires Extends(s, u) && Extends(u, t)
    ensures Extends(s, t)
  {
    forall q, i | Depth(q) == 3 && 0 <= i < 512
      ensures LeafAt(s.mem, s.tables, q, i) == LeafAt(t.mem, t.tables, q, i)
    {
      assert LeafAt(s.mem, s.tables, q, i) == LeafAt(u.mem, u.tables, q, i);
    }
  }

  // ----- one missing table

  /** The table at Child(p, slot) exists afterwards; `page` is what palloc_alloc
      returned if it had to be made (paging.c:85-104, 112-134 and 142-164). */
  function EnsureTable(s: State, p: Path, slot: nat, page: PageAddr): State
    requires Tree(s.mem, s.tables) && p in s.tables && slot < 512
  {
    if Child(p, slot) in s.tables then s
    else State(Attach(s.mem, s.tables, p, slot, page), s.tables[Child(p, slot) := page],
               s.held + {page}, s.free - {page})
  }

  ghost predicate Ensurable(s: State, p: Path, slot: nat, page: PageAddr) {
    && Sound(s, p)
    && p in s.tables && slot < 512 && Depth(p) < 3 && !Reserved(p, slot)
    && (Child(p, slot) !in s.tables ==> page in s.free)
  }

  lemma ParentOfTableIsUsed(s: State, p: Path, slot: nat)
    requires Sound(s, p) && Child(p, slot) in s.tables
    ensures Sound(s, Root)
  {
    assert EntryOk(s.mem, s.tables, p, slot);
    LeadsBits(s.mem[s.tables[p]][slot], s.tables[Child(p, slot)].bits);
    UsedPositive(s.mem[s.tables[p]], slot);
  }

  lemma EnsureTableSound(s: State, p: Path, slot: nat, page: PageAddr)
    requires Ensurable(s, p, slot, page)
    ensures var t := EnsureTable(s, p, slot, page);
      Sound(t, Child(p, slot)) && Child(p, slot) in t.tables && Extends(s, t)
  {
    if Child(p, slot) in s.tables {
      ParentOfTableIsUsed(s, p, slot);
    } else {
      var t := EnsureTable(s, p, slot, page);
      assert page !in s.tables.Values;
      assert Attachable(s.mem, s.tables, p, slot, page);
      AttachKeepsTree(s.mem, s.tables, p, slot, page);
      AttachValues(s.tables, Child(p, slot), page);
      AttachElsewhere(s, p, slot, page);
      forall q, i | Depth(q) == 3 && 0 <= i < 512
        ensures LeafAt(s.mem, s.tables, q, i) == LeafAt(t.mem, t.tables, q, i)
      {
        AttachLeaves(s.mem, s.tables, p, slot, page, q, i);
      }
    }
  }

  lemma AttachValues(tables: Tables, p: Path, page: PageAddr)
    requires p !in tables
    ensures tables[p := page].Values == tables.Values + {page}
  {
    var grown := tables[p := page];
    assert p in grown && grown[p] == page;
    forall v | v in tables.Values ensures v in grown.Values {
      var q :| q in tables && tables[q] == v;
      assert q in grown && grown[q] == v;
    }
  }

  lemma DetachValues(tables: Tables, p: Path)
    requires p in tables && Distinct(tables)
    ensures (tables - {p}).Values == tables.Values - {tables[p]}
  {
    var shrunk := tables - {p};
    forall v | v in tables.Values && v != tables[p] ensures v in shrunk.Values {
      var q :| q in tables && tables[q] == v;
      assert q in shrunk && shrunk[q] == v;
    }
  }

  lemma AttachElsewhere(s: State, p: Path, slot: nat, page: PageAddr)
    requires Ensurable(s, p, slot, page) && Child(p, slot) !in s.tables
    ensures Root in EnsureTable(s, p, slot, page).tables
    ensures SameElsewhere(s, EnsureTable(s, p, slot, page))
  {
    var cleared := s.mem[page := ZeroPage()];
    ClearingKeepsTree(s.mem, s.tables, page);
    AdjustPlaced(cleared, s.tables, p, slot, TableEntry(page.bits));
    assert s.held + {page} + (s.free - {page}) == s.held + s.free;
  }

  // ----- paging_map

  /** The tables on the way to virt's page table, which may still be missing. */
  predicate Missing(s: State, virt: bv64, level: Level) {
    PathTo(virt, level) !in s.tables
  }

  /** given[level] is the page that palloc_alloc hands out for virt's table of that
      level, where one is missing: free pages, each handed out once. */
  ghost predicate Ready(s: State, virt: bv64, level: Level, given: seq<PageAddr>) {
    && |given| == 3
    && (forall l: Level :: level <= l < 3 && Missing(s, virt, l) ==> given[l] in s.free)
    && (forall l: Level, k: Level :: level <= l < k < 3 && Missing(s, virt, l) && Missing(s, virt, k) ==>
        given[l] != given[k])
  }

  /** No table of virt's, from the top down to `level`, is made in `page`. */
  ghost predicate Spared(s: State, virt: bv64, level: Level, given: seq<PageAddr>, page: PageAddr) {
    |given| == 3 && forall l: Level :: level <= l < 3 && Missing(s, virt, l) ==> given[l] != page
  }

  /** t is s with virt's tables down to `level` in place. */
  ghost predicate Grown(s: State, t: State, virt: bv64, level: Level, given: seq<PageAddr>) {
    && Rooted(s) && Sound(t, PathTo(virt, level)) && PathTo(virt, level) in t.tables
    && Extends(s, t)
    && (forall l: Level :: l < level ==> (Missing(t, virt, l) <==> Missing(s, virt, l)))
    && (forall page :: page in s.free && Spared(s, virt, level, given, page) ==> page in t.free)
  }

  /** The next table down can be made, as the page meant for it is still free; the
      tables further down and the other pages are not touched. */
  lemma GrowReady(s: State, u: State, virt: bv64, level: Level, given: seq<PageAddr>)
    requires level < PML4 && Ordinary(virt) && Ready(s, virt, level, given)
    requires Grown(s, u, virt, level + 1, given)
    ensures Ensurable(u, PathTo(virt, level + 1), Index(virt, level + 1), given[level])
    ensures var t := EnsureTable(u, PathTo(virt, level + 1), Index(virt, level + 1), given[level]);
      && (forall l: Level :: l < level ==> (Missing(t, virt, l) <==> Missing(s, virt, l)))
      && (forall page :: page in s.free && Spared(s, virt, level, given, page) ==> page in t.free)
  {
    var t := EnsureTable(u, PathTo(virt, level + 1), Index(virt, level + 1), given[level]);
    assert PathTo(virt, level) == Child(PathTo(virt, level + 1), Index(virt, level + 1));
    assert Missing(u, virt, level) <==> Missing(s, virt, level);
    if Missing(s, virt, level) {
      assert Spared(s, virt, level + 1, given, given[level]);
    }
    forall l: Level | l < level ensures Missing(t, virt, l) <==> Missing(s, virt, l) {
      assert Missing(u, virt, l) <==> Missing(s, virt, l);
      assert Depth(PathTo(virt, l)) != Depth(PathTo(virt, level));
    }
    forall page | page in s.free && Spared(s, virt, level, given, page) ensures page in t.free {
      assert Spared(s, virt, level + 1, given, page);
    }
  }

  lemma GrownFurther(s: State, u: State, t: State, virt: bv64, level: Level, given: seq<PageAddr>)
    requires level < PML4 && Grown(s, u, virt, level + 1, given)
    requires Sound(t, PathTo(virt, level)) && PathTo(virt, level) in t.tables && Extends(u, t)
    requires forall l: Level :: l < level ==> (Missing(t, virt, l) <==> Missing(s, virt, l))
    requires forall page :: page in s.free && Spared(s, virt, level, given, page) ==> page in t.free
    ensures Grown(s, t, virt, level, given)
  {
    ExtendsTransitive(s, u, t);
  }

  lemma GrowStep(s: State, u: State, virt: bv64, level: Level, given: seq<PageAddr>)
    requires level < PML4 && Ordinary(virt) && Ready(s, virt, level, given)
    requires Grown(s, u, virt, level + 1, given)
    ensures Grown(s, EnsureTable(u, PathTo(virt, level + 1), Index(virt, level + 1), given[level]), virt, level, given)
  {
    var p, slot := PathTo(virt, level + 1), Index(virt, level + 1);
    GrowReady(s, u, virt, level, given);
    EnsureTableSound(u, p, slot, given[level]);
    GrownFurther(s, u, EnsureTable(u, p, slot, given[level]), virt, level, given);
  }

  /** The tables for virt exist down to `level`. */
  function Grow(s: State, virt: bv64, level: Level, given: seq<PageAddr>): (t: State)
    requires Sound(s, Root) && Ordinary(virt) && Ready(s, virt, level, given)
    ensures Grown(s, t, virt, level, given)
    decreases 3 - level
  {
    if level == PML4 then s
    else
      var u := Grow(s, virt, level + 1, given);
      GrowStep(s, u, virt, level, given);
      EnsureTable(u, PathTo(virt, level + 1), Index(virt, level + 1), given[level])
  }

  /** What the code may rely on when it makes, or finds, the next table down. */
  ghost predicate NextReady(u: State, virt: bv64, level: Level, page: PageAddr) {
    && Tree(u.mem, u.tables) && level < PML4
    && PathTo(virt, level + 1) in u.tables
    && (level < PDP ==> PathTo(virt, level + 2) in u.tables)
    && (PathTo(virt, level) !in u.tables ==> page in u.free && Aligned(page.bits) && page !in u.tables.Values)
  }

  /** From the first table to the last: what Grow starts with ... */
  lemma GrowStart(s: State, virt: bv64, given: seq<PageAddr>)
    requires Mappable(s, virt, given)
    ensures var v := Address(virt);
      && |given| == 3 && (forall level: Level :: Ready(s, v, level, given))
      && Grow(s, v, PML4, given) == s && Root in s.tables && PathTo(v, PML4) == Root
  {
    assert forall level: Level :: Ready(s, Address(virt), level, given);
  }

  /** ... and ends with. */
  lemma GrowEnd(s: State, virt: bv64, given: seq<PageAddr>)
    requires Mappable(s, virt, given)
    ensures var u := Grow(s, Address(virt), PT, given);
      && Tree(u.mem, u.tables) && u.tables[Root] == s.tables[Root]
      && PathTo(Address(virt), PT) in u.tables && PathTo(Address(virt), PD) in u.tables
  {
    hide Index, Distinct, EntriesOk, Bushy;
    TablesOnTheWay(Grow(s, Address(virt), PT, given).tables, Address(virt), PT);
  }

  lemma FreeIsNoTable(s: State)
    requires Root in s.tables && PagesSound(s)
    ensures forall page :: page in s.free ==> Aligned(page.bits) && page !in s.tables.Values
  {
  }

  lemma GrowNext(s: State, virt: bv64, level: Level, given: seq<PageAddr>)
    requires level < PML4 && Sound(s, Root) && Ordinary(virt) && Ready(s, virt, level, given)
    ensures NextReady(Grow(s, virt, level + 1, given), virt, level, given[level])
  {
    hide Index, Grow, Shape, Distinct, Placed, Bushy, EntriesOk, SameElsewhere, SameMapping, EnsureTable;
    var u := Grow(s, virt, level + 1, given);
    GrowReady(s, u, virt, level, given);
    FreeIsNoTable(u);
    TablesOnTheWay(u.tables, virt, level + 1);
    assert PathTo(virt, level) == Child(PathTo(virt, level + 1), Index(virt, level + 1));
  }

  ghost predicate Mappable(s: State, virt: bv64, given: seq<PageAddr>) {
    Sound(s, Root) && Ordinary(Address(virt)) && Ready(s, Address(virt), PT, given)
  }

  /** paging_map; `given` holds what palloc_alloc returns. */
  function Map(s: State, virt: bv64, phy: bv64, flags: bv64, given: seq<PageAddr>): State
    requires Mappable(s, virt, given)
  {
    var v := Address(virt);
    var t := Grow(s, v, PT, given);
    t.(mem := SetLeaf(t.mem, t.tables, v, LeafWord(phy, flags)))
  }

  /** t maps what s maps, but for the page of virt, whose leaf entry is e. */
  ghost predicate LeafUpdated(s: State, t: State, virt: bv64, e: bv64)
    requires Rooted(s) && Rooted(t)
  {
    forall q, i :: Depth(q) == 3 && 0 <= i < 512 ==>
      LeafAt(t.mem, t.tables, q, i) ==
      if q == PathTo(virt, PT) && i == Index(virt, PT) then e else LeafAt(s.mem, s.tables, q, i)
  }

  lemma SetLeafUpdates(s: State, virt: bv64, e: bv64)
    requires Rooted(s) && Tree(s.mem, s.tables) && PathTo(virt, PT) in s.tables
    requires Placed(SetLeaf(s.mem, s.tables, virt, e), s.tables)
    ensures LeafUpdated(s, s.(mem := SetLeaf(s.mem, s.tables, virt, e)), virt, e)
  {
    forall q, i | Depth(q) == 3 && 0 <= i < 512
      ensures LeafAt(SetLeaf(s.mem, s.tables, virt, e), s.tables, q, i) ==
              if q == PathTo(virt, PT) && i == Index(virt, PT) then e else LeafAt(s.mem, s.tables, q, i)
    {
      SetLeafLeaves(s.mem, s.tables, virt, e, q, i);
    }
  }

  lemma SetLeafState(s: State, virt: bv64, e: bv64)
    requires Sound(s, PathTo(virt, PT)) && PathTo(virt, PT) in s.tables && (Present(e) || e == 0)
    ensures var t := s.(mem := SetLeaf(s.mem, s.tables, virt, e));
      && Sound(t, if Present(e) then Root else PathTo(virt, PT))
      && SameElsewhere(s, t) && LeafUpdated(s, t, virt, e)
  {
    SetLeafKeepsTree(s.mem, s.tables, virt, e);
    AdjustPlaced(s.mem, s.tables, PathTo(virt, PT), Index(virt, PT), e);
    SetLeafUpdates(s, virt, e);
  }

  /** What paging_map does to a sound state: one leaf entry changes, no table or page
      is lost, and no word outside the tables and the pool is touched. */
  lemma MapState(s: State, virt: bv64, phy: bv64, flags: bv64, given: seq<PageAddr>)
    requires Mappable(s, virt, given)
    ensures var t := Map(s, virt, phy, flags, given);
      && Sound(t, Root) && Leaked(t) == Leaked(s)
      && SameElsewhere(s, t) && LeafUpdated(s, t, Address(virt), LeafWord(phy, flags))
      && s.tables.Keys <= t.tables.Keys && Agree(s.tables, t.tables)
  {
    var v, e := Address(virt), LeafWord(phy, flags);
    var u := Grow(s, v, PT, given);
    LeafWordFlags(phy, flags);
    SetLeafState(u, v, e);
    var t := Map(s, virt, phy, flags, given);
    forall q, i | Depth(q) == 3 && 0 <= i < 512
      ensures LeafAt(t.mem, t.tables, q, i) ==
              if q == PathTo(v, PT) && i == Index(v, PT) then e else LeafAt(s.mem, s.tables, q, i)
    {
      assert LeafAt(u.mem, u.tables, q, i) == LeafAt(s.mem, s.tables, q, i);
    }
  }

  // ----- paging_unmap

  /** paging.c:250-282: remove empty tables, from p upwards.  palloc_free gets the
      table's physical address only when the PML4 was given explicitly. */
  function Prune(s: State, p: Path, explicit: bool): (t: State)
    requires Sound(s, p) && p in s.tables
    ensures Sound(t, Root)
    decreases p
  {
    if p.Root? || Used(s.mem[s.tables[p]]) > 0 then s
    else
      PruneStep(s, p, explicit);
      Prune(Removed(s, p, explicit), p.up, explicit)
  }

  function Removed(s: State, p: Path, explicit: bool): State
    requires Rooted(s) && Shape(s.tables) && p in s.tables && p.Child?
  {
    var page := {s.tables[p]};
    State(Detach(s.mem, s.tables, p), s.tables - {p},
          if explicit then s.held - page else s.held, if explicit then s.free + page else s.free)
  }

  lemma RemovedMapping(s: State, p: Path, explicit: bool)
    requires Sound(s, p) && p in s.tables && p.Child? && Used(s.mem[s.tables[p]]) == 0
    requires Rooted(Removed(s, p, explicit))
    ensures SameMapping(s, Removed(s, p, explicit))
  {
    forall q, i | Depth(q) == 3 && 0 <= i < 512
      ensures LeafAt(s.mem, s.tables, q, i) == LeafAt(Detach(s.mem, s.tables, p), s.tables - {p}, q, i)
    {
      DetachLeaves(s.mem, s.tables, p, q, i);
    }
  }

  /** The pool of pages after a removal. */
  lemma RemovedPages(s: State, p: Path, explicit: bool)
    requires Rooted(s) && Shape(s.tables) && Distinct(s.tables) && PagesSound(s) && p in s.tables && p.Child?
    requires Removed(s, p, explicit).mem.Keys == s.mem.Keys
    ensures var t := Removed(s, p, explicit);
      && PagesSound(t)
      && t.held + t.free == s.held + s.free
      && Leaked(t) == Leaked(s) + if explicit then {} else {s.tables[p]}
  {
    DetachValues(s.tables, p);
    assert s.tables[p] != s.tables[Root] && s.tables[p] in s.tables.Values;
  }

  lemma PruneStep(s: State, p: Path, explicit: bool)
    requires Sound(s, p) && p in s.tables && p.Child? && Used(s.mem[s.tables[p]]) == 0
    ensures var t := Removed(s, p, explicit);
      && Sound(t, p.up) && p.up in t.tables
      && SameElsewhere(s, t) && SameMapping(s, t)
      && t.tables.Keys < s.tables.Keys && Agree(s.tables, t.tables)
      && Leaked(t) == Leaked(s) + if explicit then {} else {s.tables[p]}
  {
    DetachKeepsTree(s.mem, s.tables, p);
    AdjustPlaced(s.mem, s.tables, p.up, p.slot, 0);
    RemovedPages(s, p, explicit);
    RemovedMapping(s, p, explicit);
  }

  lemma PruneUnfolds(s: State, p: Path, explicit: bool)
    requires Sound(s, p) && p in s.tables && p.Child? && Used(s.mem[s.tables[p]]) == 0
    ensures var t := Removed(s, p, explicit);
      && Sound(t, p.up) && p.up in t.tables && t.tables[Root] == s.tables[Root]
      && Prune(s, p, explicit) == Prune(t, p.up, explicit)
  {
    PruneStep(s, p, explicit);
  }

  /** palloc_free gets a page it gave out only with an explicit PML4. */
  lemma TableIsHeld(s: State, p: Path)
    requires Root in s.tables && Distinct(s.tables) && PagesSound(s) && p in s.tables && p.Child?
    ensures s.tables[p] in s.held
    ensures forall page :: !Aligned(page) ==> PageAddr(page) !in s.held
  {
    assert s.tables[p] in s.tables.Values && s.tables[p] != s.tables[Root];
  }

  /** t is s without some empty tables. */
  ghost predicate Shrunk(s: State, t: State)
    requires Rooted(s) && Rooted(t)
  {
    && SameElsewhere(s, t) && SameMapping(s, t)
    && t.tables.Keys <= s.tables.Keys && Agree(s.tables, t.tables)
  }

  lemma ShrunkTransitive(s: State, u: State, t: State)
    requires Rooted(s) && Rooted(u) && Rooted(t)
    requires Shrunk(s, u) && Shrunk(u, t)
    ensures Shrunk(s, t)
  {
    forall q, i | Depth(q) == 3 && 0 <= i < 512
      ensures LeafAt(s.mem, s.tables, q, i) == LeafAt(t.mem, t.tables, q, i)
    {
      assert LeafAt(s.mem, s.tables, q, i) == LeafAt(u.mem, u.tables, q, i);
    }
  }

  lemma {:induction false} PruneState(s: State, p: Path, explicit: bool)
    requires Sound(s, p) && p in s.tables
    ensures var t := Prune(s, p, explicit);
      && Shrunk(s, t)
      && Leaked(s) <= Leaked(t)
      && (Leaked(t) == Leaked(s) <==> explicit || p.Root? || Used(s.mem[s.tables[p]]) > 0)
    decreases p
  {
    if p.Child? && Used(s.mem[s.tables[p]]) == 0 {
      var u := Removed(s, p, explicit);
      PruneStep(s, p, explicit);
      PruneState(u, p.up, explicit);
      ShrunkTransitive(s, u, Prune(u, p.up, explicit));
      NotYetLeaked(s, p);
    }
  }

  lemma NotYetLeaked(s: State, p: Path)
    requires Root in s.tables && Distinct(s.tables) && p in s.tables && p.Child?
    ensures s.tables[p] !in Leaked(s)
  {
    assert s.tables[p] in s.tables.Values && s.tables[p] != s.tables[Root];
  }

  /** paging_unmap, for an explicit PML4 or through the self-map. */
  function Unmap(s: State, virt: bv64, explicit: bool): State
    requires Sound(s, Root)
  {
    var v := Address(virt);
    if !Present(LeafEntry(s.mem, s.tables, v)) then s
    else
      UnmapReady(s, v);
      Prune(s.(mem := SetLeaf(s.mem, s.tables, v, 0)), PathTo(v, PT), explicit)
  }

  lemma UnmapReady(s: State, v: bv64)
    requires Sound(s, Root) && Present(LeafEntry(s.mem, s.tables, v))
    ensures PathTo(v, PT) in s.tables
    ensures var u := s.(mem := SetLeaf(s.mem, s.tables, v, 0));
      Sound(u, PathTo(v, PT)) && SameElsewhere(s, u) && LeafUpdated(s, u, v, 0)
  {
    ZeroNotPresent();
    SetLeafState(s, v, 0);
  }

  /** virt is mapped, and is the last page its page table maps: the guard of
      paging.c:250. */
  predicate LastOfItsTable(s: State, virt: bv64)
    requires Rooted(s)
  {
    var v := Address(virt);
    Present(LeafEntry(s.mem, s.tables, v)) && PathTo(v, PT) in s.tables &&
    Used(s.mem[s.tables[PathTo(v, PT)]]) == 1
  }

  lemma AbsentLeafIsZero(s: State, v: bv64)
    requires Sound(s, Root) && !Present(LeafEntry(s.mem, s.tables, v))
    ensures LeafEntry(s.mem, s.tables, v) == 0
  {
    if PathTo(v, PT) in s.tables {
      assert EntryOk(s.mem, s.tables, PathTo(v, PT), Index(v, PT));
    }
  }

  lemma UsedAfterClearing(s: State, v: bv64)
    requires Sound(s, Root) && Present(LeafEntry(s.mem, s.tables, v)) && PathTo(v, PT) in s.tables
    ensures var after := SetLeaf(s.mem, s.tables, v, 0);
      var page := s.tables[PathTo(v, PT)];
      page in after && Used(after[page]) == Used(s.mem[page]) - 1
  {
    ZeroNotPresent();
    AdjustUsed(s.mem, s.tables, PathTo(v, PT), Index(v, PT), 0, PathTo(v, PT));
  }

  lemma UnmapPresent(s: State, v: bv64, explicit: bool)
    requires Sound(s, Root) && Present(LeafEntry(s.mem, s.tables, v))
    requires PathTo(v, PT) in s.tables && Sound(s.(mem := SetLeaf(s.mem, s.tables, v, 0)), PathTo(v, PT))
    ensures var u := s.(mem := SetLeaf(s.mem, s.tables, v, 0));
      var t := Prune(u, PathTo(v, PT), explicit);
      && Shrunk(u, t)
      && Leaked(s) <= Leaked(t)
      && (Leaked(t) == Leaked(s) <==> explicit || Used(s.mem[s.tables[PathTo(v, PT)]]) != 1)
  {
    var u := s.(mem := SetLeaf(s.mem, s.tables, v, 0));
    UsedAfterClearing(s, v);
    PruneState(u, PathTo(v, PT), explicit);
  }

  lemma UnmapState(s: State, virt: bv64, explicit: bool)
    requires Sound(s, Root)
    ensures var t := Unmap(s, virt, explicit);
      && Sound(t, Root)
      && SameElsewhere(s, t) && LeafUpdated(s, t, Address(virt), 0)
      && t.tables.Keys <= s.tables.Keys && Agree(s.tables, t.tables)
      && Leaked(s) <= Leaked(t)
      && (Leaked(t) == Leaked(s) <==> explicit || !LastOfItsTable(s, virt))
  {
    var v := Address(virt);
    if Present(LeafEntry(s.mem, s.tables, v)) {
      UnmapReady(s, v);
      UnmapPresent(s, v, explicit);
      var u := s.(mem := SetLeaf(s.mem, s.tables, v, 0));
      var t := Prune(u, PathTo(v, PT), explicit);
      forall q, i | Depth(q) == 3 && 0 <= i < 512
        ensures LeafAt(t.mem, t.tables, q, i) ==
                if q == PathTo(v, PT) && i == Index(v, PT) then 0 else LeafAt(s.mem, s.tables, q, i)
      {
        assert LeafAt(u.mem, u.tables, q, i) == LeafAt(t.mem, t.tables, q, i);
      }
    } else {
      AbsentLeafIsZero(s, v);
    }
  }
}
