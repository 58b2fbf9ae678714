/** Physical memory as pages of 512 words, the processor's four-level walk over
    it, and the tree of tables that kernel/src/memory/paging.c keeps there. */
module PageTree {
  import Basics
  import opened PageWords

  type Page = p: seq<bv64> | |p| == 512 witness seq(512, _ => 0)

  /** The physical address of a page. */
  datatype PageAddr = PageAddr(bits: bv64)

  type Memory = map<PageAddr, Page>

  function ZeroPage(): (p: Page)
    ensures forall i :: 0 <= i < 512 ==> p[i] == 0
  {
    seq(512, _ => 0)
  }

  function Read(mem: Memory, page: PageAddr, slot: nat): bv64
    requires slot < 512
  {
    if page in mem then mem[page][slot] else 0
  }

  function Write(mem: Memory, page: PageAddr, slot: nat, e: bv64): Memory
    requires page in mem && slot < 512
  {
    mem[page := mem[page][slot := e]]
  }

  // ----- the hardware walk (section 4.5 of the Intel SDM, volume 3A)

  datatype Translation =
    | Fault
    | Large(level: Level)
    | Mapped(page: bv64, writable: bool, user: bool, noExecute: bool)

  /** The four table indices of an address, by level. */
  type Coordinates = at: seq<nat> | |at| == 4 && forall l :: 0 <= l < 4 ==> at[l] < 512 witness [0, 0, 0, 0]

  function At(virt: bv64): (at: Coordinates)
    ensures forall l: Level :: at[l] == Index(virt, l)
  {
    [Index(virt, PT), Index(virt, PD), Index(virt, PDP), Index(virt, PML4)]
  }

  function Walk(mem: Memory, table: PageAddr, at: Coordinates, level: Level,
                writable: bool, user: bool, noExecute: bool): Translation
    decreases level
  {
    var e := Read(mem, table, at[level]);
    var w := writable && Writable(e);
    var u := user && User(e);
    var x := noExecute || NoExecute(e);
    if !Present(e) then Fault
    else if level == PT then Mapped(Frame(e), w, u, x)
    else if level != PML4 && LargePage(e) then Large(level)
    else Walk(mem, PageAddr(Frame(e)), at, level - 1, w, u, x)
  }

  function Translate(mem: Memory, root: PageAddr, virt: bv64): Translation {
    Walk(mem, root, At(virt), PML4, true, true, false)
  }

  /** What one final entry grants when nothing above it takes rights away. */
  function Decode(e: bv64): Translation {
    if Present(e) then Mapped(Frame(e), Writable(e), User(e), NoExecute(e)) else Fault
  }

  // ----- the tree of tables

  /** Where a table hangs: under which slots, from the PML4 down. */
  datatype Path = Root | Child(up: Path, slot: nat)

  function Depth(p: Path): nat {
    match p
    case Root => 0
    case Child(up, _) => Depth(up) + 1
  }

  /** The path of the table that holds virt's entry of the given level. */
  function PathTo(virt: bv64, level: Level): (p: Path)
    ensures Depth(p) == 3 - level
    decreases 3 - level
  {
    if level == PML4 then Root else Child(PathTo(virt, level + 1), Index(virt, level + 1))
  }

  type Tables = map<Path, PageAddr>

  function Slots(page: Page): set<nat> {
    set i: nat | 0 <= i < 512 && Present(page[i])
  }

  /** The number of present entries of a table. */
  function Used(page: Page): nat {
    |Slots(page)|
  }

  /** Slot 511 of the PML4 holds the self-map and never leads to a child. */
  predicate Reserved(p: Path, slot: nat) {
    p.Root? && slot == 511
  }

  ghost predicate Shape(tables: Tables) {
    && Root in tables
    && (forall p :: p in tables ==> Depth(p) <= 3)
    && (forall up, slot :: Child(up, slot) in tables ==> up in tables && slot < 512 && !Reserved(up, slot))
  }

  ghost predicate Distinct(tables: Tables) {
    forall p, q :: p in tables && q in tables && tables[p] == tables[q] ==> p == q
  }

  ghost predicate Placed(mem: Memory, tables: Tables) {
    forall p :: p in tables ==> tables[p] in mem && Aligned(tables[p].bits)
  }

  function SelfEntry(root: PageAddr): bv64 {
    root.bits | 1 | 2
  }

  ghost predicate EntryOk(mem: Memory, tables: Tables, p: Path, slot: nat)
    requires Placed(mem, tables) && Root in tables && p in tables && slot < 512
  {
    var e := mem[tables[p]][slot];
    if Reserved(p, slot) then e == SelfEntry(tables[Root])
    else if Depth(p) == 3 then Present(e) || e == 0
    else if Child(p, slot) in tables then
      PointsTo(e, tables[Child(p, slot)].bits, Used(mem[tables[Child(p, slot)]]))
    else e == 0
  }

  ghost predicate EntriesOk(mem: Memory, tables: Tables)
    requires Placed(mem, tables) && Root in tables
  {
    forall p, slot :: p in tables && 0 <= slot < 512 ==> EntryOk(mem, tables, p, slot)
  }

  /** The tables are pairwise distinct pages, every interior entry leads to its
      child and carries the exact number of the child's present entries, and every
      word that is not present is zero. */
  ghost predicate Tree(mem: Memory, tables: Tables) {
    Shape(tables) && Distinct(tables) && Placed(mem, tables) && EntriesOk(mem, tables)
  }

  /** No table below the root is empty, `hole` excepted. */
  ghost predicate Bushy(mem: Memory, tables: Tables, hole: Path)
    requires Placed(mem, tables)
  {
    forall p :: p in tables && p.Child? && p != hole ==> Used(mem[tables[p]]) > 0
  }

  // ----- counting

  function UpTo(n: nat): (all: set<nat>)
    ensures forall i: nat :: i in all <==> i < n
    ensures |all| == n
  {
    if n == 0 then {} else UpTo(n - 1) + {n - 1}
  }

  lemma UsedBound(page: Page)
    ensures Used(page) <= 512
  {
    Basics.SubsetSize(Slots(page), UpTo(512));
  }

  lemma UsedAfterWrite(page: Page, slot: nat, e: bv64)
    requires slot < 512
    ensures Used(page[slot := e]) ==
            Used(page) + (if Present(e) then 1 else 0) - (if Present(page[slot]) then 1 else 0)
  {
    var after: Page := page[slot := e];
    assert Slots(after) - {slot} == Slots(page) - {slot};
    assert slot in Slots(page) <==> Present(page[slot]);
    assert slot in Slots(after) <==> Present(e);
    assert |Slots(page) - {slot}| == Used(page) - if Present(page[slot]) then 1 else 0;
    assert |Slots(after) - {slot}| == Used(after) - if Present(e) then 1 else 0;
  }

  lemma ZeroPageUsed()
    ensures Used(ZeroPage()) == 0
  {
    assert Slots(ZeroPage()) == {};
  }

  lemma UsedWitness(page: Page) returns (slot: nat)
    requires Used(page) > 0
    ensures slot < 512 && Present(page[slot])
  {
    slot :| slot in Slots(page);
  }

  lemma UsedPositive(page: Page, slot: nat)
    requires slot < 512 && Present(page[slot])
    ensures Used(page) > 0
  {
    assert slot in Slots(page);
  }

  // ----- one table word changes, and the count above it with it

  /** Write one word of table p; when that makes the slot present or absent, the
      count in the entry that leads to p follows (the PML4 has no such entry). */
  function Adjust(mem: Memory, tables: Tables, p: Path, slot: nat, e: bv64): Memory
    requires Shape(tables) && Placed(mem, tables) && p in tables && slot < 512
  {
    var written := Write(mem, tables[p], slot, e);
    if p.Root? || Present(e) == Present(mem[tables[p]][slot]) then written
    else
      var above := written[tables[p.up]][p.slot];
      Write(written, tables[p.up], p.slot, if Present(e) then Increment(above) else Decrement(above))
  }

  ghost predicate Adjustable(mem: Memory, tables: Tables, p: Path, slot: nat) {
    Tree(mem, tables) && p in tables && slot < 512 && !Reserved(p, slot)
  }

  /** How a table's count moves when one of its slots goes from `was` to `e`. */
  function Delta(was: bv64, e: bv64): int {
    (if Present(e) then 1 else 0) - (if Present(was) then 1 else 0)
  }

  lemma AdjustPages(mem: Memory, tables: Tables, p: Path, slot: nat, e: bv64, q: Path)
    requires Shape(tables) && Distinct(tables) && Placed(mem, tables)
    requires p in tables && slot < 512 && q in tables
    ensures var after := Adjust(mem, tables, p, slot, e);
      var delta := Delta(mem[tables[p]][slot], e);
      tables[q] in after &&
      after[tables[q]] ==
        if q == p then mem[tables[q]][slot := e]
        else if p.Child? && q == p.up && delta != 0 then
          var above := mem[tables[q]][p.slot];
          mem[tables[q]][p.slot := if delta > 0 then Increment(above) else Decrement(above)]
        else mem[tables[q]]
  {
  }

  /** The entry that leads to p, after the adjustment. */
  lemma AdjustAbove(mem: Memory, tables: Tables, p: Path, slot: nat, e: bv64)
    requires Adjustable(mem, tables, p, slot) && p.Child?
    ensures var after := Adjust(mem, tables, p, slot, e);
      && tables[p] in after && tables[p.up] in after
      && PointsTo(after[tables[p.up]][p.slot], tables[p].bits, Used(after[tables[p]]))
      && Used(after[tables[p]]) == Used(mem[tables[p]]) + Delta(mem[tables[p]][slot], e)
      && Present(mem[tables[p.up]][p.slot]) && Present(after[tables[p.up]][p.slot])
  {
    var page, above := mem[tables[p]], mem[tables[p.up]][p.slot];
    AdjustPages(mem, tables, p, slot, e, p);
    AdjustPages(mem, tables, p, slot, e, p.up);
    UsedAfterWrite(page, slot, e);
    UsedBound(page);
    assert EntryOk(mem, tables, p.up, p.slot);
    LeadsBits(above, tables[p].bits);
    if Present(page[slot]) {
      UsedPositive(page, slot);
      Decremented(above, tables[p].bits, Used(page));
    }
    Incremented(above, tables[p].bits, Used(page));
  }

  lemma AdjustUsed(mem: Memory, tables: Tables, p: Path, slot: nat, e: bv64, q: Path)
    requires Adjustable(mem, tables, p, slot) && q in tables
    ensures var after := Adjust(mem, tables, p, slot, e);
      tables[q] in after &&
      Used(after[tables[q]]) == Used(mem[tables[q]]) + if q == p then Delta(mem[tables[p]][slot], e) else 0
  {
    AdjustPages(mem, tables, p, slot, e, q);
    if q == p {
      UsedAfterWrite(mem[tables[q]], slot, e);
    } else if p.Child? && q == p.up && Delta(mem[tables[p]][slot], e) != 0 {
      AdjustAbove(mem, tables, p, slot, e);
      UsedAfterWrite(mem[tables[q]], p.slot, Adjust(mem, tables, p, slot, e)[tables[q]][p.slot]);
    }
  }

  /** Every other entry stays as the tree wants it. */
  lemma AdjustEntry(mem: Memory, tables: Tables, p: Path, slot: nat, e: bv64, q: Path, i: nat)
    requires Adjustable(mem, tables, p, slot) && q in tables && i < 512 && !(q == p && i == slot)
    requires Placed(Adjust(mem, tables, p, slot, e), tables)
    ensures EntryOk(Adjust(mem, tables, p, slot, e), tables, q, i)
  {
    AdjustPages(mem, tables, p, slot, e, q);
    assert EntryOk(mem, tables, q, i);
    if !Reserved(q, i) && Depth(q) < 3 && Child(q, i) in tables {
      AdjustUsed(mem, tables, p, slot, e, Child(q, i));
      if Child(q, i) == p {
        AdjustAbove(mem, tables, p, slot, e);
      }
    }
  }

  lemma AdjustPlaced(mem: Memory, tables: Tables, p: Path, slot: nat, e: bv64)
    requires Adjustable(mem, tables, p, slot)
    ensures Placed(Adjust(mem, tables, p, slot, e), tables)
    ensures Adjust(mem, tables, p, slot, e).Keys == mem.Keys
    ensures forall page :: page in mem && page !in tables.Values ==> Adjust(mem, tables, p, slot, e)[page] == mem[page]
  {
    assert tables[p] in tables.Values;
    assert p.Child? ==> tables[p.up] in tables.Values;
  }

  // ----- a leaf entry

  /** paging.c:172-178 and 246-249, for the leaf entry of virt. */
  function SetLeaf(mem: Memory, tables: Tables, virt: bv64, e: bv64): Memory
    requires Shape(tables) && Placed(mem, tables) && PathTo(virt, PT) in tables
  {
    Adjust(mem, tables, PathTo(virt, PT), Index(virt, PT), e)
  }

  lemma SetLeafKeepsTree(mem: Memory, tables: Tables, virt: bv64, e: bv64)
    requires Tree(mem, tables) && PathTo(virt, PT) in tables
    requires Present(e) || e == 0
    requires Bushy(mem, tables, PathTo(virt, PT))
    ensures Tree(SetLeaf(mem, tables, virt, e), tables)
    ensures Bushy(SetLeaf(mem, tables, virt, e), tables, if Present(e) then Root else PathTo(virt, PT))
    ensures SetLeaf(mem, tables, virt, e).Keys == mem.Keys
  {
    var p, slot := PathTo(virt, PT), Index(virt, PT);
    var after := Adjust(mem, tables, p, slot, e);
    AdjustPlaced(mem, tables, p, slot, e);
    AdjustPages(mem, tables, p, slot, e, p);
    forall q, i | q in tables && 0 <= i < 512 ensures EntryOk(after, tables, q, i) {
      if !(q == p && i == slot) {
        AdjustEntry(mem, tables, p, slot, e, q, i);
      }
    }
    forall q | q in tables && q.Child? && (Present(e) || q != p) ensures Used(after[tables[q]]) > 0 {
      AdjustUsed(mem, tables, p, slot, e, q);
      if q == p {
        UsedPositive(after[tables[p]], slot);
      }
    }
  }

  // ----- attaching and detaching an empty table

  /** paging.c:115-133: clear the new table, enter it, and count it in the entry of
      the table that got the new entry (for a new PDP, lines 88-103, there is none). */
  function Attach(mem: Memory, tables: Tables, p: Path, slot: nat, page: PageAddr): Memory
    requires Shape(tables) && Placed(mem, tables) && p in tables && slot < 512
  {
    Adjust(mem[page := ZeroPage()], tables, p, slot, TableEntry(page.bits))
  }

  ghost predicate Attachable(mem: Memory, tables: Tables, p: Path, slot: nat, page: PageAddr) {
    && Adjustable(mem, tables, p, slot)
    && Depth(p) < 3 && Child(p, slot) !in tables
    && page in mem && Aligned(page.bits) && page !in tables.Values
  }

  lemma ZeroNotPresent()
    ensures !Present(0)
  {
  }

  lemma ClearingKeepsTree(mem: Memory, tables: Tables, page: PageAddr)
    requires Tree(mem, tables) && page !in tables.Values
    ensures Tree(mem[page := ZeroPage()], tables)
  {
    var cleared := mem[page := ZeroPage()];
    forall q | q in tables ensures tables[q] in cleared && cleared[tables[q]] == mem[tables[q]] {
      assert tables[q] in tables.Values;
    }
    forall q, i | q in tables && 0 <= i < 512 ensures EntryOk(cleared, tables, q, i) {
      assert EntryOk(mem, tables, q, i);
    }
  }

  lemma AttachUsed(mem: Memory, tables: Tables, p: Path, slot: nat, page: PageAddr, q: Path)
    requires Attachable(mem, tables, p, slot, page) && q in tables
    ensures var after := Attach(mem, tables, p, slot, page);
      tables[q] in after &&
      Used(after[tables[q]]) == Used(mem[tables[q]]) + if q == p then 1 else 0
  {
    ClearingKeepsTree(mem, tables, page);
    assert tables[p] in tables.Values && tables[q] in tables.Values;
    assert EntryOk(mem, tables, p, slot);
    ZeroNotPresent();
    NewEntry(page.bits);
    LeadsBits(TableEntry(page.bits), page.bits);
    AdjustUsed(mem[page := ZeroPage()], tables, p, slot, TableEntry(page.bits), q);
  }

  lemma AttachEntry(mem: Memory, tables: Tables, p: Path, slot: nat, page: PageAddr, q: Path, i: nat)
    requires Attachable(mem, tables, p, slot, page) && i < 512
    requires q in tables[Child(p, slot) := page]
    requires Placed(Attach(mem, tables, p, slot, page), tables[Child(p, slot) := page])
    ensures EntryOk(Attach(mem, tables, p, slot, page), tables[Child(p, slot) := page], q, i)
  {
    var cleared := mem[page := ZeroPage()];
    var e := TableEntry(page.bits);
    var after := Attach(mem, tables, p, slot, page);
    ClearingKeepsTree(mem, tables, page);
    AdjustPlaced(cleared, tables, p, slot, e);
    if q == Child(p, slot) {
      assert Child(q, i) !in tables && Child(q, i) != q;
    } else if q == p && i == slot {
      AdjustPages(cleared, tables, p, slot, e, p);
      NewEntry(page.bits);
      ZeroPageUsed();
    } else {
      AdjustEntry(cleared, tables, p, slot, e, q, i);
    }
  }

  /** Attaching keeps the tree; only the new table itself may be empty. */
  lemma AttachKeepsTree(mem: Memory, tables: Tables, p: Path, slot: nat, page: PageAddr)
    requires Attachable(mem, tables, p, slot, page)
    requires Bushy(mem, tables, p)
    ensures Tree(Attach(mem, tables, p, slot, page), tables[Child(p, slot) := page])
    ensures Bushy(Attach(mem, tables, p, slot, page), tables[Child(p, slot) := page], Child(p, slot))
    ensures Attach(mem, tables, p, slot, page).Keys == mem.Keys
  {
    var after := Attach(mem, tables, p, slot, page);
    var grown := tables[Child(p, slot) := page];
    ClearingKeepsTree(mem, tables, page);
    AdjustPlaced(mem[page := ZeroPage()], tables, p, slot, TableEntry(page.bits));
    forall q, i | q in grown && 0 <= i < 512 ensures EntryOk(after, grown, q, i) {
      AttachEntry(mem, tables, p, slot, page, q, i);
    }
    forall q, r | q in grown && r in grown && grown[q] == grown[r] ensures q == r {
      assert q in tables ==> tables[q] in tables.Values;
      assert r in tables ==> tables[r] in tables.Values;
    }
    forall q | q in grown && q.Child? && q != Child(p, slot) ensures Used(after[grown[q]]) > 0 {
      AttachUsed(mem, tables, p, slot, page, q);
    }
  }

  /** paging.c:257-260: remove the entry of an empty table and uncount it above. */
  function Detach(mem: Memory, tables: Tables, p: Path): Memory
    requires Shape(tables) && Placed(mem, tables) && p in tables && p.Child?
  {
    Adjust(mem, tables, p.up, p.slot, 0)
  }

  lemma EmptyTableHasNoChild(mem: Memory, tables: Tables, p: Path, slot: nat)
    requires Tree(mem, tables) && p in tables && Used(mem[tables[p]]) == 0
    ensures Child(p, slot) !in tables
    ensures slot < 512 ==> mem[tables[p]][slot] == 0
  {
    if slot < 512 {
      assert EntryOk(mem, tables, p, slot);
      if Present(mem[tables[p]][slot]) {
        UsedPositive(mem[tables[p]], slot);
      }
      if Reserved(p, slot) {
        SelfEntryPresent(tables[Root]);
      } else if Depth(p) < 3 && Child(p, slot) in tables {
        LeadsBits(mem[tables[p]][slot], tables[Child(p, slot)].bits);
      }
    }
  }

  lemma SelfEntryPresent(root: PageAddr)
    ensures Present(SelfEntry(root))
  {
  }

  lemma DetachUsed(mem: Memory, tables: Tables, p: Path, q: Path)
    requires Tree(mem, tables) && p in tables && p.Child? && q in tables
    ensures var after := Detach(mem, tables, p);
      tables[q] in after &&
      Used(after[tables[q]]) == Used(mem[tables[q]]) - if q == p.up then 1 else 0
  {
    assert EntryOk(mem, tables, p.up, p.slot);
    LeadsBits(mem[tables[p.up]][p.slot], tables[p].bits);
    ZeroNotPresent();
    AdjustUsed(mem, tables, p.up, p.slot, 0, q);
  }

  /** Detaching an empty table keeps the tree; now its parent may be empty. */
  lemma DetachKeepsTree(mem: Memory, tables: Tables, p: Path)
    requires Tree(mem, tables) && p in tables && p.Child?
    requires Used(mem[tables[p]]) == 0
    requires Bushy(mem, tables, p)
    ensures Tree(Detach(mem, tables, p), tables - {p})
    ensures Bushy(Detach(mem, tables, p), tables - {p}, p.up)
    ensures Detach(mem, tables, p).Keys == mem.Keys
  {
    var after := Detach(mem, tables, p);
    var shrunk := tables - {p};
    AdjustPlaced(mem, tables, p.up, p.slot, 0);
    forall q | q in shrunk && q.Child? ensures q.up in shrunk {
      if q.up == p {
        EmptyTableHasNoChild(mem, tables, p, q.slot);
      }
    }
    forall q, i | q in shrunk && 0 <= i < 512 ensures EntryOk(after, shrunk, q, i) {
      DetachedEntry(mem, tables, p, q, i);
    }
    forall q | q in shrunk && q.Child? && q != p.up ensures Used(after[shrunk[q]]) > 0 {
      DetachUsed(mem, tables, p, q);
    }
  }

  lemma DetachedEntry(mem: Memory, tables: Tables, p: Path, q: Path, i: nat)
    requires Tree(mem, tables) && p in tables && p.Child? && q in tables && q != p && i < 512
    requires Used(mem[tables[p]]) == 0
    ensures EntryOk(Detach(mem, tables, p), tables - {p}, q, i)
  {
    if q == p.up && i == p.slot {
      AdjustPages(mem, tables, p.up, p.slot, 0, q);
    } else {
      AdjustEntry(mem, tables, p.up, p.slot, 0, q, i);
    }
  }

  // ----- what a tree maps

  /** The word in slot `slot` of the page table at path q; zero where there is no
      such table. */
  function LeafAt(mem: Memory, tables: Tables, q: Path, slot: nat): bv64
    requires Placed(mem, tables) && slot < 512
  {
    if q in tables then mem[tables[q]][slot] else 0
  }

  /** virt's leaf entry. */
  function LeafEntry(mem: Memory, tables: Tables, virt: bv64): bv64
    requires Placed(mem, tables)
  {
    LeafAt(mem, tables, PathTo(virt, PT), Index(virt, PT))
  }

  /** Slot 511 of the PML4 is the self-map; everything else is ordinary. */
  predicate Ordinary(virt: bv64) {
    Index(virt, PML4) != 511
  }

  lemma TablesOnTheWay(tables: Tables, virt: bv64, level: Level)
    requires Shape(tables) && PathTo(virt, level) in tables
    ensures forall l: Level :: level <= l ==> PathTo(virt, l) in tables
    decreases 4 - level
  {
    if level < PML4 {
      TablesOnTheWay(tables, virt, level + 1);
    }
  }

  lemma WalkStep(mem: Memory, tables: Tables, virt: bv64, level: Level)
    requires Tree(mem, tables) && Ordinary(virt) && level > PT
    requires PathTo(virt, level) in tables
    ensures Walk(mem, tables[PathTo(virt, level)], At(virt), level, true, true, false) ==
            if PathTo(virt, level - 1) in tables
            then Walk(mem, tables[PathTo(virt, level - 1)], At(virt), level - 1, true, true, false)
            else Fault
  {
    var p, i := PathTo(virt, level), Index(virt, level);
    assert EntryOk(mem, tables, p, i);
    if Child(p, i) in tables {
      LeadsBits(mem[tables[p]][i], tables[Child(p, i)].bits);
    } else {
      ZeroNotPresent();
    }
  }

  /** The processor's walk sees exactly the leaf entry: nothing above it takes
      rights away, and nothing above it is a large page. */
  lemma WalkSeesLeaf(mem: Memory, tables: Tables, virt: bv64)
    requires Tree(mem, tables) && Ordinary(virt)
    ensures Translate(mem, tables[Root], virt) == Decode(LeafEntry(mem, tables, virt))
  {
    ZeroNotPresent();
    WalkStep(mem, tables, virt, PML4);
    if PathTo(virt, PDP) in tables {
      WalkStep(mem, tables, virt, PDP);
      if PathTo(virt, PD) in tables {
        WalkStep(mem, tables, virt, PD);
      } else if PathTo(virt, PT) in tables {
        TablesOnTheWay(tables, virt, PT);
      }
    } else if PathTo(virt, PT) in tables {
      TablesOnTheWay(tables, virt, PT);
    }
  }

  lemma SameLeaf(v: bv64, w: bv64)
    ensures PathTo(v, PT) == PathTo(w, PT) && Index(v, PT) == Index(w, PT) <==> Address(v) == Address(w)
  {
    IndicesNamePage(v, w);
    UnfoldPath(v);
    UnfoldPath(w);
    if PathTo(v, PT) == PathTo(w, PT) && Index(v, PT) == Index(w, PT) {
      forall level: Level ensures Index(v, level) == Index(w, level) {
        assert level == 0 || level == 1 || level == 2 || level == 3;
      }
    }
    if SameIndices(v, w) {
      assert Index(v, PT) == Index(w, PT) && Index(v, PD) == Index(w, PD);
      assert Index(v, PDP) == Index(w, PDP) && Index(v, PML4) == Index(w, PML4);
    }
  }

  lemma UnfoldPath(v: bv64)
    ensures PathTo(v, PT) == Child(Child(Child(Root, Index(v, PML4)), Index(v, PDP)), Index(v, PD))
  {
    assert PathTo(v, PDP) == Child(PathTo(v, PML4), Index(v, PML4));
    assert PathTo(v, PD) == Child(PathTo(v, PDP), Index(v, PDP));
  }

  lemma SetLeafLeaves(mem: Memory, tables: Tables, virt: bv64, e: bv64, q: Path, i: nat)
    requires Tree(mem, tables) && PathTo(virt, PT) in tables && Depth(q) == 3 && i < 512
    requires Placed(SetLeaf(mem, tables, virt, e), tables)
    ensures LeafAt(SetLeaf(mem, tables, virt, e), tables, q, i) ==
            if q == PathTo(virt, PT) && i == Index(virt, PT) then e else LeafAt(mem, tables, q, i)
  {
    if q in tables {
      AdjustPages(mem, tables, PathTo(virt, PT), Index(virt, PT), e, q);
    }
  }

  lemma AttachLeaves(mem: Memory, tables: Tables, p: Path, slot: nat, page: PageAddr, q: Path, i: nat)
    requires Attachable(mem, tables, p, slot, page) && Depth(q) == 3 && i < 512
    requires Placed(Attach(mem, tables, p, slot, page), tables[Child(p, slot) := page])
    ensures LeafAt(Attach(mem, tables, p, slot, page), tables[Child(p, slot) := page], q, i) ==
            LeafAt(mem, tables, q, i)
  {
    var cleared := mem[page := ZeroPage()];
    ClearingKeepsTree(mem, tables, page);
    AdjustPlaced(cleared, tables, p, slot, TableEntry(page.bits));
    if q in tables {
      assert tables[q] in tables.Values;
      AdjustPages(cleared, tables, p, slot, TableEntry(page.bits), q);
    }
  }

  lemma DetachLeaves(mem: Memory, tables: Tables, p: Path, q: Path, i: nat)
    requires Tree(mem, tables) && p in tables && p.Child? && Used(mem[tables[p]]) == 0
    requires Depth(q) == 3 && i < 512
    requires Placed(Detach(mem, tables, p), tables - {p})
    ensures LeafAt(Detach(mem, tables, p), tables - {p}, q, i) == LeafAt(mem, tables, q, i)
  {
    if q == p {
      EmptyTableHasNoChild(mem, tables, p, i);
    } else if q in tables {
      AdjustPages(mem, tables, p.up, p.slot, 0, q);
    }
  }

  // ----- the leaves determine the tree

  predicate Below(q: Path, p: Path) {
    q == p || (q.Child? && Below(q.up, p))
  }

  lemma {:induction false} LeafBelow(mem: Memory, tables: Tables, p: Path) returns (q: Path, i: nat)
    requires Tree(mem, tables) && Bushy(mem, tables, Root)
    requires p in tables && p.Child?
    ensures Below(q, p) && Depth(q) == 3 && i < 512 && Present(LeafAt(mem, tables, q, i))
    decreases 3 - Depth(p)
  {
    var slot := UsedWitness(mem[tables[p]]);
    if Depth(p) == 3 {
      q, i := p, slot;
    } else {
      assert EntryOk(mem, tables, p, slot);
      ZeroNotPresent();
      q, i := LeafBelow(mem, tables, Child(p, slot));
      BelowTransitive(q, Child(p, slot), p);
    }
  }

  lemma {:induction false} BelowTransitive(q: Path, p: Path, r: Path)
    requires Below(q, p) && Below(p, r)
    ensures Below(q, r)
  {
    if q != p {
      BelowTransitive(q.up, p, r);
    }
  }

  lemma {:induction false} PrefixClosed(tables: Tables, q: Path, p: Path)
    requires Shape(tables) && q in tables && Below(q, p)
    ensures p in tables
  {
    if q != p {
      PrefixClosed(tables, q.up, p);
    }
  }

  ghost predicate SameLeaves(mem: Memory, tables: Tables, mem': Memory, tables': Tables)
    requires Placed(mem, tables) && Placed(mem', tables')
  {
    forall q, i :: Depth(q) == 3 && 0 <= i < 512 ==> LeafAt(mem, tables, q, i) == LeafAt(mem', tables', q, i)
  }

  /** Where two maps of tables overlap they name the same pages. */
  ghost predicate Agree(tables: Tables, tables': Tables) {
    forall p :: p in tables && p in tables' ==> tables[p] == tables'[p]
  }

  lemma SameTables(mem: Memory, tables: Tables, mem': Memory, tables': Tables)
    requires Tree(mem, tables) && Bushy(mem, tables, Root)
    requires Tree(mem', tables') && Bushy(mem', tables', Root)
    requires SameLeaves(mem, tables, mem', tables')
    ensures tables.Keys <= tables'.Keys
  {
    forall p | p in tables ensures p in tables' {
      if p.Child? {
        var q, i := LeafBelow(mem, tables, p);
        ZeroNotPresent();
        assert LeafAt(mem, tables, q, i) == LeafAt(mem', tables', q, i);
        PrefixClosed(tables', q, p);
      }
    }
  }

  lemma {:induction false} SamePages(mem: Memory, mem': Memory, tables: Tables, p: Path)
    requires Tree(mem, tables) && Tree(mem', tables) && p in tables
    requires SameLeaves(mem, tables, mem', tables)
    ensures mem[tables[p]] == mem'[tables[p]]
    decreases 3 - Depth(p)
  {
    forall i | 0 <= i < 512 ensures mem[tables[p]][i] == mem'[tables[p]][i] {
      assert EntryOk(mem, tables, p, i) && EntryOk(mem', tables, p, i);
      if Depth(p) == 3 {
        assert LeafAt(mem, tables, p, i) == LeafAt(mem', tables, p, i);
      } else if !Reserved(p, i) && Child(p, i) in tables {
        var c := Child(p, i);
        SamePages(mem, mem', tables, c);
        PointsToDetermines(mem[tables[p]][i], mem'[tables[p]][i], tables[c].bits, Used(mem[tables[c]]));
      }
    }
  }

  /** Two trees without empty tables that map the same leaves, and use the same
      page wherever both have a table, are the same tables holding the same words. */
  lemma LeavesDetermineTree(mem: Memory, tables: Tables, mem': Memory, tables': Tables)
    requires Tree(mem, tables) && Bushy(mem, tables, Root)
    requires Tree(mem', tables') && Bushy(mem', tables', Root)
    requires SameLeaves(mem, tables, mem', tables') && Agree(tables, tables')
    ensures tables == tables'
    ensures forall p :: p in tables ==> mem[tables[p]] == mem'[tables[p]]
  {
    SameTables(mem, tables, mem', tables');
    SameTables(mem', tables', mem, tables);
    assert tables == tables';
    forall p | p in tables ensures mem[tables[p]] == mem'[tables[p]] {
      SamePages(mem, mem', tables, p);
    }
  }
}
