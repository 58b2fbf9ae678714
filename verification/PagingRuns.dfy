/** What paging_map and paging_unmap promise over whole runs, in terms of the
    processor's walk, the occupancy counts and the pages taken from palloc. */
module PagingRuns {
  import Basics
  import opened PageWords
  import opened PageTree
  import opened PageNumbers
  import opened AddressSpace
  import SelfMap

  // ----- one call, as the processor sees it

  lemma MapTranslates(s: State, virt: bv64, phy: bv64, flags: bv64, given: seq<PageAddr>, v: bv64)
    requires Mappable(s, virt, given) && Ordinary(v)
    ensures var t := Map(s, virt, phy, flags, given);
      Root in t.tables &&
      Translate(t.mem, t.tables[Root], v) ==
      if Address(v) == Address(virt) then Decode(LeafWord(phy, flags))
      else Translate(s.mem, s.tables[Root], v)
  {
    hide Walk, Index, EntriesOk, Distinct, Bushy, Decode, Present;
    var t := Map(s, virt, phy, flags, given);
    MapState(s, virt, phy, flags, given);
    WalkSeesLeaf(s.mem, s.tables, v);
    WalkSeesLeaf(t.mem, t.tables, v);
    LeafOf(s, t, virt, LeafWord(phy, flags), v);
  }

  lemma UnmapTranslates(s: State, virt: bv64, explicit: bool, v: bv64)
    requires Sound(s, Root) && Ordinary(v)
    ensures var t := Unmap(s, virt, explicit);
      Root in t.tables &&
      Translate(t.mem, t.tables[Root], v) ==
      if Address(v) == Address(virt) then Fault else Translate(s.mem, s.tables[Root], v)
  {
    hide Walk, Index, EntriesOk, Distinct, Bushy, Present;
    var t := Unmap(s, virt, explicit);
    UnmapState(s, virt, explicit);
    WalkSeesLeaf(s.mem, s.tables, v);
    WalkSeesLeaf(t.mem, t.tables, v);
    LeafOf(s, t, virt, 0, v);
    ZeroNotPresent();
  }

  lemma LeafOf(s: State, t: State, virt: bv64, e: bv64, v: bv64)
    requires Rooted(s) && Rooted(t) && LeafUpdated(s, t, Address(virt), e)
    ensures LeafEntry(t.mem, t.tables, v) == if Address(v) == Address(virt) then e else LeafEntry(s.mem, s.tables, v)
  {
    hide Index;
    AddressTwice(virt);
    SameLeaf(v, Address(virt));
    PathDepth(v);
  }

  lemma AddressTwice(v: bv64)
    ensures Address(Address(v)) == Address(v)
  {
  }

  lemma PathDepth(v: bv64)
    ensures Depth(PathTo(v, PT)) == 3
  {
  }

  /** The walk yields the aligned physical address with the given flags exactly when
      the flags stay out of the address field. */
  lemma GrantedAsAsked(phy: bv64, flags: bv64)
    ensures Decode(LeafWord(phy, flags)) == Mapped(Address(phy), Writable(flags), User(flags), NoExecute(flags)) <==>
            Frame(flags) & !Address(phy) == 0
  {
    LeafWordFlags(phy, flags);
    hide Present, Frame, Writable, User, NoExecute, LeafWord;
    LeafWordFrame(phy, flags);
  }

  /** Page 0x2000 asked for with bit 12 among the flags: the walk gives page 0x3000. */
  lemma FlagMovesPage()
    ensures Decode(LeafWord(0x2000, 0x1002)) == Mapped(0x3000, true, false, false)
  {
    assert LeafWord(0x2000, 0x1002) == 0x3003;
  }

  // ----- the words themselves

  /** The last operation of a run on the page of v. */
  predicate IsLastOn(ops: seq<Op>, v: bv64, k: nat) {
    && k < |ops| && Address(ops[k].virt) == Address(v)
    && forall i :: k < i < |ops| ==> Address(ops[i].virt) != Address(v)
  }

  /** Over a run the last operation on a page decides every bit of its leaf entry, and without one
      it stays as it was. */
  lemma {:induction false} RunStores(s: State, ops: seq<Op>, v: bv64)
    requires Sound(s, Root) && LegalRun(s, ops)
    ensures Rooted(s) && Rooted(Run(s, ops))
    ensures forall k: nat :: IsLastOn(ops, v, k) ==>
              var e := LeafEntry(Run(s, ops).mem, Run(s, ops).tables, v);
              if ops[k].MapOp? then AsAsked(e, ops[k].phy, ops[k].flags) else e == 0
    ensures (forall i :: 0 <= i < |ops| ==> Address(ops[i].virt) != Address(v)) ==>
              LeafEntry(Run(s, ops).mem, Run(s, ops).tables, v) == LeafEntry(s.mem, s.tables, v)
    decreases |ops|
  {
    hide Index, EntriesOk, Distinct, Bushy, PagesSound, Apply, Legal, LeafEntry, AsAsked, Address, SameElsewhere;
    if ops != [] {
      var u := Apply(s, ops[0]);
      ApplyKeeps(s, ops[0]);
      ApplyStores(s, ops[0], v);
      RunStores(u, ops[1..], v);
      forall k: nat | IsLastOn(ops, v, k)
        ensures var e := LeafEntry(Run(s, ops).mem, Run(s, ops).tables, v);
                if ops[k].MapOp? then AsAsked(e, ops[k].phy, ops[k].flags) else e == 0
      {
        if k > 0 {
          assert IsLastOn(ops[1..], v, k - 1);
        } else {
          assert forall i :: 0 <= i < |ops[1..]| ==> Address(ops[1..][i].virt) != Address(v);
        }
      }
    }
  }

  lemma ApplyStores(s: State, op: Op, v: bv64)
    requires Legal(s, op) && Sound(s, Root)
    ensures Rooted(s) && Rooted(Apply(s, op))
    ensures var e := LeafEntry(Apply(s, op).mem, Apply(s, op).tables, v);
            if Address(v) != Address(op.virt) then e == LeafEntry(s.mem, s.tables, v)
            else if op.MapOp? then AsAsked(e, op.phy, op.flags) else e == 0
  {
    hide Index, EntriesOk, Distinct, Bushy, PagesSound, Map, Unmap, AsAsked, LeafWord, LeafEntry, LeafUpdated;
    match op
    case MapOp(virt, phy, flags, given) =>
      MapState(s, virt, phy, flags, given);
      LeafOf(s, Apply(s, op), virt, LeafWord(phy, flags), v);
      LeafWordIsAsAsked(phy, flags);
    case UnmapOp(virt, explicit) =>
      UnmapState(s, virt, explicit);
      LeafOf(s, Apply(s, op), virt, 0, v);
  }

  /** The word paging_map leaves in the leaf entry of virt is the one asked for. */
  lemma MapStores(s: State, virt: bv64, phy: bv64, flags: bv64, given: seq<PageAddr>)
    requires Mappable(s, virt, given)
    ensures var t := Map(s, virt, phy, flags, given);
      && Rooted(t) && PathTo(virt, PT) in t.tables
      && AsAsked(t.mem[t.tables[PathTo(virt, PT)]][Index(virt, PT)], phy, flags)
  {
    hide Index, Map, AsAsked, Ready, Bushy, EntriesOk, Distinct, PagesSound, Apply;
    var t := Map(s, virt, phy, flags, given);
    ApplyStores(s, MapOp(virt, phy, flags, given), virt);
    assert Apply(s, MapOp(virt, phy, flags, given)) == t by {
      AppliedMap(s, virt, phy, flags, given);
    }
    AskedIsPresent(LeafEntry(t.mem, t.tables, virt), phy, flags);
  }

  lemma AppliedMap(s: State, virt: bv64, phy: bv64, flags: bv64, given: seq<PageAddr>)
    requires Mappable(s, virt, given)
    ensures Apply(s, MapOp(virt, phy, flags, given)) == Map(s, virt, phy, flags, given)
  {
    hide Map, Mappable;
  }

  lemma AskedIsPresent(e: bv64, phy: bv64, flags: bv64)
    requires AsAsked(e, phy, flags)
    ensures e != 0
  {
  }

  /** Every word of an interior table that is in use: the page of the table below, PRESENT, RW and
      USER, and the count; and the last word of the PML4. */
  lemma InteriorWords(s: State, p: Path, slot: nat)
    requires Sound(s, Root) && p in s.tables && Depth(p) < 3 && slot < 512
    ensures s.mem[s.tables[Root]][511] == s.tables[Root].bits | 3
    ensures Child(p, slot) in s.tables ==>
              var e := s.mem[s.tables[p]][slot];
              && e & 0x0000_FFFF_FFFF_F000 == s.tables[Child(p, slot)].bits
              && e & 0xC00F_0000_0000_0FFF == 7
              && ((e >> 52) & 0x3FF) as nat == Used(s.mem[s.tables[Child(p, slot)]])
    ensures !Reserved(p, slot) && Child(p, slot) !in s.tables ==> s.mem[s.tables[p]][slot] == 0
  {
    hide Index, Bushy, Present;
    assert EntryOk(s.mem, s.tables, Root, 511) && EntryOk(s.mem, s.tables, p, slot);
    RootWord(s.tables[Root].bits);
    if Child(p, slot) in s.tables {
      CountAsNumber((s.mem[s.tables[p]][slot] >> 52) & 0x3FF);
    }
  }

  lemma RootWord(root: bv64)
    ensures root | 1 | 2 == root | 3
  {
  }

  lemma CountAsNumber(c: bv64)
    requires c <= 0x3FF
    ensures ToCount(c) == c as nat
  {
  }

  // ----- with and without the PML4's address

  /** In a sound state the computed address of every existing table translates to that
      table, writable and for the kernel only. */
  lemma SelfMapFindsTables(s: State, virt: bv64, level: Level)
    requires Sound(s, Root) && Aligned(virt) && Ordinary(virt) && PathTo(virt, level) in s.tables
    ensures Translate(s.mem, s.tables[Root], FractalAccess(virt, level)) ==
            Mapped(s.tables[PathTo(virt, level)].bits, true, false, false)
  {
    hide Index, Aligned, EntriesOk, Bushy;
    SelfMap.TreeIsLinked(s.mem, s.tables, virt, level);
    SelfMap.FractalAccessFindsTable(s.mem, s.tables, virt, level);
  }

  lemma {:induction false} PruneModesAgree(s: State, t: State, p: Path)
    requires Sound(s, p) && Sound(t, p) && p in s.tables && t.mem == s.mem && t.tables == s.tables
    ensures Prune(s, p, true).mem == Prune(t, p, false).mem
    ensures Prune(s, p, true).tables == Prune(t, p, false).tables
    decreases p
  {
    hide Index, EntriesOk, Bushy, Distinct;
    if p.Child? && Used(s.mem[s.tables[p]]) == 0 {
      PruneStep(s, p, true);
      PruneStep(t, p, false);
      PruneModesAgree(Removed(s, p, true), Removed(t, p, false), p.up);
    }
  }

  /** paging_unmap makes the same memory update by either way of reaching the tables. */
  lemma UnmapModesAgree(s: State, virt: bv64)
    requires Sound(s, Root)
    ensures Unmap(s, virt, true).mem == Unmap(s, virt, false).mem
    ensures Unmap(s, virt, true).tables == Unmap(s, virt, false).tables
  {
    hide Index, EntriesOk, Bushy, Distinct, SetLeaf;
    var v := Address(virt);
    if Present(LeafEntry(s.mem, s.tables, v)) {
      UnmapReady(s, v);
      var u := s.(mem := SetLeaf(s.mem, s.tables, v, 0));
      PruneModesAgree(u, u, PathTo(v, PT));
    }
  }

  // ----- any run of maps and unmaps

  datatype Op =
    | MapOp(virt: bv64, phy: bv64, flags: bv64, given: seq<PageAddr>)
    | UnmapOp(virt: bv64, explicit: bool)

  ghost predicate Legal(s: State, op: Op) {
    match op
    case MapOp(virt, _, _, given) => Mappable(s, virt, given)
    case UnmapOp(virt, _) => Sound(s, Root) && Ordinary(Address(virt))
  }

  function Apply(s: State, op: Op): State
    requires Legal(s, op)
  {
    match op
    case MapOp(virt, phy, flags, given) => Map(s, virt, phy, flags, given)
    case UnmapOp(virt, explicit) => Unmap(s, virt, explicit)
  }

  ghost predicate LegalRun(s: State, ops: seq<Op>)
    decreases |ops|
  {
    ops == [] || (Legal(s, ops[0]) && LegalRun(Apply(s, ops[0]), ops[1..]))
  }

  function Run(s: State, ops: seq<Op>): State
    requires LegalRun(s, ops)
    decreases |ops|
  {
    if ops == [] then s else Run(Apply(s, ops[0]), ops[1..])
  }

  lemma ApplyKeeps(s: State, op: Op)
    requires Legal(s, op)
    ensures var t := Apply(s, op);
      Sound(t, Root) && SameElsewhere(s, t) && Leaked(s) <= Leaked(t)
  {
    hide Index, EntriesOk, Distinct, Bushy, Placed, LeafUpdated;
    match op
    case MapOp(virt, phy, flags, given) => MapState(s, virt, phy, flags, given);
    case UnmapOp(virt, explicit) => UnmapState(s, virt, explicit);
  }

  /** Whatever is mapped and unmapped, the tables stay a tree with exact counts and
      without empty tables, and only table pages are ever written. */
  lemma {:induction false} RunKeeps(s: State, ops: seq<Op>)
    requires Sound(s, Root) && LegalRun(s, ops)
    ensures var t := Run(s, ops);
      Sound(t, Root) && SameElsewhere(s, t) && Leaked(s) <= Leaked(t)
    decreases |ops|
  {
    hide Index, EntriesOk, Distinct, Bushy, Placed, Apply, Legal;
    if ops != [] {
      ApplyKeeps(s, ops[0]);
      RunKeeps(Apply(s, ops[0]), ops[1..]);
    }
  }

  /** What an operation itself says about the page of v. */
  function Said(op: Op, v: bv64, was: Translation): Translation {
    if Address(v) != Address(op.virt) then was
    else match op
      case MapOp(_, phy, flags, _) => Decode(LeafWord(phy, flags))
      case UnmapOp(_, _) => Fault
  }

  function Replay(ops: seq<Op>, v: bv64, was: Translation): Translation {
    if ops == [] then was else Replay(ops[1..], v, Said(ops[0], v, was))
  }

  lemma ApplyTranslates(s: State, op: Op, v: bv64)
    requires Legal(s, op) && Ordinary(v)
    ensures var t := Apply(s, op);
      && Root in t.tables
      && Translate(t.mem, t.tables[Root], v) == Said(op, v, Translate(s.mem, s.tables[Root], v))
  {
    hide Index, EntriesOk, Distinct, Bushy, Placed, Walk, Translate, Decode, Map, Unmap, Address;
    match op
    case MapOp(virt, phy, flags, given) => MapTranslates(s, virt, phy, flags, given, v);
    case UnmapOp(virt, explicit) => UnmapTranslates(s, virt, explicit, v);
  }

  /** After any run the processor's walk of any page outside slot 511 gives what the
      last operation on that page asked for, and what it gave before if there was
      none. */
  lemma {:induction false} RunTranslates(s: State, ops: seq<Op>, v: bv64)
    requires Sound(s, Root) && LegalRun(s, ops) && Ordinary(v)
    ensures var t := Run(s, ops);
      Root in t.tables &&
      Translate(t.mem, t.tables[Root], v) == Replay(ops, v, Translate(s.mem, s.tables[Root], v))
    decreases |ops|
  {
    hide Index, EntriesOk, Distinct, Bushy, Placed, Walk, Translate, Decode, Apply, Legal, SameElsewhere, Address;
    if ops != [] {
      var u := Apply(s, ops[0]);
      ApplyKeeps(s, ops[0]);
      ApplyTranslates(s, ops[0], v);
      RunTranslates(u, ops[1..], v);
    }
  }

  // ----- counts

  /** In a sound state every present interior entry carries, in bits 52..61, the exact
      number of present entries of the table it points to: between 1 and 512, so that
      neither counting up nor counting down ever wraps. */
  lemma OccupancyIsExact(s: State, p: Path, slot: nat)
    requires Sound(s, Root) && p in s.tables && Depth(p) < 3 && slot < 512 && !Reserved(p, slot)
    requires Present(s.mem[s.tables[p]][slot])
    ensures var e := s.mem[s.tables[p]][slot];
      && PageAddr(Address(e)) in s.mem
      && Subcount(e) == Used(s.mem[PageAddr(Address(e))])
      && 1 <= Subcount(e) <= 512
  {
    hide Index;
    assert EntryOk(s.mem, s.tables, p, slot);
    ZeroNotPresent();
    UsedBound(s.mem[s.tables[Child(p, slot)]]);
  }

  // ----- pages

  datatype Walkable = NoTable | Table(page: PageAddr)

  /** The table that memory itself leads to along a path, from the PML4 down. */
  function Found(mem: Memory, root: PageAddr, p: Path): Walkable {
    match p
    case Root => Table(root)
    case Child(up, slot) =>
      match Found(mem, root, up)
      case NoTable => NoTable
      case Table(t) =>
        if slot < 512 && Present(Read(mem, t, slot)) then Table(PageAddr(Address(Read(mem, t, slot)))) else NoTable
  }

  predicate Proper(p: Path) {
    match p
    case Root => true
    case Child(up, slot) => Proper(up) && slot < 512 && !Reserved(up, slot)
  }

  /** The tables of the invariant are exactly those that memory leads to. */
  lemma {:induction false} TablesAreThoseFound(s: State, p: Path)
    requires Sound(s, Root) && Proper(p) && Depth(p) <= 3
    ensures Found(s.mem, s.tables[Root], p) == if p in s.tables then Table(s.tables[p]) else NoTable
  {
    hide Index, Bushy, Present, Address;
    if p.Child? {
      TablesAreThoseFound(s, p.up);
      if p.up in s.tables {
        ChildFound(s, p.up, p.slot);
      } else {
        assert p == Child(p.up, p.slot);
      }
    }
  }

  lemma ChildFound(s: State, p: Path, slot: nat)
    requires Sound(s, Root) && p in s.tables && slot < 512 && !Reserved(p, slot) && Depth(p) < 3
    ensures var e := s.mem[s.tables[p]][slot];
      && (Present(e) <==> Child(p, slot) in s.tables)
      && (Present(e) ==> Address(e) == s.tables[Child(p, slot)].bits)
  {
    var e := s.mem[s.tables[p]][slot];
    assert EntryOk(s.mem, s.tables, p, slot);
    ZeroNotPresent();
    if Child(p, slot) in s.tables {
      LeadsBits(e, s.tables[Child(p, slot)].bits);
    }
  }

  /** paging_unmap hands every emptied table back, unless it works through the
      self-map and empties one. */
  lemma UnmapConserves(s: State, virt: bv64, explicit: bool)
    requires Sound(s, Root) && Conserved(s)
    ensures Root in Unmap(s, virt, explicit).tables
    ensures Conserved(Unmap(s, virt, explicit)) <==> explicit || !LastOfItsTable(s, virt)
  {
    hide Index, EntriesOk, Distinct, Bushy, Placed;
    UnmapState(s, virt, explicit);
    NothingLeaked(s);
    NothingLeaked(Unmap(s, virt, explicit));
  }

  /** The page table of virt, if there is one, maps no other page. */
  predicate Alone(s: State, virt: bv64)
    requires Rooted(s)
  {
    var v := Address(virt);
    forall i :: 0 <= i < 512 && i != Index(v, PT) ==> !Present(LeafAt(s.mem, s.tables, PathTo(v, PT), i))
  }

  lemma OneSlot(page: Page, slot: nat)
    requires slot < 512 && Present(page[slot])
    ensures Used(page) == 1 <==> forall i :: 0 <= i < 512 && i != slot ==> !Present(page[i])
  {
    hide Present;
    assert slot in Slots(page);
    if forall i :: 0 <= i < 512 && i != slot ==> !Present(page[i]) {
      assert Slots(page) == {slot};
    } else {
      var i: nat :| i < 512 && i != slot && Present(page[i]);
      assert i in Slots(page) && {i, slot} <= Slots(page);
      Basics.SubsetSize({i, slot}, Slots(page));
    }
  }

  /** A page that was just mapped is the last of its page table exactly if it was alone there. */
  lemma MappedIsLastIff(s: State, virt: bv64, phy: bv64, flags: bv64, given: seq<PageAddr>)
    requires Mappable(s, virt, given)
    ensures var t := Map(s, virt, phy, flags, given); Rooted(t) && (LastOfItsTable(t, virt) <==> Alone(s, virt))
  {
    hide Index, EntriesOk, Distinct, Bushy, Map, Present, Used, PagesSound;
    var v, t := Address(virt), Map(s, virt, phy, flags, given);
    MapState(s, virt, phy, flags, given);
    LeafWordFlags(phy, flags);
    ZeroNotPresent();
    var q := PathTo(v, PT);
    PathDepth(v);
    assert LeafAt(t.mem, t.tables, q, Index(v, PT)) == LeafWord(phy, flags);
    assert q in t.tables;
    OneSlot(t.mem[t.tables[q]], Index(v, PT));
    forall i | 0 <= i < 512 && i != Index(v, PT)
      ensures t.mem[t.tables[q]][i] == LeafAt(s.mem, s.tables, q, i)
    {
      assert LeafAt(t.mem, t.tables, q, i) == LeafAt(s.mem, s.tables, q, i);
    }
  }

  /** So mapping a page and unmapping it through the self-map loses its tables whenever no
      neighbour in the same page table was mapped. */
  lemma MapThenUnmapConservesIff(s: State, virt: bv64, phy: bv64, flags: bv64, given: seq<PageAddr>, explicit: bool)
    requires Mappable(s, virt, given) && Conserved(s)
    ensures var t := Map(s, virt, phy, flags, given);
      && Sound(t, Root) && Root in Unmap(t, virt, explicit).tables
      && (Conserved(Unmap(t, virt, explicit)) <==> explicit || !Alone(s, virt))
  {
    hide Index, EntriesOk, Distinct, Bushy, Placed, Map, Unmap, Alone, LastOfItsTable, PagesSound, Conserved, Leaked;
    var t := Map(s, virt, phy, flags, given);
    MapState(s, virt, phy, flags, given);
    MappedIsLastIff(s, virt, phy, flags, given);
    SoundPages(s);
    SoundPages(t);
    NothingLeaked(s);
    NothingLeaked(t);
    UnmapConserves(t, virt, explicit);
  }

  lemma SoundPages(s: State)
    requires Sound(s, Root)
    ensures Root in s.tables && PagesSound(s)
  {
  }

  /** No operation of the run loses a table. */
  ghost predicate Tidy(s: State, ops: seq<Op>)
    requires LegalRun(s, ops)
    decreases |ops|
  {
    ops == [] ||
    ((ops[0].UnmapOp? ==> ops[0].explicit || !LastOfItsTable(s, ops[0].virt)) && Tidy(Apply(s, ops[0]), ops[1..]))
  }

  lemma ApplyLeaks(s: State, op: Op)
    requires Legal(s, op)
    ensures Root in Apply(s, op).tables
    ensures Leaked(Apply(s, op)) == Leaked(s) <==> op.MapOp? || op.explicit || !LastOfItsTable(s, op.virt)
  {
    hide Index, EntriesOk, Distinct, Bushy, Placed, LeafUpdated, Leaked;
    match op
    case MapOp(virt, phy, flags, given) => MapState(s, virt, phy, flags, given);
    case UnmapOp(virt, explicit) => UnmapState(s, virt, explicit);
  }

  /** Over a run, the pages held from palloc stay exactly the tables below the PML4 if
      and only if no unmap through the self-map ever emptied a table. */
  lemma {:induction false} RunConserves(s: State, ops: seq<Op>)
    requires Sound(s, Root) && LegalRun(s, ops)
    ensures Root in Run(s, ops).tables
    ensures Leaked(Run(s, ops)) == Leaked(s) <==> Tidy(s, ops)
    ensures Conserved(s) ==> (Conserved(Run(s, ops)) <==> Tidy(s, ops))
    decreases |ops|
  {
    hide Index, EntriesOk, Distinct, Bushy, Placed, Apply, Legal, Leaked, Conserved;
    if ops != [] {
      var u := Apply(s, ops[0]);
      ApplyKeeps(s, ops[0]);
      ApplyLeaks(s, ops[0]);
      RunConserves(u, ops[1..]);
      RunKeeps(u, ops[1..]);
    }
    RunKeeps(s, ops);
    NothingLeaked(s);
    NothingLeaked(Run(s, ops));
  }

  // ----- unmap undoes map

  lemma SamePool(s: State, t: State)
    requires Root in s.tables && PagesSound(s) && Root in t.tables && PagesSound(t)
    requires t.tables == s.tables && Leaked(t) == Leaked(s) && t.held + t.free == s.held + s.free
    ensures t.held == s.held && t.free == s.free
  {
    assert s.held == Leaked(s) + (s.tables.Values - {s.tables[Root]});
    assert t.held == Leaked(t) + (t.tables.Values - {t.tables[Root]});
    assert s.free == (s.held + s.free) - s.held;
    assert t.free == (t.held + t.free) - t.held;
  }

  lemma LeavesBack(s: State, u: State, t: State, virt: bv64, e: bv64)
    requires Sound(s, Root) && Rooted(u) && Rooted(t)
    requires !Present(LeafEntry(s.mem, s.tables, virt))
    requires LeafUpdated(s, u, virt, e) && LeafUpdated(u, t, virt, 0)
    ensures SameLeaves(s.mem, s.tables, t.mem, t.tables)
  {
    hide Index, Present, Distinct, EntriesOk, Bushy;
    AbsentLeafIsZero(s, virt);
    forall q, i | Depth(q) == 3 && 0 <= i < 512
      ensures LeafAt(s.mem, s.tables, q, i) == LeafAt(t.mem, t.tables, q, i)
    {
      assert LeafAt(t.mem, t.tables, q, i) ==
             if q == PathTo(virt, PT) && i == Index(virt, PT) then 0 else LeafAt(u.mem, u.tables, q, i);
    }
  }

  /** Mapping a page that was not mapped and unmapping it again, with an explicit PML4,
      restores the tables, every word of them, and the pool of pages. */
  lemma UnmapUndoesMap(s: State, virt: bv64, phy: bv64, flags: bv64, given: seq<PageAddr>)
    requires Mappable(s, virt, given) && !Present(LeafEntry(s.mem, s.tables, Address(virt)))
    ensures Sound(Map(s, virt, phy, flags, given), Root)
    ensures var t := Unmap(Map(s, virt, phy, flags, given), virt, true);
      && t.tables == s.tables && t.held == s.held && t.free == s.free
      && t.mem.Keys == s.mem.Keys
      && (forall page :: page in s.mem && page !in s.free && page !in Leaked(s) ==>
            page in t.mem && t.mem[page] == s.mem[page])
  {
    hide Index, Present, Distinct, EntriesOk, Bushy, LeafUpdated, Map, Unmap, Leaked;
    var u := Map(s, virt, phy, flags, given);
    MapState(s, virt, phy, flags, given);
    UnmapState(u, virt, true);
    var t := Unmap(u, virt, true);
    LeavesBack(s, u, t, Address(virt), LeafWord(phy, flags));
    assert Agree(s.tables, t.tables);
    LeavesDetermineTree(s.mem, s.tables, t.mem, t.tables);
    SamePool(s, t);
    ElsewhereAndTables(s, t);
  }

  lemma ElsewhereAndTables(s: State, t: State)
    requires Root in s.tables && Root in t.tables && PagesSound(s)
    requires SameElsewhere(s, t)
    requires forall p :: p in s.tables ==>
               s.tables[p] in s.mem && s.tables[p] in t.mem && s.mem[s.tables[p]] == t.mem[s.tables[p]]
    ensures forall page :: page in s.mem && page !in s.free && page !in Leaked(s) ==>
              page in t.mem && t.mem[page] == s.mem[page]
  {
    forall page | page in s.mem && page !in s.free && page !in Leaked(s)
      ensures page in t.mem && t.mem[page] == s.mem[page]
    {
      if page in s.tables.Values {
        var p :| p in s.tables && s.tables[p] == page;
      }
    }
  }

  // ----- whole regions (paging_map_multiple)

  /** One page after the other can be mapped; given[k] is for the k-th of them. */
  ghost predicate ManyMappable(s: State, virt: bv64, phy: bv64, flags: bv64, given: seq<seq<PageAddr>>)
    decreases |given|
  {
    given == [] ||
    (Mappable(s, virt, given[0]) &&
     ManyMappable(Map(s, virt, phy, flags, given[0]), virt + 4096, phy + 4096, flags, given[1..]))
  }

  function MapMany(s: State, virt: bv64, phy: bv64, flags: bv64, given: seq<seq<PageAddr>>): State
    requires ManyMappable(s, virt, phy, flags, given)
    decreases |given|
  {
    if given == [] then s
    else MapMany(Map(s, virt, phy, flags, given[0]), virt + 4096, phy + 4096, flags, given[1..])
  }

  /** Page w is one of the n pages from virt on. */
  predicate Among(w: bv64, virt: bv64, n: nat) {
    PageNumber(virt) <= PageNumber(w) < PageNumber(virt) + n
  }

  /** x lies as many pages above phy as w lies above virt. */
  predicate Alongside(x: bv64, phy: bv64, w: bv64, virt: bv64) {
    PageNumber(x) - PageNumber(phy) == PageNumber(w) - PageNumber(virt)
  }

  predicate Fits(a: bv64, n: nat) {
    Low(a) && PageNumber(a) + n <= LastPage() + 1
  }

  lemma SameWord(x: bv64, y: bv64, flags: bv64)
    requires PageNumber(x) == PageNumber(y)
    ensures LeafWord(x, flags) == LeafWord(y, flags)
  {
    hide PageNumber;
    PageNumberNamesPage(x, y);
  }

  /** The n pages from virt on go to the n pages from phy on, in order, and the walk of
      no other page changes. */
  lemma {:induction false} ManyTranslate(s: State, virt: bv64, phy: bv64, flags: bv64, given: seq<seq<PageAddr>>,
                                         w: bv64, x: bv64)
    requires Sound(s, Root) && ManyMappable(s, virt, phy, flags, given) && Ordinary(w)
    requires Fits(virt, |given|) && Fits(phy, |given|)
    requires Among(w, virt, |given|) ==> Alongside(x, phy, w, virt)
    ensures var t := MapMany(s, virt, phy, flags, given);
      && Sound(t, Root) && SameElsewhere(s, t)
      && Translate(t.mem, t.tables[Root], w) ==
         if Among(w, virt, |given|) then Decode(LeafWord(x, flags)) else Translate(s.mem, s.tables[Root], w)
    decreases |given|
  {
    hide Index, EntriesOk, Distinct, Bushy, Placed, Walk, Translate, Decode, PageNumber, Low, LastPage, Map, LeafWord;
    hide Mappable, LeafUpdated, Address, Ordinary;
    if given != [] {
      var u := Map(s, virt, phy, flags, given[0]);
      MapState(s, virt, phy, flags, given[0]);
      MapTranslates(s, virt, phy, flags, given[0], w);
      PageNumberNamesPage(w, virt);
      if |given| > 1 {
        NextPage(virt);
        NextPage(phy);
        if PageNumber(w) == PageNumber(virt) {
          SameWord(x, phy, flags);
        }
        ManyTranslate(u, virt + 4096, phy + 4096, flags, given[1..], w, x);
      } else {
        assert given[1..] == [];
        if PageNumber(w) == PageNumber(virt) {
          SameWord(x, phy, flags);
        }
      }
    }
  }

  lemma SamePageAsked(e: bv64, x: bv64, y: bv64, flags: bv64)
    requires AsAsked(e, x, flags) && PageNumber(x) == PageNumber(y)
    ensures AsAsked(e, y, flags)
  {
    hide PageNumber;
    PageNumberNamesPage(x, y);
  }

  /** Bit by bit: the leaf of each page of the range is the one asked for, and that of every other
      page is what it was. */
  lemma {:induction false} ManyStore(s: State, virt: bv64, phy: bv64, flags: bv64, given: seq<seq<PageAddr>>,
                                     w: bv64, x: bv64)
    requires Sound(s, Root) && ManyMappable(s, virt, phy, flags, given)
    requires Fits(virt, |given|) && Fits(phy, |given|)
    requires Among(w, virt, |given|) ==> Alongside(x, phy, w, virt)
    ensures var t := MapMany(s, virt, phy, flags, given);
      && Rooted(s) && Rooted(t) && Sound(t, Root)
      && if Among(w, virt, |given|) then AsAsked(LeafEntry(t.mem, t.tables, w), x, flags)
         else LeafEntry(t.mem, t.tables, w) == LeafEntry(s.mem, s.tables, w)
    decreases |given|
  {
    hide Index, EntriesOk, Distinct, Bushy, PagesSound, PageNumber, Low, LastPage, Map, LeafWord, LeafEntry, AsAsked;
    hide Address, Apply, Ready, Ordinary;
    if given != [] {
      var op := MapOp(virt, phy, flags, given[0]);
      MapState(s, virt, phy, flags, given[0]);
      ApplyStores(s, op, w);
      AppliedMap(s, virt, phy, flags, given[0]);
      PageNumberNamesPage(w, virt);
      if PageNumber(w) == PageNumber(virt) {
        SamePageAsked(LeafEntry(Apply(s, op).mem, Apply(s, op).tables, w), phy, x, flags);
      }
      if |given| > 1 {
        NextPage(virt);
        NextPage(phy);
        ManyStore(Map(s, virt, phy, flags, given[0]), virt + 4096, phy + 4096, flags, given[1..], w, x);
      } else {
        assert given[1..] == [];
      }
    }
  }

  /** An address between first and last leads to itself; one on another page leads where it did. */
  ghost predicate MapsAsItself(s: State, t: State, first: bv64, last: bv64, flags: bv64, a: bv64) {
    && Root in s.tables && Root in t.tables
    && (Value(first) <= Value(a) <= Value(last) ==> Translate(t.mem, t.tables[Root], a) == Decode(LeafWord(a, flags)))
    && (PageNumber(a) < PageNumber(first) || PageNumber(last) < PageNumber(a) ==>
          Translate(t.mem, t.tables[Root], a) == Translate(s.mem, s.tables[Root], a))
  }

  /** paging_map_multiple with the count of paging_area_size: every byte of the region
      is identity-mapped, aligned base or not, and the walk of no page that misses the
      region changes. */
  lemma RegionIsIdentityMapped(s: State, base: bv64, size: bv64, flags: bv64, given: seq<seq<PageAddr>>, a: bv64)
    requires Sound(s, Root) && Region(base, size) && |given| == Value(AreaSize(base, size))
    requires ManyMappable(s, base, base, flags, given)
    requires Ordinary(a) && Low(a)
    ensures MapsAsItself(s, MapMany(s, base, base, flags, given), base, LastByte(base, size), flags, a)
  {
    hide Index, EntriesOk, Distinct, Bushy, Placed, Walk, Translate, Decode, PageNumber, Low, LastPage, LeafWord, Value;
    hide ManyMappable, Ordinary, AreaSize, LastByte, MapMany;
    AreaSizeIsExact(base, size);
    PageNumberBound(LastByte(base, size));
    ManyTranslate(s, base, base, flags, given, a, a);
    if Value(base) <= Value(a) <= Value(LastByte(base, size)) {
      PageNumberMonotone(base, a);
      PageNumberMonotone(a, LastByte(base, size));
    }
  }
}
