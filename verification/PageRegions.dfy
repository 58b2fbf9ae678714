/** kernel/src/memory/palloc.c on values: where palloc_init puts the bitmaps and the pages of
    an entry of the memory map, and what taking and giving back runs of pages does. */
module PageRegions {
  import opened Basics
  import opened MemoryMap
  import opened BuddyBits

  const PAGE: nat := 4096
  /** PALLOC_MAX_BUDDY_ORDER */
  const MAX_ORDER: nat := 15

  /** The first page boundary at or above an address, on 64 bits. */
  function FirstPage(base: nat): nat {
    if base == 0 then 0 else ((base - 1) / PAGE + 1) * PAGE % U64
  }

  /** It wraps to zero for addresses inside the last page. */
  lemma FirstPageIsCeiling(base: nat)
    requires base < U64
    ensures FirstPage(base) % PAGE == 0
    ensures base <= FirstPage(base) < base + PAGE <==> base <= U64 - PAGE
  {
  }

  /** From the last byte there is, the next page boundary is taken for 0. */
  lemma LastPageWraps()
    ensures FirstPage(U64 - 1) == 0
  {
  }

  /** The buddy allocator of an entry: bitmaps in the first pages, data in the others. */
  datatype Region = Region(first: nat, meta: nat, blocks: nat) {
    function DataStart(): nat {
      first + meta * PAGE
    }

    function DataEnd(): nat {
      DataStart() + blocks * PAGE
    }

    function Bitmaps(): Layout {
      Layout(first, blocks, PossibleOrder(blocks, MAX_ORDER))
    }
  }

  /** What palloc_init makes of the addresses from base to end, if they are enough. */
  function RegionAt(base: nat, end: nat): Option<Region> {
    var first := FirstPage(base);
    if first >= end then None
    else
      var pages := (end - first) / PAGE;
      var meta := (Predicted(pages, MAX_ORDER) - 1) / PAGE + 1;
      if meta >= pages then None else Some(Region(first, meta, pages - meta))
  }

  function RegionOf(e: Entry): Option<Region> {
    RegionAt(e.base as nat, e.End())
  }

  /** An entry whose addresses do not wrap when rounded up. */
  predicate Usable(e: Entry) {
    e.Proper() && e.base as nat <= U64 - PAGE
  }

  lemma PossibleOrderIsProper(blocks: nat)
    requires 0 < blocks < U64
    ensures Layout(0, blocks, PossibleOrder(blocks, MAX_ORDER)).Proper()
  {
  }

  /** The bitmaps end before the data begins, and both lie in the entry; an entry shorter
      than a page holds no region. */
  lemma RegionIsInside(e: Entry, r: Region)
    requires Usable(e) && RegionOf(e) == Some(r)
    ensures e.base as nat <= r.first && r.first % PAGE == 0 && r.blocks > 0
    ensures r.Bitmaps().Proper() && r.Bitmaps().End() <= r.DataStart()
    ensures r.DataEnd() <= e.End()
  {
    FirstPageIsCeiling(e.base as nat);
    var pages := (e.End() - r.first) / PAGE;
    NoBlocksNeedTooMuch(MAX_ORDER);
    assert pages * PAGE <= e.End() - r.first;
    hide Predicted, FirstPage, Log2;
    assert pages == r.meta + r.blocks;
    PredictedIsMonotone(r.blocks, pages, MAX_ORDER);
    PredictedIsLayout(r.first, r.blocks, MAX_ORDER);
    PossibleOrderIsProper(r.blocks);
    RoundedUpCovers(Predicted(pages, MAX_ORDER), PAGE);
  }

  lemma TooShort(e: Entry)
    requires Usable(e) && e.size as nat < PAGE
    ensures RegionOf(e) == None
  {
    FirstPageIsCeiling(e.base as nat);
    NoBlocksNeedTooMuch(MAX_ORDER);
  }

  /** An entry is taken over exactly if it has two whole pages or more.  Its whole pages are then
      those of the bitmaps and of the data, and the bitmaps get as few as hold the prediction. */
  lemma RegionIff(e: Entry)
    requires Usable(e)
    ensures RegionOf(e).Some? <==> e.End() / 4096 >= (e.base as int + 4095) / 4096 + 2
    ensures RegionOf(e).Some? ==>
              var r, pages := RegionOf(e).value, e.End() / 4096 - (e.base as int + 4095) / 4096;
              && r.first == (e.base as int + 4095) / 4096 * 4096 && r.meta + r.blocks == pages > 1
              && (r.meta - 1) * 4096 < Predicted(pages, 15) <= r.meta * 4096
              && e.End() - 4096 < r.DataEnd() <= e.End()
  {
    hide Predicted;
    FirstPageIsCeiling(e.base as nat);
    NoBlocksNeedTooMuch(15);
    var first := FirstPage(e.base as nat);
    PagesBetween(e.base as nat, e.End(), first);
    if first < e.End() {
      var pages := (e.End() - first) / 4096;
      if pages > 0 {
        PredictedIsSmall(pages);
        PagesNeeded(Predicted(pages, 15), pages);
      }
    }
  }

  lemma PagesBetween(base: nat, end: nat, first: nat)
    requires first % 4096 == 0 && base <= first < base + 4096
    ensures first == (base + 4095) / 4096 * 4096
    ensures first < end ==> (end - first) / 4096 == end / 4096 - (base + 4095) / 4096
    ensures first >= end ==> end / 4096 <= (base + 4095) / 4096
  {
  }

  /** The pages that so many bytes take, and whether they leave one over. */
  lemma PagesNeeded(bytes: nat, pages: nat)
    requires bytes > 0
    ensures var meta := (bytes - 1) / 4096 + 1;
            (meta - 1) * 4096 < bytes <= meta * 4096 && (meta < pages <==> bytes <= (pages - 1) * 4096)
  {
  }

  // ----- the bitmaps of all entries

  /** The bitmaps of an entry say which of its blocks are used. */
  ghost predicate Tracked(bits: Bits, e: Entry, used: set<nat>) {
    && Usable(e)
    && RegionOf(e).Some?
    && var r := RegionOf(e).value;
       && r.blocks > 0
       && Fits(r.blocks, PossibleOrder(r.blocks, MAX_ORDER))
       && 8 * r.Bitmaps().End() <= |bits|
       && Summary(bits, r.Bitmaps(), used)
  }

  ghost predicate AllTracked(bits: Bits, es: seq<Entry>, used: seq<set<nat>>) {
    && Sorted(es)
    && |used| == |es|
    && forall i :: 0 <= i < |es| && es[i].kind == Allocatable ==> Tracked(bits, es[i], used[i])
  }

  /** Other bitmaps do not notice. */
  lemma SummaryElsewhere(bits: Bits, after: Bits, l: Layout, other: Layout, used: set<nat>)
    requires OnlyLevels(bits, after, l) && Summary(bits, other, used)
    requires l.End() <= other.at || other.End() <= l.at
    ensures Summary(after, other, used)
  {
    hide SizeAt, LevelBytes, InUse;
    forall o, i | 0 <= o <= other.order && 0 <= i < 8 * SizeAt(other.blocks, o)
      ensures Get(after, other.Bit(o, i)) <==> InUse(used, o, i)
    {
      InsideLevel(other, o, i);
      assert LevelSays(bits, other, o, used);
    }
  }

  lemma TrackedElsewhere(bits: Bits, after: Bits, e: Entry, other: Entry, used: set<nat>)
    requires Usable(e) && RegionOf(e).Some? && OnlyLevels(bits, after, RegionOf(e).value.Bitmaps())
    requires Tracked(bits, other, used)
    requires e.End() <= other.base as int || other.End() <= e.base as int
    ensures Tracked(after, other, used)
  {
    RegionIsInside(e, RegionOf(e).value);
    RegionIsInside(other, RegionOf(other).value);
    hide RegionOf, Summary, OnlyLevels, Fits, Log2, LevelBytes;
    SameBitCount(bits, after, RegionOf(e).value.Bitmaps());
    SummaryElsewhere(bits, after, RegionOf(e).value.Bitmaps(), RegionOf(other).value.Bitmaps(), used);
  }

  lemma SameBitCount(bits: Bits, after: Bits, l: Layout)
    requires OnlyLevels(bits, after, l)
    ensures |after| == |bits|
  {
  }

  lemma OneEntryOn(bits: Bits, after: Bits, es: seq<Entry>, used: seq<set<nat>>, k: nat, now: set<nat>)
    requires AllTracked(bits, es, used) && k < |es| && es[k].kind == Allocatable
    requires OnlyLevels(bits, after, RegionOf(es[k]).value.Bitmaps())
    requires Summary(after, RegionOf(es[k]).value.Bitmaps(), now)
    ensures AllTracked(after, es, used[k := now])
  {
    SameBitCount(bits, after, RegionOf(es[k]).value.Bitmaps());
    assert Tracked(bits, es[k], used[k]);
    assert Tracked(after, es[k], now) by {
      hide RegionOf, Summary, Fits, OnlyLevels;
    }
    hide RegionOf, Summary, Fits, OnlyLevels, Tracked;
    forall i | 0 <= i < |es| && es[i].kind == Allocatable ensures Tracked(after, es[i], used[k := now][i]) {
      if i != k {
        assert es[i].End() <= es[k].base as int || es[k].End() <= es[i].base as int;
        AllocatableIsUsable(bits, es, used, k);
        TrackedElsewhere(bits, after, es[k], es[i], used[i]);
      }
    }
  }

  lemma AllocatableIsUsable(bits: Bits, es: seq<Entry>, used: seq<set<nat>>, k: nat)
    requires AllTracked(bits, es, used) && k < |es| && es[k].kind == Allocatable
    ensures Usable(es[k]) && RegionOf(es[k]).Some?
  {
    assert Tracked(bits, es[k], used[k]);
  }

  // ----- palloc_init

  /** The entries palloc_init turns into allocatable ones. */
  predicate TakenOver(e: Entry, minAddr: nat, maxAddr: nat) {
    && e.kind == Free && minAddr <= e.base as nat <= maxAddr
    && RegionOf(e).Some? && RegionOf(e).value.DataStart() - 1 <= maxAddr
  }

  function Initialised(e: Entry, minAddr: nat, maxAddr: nat): Entry {
    if TakenOver(e, minAddr, maxAddr) then e.(kind := Allocatable) else e
  }

  /** The region depends on the addresses alone. */
  lemma SameRegion(e: Entry, kind: Kind)
    ensures RegionOf(e.(kind := kind)) == RegionOf(e)
  {
    hide RegionAt;
  }

  lemma RegionBegins(e: Entry)
    requires RegionOf(e).Some?
    ensures RegionOf(e).value.first == FirstPage(e.base as nat)
  {
    hide FirstPage, Predicted;
  }

  lemma EmptyBitmaps(bits: Bits, after: Bits, e: Entry)
    requires Usable(e) && RegionOf(e).Some? && 8 * RegionOf(e).value.Bitmaps().End() <= |bits|
    requires var l := RegionOf(e).value.Bitmaps(); after == ClearBits(bits, l.Bit(0, 0), 8 * l.End())
    ensures var l := RegionOf(e).value.Bitmaps(); OnlyLevels(bits, after, l) && Summary(after, l, {})
  {
    hide RegionOf, SizeAt, LevelBytes, Log2, InUse;
    var l := RegionOf(e).value.Bitmaps();
    forall o, i | 0 <= o <= l.order && 0 <= i < 8 * SizeAt(l.blocks, o)
      ensures Get(after, l.Bit(o, i)) <==> InUse({}, o, i)
    {
      InsideLevel(l, o, i);
      InUseOfNone(o, i);
    }
  }

  /** One more entry with empty bitmaps. */
  lemma OneEntryMore(bits: Bits, after: Bits, es: seq<Entry>, used: seq<set<nat>>, k: nat)
    requires AllTracked(bits, es, used) && k < |es| && Usable(es[k]) && RegionOf(es[k]).Some?
    requires var r := RegionOf(es[k]).value;
             && r.blocks > 0 && Fits(r.blocks, PossibleOrder(r.blocks, MAX_ORDER))
             && 8 * r.Bitmaps().End() <= |bits|
             && after == ClearBits(bits, r.Bitmaps().Bit(0, 0), 8 * r.Bitmaps().End())
    ensures AllTracked(after, es[k := es[k].(kind := Allocatable)], used[k := {}])
  {
    hide RegionOf, Summary, Fits, OnlyLevels, Tracked, ClearBits, Log2;
    EmptyBitmaps(bits, after, es[k]);
    SameRegion(es[k], Allocatable);
    var e := es[k].(kind := Allocatable);
    NewIsTracked(bits, after, e);
    forall i | 0 <= i < |es| && i != k && es[i].kind == Allocatable ensures Tracked(after, es[i], used[i]) {
      assert es[i].End() <= es[k].base as int || es[k].End() <= es[i].base as int;
      TrackedElsewhere(bits, after, es[k], es[i], used[i]);
    }
  }

  lemma NewIsTracked(bits: Bits, after: Bits, e: Entry)
    requires Usable(e) && RegionOf(e).Some?
    requires var r := RegionOf(e).value;
             && r.blocks > 0 && Fits(r.blocks, PossibleOrder(r.blocks, MAX_ORDER))
             && 8 * r.Bitmaps().End() <= |bits|
             && OnlyLevels(bits, after, r.Bitmaps()) && Summary(after, r.Bitmaps(), {})
    ensures Tracked(after, e, {})
  {
    hide RegionOf, Summary, Fits, Log2;
  }

  /** Regions of different entries begin at different pages. */
  lemma FirstPagesDiffer(e: Entry, other: Entry)
    requires Usable(e) && Usable(other) && RegionOf(e).Some? && RegionOf(other).Some?
    requires e.End() <= other.base as int || other.End() <= e.base as int
    ensures RegionOf(e).value.first != RegionOf(other).value.first
  {
    RegionIsInside(e, RegionOf(e).value);
    RegionIsInside(other, RegionOf(other).value);
    hide RegionOf;
  }

  // ----- runs of pages

  /** A run of pages: the entry it comes from, its first block there, and its length. */
  datatype Run = Run(entry: nat, offset: nat, count: nat)

  ghost predicate Placed(es: seq<Entry>, run: Run) {
    && run.entry < |es| && es[run.entry].kind == Allocatable && Usable(es[run.entry])
    && RegionOf(es[run.entry]).Some?
    && 0 < run.count && run.offset + run.count <= RegionOf(es[run.entry]).value.blocks
  }

  /** The address the caller sees. */
  function PageOf(es: seq<Entry>, run: Run): nat {
    if run.entry < |es| && RegionOf(es[run.entry]).Some? then
      run.offset * PAGE + RegionOf(es[run.entry]).value.DataStart()
    else 0
  }

  function EndOf(es: seq<Entry>, run: Run): nat {
    PageOf(es, run) + run.count * PAGE
  }

  /** buddy_find would give up on this entry: a used block lies wherever it may look. */
  ghost predicate NoRoom(e: Entry, used: set<nat>, count: nat) {
    RegionOf(e).Some? ==>
      NoneFree(used, RegionOf(e).value.blocks, PossibleOrder(RegionOf(e).value.blocks, MAX_ORDER), count)
  }

  /** palloc_alloc: the first entry with room gives a run of free blocks. */
  ghost predicate Grants(es: seq<Entry>, was: seq<set<nat>>, now: seq<set<nat>>, run: Run) {
    && |was| == |es| && Placed(es, run)
    && was[run.entry] !! Range(run.offset, run.count)
    && now == was[run.entry := was[run.entry] + Range(run.offset, run.count)]
    && forall j :: 0 <= j < run.entry && es[j].kind == Allocatable ==> NoRoom(es[j], was[j], run.count)
  }

  ghost predicate Refuses(es: seq<Entry>, was: seq<set<nat>>, count: nat) {
    && |was| == |es|
    && forall j :: 0 <= j < |es| && es[j].kind == Allocatable ==> NoRoom(es[j], was[j], count)
  }

  /** No page is free in any allocatable entry. */
  ghost predicate AllUsed(es: seq<Entry>, used: seq<set<nat>>) {
    && |used| == |es|
    && forall j, b ::
         (0 <= j < |es| && es[j].kind == Allocatable && RegionOf(es[j]).Some? &&
          0 <= b < RegionOf(es[j]).value.blocks) ==> b in used[j]
  }

  /** palloc_alloc(1) fails exactly then. */
  lemma OneIsRefusedIff(es: seq<Entry>, used: seq<set<nat>>)
    ensures Refuses(es, used, 1) <==> AllUsed(es, used)
  {
    hide RegionOf, NoneFree, PossibleOrder;
    if |used| == |es| {
      forall j | 0 <= j < |es| && es[j].kind == Allocatable && RegionOf(es[j]).Some?
        ensures NoRoom(es[j], used[j], 1) <==> forall b :: 0 <= b < RegionOf(es[j]).value.blocks ==> b in used[j]
      {
        var blocks := RegionOf(es[j]).value.blocks;
        OneHasRoomIff(used[j], blocks, PossibleOrder(blocks, MAX_ORDER));
      }
    }
  }

  lemma GrantedWasFree(es: seq<Entry>, was: seq<set<nat>>, now: seq<set<nat>>, run: Run)
    requires Grants(es, was, now, run)
    ensures !AllUsed(es, was)
  {
    hide RegionOf, NoRoom;
    assert run.offset in Range(run.offset, run.count);
  }

  /** palloc_free */
  ghost predicate Releases(es: seq<Entry>, was: seq<set<nat>>, now: seq<set<nat>>, run: Run) {
    && |was| == |es| && Placed(es, run)
    && now == was[run.entry := was[run.entry] - Range(run.offset, run.count)]
  }

  // ----- where runs lie

  lemma AlignedSum(first: nat, a: nat, b: nat)
    requires first % PAGE == 0
    ensures (a * PAGE + (first + b * PAGE)) % PAGE == 0
  {
  }

  /** A run is page aligned, inside its entry and clear of the bitmaps there. */
  lemma RunIsInside(es: seq<Entry>, run: Run)
    requires Placed(es, run)
    ensures PageOf(es, run) % PAGE == 0
    ensures RegionOf(es[run.entry]).value.Bitmaps().End() <= PageOf(es, run)
    ensures es[run.entry].base as nat <= PageOf(es, run)
    ensures EndOf(es, run) <= es[run.entry].End()
  {
    hide RegionOf;
    var r := RegionOf(es[run.entry]).value;
    RegionIsInside(es[run.entry], r);
    AlignedSum(r.first, run.offset, r.meta);
    assert run.offset * PAGE + run.count * PAGE <= r.blocks * PAGE;
  }

  /** Runs of different blocks are different memory. */
  lemma RunsApart(es: seq<Entry>, a: Run, b: Run)
    requires Sorted(es) && Placed(es, a) && Placed(es, b)
    requires a.entry == b.entry ==> Range(a.offset, a.count) !! Range(b.offset, b.count)
    ensures EndOf(es, a) <= PageOf(es, b) || EndOf(es, b) <= PageOf(es, a)
  {
    if a.entry == b.entry {
      if a.offset <= b.offset {
        assert a.offset + a.count <= b.offset by {
          assert b.offset in Range(b.offset, b.count);
        }
      } else {
        assert b.offset + b.count <= a.offset by {
          assert a.offset in Range(a.offset, a.count);
        }
      }
    } else {
      RunIsInside(es, a);
      RunIsInside(es, b);
      hide RegionOf, EndOf, PageOf;
      assert es[a.entry].End() <= es[b.entry].base as int || es[b.entry].End() <= es[a.entry].base as int;
    }
  }

  /** No run meets the bitmaps of any entry. */
  lemma RunClearOfBitmaps(es: seq<Entry>, run: Run, k: nat)
    requires Sorted(es) && Placed(es, run)
    requires k < |es| && es[k].kind == Allocatable && Usable(es[k]) && RegionOf(es[k]).Some?
    ensures var l := RegionOf(es[k]).value.Bitmaps(); l.End() <= PageOf(es, run) || EndOf(es, run) <= l.at
  {
    RunIsInside(es, run);
    RegionIsInside(es[k], RegionOf(es[k]).value);
    hide RegionOf, EndOf, PageOf;
    if k != run.entry {
      assert es[k].End() <= es[run.entry].base as int || es[run.entry].End() <= es[k].base as int;
    }
  }

  /** Whatever the owner writes into its run, the bitmaps stay. */
  lemma WritesInRunAreHarmless(bits: Bits, after: Bits, es: seq<Entry>, used: seq<set<nat>>, run: Run)
    requires AllTracked(bits, es, used) && Placed(es, run) && |after| == |bits|
    requires forall n :: 0 <= n < |bits| && after[n] != bits[n] ==> 8 * PageOf(es, run) <= n < 8 * EndOf(es, run)
    ensures AllTracked(after, es, used)
  {
    hide RegionOf, PageOf, EndOf, Summary, Fits, Log2;
    forall k | 0 <= k < |es| && es[k].kind == Allocatable ensures Tracked(after, es[k], used[k]) {
      assert Tracked(bits, es[k], used[k]);
      RunClearOfBitmaps(es, run, k);
      UntouchedSummary(bits, after, RegionOf(es[k]).value.Bitmaps(), used[k]);
    }
  }

  lemma UntouchedSummary(bits: Bits, after: Bits, l: Layout, used: set<nat>)
    requires Summary(bits, l, used) && |after| == |bits|
    requires forall n :: 8 * l.at <= n < 8 * l.End() && n < |bits| ==> after[n] == bits[n]
    ensures Summary(after, l, used)
  {
    hide SizeAt, LevelBytes, InUse;
    forall o, i | 0 <= o <= l.order && 0 <= i < 8 * SizeAt(l.blocks, o)
      ensures Get(after, l.Bit(o, i)) <==> InUse(used, o, i)
    {
      InsideLevel(l, o, i);
      assert LevelSays(bits, l, o, used);
    }
  }

  // ----- whole runs of the allocator

  datatype Event = Taken(run: Run) | Given(run: Run)

  function Outstanding(events: seq<Event>): set<Run>
    decreases |events|
  {
    if events == [] then {}
    else
      var before, event := Outstanding(events[..|events| - 1]), events[|events| - 1];
      if event.Taken? then before + {event.run} else before - {event.run}
  }

  /** A history of used blocks that palloc_alloc and palloc_free can produce, where only
      outstanding runs are given back. */
  ghost predicate History(es: seq<Entry>, states: seq<seq<set<nat>>>, events: seq<Event>)
    decreases |events|
  {
    && |states| == |events| + 1
    && if events == [] then |states[0]| == |es| && forall i :: 0 <= i < |es| ==> states[0][i] == {}
       else
         var n := |events| - 1;
         && History(es, states[..n + 1], events[..n])
         && match events[n]
            case Taken(run) => Grants(es, states[n], states[n + 1], run)
            case Given(run) => run in Outstanding(events[..n]) && Releases(es, states[n], states[n + 1], run)
  }

  /** Each block of a placed run is used, and each used block is some run's. */
  ghost predicate Accounts(es: seq<Entry>, used: seq<set<nat>>, out: set<Run>) {
    && |used| == |es|
    && (forall run :: run in out ==> Placed(es, run) && Range(run.offset, run.count) <= used[run.entry])
    && (forall k, b :: 0 <= k < |es| && b in used[k] ==> exists run :: run in out && Holds(run, k, b))
    && (forall a, b :: a in out && b in out && a != b && a.entry == b.entry ==>
          Range(a.offset, a.count) !! Range(b.offset, b.count))
  }

  ghost predicate Holds(run: Run, k: nat, b: nat) {
    run.entry == k && b in Range(run.offset, run.count)
  }

  lemma TakenAccounts(es: seq<Entry>, was: seq<set<nat>>, now: seq<set<nat>>, out: set<Run>, run: Run)
    requires Accounts(es, was, out) && Grants(es, was, now, run)
    ensures run !in out && Accounts(es, now, out + {run})
  {
    hide RegionOf, Range, NoRoom;
    assert run.offset in Range(run.offset, run.count);
    forall k, b | 0 <= k < |es| && b in now[k] ensures exists r :: r in out + {run} && Holds(r, k, b) {
      if b in was[k] {
        var r :| r in out && Holds(r, k, b);
        assert r in out + {run};
      } else {
        assert Holds(run, k, b) && run in out + {run};
      }
    }
  }

  lemma GivenAccounts(es: seq<Entry>, was: seq<set<nat>>, now: seq<set<nat>>, out: set<Run>, run: Run)
    requires Accounts(es, was, out) && Releases(es, was, now, run) && run in out
    ensures Accounts(es, now, out - {run})
  {
    hide RegionOf, Range;
    forall k, b | 0 <= k < |es| && b in now[k] ensures exists r :: r in out - {run} && Holds(r, k, b) {
      var r :| r in out && Holds(r, k, b);
      assert r != run;
      assert r in out - {run};
    }
  }

  /** After every history the used blocks are exactly those of the outstanding runs. */
  lemma {:induction false} HistoryAccounts(es: seq<Entry>, states: seq<seq<set<nat>>>, events: seq<Event>)
    requires History(es, states, events)
    ensures Accounts(es, states[|events|], Outstanding(events))
    decreases |events|
  {
    hide Accounts, Grants, Releases;
    if events == [] {
      NothingAccounts(es, states[0]);
    } else {
      var n := |events| - 1;
      HistoryAccounts(es, states[..n + 1], events[..n]);
      match events[n]
      case Taken(run) => TakenAccounts(es, states[n], states[n + 1], Outstanding(events[..n]), run);
      case Given(run) => GivenAccounts(es, states[n], states[n + 1], Outstanding(events[..n]), run);
    }
  }

  lemma NothingAccounts(es: seq<Entry>, used: seq<set<nat>>)
    requires |used| == |es| && forall i :: 0 <= i < |es| ==> used[i] == {}
    ensures Accounts(es, used, {})
  {
  }

  /** Whole-run safety: outstanding runs are page aligned, inside one entry, clear of every
      entry's bitmaps, and pairwise disjoint. */
  lemma OutstandingRunsAreSafe(es: seq<Entry>, states: seq<seq<set<nat>>>, events: seq<Event>, a: Run)
    requires Sorted(es) && History(es, states, events) && a in Outstanding(events)
    ensures Placed(es, a) && PageOf(es, a) % PAGE == 0
    ensures es[a.entry].base as nat <= PageOf(es, a) && EndOf(es, a) <= es[a.entry].End()
    ensures forall k :: 0 <= k < |es| && es[k].kind == Allocatable && Usable(es[k]) && RegionOf(es[k]).Some? ==>
              RegionOf(es[k]).value.Bitmaps().End() <= PageOf(es, a) || EndOf(es, a) <= RegionOf(es[k]).value.first
    ensures forall b :: b in Outstanding(events) && b != a ==>
              EndOf(es, a) <= PageOf(es, b) || EndOf(es, b) <= PageOf(es, a)
  {
    HistoryAccounts(es, states, events);
    RunIsInside(es, a);
    forall k | 0 <= k < |es| && es[k].kind == Allocatable && Usable(es[k]) && RegionOf(es[k]).Some?
      ensures RegionOf(es[k]).value.Bitmaps().End() <= PageOf(es, a) || EndOf(es, a) <= RegionOf(es[k]).value.first
    {
      RunClearOfBitmaps(es, a, k);
    }
    forall b | b in Outstanding(events) && b != a
      ensures EndOf(es, a) <= PageOf(es, b) || EndOf(es, b) <= PageOf(es, a)
    {
      RunsApart(es, a, b);
    }
  }

  /** Giving back a run makes its own blocks free, all of which were used, and no others. */
  lemma FreeIsExact(es: seq<Entry>, states: seq<seq<set<nat>>>, events: seq<Event>, run: Run)
    requires History(es, states, events) && |events| > 0 && events[|events| - 1] == Given(run)
    ensures var was, now := states[|events| - 1], states[|events|];
            && |was| == |now| == |es|
            && (forall k, b :: 0 <= k < |es| ==> (b in now[k] <==> b in was[k] && !Holds(run, k, b)))
            && (forall k, b :: 0 <= k < |es| && Holds(run, k, b) ==> b in was[k])
  {
    hide RegionOf, Range;
    var n := |events| - 1;
    HistoryAccounts(es, states[..n + 1], events[..n]);
  }
}
