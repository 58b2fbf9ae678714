/** kernel/src/memory/palloc.c: pages of physical memory, from every free entry of the memory
    map that is long enough to hold its own bitmaps. */
module PageAllocator {
  import opened Basics
  import opened MemoryMap
  import opened BuddyBits
  import opened BuddyAlloc
  import opened PageRegions

  class PageAllocator {
    const memory: array<bv8>
    /** k_mem_map: its entries below entry_count */
    var entries: seq<Entry>
    /** What a buddy_t pointer refers to. */
    var buddies: map<nat, Buddy>
    /** The used blocks of each entry. */
    ghost var used: seq<set<nat>>

    ghost function Bits(): BuddyBits.Bits
      reads memory
    {
      BitsOf(memory[..])
    }

    /** The header at the first page of an entry is the one palloc_init wrote. */
    ghost predicate HasBuddy(e: Entry)
      reads this, buddies.Values
    {
      && RegionOf(e).Some?
      && var r := RegionOf(e).value;
         && FirstPage(e.base as nat) == r.first && r.first in buddies
         && var b := buddies[r.first];
            && b.memory == memory && b.Valid()
            && b.L() == r.Bitmaps() && b.dataStart == r.DataStart()
    }

    ghost predicate Valid()
      reads this, memory, buddies.Values
    {
      && AllTracked(Bits(), entries, used)
      && (forall i :: 0 <= i < |entries| ==> Usable(entries[i]) && entries[i].End() < memory.Length)
      && (forall i :: 0 <= i < |entries| && entries[i].kind == Allocatable ==> HasBuddy(entries[i]))
    }

    /** A memory map nothing of which is allocatable yet. */
    constructor (memory: array<bv8>, entries: seq<Entry>)
      requires Sorted(entries)
      requires forall e :: e in entries ==> Usable(e) && e.End() < memory.Length && e.kind != Allocatable
      ensures Valid() && this.memory == memory && this.entries == entries
      ensures used == seq(|entries|, i => {})
    {
      this.memory := memory;
      this.entries := entries;
      buddies := map[];
      used := seq(|entries|, i => {});
    }

    /** palloc_init without its page mapping. */
    method Init(minAddr: nat, maxAddr: nat)
      requires Valid()
      requires forall e :: e in entries && TakenOver(e, minAddr, maxAddr) ==>
                 var r := RegionOf(e).value; r.blocks > 0 && Fits(r.blocks, PossibleOrder(r.blocks, MAX_ORDER))
      modifies this`entries, this`buddies, this`used, memory
      ensures Valid() && |entries| == |old(entries)| == |used| == |old(used)|
      ensures forall i :: 0 <= i < |entries| ==> entries[i] == Initialised(old(entries)[i], minAddr, maxAddr)
      ensures forall i :: 0 <= i < |entries| ==>
                used[i] == if TakenOver(old(entries)[i], minAddr, maxAddr) then {} else old(used)[i]
      ensures forall i :: 0 <= i < |entries| && old(entries)[i].kind == Kind.Free ==>
                var e := old(entries)[i];
                entries[i].kind == Allocatable <==>
                  && minAddr <= e.base as nat <= maxAddr && e.End() / 4096 >= (e.base as int + 4095) / 4096 + 2
                  && RegionOf(e).Some? && RegionOf(e).value.DataStart() - 1 <= maxAddr
      ensures forall i :: 0 <= i < |entries| && old(entries)[i].kind != Kind.Free ==> entries[i] == old(entries)[i]
    {
      forall i | 0 <= i < |entries|
        ensures RegionOf(entries[i]).Some? <==>
                  entries[i].End() / 4096 >= (entries[i].base as int + 4095) / 4096 + 2
      {
        RegionIff(entries[i]);
      }
      InitAll(minAddr, maxAddr);
    }

    /** Its loop. */
    method InitAll(minAddr: nat, maxAddr: nat)
      requires Valid()
      requires forall e :: e in entries && TakenOver(e, minAddr, maxAddr) ==>
                 var r := RegionOf(e).value; r.blocks > 0 && Fits(r.blocks, PossibleOrder(r.blocks, MAX_ORDER))
      modifies this`entries, this`buddies, this`used, memory
      ensures Valid() && |entries| == |old(entries)| == |used| == |old(used)|
      ensures forall i :: 0 <= i < |entries| ==> entries[i] == Initialised(old(entries)[i], minAddr, maxAddr)
      ensures forall i :: 0 <= i < |entries| ==>
                used[i] == if TakenOver(old(entries)[i], minAddr, maxAddr) then {} else old(used)[i]
    {
      hide AllTracked, RegionOf, Usable, BitsOf, HasBuddy, TakenOver, Fits, Log2;
      UsedForEach(Bits(), entries, used);
      for i := 0 to |entries|
        invariant Valid() && |entries| == |old(entries)| == |used| == |old(used)|
        invariant forall j :: 0 <= j < i ==> entries[j] == Initialised(old(entries)[j], minAddr, maxAddr)
        invariant forall j :: 0 <= j < i ==>
                    used[j] == if TakenOver(old(entries)[j], minAddr, maxAddr) then {} else old(used)[j]
        invariant forall j :: i <= j < |entries| ==> entries[j] == old(entries)[j] && used[j] == old(used)[j]
      {
        assert entries[i] in old(entries);
        InitOne(i, minAddr, maxAddr);
      }
    }

    /** One turn of its loop. */
    method InitOne(i: nat, minAddr: nat, maxAddr: nat)
      requires Valid() && i < |entries|
      requires TakenOver(entries[i], minAddr, maxAddr) ==>
                 var r := RegionOf(entries[i]).value; r.blocks > 0 && Fits(r.blocks, PossibleOrder(r.blocks, MAX_ORDER))
      modifies this`entries, this`buddies, this`used, memory
      ensures Valid() && |old(used)| == |entries|
      ensures entries == old(entries)[i := Initialised(old(entries)[i], minAddr, maxAddr)]
      ensures used == if TakenOver(old(entries)[i], minAddr, maxAddr) then old(used)[i := {}] else old(used)
    {
      hide AllTracked, BitsOf, Fits, Predicted, HasBuddy, Log2;
      UsedForEach(Bits(), entries, used);
      var entry := entries[i];
      if entry.kind != Kind.Free || entry.base as nat < minAddr || entry.base as nat > maxAddr {
        return;
      }
      var first := FirstPage(entry.base as nat);
      if first >= entry.base as nat + entry.size as nat {
        return;
      }
      var pageCount := (entry.base as nat + entry.size as nat - first) / PAGE;
      var size := GetSize(pageCount, MAX_ORDER);
      var meta := (size - 1) / PAGE + 1;
      if meta >= pageCount || first + meta * PAGE - 1 > maxAddr {
        return;
      }
      assert RegionOf(entry) == Some(Region(first, meta, pageCount - meta));
      MakeRegion(i, Region(first, meta, pageCount - meta));
    }

    /** buddy_create for an entry, and the change of its type. */
    method MakeRegion(i: nat, r: Region)
      requires Valid() && i < |entries| && entries[i].kind == Kind.Free && RegionOf(entries[i]) == Some(r)
      requires r.blocks > 0 && Fits(r.blocks, PossibleOrder(r.blocks, MAX_ORDER))
      modifies this`entries, this`buddies, this`used, memory
      ensures Valid() && |old(used)| == |entries|
      ensures entries == old(entries)[i := old(entries)[i].(kind := Allocatable)]
      ensures used == old(used)[i := {}]
    {
      hide AllTracked, RegionOf, BitsOf, Log2, Fits, ClearBits, Predicted, LevelBytes, SizeAt, FirstPage;
      UsedForEach(Bits(), entries, used);
      RegionIsInside(entries[i], r);
      PredictedIsLayout(r.first, r.blocks, MAX_ORDER);
      OneEntryMore(Bits(), ClearBits(Bits(), r.Bitmaps().Bit(0, 0), 8 * r.Bitmaps().End()), entries, used, i);
      OthersElsewhere(entries, i);
      SameRegion(entries[i], Allocatable);
      RegionBegins(entries[i]);
      var bud := new Buddy(memory, r.first, r.first + r.meta * PAGE, r.blocks, MAX_ORDER);
      buddies := buddies[r.first := bud];
      entries := entries[i := entries[i].(kind := Allocatable)];
      used := used[i := {}];
    }

    /** palloc_alloc */
    method Alloc(count: nat) returns (page: nat, ghost run: Run)
      requires Valid() && count > 0
      modifies memory, this`used
      ensures Valid()
      ensures page == FAILED ==> used == old(used) && Refuses(entries, used, count)
      ensures page != FAILED ==>
                && run.count == count && page == PageOf(entries, run)
                && Grants(entries, old(used), used, run)
      ensures count == 1 ==> (page == FAILED <==> AllUsed(entries, old(used)))
    {
      page, run := FirstWithRoom(count);
      if count == 1 {
        OneIsRefusedIff(entries, old(used));
        if page != FAILED {
          GrantedWasFree(entries, old(used), used, run);
        }
      }
    }

    /** Its loop. */
    method FirstWithRoom(count: nat) returns (page: nat, ghost run: Run)
      requires Valid() && count > 0
      modifies memory, this`used
      ensures Valid()
      ensures page == FAILED ==> used == old(used) && Refuses(entries, used, count)
      ensures page != FAILED ==>
                && run.count == count && page == PageOf(entries, run)
                && Grants(entries, old(used), used, run)
    {
      hide AllTracked, NoRoom, RegionOf, Usable, BitsOf, HasBuddy, PageOf;
      UsedForEach(Bits(), entries, used);
      for i := 0 to |entries|
        invariant Valid() && used == old(used) && |used| == |entries|
        invariant forall j :: 0 <= j < i && entries[j].kind == Allocatable ==> NoRoom(entries[j], used[j], count)
      {
        var entry := entries[i];
        if entry.kind != Allocatable {
          continue;
        }
        page, run := AllocIn(i, count);
        if page == FAILED {
          continue;
        }
        return;
      }
      page, run := FAILED, Run(0, 0, 0);
    }

    /** One turn of the loop for an allocatable entry. */
    method AllocIn(i: nat, count: nat) returns (page: nat, ghost run: Run)
      requires Valid() && count > 0 && i < |entries| && entries[i].kind == Allocatable
      modifies memory, this`used
      ensures Valid()
      ensures page == FAILED ==> used == old(used) && NoRoom(entries[i], used[i], count)
      ensures page != FAILED ==>
                && run.count == count && run.entry == i && page == PageOf(entries, run) && Placed(entries, run)
                && |old(used)| == |entries| && old(used)[i] !! Range(run.offset, run.count)
                && used == old(used)[i := old(used)[i] + Range(run.offset, run.count)]
    {
      hide AllTracked, NoRoom, RegionOf, Usable, BitsOf, Log2, Marked, First, Finds, FindsNone;
      hide SearchOrder, SearchLength, LevelBytes, CountAt, EndOf, FirstPage;
      var entry := entries[i];
      assert HasBuddy(entry);
      var bud := buddies[FirstPage(entry.base as nat)];
      var offset := bud.Find(count);
      UsedForEach(Bits(), entries, used);
      if offset == FAILED {
        FindFailed(Bits(), entries, used, i, count);
        return FAILED, Run(i, 0, 0);
      }
      run := Run(i, offset, count);
      FoundIsFree(Bits(), entries, used, run);
      TakeTracked(Bits(), entries, used, run);
      RunIsInside(entries, run);
      bud.Alloc(offset, count);
      used := used[i := used[i] + Range(offset, count)];
      page := offset * PAGE + bud.dataStart;
    }

    /** palloc_free: of a run that palloc_alloc gave out, or of an address in no entry that is
        allocatable, a table of the self-map for one, which it ignores. */
    method Free(page: nat, count: nat, ghost run: Run)
      requires Valid()
      requires Managed(entries, page) ==> Placed(entries, run) && page == PageOf(entries, run) && count == run.count
      modifies memory, this`used
      ensures Valid()
      ensures Managed(entries, page) ==> Releases(entries, old(used), used, run)
      ensures !Managed(entries, page) ==> used == old(used) && memory[..] == old(memory[..])
    {
      hide AllTracked, RegionOf, Usable, BitsOf, HasBuddy, PageOf, Releases;
      if Managed(entries, page) {
        RunIsInside(entries, run);
        assert entries[run.entry].Covers(page);
      }
      UsedForEach(Bits(), entries, used);
      for i := 0 to |entries|
        invariant Valid()
        invariant !Managed(entries, page) || i <= run.entry ==> used == old(used) && memory[..] == old(memory[..])
        invariant Managed(entries, page) && i > run.entry ==> Releases(entries, old(used), used, run)
      {
        var entry := entries[i];
        if entry.kind != Allocatable {
          continue;
        }
        if page < entry.base as nat || page >= entry.base as nat + entry.size as nat {
          continue;
        }
        OnlyOneEntry(entries, run, i);
        FreeIn(i, page, count, run);
      }
    }

    method FreeIn(i: nat, page: nat, count: nat, ghost run: Run)
      requires Valid() && i == run.entry && Placed(entries, run)
      requires page == PageOf(entries, run) && count == run.count
      modifies memory, this`used
      ensures Valid()
      ensures Releases(entries, old(used), used, run)
    {
      hide AllTracked, RegionOf, Usable, BitsOf, Log2, Cleared, LevelBytes, CountAt, FirstPage;
      var bud := buddies[FirstPage(entries[i].base as nat)];
      assert HasBuddy(entries[i]);
      UsedForEach(Bits(), entries, used);
      GiveTracked(Bits(), entries, used, run);
      bud.Free((page - bud.dataStart) / PAGE, count);
      used := used[i := used[i] - Range(run.offset, run.count)];
    }
  }

  /** The address lies in an entry that palloc_init took over. */
  ghost predicate Managed(es: seq<Entry>, a: nat) {
    exists i :: 0 <= i < |es| && es[i].kind == Allocatable && es[i].Covers(a)
  }

  /** No other entry keeps its header at this entry's first page. */
  lemma OthersElsewhere(es: seq<Entry>, i: nat)
    requires Sorted(es) && i < |es| && Usable(es[i]) && RegionOf(es[i]).Some?
    ensures forall j :: 0 <= j < |es| && j != i && Usable(es[j]) && RegionOf(es[j]).Some? ==>
              RegionOf(es[j]).value.first != RegionOf(es[i]).value.first
  {
    hide RegionOf;
    forall j | 0 <= j < |es| && j != i && Usable(es[j]) && RegionOf(es[j]).Some?
      ensures RegionOf(es[j]).value.first != RegionOf(es[i]).value.first
    {
      assert es[i].End() <= es[j].base as int || es[j].End() <= es[i].base as int;
      FirstPagesDiffer(es[i], es[j]);
    }
  }

  lemma UsedForEach(bits: BuddyBits.Bits, es: seq<Entry>, used: seq<set<nat>>)
    requires AllTracked(bits, es, used)
    ensures |used| == |es| && Sorted(es)
  {
  }

  lemma CoveredOnce(es: seq<Entry>, i: nat, j: nat, a: int)
    requires Sorted(es) && i < |es| && j < |es| && i != j && es[j].Covers(a)
    ensures !es[i].Covers(a)
  {
  }

  /** A page of a run lies in no other entry. */
  lemma OnlyOneEntry(es: seq<Entry>, run: Run, i: nat)
    requires Sorted(es) && Placed(es, run) && i < |es| && es[i].Covers(PageOf(es, run))
    ensures i == run.entry
  {
    RunIsInside(es, run);
    hide RegionOf, PageOf, Sorted;
    if i != run.entry {
      CoveredOnce(es, i, run.entry, PageOf(es, run));
    }
  }

  /** What a failed search says about an entry. */
  lemma FindFailed(bits: BuddyBits.Bits, es: seq<Entry>, used: seq<set<nat>>, i: nat, count: nat)
    requires count > 0 && AllTracked(bits, es, used)
    requires i < |es| && es[i].kind == Allocatable && RegionOf(es[i]).Some?
    requires var l := RegionOf(es[i]).value.Bitmaps();
             FindsNone(bits, l, SearchOrder(l, count), SearchLength(l, count))
    ensures |used| == |es| && NoRoom(es[i], used[i], count)
  {
    hide RegionOf, Summary, Fits, NoneFree, FindsNone, SearchLength, SearchOrder, PossibleOrder;
    assert Tracked(bits, es[i], used[i]);
    var r := RegionOf(es[i]).value;
    RegionIsInside(es[i], r);
    FailsIff(bits, r.Bitmaps(), count, used[i]);
  }

  /** What a successful search says. */
  lemma FoundIsFree(bits: BuddyBits.Bits, es: seq<Entry>, used: seq<set<nat>>, run: Run)
    requires AllTracked(bits, es, used)
    requires run.entry < |es| && es[run.entry].kind == Allocatable && RegionOf(es[run.entry]).Some? && run.count > 0
    requires var l := RegionOf(es[run.entry]).value.Bitmaps();
             exists i: nat :: run.offset == First(SearchOrder(l, run.count), i) &&
                              Finds(bits, l, SearchOrder(l, run.count), SearchLength(l, run.count), i)
    ensures Placed(es, run) && used[run.entry] !! Range(run.offset, run.count)
  {
    assert Tracked(bits, es[run.entry], used[run.entry]);
    var r := RegionOf(es[run.entry]).value;
    RegionIsInside(es[run.entry], r);
    var l := r.Bitmaps();
    hide RegionOf, Summary, Fits, First, Finds, SearchLength, SearchOrder, Log2;
    var i: nat :| run.offset == First(SearchOrder(l, run.count), i) &&
                  Finds(bits, l, SearchOrder(l, run.count), SearchLength(l, run.count), i);
    FindIsSound(bits, l, run.count, SearchOrder(l, run.count), SearchLength(l, run.count), i, used[run.entry]);
  }

  /** What being tracked says of one entry. */
  lemma BitmapsOf(bits: BuddyBits.Bits, es: seq<Entry>, used: seq<set<nat>>, k: nat)
    requires AllTracked(bits, es, used) && k < |es| && es[k].kind == Allocatable && RegionOf(es[k]).Some?
    ensures |used| == |es|
    ensures var l := RegionOf(es[k]).value.Bitmaps();
            && l.Proper() && Fits(l.blocks, l.order) && 8 * l.End() <= |bits| && Summary(bits, l, used[k])
  {
    assert Tracked(bits, es[k], used[k]);
    hide RegionOf, Summary, Fits, Log2, LevelBytes;
    RegionIsInside(es[k], RegionOf(es[k]).value);
  }

  lemma TakeTracked(bits: BuddyBits.Bits, es: seq<Entry>, used: seq<set<nat>>, run: Run)
    requires AllTracked(bits, es, used) && Placed(es, run)
    ensures var l := RegionOf(es[run.entry]).value.Bitmaps();
            AllTracked(Marked(bits, l, 0, run.offset, run.offset + run.count - 1), es,
                       used[run.entry := used[run.entry] + Range(run.offset, run.count)])
  {
    hide RegionOf, Summary, Fits, Log2, OnlyLevels, Tracked, AllTracked, Marked, LevelBytes;
    var k := run.entry;
    BitmapsOf(bits, es, used, k);
    var l := RegionOf(es[k]).value.Bitmaps();
    AllocIsUnion(bits, l, run.offset, run.count, used[k]);
    OneEntryOn(bits, Marked(bits, l, 0, run.offset, run.offset + run.count - 1), es, used, k,
               used[k] + Range(run.offset, run.count));
  }

  lemma GiveTracked(bits: BuddyBits.Bits, es: seq<Entry>, used: seq<set<nat>>, run: Run)
    requires AllTracked(bits, es, used) && Placed(es, run)
    ensures var l := RegionOf(es[run.entry]).value.Bitmaps();
            AllTracked(Cleared(bits, l, 0, run.offset, run.offset + run.count - 1), es,
                       used[run.entry := used[run.entry] - Range(run.offset, run.count)])
  {
    hide RegionOf, Summary, Fits, Log2, OnlyLevels, Tracked, AllTracked, Cleared, LevelBytes;
    var k := run.entry;
    BitmapsOf(bits, es, used, k);
    var l := RegionOf(es[k]).value.Bitmaps();
    FreeIsDifference(bits, l, run.offset, run.count, used[k]);
    OneEntryOn(bits, Cleared(bits, l, 0, run.offset, run.offset + run.count - 1), es, used, k,
               used[k] - Range(run.offset, run.count));
  }
}
