/** Where halloc.c, palloc.c and paging.c (kernel/src/memory) meet: the pages of a new block of
    the heap, who else has them, and which of them are mapped. */
module KernelMemory {
  import opened Basics
  import opened MemoryMap
  import opened PageRegions
  import opened HeapSegments
  import HeapBlock
  import H = Heap
  import opened AddressSpace
  import opened PageNumbers
  import opened PageTree
  import PageAllocator
  import opened PagingRuns
  import W = PageWords

  // ----- whose pages they are

  /** The blocks of the heap are outstanding runs of pages, each another one. */
  ghost predicate Backed(h: H.Heap, es: seq<Entry>, out: set<Run>, runs: seq<Run>)
    reads h
  {
    && |runs| == |h.chain|
    && (forall i, j :: 0 <= i < j < |runs| ==> runs[i] != runs[j])
    && forall i :: 0 <= i < |runs| ==> runs[i] in out && IsBlock(es, runs[i], h.chain[i])
  }

  ghost predicate IsBlock(es: seq<Entry>, run: Run, b: HeapBlock.Block) {
    b.at == PageOf(es, run) && b.blocks == run.count
  }

  /** What palloc_alloc gives out next is clear of all blocks, which is what malloc needs. */
  lemma GrantedIsClear(h: H.Heap, es: seq<Entry>, states: seq<seq<set<nat>>>, events: seq<Event>, runs: seq<Run>)
    requires Sorted(es) && History(es, states, events) && |events| > 0 && events[|events| - 1].Taken?
    requires Backed(h, es, Outstanding(events[..|events| - 1]), runs)
    ensures var run := events[|events| - 1].run;
            && run.count > 0 && h.Clear(PageOf(es, run), run.count)
            && Backed(h, es, Outstanding(events), runs) && run !in runs
  {
    hide PageOf, RegionOf, Grants, Releases, Accounts, Sorted;
    var n, run := |events| - 1, events[|events| - 1].run;
    HistoryAccounts(es, states[..n + 1], events[..n]);
    TakenAccounts(es, states[n], states[n + 1], Outstanding(events[..n]), run);
    OutstandingRunsAreSafe(es, states, events, run);
    forall i | 0 <= i < |h.chain| ensures H.SpansApart(PageOf(es, run), run.count, h.chain[i].at, h.chain[i].blocks) {
      assert IsBlock(es, runs[i], h.chain[i]);
    }
  }

  // ----- what palloc_free makes of a table's address

  /** Where the self-map begins, above all physical memory. */
  const SELF_MAP: nat := 0xFFFF_FF80_0000_0000

  lemma FractalIsHigh(virt: bv64, level: W.Level)
    ensures W.FractalAccess(virt, level) >= 0xFFFF_FF80_0000_0000
  {
  }

  /** paging_unmap through the self-map passes an address that lies in no entry, and
      palloc_free then changes nothing. */
  lemma SelfMapIsNotManaged(es: seq<Entry>, virt: bv64, level: W.Level)
    requires forall e :: e in es ==> e.End() <= SELF_MAP
    ensures !PageAllocator.Managed(es, W.FractalAccess(virt, level) as nat)
  {
    FractalIsHigh(virt, level);
    var a := W.FractalAccess(virt, level);
    hide W.FractalAccess;
    HighIsHigh(a);
  }

  lemma HighIsHigh(a: bv64)
    requires a >= 0xFFFF_FF80_0000_0000
    ensures a as nat >= SELF_MAP
  {
  }

  // ----- which of them are mapped

  const PAGING_FLAG_RW: bv64 := 2

  /** The processor takes an address for itself, and may write there. */
  ghost predicate IsMapped(s: State, a: bv64) {
    PageTree.Root in s.tables && Translate(s.mem, s.tables[PageTree.Root], a) == Decode(W.LeafWord(a, PAGING_FLAG_RW))
  }

  ghost predicate Faults(s: State, a: bv64) {
    PageTree.Root in s.tables && Translate(s.mem, s.tables[PageTree.Root], a) == Fault
  }

  /** The bytes of so many pages have translations of their own. */
  ghost predicate InTables(at: bv64, blocks: nat) {
    Fits(at, blocks) && forall a :: Among(a, at, blocks) ==> Ordinary(a)
  }

  /** halloc_get_blocks after palloc_alloc: only the first page of the block is mapped. */
  function Prepared(s: State, at: bv64, given: seq<PageAddr>): State
    requires Mappable(s, at, given)
  {
    Map(s, at, at, PAGING_FLAG_RW, given)
  }

  lemma OnlyFirstPage(s: State, at: bv64, given: seq<PageAddr>, a: bv64)
    requires Mappable(s, at, given) && Ordinary(a)
    ensures PageNumber(a) == PageNumber(at) ==> IsMapped(Prepared(s, at, given), a)
    ensures PageNumber(a) != PageNumber(at) ==> (IsMapped(Prepared(s, at, given), a) <==> IsMapped(s, a))
    ensures PageNumber(a) != PageNumber(at) ==> (Faults(Prepared(s, at, given), a) <==> Faults(s, a))
  {
    hide Translate, Decode, Ordinary, PageNumber, W.LeafWord, W.Address, Ready, Map;
    MapTranslates(s, at, at, PAGING_FLAG_RW, given, a);
    PageNumberNamesPage(a, at);
    if PageNumber(a) == PageNumber(at) {
      SameWord(a, at, PAGING_FLAG_RW);
    }
  }

  /** Every byte of a new block is mapped exactly if all pages but the first were mapped before. */
  lemma BlockIsMappedIff(s: State, at: bv64, blocks: nat, given: seq<PageAddr>)
    requires Mappable(s, at, given) && blocks > 0 && InTables(at, blocks)
    ensures (forall a :: Among(a, at, blocks) ==> IsMapped(Prepared(s, at, given), a)) <==>
            (forall a :: Among(a, at, blocks) && PageNumber(a) != PageNumber(at) ==> IsMapped(s, a))
  {
    hide Mappable, IsMapped, Faults, Prepared, Ordinary, PageNumber, Fits;
    forall a | Among(a, at, blocks)
      ensures PageNumber(a) == PageNumber(at) ==> IsMapped(Prepared(s, at, given), a)
      ensures PageNumber(a) != PageNumber(at) ==> (IsMapped(Prepared(s, at, given), a) <==> IsMapped(s, a))
    {
      OnlyFirstPage(s, at, given, a);
    }
  }

  /** The block made for a request from pages none of which was mapped: every byte of it is
      mapped exactly if it is one page long, and if it is not then neither is the place where
      split puts the header of the rest, if there is one. */
  lemma NewBlockIsMappedIff(s: State, at: bv64, bytes: nat, given: seq<PageAddr>, rest: bv64)
    requires Mappable(s, at, given) && InTables(at, H.BlocksFor(bytes))
    requires forall a :: Among(a, at, H.BlocksFor(bytes)) ==> Faults(s, a)
    requires PageNumber(rest) == PageNumber(at) + (BLOCK_HEADER + bytes) / HALLOC_BLOCK
    ensures (forall a :: Among(a, at, H.BlocksFor(bytes)) ==> IsMapped(Prepared(s, at, given), a)) <==>
            H.BlocksFor(bytes) == 1
    ensures H.BlocksFor(bytes) == 1 <==> BLOCK_HEADER + bytes < HALLOC_BLOCK
    ensures Among(rest, at, H.BlocksFor(bytes))
    ensures if H.BlocksFor(bytes) == 1 then IsMapped(Prepared(s, at, given), rest)
            else Faults(Prepared(s, at, given), rest)
  {
    hide Mappable, Prepared, Ordinary, PageNumber, Fits, Decode, Translate;
    OnlyFirstPage(s, at, given, rest);
    if PageNumber(rest) != PageNumber(at) {
      MappedIsNoFault(Prepared(s, at, given), rest);
    }
    forall a | Among(a, at, H.BlocksFor(bytes)) && PageNumber(a) == PageNumber(at)
      ensures IsMapped(Prepared(s, at, given), a)
    {
      OnlyFirstPage(s, at, given, a);
    }
  }

  lemma MappedIsNoFault(s: State, a: bv64)
    requires Faults(s, a)
    ensures !IsMapped(s, a)
  {
    hide Translate, W.LeafWord;
    W.LeafWordFlags(a, PAGING_FLAG_RW);
  }
}
