/** kernel/src/memory/halloc.c: the chain of blocks, malloc and free. */
module Heap {
  import opened Basics
  import opened HeapList
  import opened HeapSegments
  import opened HeapBlock

  /** create_block: how many units a request needs. */
  function BlocksFor(bytes: nat): nat {
    (bytes + BLOCK_HEADER) / HALLOC_BLOCK + 1
  }

  /** init_block: the size of the first segment, stored in 32 bits. */
  function FirstSize(blocks: nat): nat {
    (blocks * HALLOC_BLOCK + U32 - BLOCK_HEADER - 1) % U32
  }

  /** As many units as the header and the request fill, or one more if they fill them to the byte. */
  lemma BlocksForIs(bytes: nat)
    ensures BlocksFor(bytes) > 0 && (BlocksFor(bytes) - 1) * 4096 <= bytes + 24 < BlocksFor(bytes) * 4096
  {
  }

  /** The largest size malloc accepts. */
  const MAX_SIZE: nat := U32 - ALLOC_HEADER - BLOCK_HEADER

  /** A new block holds the request it was made for, except the largest that malloc accepts:
      its first segment wraps and march would make blocks without end. */
  lemma NewBlockFitsIff(size: nat)
    requires 0 < size <= MAX_SIZE
    ensures FirstSize(BlocksFor(size + ALLOC_HEADER)) >= size + ALLOC_HEADER <==> size < MAX_SIZE
  {
  }

  /** For the largest request the block begins with a free segment of 4071 bytes. */
  lemma LargestRequest()
    ensures FirstSize(BlocksFor(MAX_SIZE + ALLOC_HEADER)) == 4071
  {
  }

  /** The length of the block is a 32-bit number unless the request ends in its last page. */
  lemma NewBlockIsShortIff(bytes: nat)
    ensures BlocksFor(bytes) < MAX_BLOCKS <==> bytes + BLOCK_HEADER < U32 - HALLOC_BLOCK
    ensures BlocksFor(bytes) < MAX_BLOCKS ==>
              && FirstSize(BlocksFor(bytes)) == BlocksFor(bytes) * HALLOC_BLOCK - BLOCK_HEADER - 1
              && FirstSize(BlocksFor(bytes)) >= bytes
  {
  }

  /** The longest free segment is taken, and what is longer than needed stays free. */
  ghost predicate GivesFrom(was: seq<Seg>, now: seq<Seg>, size: nat, k: nat, got: nat) {
    && k < |was| && was[k].start == got && !was[k].used && size <= was[k].size
    && now == Carved(was, k, size) && TakesPiece(was, now, k, size)
    && forall s :: s in was && !s.used ==> s.size <= was[k].size
  }

  /** A free segment of a block is long enough. */
  ghost predicate HasRoom(segs: seq<Seg>, size: nat) {
    exists s :: s in segs && !s.used && s.size >= size
  }

  /** The head of the list decides. */
  lemma HeadDecides(b: Block, size: nat)
    requires b.Valid()
    ensures HasRoom(b.segs, size) <==> b.freelist != 0 && SizeOf(b.mem, b.freelist) >= size
  {
    if b.freelist != 0 {
      assert LinkedAt(b.mem, b.list, 0);
      assert b.list[0] in b.list;
    }
    if HasRoom(b.segs, size) {
      var s :| s in b.segs && !s.used && s.size >= size;
      assert IsFreeStart(b.segs, s.start) && HasHeader(b.mem, s);
      HeadIsLargest(b.mem, b.freelist, b.list, s.start);
    }
  }

  /** The head is one of the free segments. */
  lemma HeadIsSegment(b: Block) returns (k: nat)
    requires b.Valid() && b.freelist != 0
    ensures k < |b.segs| && b.segs[k].start == b.freelist && !b.segs[k].used
    ensures b.segs[k].size == SizeOf(b.mem, b.freelist)
    ensures forall s :: s in b.segs && !s.used ==> s.size <= b.segs[k].size
  {
    forall s | s in b.segs && !s.used ensures s.size <= SizeOf(b.mem, b.freelist) {
      assert IsFreeStart(b.segs, s.start) && HasHeader(b.mem, s);
      HeadIsLargest(b.mem, b.freelist, b.list, s.start);
    }
    assert LinkedAt(b.mem, b.list, 0);
    assert b.list[0] in b.list;
    var s :| s in b.segs && s.start == b.freelist && !s.used;
    assert HasHeader(b.mem, s);
    k :| 0 <= k < |b.segs| && b.segs[k] == s;
  }

  /** The blocks from halloc_last along their next pointers. */
  class Heap {
    var chain: seq<Block>
    /** Whether split refreshes the tag behind the rest; the source does not. */
    const refreshes: bool

    ghost predicate Valid()
      reads this, chain
    {
      && (forall i, j :: 0 <= i < j < |chain| ==> chain[i] != chain[j])
      && (forall i :: 0 <= i < |chain| ==> chain[i].Valid())
      && (refreshes ==> forall i :: 0 <= i < |chain| ==> Tagged(chain[i].mem, chain[i].segs))
      && Apart()
    }

    /** The blocks lie in different memory. */
    ghost predicate Apart()
      reads this
    {
      forall i, j :: 0 <= i < j < |chain| ==> BlocksApart(chain[i], chain[j])
    }

    /** Memory for so many blocks from an address on that no block of the chain lies in. */
    ghost predicate Clear(at: nat, blocks: nat)
      reads this
    {
      forall i :: 0 <= i < |chain| ==> SpansApart(at, blocks, chain[i].at, chain[i].blocks)
    }

    /** No block from place i on has a free segment long enough. */
    ghost predicate Full(i: nat, size: nat)
      reads this, chain
    {
      forall j :: i <= j < |chain| ==> !HasRoom(chain[j].segs, size)
    }

    constructor (refreshes: bool)
      ensures Valid() && chain == [] && this.refreshes == refreshes
    {
      chain := [];
      this.refreshes := refreshes;
    }

    /** Block i gives a piece of the segment k it has at an offset. */
    twostate predicate Gives(b: Block, size: nat, k: nat, got: nat)
      reads b
    {
      GivesFrom(old(b.segs), b.segs, size, k, got)
    }

    /** march from block i on; given is where palloc_alloc puts a new block.  Only the first page
        of it gets mapped (KernelMemory.NewBlockIsMappedIff). */
    method March(i: nat, size: nat, given: nat) returns (block: Block, got: nat, ghost k: nat)
      requires Valid() && i < |chain| && (Full(i, size) ==> Clear(given, BlocksFor(size)))
      requires size > ALLOC_HEADER && size + BLOCK_HEADER < U32 - HALLOC_BLOCK
      modifies this`chain, chain
      ensures Valid()
      ensures forall j :: 0 <= j < |old(chain)| && old(chain)[j] != block ==> old(chain)[j].segs == old(chain[j].segs)
      ensures !old(Full(i, size)) ==>
                && chain == old(chain)
                && exists j :: i <= j < |chain| && block == chain[j] && Gives(block, size, k, got)
                               && forall m :: i <= m < j ==> !old(HasRoom(chain[m].segs, size))
      ensures old(Full(i, size)) ==>
                && chain == [block] + old(chain) && fresh(block)
                && block.at == given && block.blocks == BlocksFor(size) && k == 0 && got == BLOCK_HEADER
                && block.segs == Carved([Seg(BLOCK_HEADER, FirstSize(BlocksFor(size)), false)], 0, size)
                && TakesPiece([Seg(24, block.blocks * 4096 - 25, false)], block.segs, 0, size)
      decreases |chain| - i
    {
      hide Tagged, HasRoom, Carved, TakesPiece, Block.Valid, SpansApart, BlocksFor, FirstSize, GivesFrom;
      var taken;
      block := chain[i];
      taken, got, k := TryBlock(block, size);
      if taken {
        return;
      }
      if i + 1 < |chain| {
        block, got, k := March(i + 1, size, given);
      } else {
        block, got, k := NewBlock(size, given);
        chain := [block] + chain;
      }
    }

    /** create_block and the march that finds the request fits. */
    method NewBlock(size: nat, given: nat) returns (block: Block, got: nat, ghost k: nat)
      requires size > ALLOC_HEADER && size + BLOCK_HEADER < U32 - HALLOC_BLOCK
      ensures fresh(block) && block.Valid() && (refreshes ==> Tagged(block.mem, block.segs))
      ensures block.at == given && block.blocks == BlocksFor(size) && k == 0 && got == BLOCK_HEADER
      ensures block.segs == Carved([Seg(BLOCK_HEADER, FirstSize(BlocksFor(size)), false)], 0, size)
      ensures TakesPiece([Seg(24, block.blocks * 4096 - 25, false)], block.segs, 0, size)
    {
      NewBlockIsShortIff(size);
      block := new Block(given, BlocksFor(size));
      assert block.segs[0] in block.segs;
      var taken;
      taken, got, k := TryBlock(block, size);
    }

    /** One block of the march: only the head of its free list is looked at. */
    method TryBlock(b: Block, size: nat) returns (taken: bool, got: nat, ghost k: nat)
      requires b.Valid() && size > ALLOC_HEADER && (refreshes ==> Tagged(b.mem, b.segs))
      modifies b
      ensures b.Valid() && (refreshes ==> Tagged(b.mem, b.segs))
      ensures taken <==> old(HasRoom(b.segs, size))
      ensures taken ==> Gives(b, size, k, got)
      ensures !taken ==> b.segs == old(b.segs)
    {
      hide Tagged, HasRoom, Carved, TakesPiece, Block.Valid;
      HeadDecides(b, size);
      taken, got, k := false, b.freelist, 0;
      if b.freelist != 0 {
        k := HeadIsSegment(b);
        taken := SplitIn(b, got, size, k);
      }
    }

    /** The split a block does, with or without the repair. */
    method SplitIn(b: Block, cur: nat, size: nat, ghost k: nat) returns (got: bool)
      requires b.Valid() && cur == b.freelist != 0 && size > ALLOC_HEADER
      requires k < |b.segs| && b.segs[k].start == cur && (refreshes ==> Tagged(b.mem, b.segs))
      modifies b
      ensures b.Valid() && (refreshes ==> Tagged(b.mem, b.segs))
      ensures got <==> size <= old(b.segs)[k].size
      ensures got ==> b.segs == Carved(old(b.segs), k, size) && TakesPiece(old(b.segs), b.segs, k, size)
      ensures !got ==> b.segs == old(b.segs)
    {
      if refreshes {
        got := b.SplitAndRefresh(cur, size, k);
      } else {
        got := b.Split(cur, size, k);
      }
    }

    /** realloc(NULL, size); the sizes just below the limit are those of NewBlockFitsIff and
        NewBlockIsShortIff. */
    method Malloc(size: nat, given: nat) returns (ptr: nat, ghost block: Block?, ghost k: nat)
      requires Valid()
      requires size > MAX_SIZE || size + ALLOC_HEADER + BLOCK_HEADER < U32 - HALLOC_BLOCK
      requires 0 < size <= MAX_SIZE && Full(0, size + ALLOC_HEADER) ==> Clear(given, BlocksFor(size + ALLOC_HEADER))
      modifies this`chain, chain
      ensures Valid()
      ensures block == null <==> size == 0 || size > MAX_SIZE
      ensures block == null ==> ptr == 0 && chain == old(chain)
      ensures forall j :: 0 <= j < |old(chain)| && old(chain)[j] != block ==> old(chain)[j].segs == old(chain[j].segs)
      ensures block != null ==>
                && k < |block.segs| && block.segs[k].used && size + ALLOC_HEADER <= block.segs[k].size
                && ptr == block.at + block.segs[k].start + ALLOC_HEADER
                && ((chain == old(chain) && block in chain) || (fresh(block) && chain == [block] + old(chain)))
      ensures block != null && block in old(chain) ==>
                && k < |old(block.segs)| && !old(block.segs)[k].used && size + ALLOC_HEADER <= old(block.segs)[k].size
                && block.segs == Carved(old(block.segs), k, size + ALLOC_HEADER)
                && TakesPiece(old(block.segs), block.segs, k, size + 20)
                && forall s :: s in old(block.segs) && !s.used ==> s.size <= old(block.segs)[k].size
      ensures block != null ==> (fresh(block) <==> old(Full(0, size + ALLOC_HEADER)))
      ensures block != null && fresh(block) ==>
                && block.at == given && block.blocks == BlocksFor(size + ALLOC_HEADER)
                && block.segs == Carved([Seg(BLOCK_HEADER, FirstSize(BlocksFor(size + ALLOC_HEADER)), false)], 0,
                                        size + ALLOC_HEADER)
                && TakesPiece([Seg(24, block.blocks * 4096 - 25, false)], block.segs, 0, size + 20)
    {
      hide Tagged, HasRoom, Carved, TakesPiece, Block.Valid;
      ptr, block, k := 0, null, 0;
      if size == 0 || size > MAX_SIZE {
        return;
      }
      var realsize := size + ALLOC_HEADER;
      var b, got;
      if chain == [] {
        b, got, k := NewBlock(realsize, given);
        chain := [b];
      } else {
        b, got, k := March(0, realsize, given);
      }
      FirstPieceIsUsed(realsize);
      ptr, block := b.at + got + ALLOC_HEADER, b;
    }

    /** free of what malloc returned for segment k of block i. */
    method Free(ptr: nat, ghost i: nat, ghost k: nat)
      requires Valid() && i < |chain| && k < |chain[i].segs| && chain[i].segs[k].used
      requires ptr == chain[i].at + chain[i].segs[k].start + ALLOC_HEADER
      requires refreshes || TagExact(chain[i].mem, chain[i].segs, k)
      modifies chain
      ensures Valid() && chain[i].segs == Coalesced(old(chain[i].segs), k)
      ensures GivesBack(old(chain[i].segs), chain[i].segs, k)
      ensures forall j :: 0 <= j < |chain| && j != i ==> chain[j].segs == old(chain[j].segs)
    {
      hide Tagged, TagExact, Coalesced, GivesBack, Block.Valid;
      PointerInBlock(chain[i], k);
      assert forall j :: 0 <= j < i ==> BlocksApart(chain[j], chain[i]);
      var n := 0;
      while !(chain[n].at < ptr < chain[n].at + chain[n].blocks * HALLOC_BLOCK)
        invariant n <= i
        decreases i - n
      {
        n := n + 1;
      }
      assert n == i;
      if refreshes {
        OneTag(chain[i].mem, chain[i].segs, k);
      }
      chain[n].Free(ptr - ALLOC_HEADER - chain[n].at, k);
    }
  }

  /** The piece split gives out is used and long enough. */
  lemma FirstPieceIsUsed(size: nat)
    ensures forall segs: seq<Seg>, k: nat {:trigger Carved(segs, k, size)} :: k < |segs| && size <= segs[k].size ==>
              && k < |Carved(segs, k, size)|
              && Carved(segs, k, size)[k].start == segs[k].start
              && Carved(segs, k, size)[k].used && Carved(segs, k, size)[k].size >= size
  {
  }

  predicate SpansApart(a: nat, count: nat, b: nat, others: nat) {
    a + count * HALLOC_BLOCK <= b || b + others * HALLOC_BLOCK <= a
  }

  ghost predicate BlocksApart(a: Block, b: Block) {
    SpansApart(a.at, a.blocks, b.at, b.blocks)
  }

  lemma OneTag(mem: Mem, segs: seq<Seg>, k: nat)
    requires Tagged(mem, segs) && k < |segs|
    ensures TagExact(mem, segs, k)
  {
  }

  /** What malloc returned lies in its block, behind the header of its segment. */
  lemma PointerInBlock(b: Block, k: nat)
    requires b.Valid() && k < |b.segs|
    ensures b.at < b.at + b.segs[k].start + ALLOC_HEADER < b.at + b.segs[k].End() <= b.at + b.blocks * HALLOC_BLOCK
  {
    assert Abuts(b.segs, k, b.End());
    Ascending(b.segs, b.End(), k, |b.segs|);
  }

  /** The areas behind the headers of two segments do not overlap, in one block or in two. */
  lemma AreasApart(h: Heap, i: nat, k: nat, j: nat, l: nat)
    requires h.Valid() && i < |h.chain| && j < |h.chain|
    requires k < |h.chain[i].segs| && l < |h.chain[j].segs| && (i != j || k != l)
    ensures var a, b := h.chain[i], h.chain[j];
            || a.at + a.segs[k].End() <= b.at + b.segs[l].start
            || b.at + b.segs[l].End() <= a.at + a.segs[k].start
  {
    var a, b := h.chain[i], h.chain[j];
    assert a.Valid() && b.Valid();
    PointerInBlock(a, k);
    PointerInBlock(b, l);
    if i == j {
      SegmentsApart(a.segs, a.End(), k, l);
    } else {
      assert BlocksApart(h.chain[if i < j then i else j], h.chain[if i < j then j else i]);
    }
  }

  // ----- what the missing refresh leads to

  function TagOf(b: Block, o: nat): nat
    reads b
  {
    if o in b.mem then b.mem[o].prev else 0
  }

  /** A request that the one largest free segment answers. */
  method Allot(b: Block, size: nat, ghost k: nat)
    requires b.Valid() && k < |b.segs| && !b.segs[k].used && ALLOC_HEADER < size <= b.segs[k].size
    requires forall i :: 0 <= i < |b.segs| && i != k && !b.segs[i].used ==> b.segs[i].size < b.segs[k].size
    modifies b
    ensures b.Valid() && b.segs == Carved(old(b.segs), k, size)
    ensures old(Tagged(b.mem, b.segs)) && k + 1 == |old(b.segs)| ==> Tagged(b.mem, b.segs)
    ensures forall s :: s in old(b.segs) ==> TagOf(b, s.start) == old(TagOf(b, s.start))
  {
    hide Tagged, TaggedBut, TakesPiece;
    HeadMustBe(b, k);
    var got := b.Split(b.freelist, size, k);
  }

  /** As written, split can leave a used segment with a tag over two segments. */
  method StaleTag() returns (b: Block)
    ensures fresh(b) && b.Valid() && b.Mistagged(0, 2) && !TagExact(b.mem, b.segs, 2) && TagOf(b, 24) == 0
    ensures b.segs == [Seg(24, 1000, true), Seg(1024, 1000, false), Seg(2024, 1000, true), Seg(3024, 1071, false)]
  {
    hide Block.Valid, Tagged, TagExact, TagOf, TakesPiece, GivesBack;
    b := new Block(0, 1);
    Allot(b, 2000, 0);
    assert b.segs == [Seg(24, 2000, true), Seg(2024, 2071, false)];
    Allot(b, 1000, 1);
    assert b.segs == [Seg(24, 2000, true), Seg(2024, 1000, true), Seg(3024, 1071, false)];
    OneTag(b.mem, b.segs, 0);
    b.Free(24, 0);
    assert b.segs == [Seg(24, 2000, false), Seg(2024, 1000, true), Seg(3024, 1071, false)];
    TagsSay(b, 0);
    TagsSay(b, 1);
    assert b.segs[0] in b.segs && b.segs[1] in b.segs;
    Allot(b, 1000, 0);
    assert b.segs == [Seg(24, 1000, true), Seg(1024, 1000, false), Seg(2024, 1000, true), Seg(3024, 1071, false)];
    TagMeans(b, 2);
  }

  lemma TagsSay(b: Block, k: nat)
    requires Tagged(b.mem, b.segs) && k < |b.segs|
    ensures TagOf(b, b.segs[k].start) == if k == 0 then 0 else b.segs[k - 1].size
  {
    assert TagExact(b.mem, b.segs, k);
  }

  lemma TagMeans(b: Block, k: nat)
    requires b.Valid() && k < |b.segs|
    ensures TagExact(b.mem, b.segs, k) <==> TagOf(b, b.segs[k].start) == if k == 0 then 0 else b.segs[k - 1].size
    ensures b.segs[k].start in b.mem && b.mem[b.segs[k].start].prev == TagOf(b, b.segs[k].start)
  {
    assert b.segs[k] in b.segs && HasHeader(b.mem, b.segs[k]);
  }

  /** Free then leaves two free neighbours. */
  method FreeLeavesNeighbours(data: Header) returns (b: Block)
    ensures b.Coherent() && !b.Valid()
    ensures b.segs == [Seg(24, 1000, true), Seg(1024, 1000, false), Seg(2024, 2071, false)]
  {
    b := StaleTag();
    assert b.segs[2] in b.segs;
    var done := b.FreeMistagged(2024, true, data, 0, 2);
    assert b.segs == [Seg(24, 1000, true), Seg(1024, 1000, false), Seg(2024, 2071, false)];
  }

  /** After two more requests and another free the segment two below is free, too. */
  method StaleAboveFree() returns (b: Block)
    ensures fresh(b) && b.Valid() && b.Mistagged(0, 2)
    ensures b.segs == [Seg(24, 1000, false), Seg(1024, 1000, true), Seg(2024, 1000, true), Seg(3024, 1071, true)]
  {
    hide Block.Valid, TagExact, TagOf, Tagged, TakesPiece, GivesBack;
    b := StaleTag();
    TagMeans(b, 2);
    Allot(b, 1071, 3);
    assert b.segs == [Seg(24, 1000, true), Seg(1024, 1000, false), Seg(2024, 1000, true), Seg(3024, 1071, true)];
    assert b.segs[0] in b.segs && b.segs[2] in b.segs;
    Allot(b, 1000, 1);
    FreeFull(b);
  }

  /** Nothing is free but then the first segment is. */
  method FreeFull(b: Block)
    requires b.Valid() && TagOf(b, 24) == 0 && TagOf(b, 2024) == 2000
    requires b.segs == [Seg(24, 1000, true), Seg(1024, 1000, true), Seg(2024, 1000, true), Seg(3024, 1071, true)]
    modifies b
    ensures b.Valid() && b.Mistagged(0, 2)
    ensures b.segs == [Seg(24, 1000, false), Seg(1024, 1000, true), Seg(2024, 1000, true), Seg(3024, 1071, true)]
  {
    hide Block.Valid, TagExact, TagOf, Tagged, TakesPiece, GivesBack;
    FullHasNoHead(b);
    TagMeans(b, 0);
    TagMeans(b, 2);
    assert b.segs[2] in b.segs;
    b.Free(24, 0);
    assert b.segs == [Seg(24, 1000, false), Seg(1024, 1000, true), Seg(2024, 1000, true), Seg(3024, 1071, true)];
    TagMeans(b, 2);
  }

  /** Free then puts a segment on the list that reaches over one in use, whatever the callers
      wrote. */
  method FreeOverlaps(data: Header) returns (b: Block)
    ensures b.ListValid() && 24 in b.list && 24 in b.mem && b.mem[24].size == 2000
    ensures |b.segs| == 4 && b.segs[1] == Seg(1024, 1000, true) && Overlaps(b.mem, b.segs, 0)
  {
    hide Block.Valid, Block.ListValid;
    b := StaleAboveFree();
    assert b.segs[2] in b.segs;
    var done := b.FreeMistagged(2024, true, data, 0, 2);
  }

  /** Two more requests, and the tag is over three segments. */
  method WideTag() returns (b: Block)
    ensures fresh(b) && b.Valid() && b.Mistagged(0, 3)
    ensures b.segs == [Seg(24, 1000, true), Seg(1024, 400, true), Seg(1424, 600, false), Seg(2024, 1000, true),
                       Seg(3024, 1071, true)]
  {
    hide Block.Valid, TagExact, TagOf, Tagged, TakesPiece, GivesBack;
    b := StaleTag();
    TagMeans(b, 2);
    Allot(b, 1071, 3);
    assert b.segs == [Seg(24, 1000, true), Seg(1024, 1000, false), Seg(2024, 1000, true), Seg(3024, 1071, true)];
    assert b.segs[2] in b.segs;
    Allot(b, 400, 1);
    assert b.segs == [Seg(24, 1000, true), Seg(1024, 400, true), Seg(1424, 600, false), Seg(2024, 1000, true),
                      Seg(3024, 1071, true)];
    TagMeans(b, 3);
  }

  lemma FullHasNoHead(b: Block)
    requires b.Valid() && forall i :: 0 <= i < |b.segs| ==> b.segs[i].used
    ensures b.freelist == 0
  {
    if b.freelist != 0 {
      var k := HeadIsSegment(b);
    }
  }

  /** The head of the list is the only segment that is largest. */
  lemma HeadMustBe(b: Block, k: nat)
    requires b.Valid() && k < |b.segs| && !b.segs[k].used
    requires forall i :: 0 <= i < |b.segs| && i != k && !b.segs[i].used ==> b.segs[i].size < b.segs[k].size
    ensures b.freelist == b.segs[k].start != 0
  {
    assert b.segs[k] in b.segs && HasHeader(b.mem, b.segs[k]);
    assert IsFreeStart(b.segs, b.segs[k].start);
    HeadIsLargest(b.mem, b.freelist, b.list, b.segs[k].start);
    var j := HeadIsSegment(b);
  }
}
