/** kernel/src/memory/halloc.c: one block of the heap, its headers rewritten in place. */
module HeapBlock {
  import opened HeapList
  import opened HeapSegments

  /** The header of a segment; that of a used one is linked to nothing. */
  ghost predicate HasHeader(mem: Mem, seg: Seg) {
    && seg.start in mem
    && mem[seg.start].size == seg.size && mem[seg.start].used == seg.used
    && (seg.used ==> mem[seg.start].next == 0 && mem[seg.start].bef == 0)
  }

  ghost predicate Headed(mem: Mem, segs: seq<Seg>) {
    forall s :: s in segs ==> HasHeader(mem, s)
  }

  ghost predicate IsFreeStart(segs: seq<Seg>, o: nat) {
    exists s :: s in segs && s.start == o && !s.used
  }

  /** The free list holds the free segments. */
  ghost predicate Lists(segs: seq<Seg>, list: seq<nat>) {
    forall o :: o in list <==> IsFreeStart(segs, o)
  }

  /** The prev tag of segment i says how long the one before it is. */
  ghost predicate TagExact(mem: Mem, segs: seq<Seg>, i: nat) {
    i < |segs| && segs[i].start in mem && mem[segs[i].start].prev == if i == 0 then 0 else segs[i - 1].size
  }

  ghost predicate Tagged(mem: Mem, segs: seq<Seg>) {
    forall i :: 0 <= i < |segs| ==> TagExact(mem, segs, i)
  }

  /** A block's length in bytes is a 32-bit number. */
  const MAX_BLOCKS: nat := 0x10_0000

  /** block_header_t, with the headers of its segments by offset. */
  class Block {
    const at: nat
    /** The size in units of HALLOC_BLOCK. */
    const blocks: nat
    var rc: nat
    var freelist: nat
    var mem: Mem
    ghost var segs: seq<Seg>
    ghost var list: seq<nat>

    /** The last byte of a block belongs to no segment. */
    function End(): nat
      requires blocks > 0
    {
      blocks * HALLOC_BLOCK - 1
    }

    ghost predicate ListValid()
      reads this
    {
      Linked(mem, freelist, list) && Descending(mem, list)
    }

    ghost predicate Valid()
      reads this
    {
      && 0 < blocks < MAX_BLOCKS
      && Tiled(segs, End()) && Settled(segs) && rc == UsedCount(segs)
      && Headed(mem, segs) && Lists(segs, list) && ListValid()
    }

    /** init_block */
    constructor (at: nat, blocks: nat)
      requires 0 < blocks < MAX_BLOCKS
      ensures Valid() && Tagged(mem, segs) && this.at == at && this.blocks == blocks
      ensures segs == [Seg(BLOCK_HEADER, blocks * HALLOC_BLOCK - BLOCK_HEADER - 1, false)] && rc == 0
    {
      this.at := at;
      this.blocks := blocks;
      rc := 0;
      freelist := BLOCK_HEADER;
      mem := map[BLOCK_HEADER := Header(0, 0, blocks * HALLOC_BLOCK - BLOCK_HEADER - 1, 0, false)];
      segs := [Seg(BLOCK_HEADER, blocks * HALLOC_BLOCK - BLOCK_HEADER - 1, false)];
      list := [BLOCK_HEADER];
      new;
      assert Abuts(segs, 0, End());
      assert segs[1..] == [];
      assert LinkedAt(mem, list, 0);
      assert segs[0] in segs;
    }

    /** freelist_insert, starting at the head. */
    method Insert(what: nat) returns (ghost p: nat)
      requires ListValid() && what !in list && what in mem && what != 0
      modifies this`freelist, this`mem, this`list
      ensures ListValid() && SameBodies(old(mem), mem) && OthersSame(old(mem), mem, list)
      ensures IsPlace(old(mem), old(list), SizeOf(old(mem), what), p)
      ensures list == With(old(list), p, what)
      ensures forall i :: 0 <= i < p ==> SizeOf(old(mem), old(list)[i]) > SizeOf(old(mem), what)
      ensures forall i :: p <= i < |old(list)| ==> SizeOf(old(mem), old(list)[i]) <= SizeOf(old(mem), what)
    {
      if freelist == 0 {
        Empty(mem, freelist, list);
        p := 0;
        InsertIsSound(mem, freelist, list, 0, what);
        mem := SetBef(mem, what, 0);
        freelist := what;
        mem := SetNext(mem, what, 0);
        list := With(list, 0, what);
        return;
      }
      var placement, prev := freelist, 0;
      assert LinkedAt(mem, list, 0);
      p := 0;
      while true
        invariant mem == old(mem) && freelist == old(freelist) && list == old(list)
        invariant p < |list| && placement == list[p] && placement in mem && prev == Nth(list, p - 1)
        invariant forall j :: 0 <= j < p ==> SizeOf(mem, what) < SizeOf(mem, list[j])
        decreases |list| - p
      {
        NeighboursInMem(mem, freelist, list, p);
        if mem[what].size >= mem[placement].size {
          InsertHere(what, prev, placement, p);
          break;
        }
        if mem[placement].next == 0 {
          p := p + 1;
          InsertHere(what, placement, 0, p);
          break;
        }
        prev := placement;
        placement := mem[placement].next;
        p := p + 1;
      }
    }

    /** The writes of freelist_insert between two neighbours. */
    method InsertHere(what: nat, prev: nat, placement: nat, ghost p: nat)
      requires ListValid() && what !in list && what in mem && what != 0
      requires IsPlace(mem, list, SizeOf(mem, what), p)
      requires prev == Nth(list, p - 1) && placement == Nth(list, p)
      modifies this`freelist, this`mem, this`list
      ensures ListValid() && SameBodies(old(mem), mem) && OthersSame(old(mem), mem, list)
      ensures list == With(old(list), p, what)
    {
      hide Linked, Descending, SameBodies, OthersSame, With, SetNext, SetBef, IsPlace, SizeOf, Nth;
      InsertIsSound(mem, freelist, list, p, what);
      PlaceBefore(mem, freelist, list, p, SizeOf(mem, what));
      ghost var after := InsertLinks(mem, what, prev, placement);
      if prev == 0 {
        freelist := what;
      } else {
        mem := SetNext(mem, prev, what);
      }
      if placement != 0 {
        mem := SetBef(mem, placement, what);
      }
      mem := SetBef(mem, what, prev);
      mem := SetNext(mem, what, placement);
      list := With(list, p, what);
      assert mem == after;
    }

    /** freelist_take */
    method Take(what: nat, ghost p: nat)
      requires Linked(mem, freelist, list) && p < |list| && what == list[p] && Descending(mem, Without(list, p))
      modifies this`freelist, this`mem, this`list
      ensures ListValid() && SameBodies(old(mem), mem) && OthersSame(old(mem), mem, old(list))
      ensures list == Without(old(list), p) && what in mem && mem[what].next == 0 && mem[what].bef == 0
    {
      TakeIsSound(mem, freelist, list, p);
      ghost var after := TakeLinks(mem, what);
      hide Linked, Descending, SameBodies, OthersSame, Without, SetNext, SetBef;
      var bef, next := mem[what].bef, mem[what].next;
      if bef == 0 {
        freelist := next;
      } else {
        mem := SetNext(mem, bef, next);
      }
      if next != 0 {
        mem := SetBef(mem, next, bef);
      }
      mem := SetBef(mem, what, 0);
      mem := SetNext(mem, what, 0);
      list := Without(list, p);
      assert mem == after;
    }

    /** split of the head of the free list. */
    method Split(cur: nat, size: nat, ghost k: nat) returns (got: bool)
      requires Valid() && cur == freelist != 0 && size > ALLOC_HEADER
      requires k < |segs| && segs[k].start == cur
      modifies this
      ensures Valid() && (got <==> size <= old(segs)[k].size)
      ensures !got ==> mem == old(mem) && segs == old(segs) && list == old(list)
      ensures got ==> segs == Carved(old(segs), k, size) && rc == old(rc) + 1
      ensures got ==> TakesPiece(old(segs), segs, k, size)
      ensures got ==> PrevsSame(old(mem), mem, old(segs))
      ensures got && old(Tagged(mem, segs)) ==>
                && (Tagged(mem, segs) <==> !(Remains(old(segs)[k], size) && k + 1 < |old(segs)|))
                && TaggedBut(mem, segs, k + 2)
    {
      hide Linked, Descending, Tiled, Settled, UsedCount, Lists, SameBodies, OthersSame, Headed, Tagged, TaggedBut;
      hide Cut, Kept, Carved;
      hide PrevsSame, TakesPiece;
      HeadSegment(mem, freelist, segs, list, End(), k);
      if mem[cur].used || mem[cur].size < size {
        return false;
      }
      ghost var was, free := mem, list;
      TakenDescends(mem, list, 0);
      Take(cur, 0);
      KeptByTake(was, mem, free);
      WithoutHas(free, 0);
      var piece := size;
      if mem[cur].size - size <= ALLOC_HEADER {
        piece := mem[cur].size;
      } else {
        SplitOff(was, free, cur, size, k);
      }
      ghost var last := mem;
      mem := mem[cur := mem[cur].(size := piece, next := 0, bef := 0, used := true)];
      UsedOutsideList(last, mem, freelist, list, cur);
      CutIsSound(was, last, mem, free, list, segs, End(), k, size);
      CutPrevs(was, last, mem, free, segs, End(), k, size);
      CarvedTakes(segs, k, size);
      segs := Carved(segs, k, size);
      rc := rc + 1;
      got := true;
    }

    /** A repair, not in the source: split followed by the refresh of the tag behind the rest. */
    method SplitAndRefresh(cur: nat, size: nat, ghost k: nat) returns (got: bool)
      requires Valid() && cur == freelist != 0 && size > ALLOC_HEADER
      requires k < |segs| && segs[k].start == cur && Tagged(mem, segs)
      modifies this
      ensures Valid() && Tagged(mem, segs) && (got <==> size <= old(segs)[k].size)
      ensures got ==> segs == Carved(old(segs), k, size) && rc == old(rc) + 1
      ensures got ==> TakesPiece(old(segs), segs, k, size)
      ensures !got ==> segs == old(segs) && rc == old(rc)
    {
      hide Linked, Descending, Tiled, Settled, UsedCount, Lists, Headed, Tagged, TaggedBut, Carved, TakesPiece;
      HeadSegment(mem, freelist, segs, list, End(), k);
      ghost var before := segs;
      var was := mem[cur].size;
      got := Split(cur, size, k);
      if got && size + ALLOC_HEADER < was && cur + was + ALLOC_HEADER <= blocks * HALLOC_BLOCK {
        FollowerOfRest(mem, before, segs, End(), k, size);
        TagWritten(mem, cur + was, was - size, freelist, list, segs);
        TagMended(mem, cur + was, was - size, segs, k + 2);
        mem := mem[cur + was := mem[cur + was].(prev := was - size)];
      } else if got {
        NoFollower(mem, before, segs, End(), k, size);
      }
    }

    /** The part of split that makes the rest a segment of its own. */
    method SplitOff(ghost was: Mem, ghost free: seq<nat>, cur: nat, size: nat, ghost k: nat)
      requires blocks > 0 && Tiled(segs, End()) && Headed(was, segs) && Lists(segs, free)
      requires ListValid() && Kept(was, mem, free, {})
      requires forall o :: o in list <==> o in free && o != cur
      requires k < |segs| && segs[k].start == cur && !segs[k].used && ALLOC_HEADER < size && Remains(segs[k], size)
      requires cur in was && cur in mem && mem[cur] == Header(0, 0, segs[k].size, was[cur].prev, false)
      modifies this`mem, this`freelist, this`list
      ensures ListValid() && Kept(was, mem, free, {cur + size})
      ensures forall o :: o in list <==> (o in free && o != cur) || o == cur + size
      ensures cur in mem && mem[cur] == Header(0, 0, segs[k].size, was[cur].prev, false)
      ensures cur + size in mem && mem[cur + size].size == segs[k].size - size
      ensures mem[cur + size].prev == size && !mem[cur + size].used
    {
      hide Linked, Descending, Tiled, Lists, SameBodies, OthersSame, Headed, Kept;
      RestIsNew(segs, free, End(), k, size);
      var remains := cur + size;
      ghost var before := mem;
      mem := mem[remains := Header(0, 0, mem[cur].size - size, size, false)];
      UsedOutsideList(before, mem, freelist, list, remains);
      ghost var written, shorter := mem, list;
      ghost var p := Insert(remains);
      WithHas(shorter, p, remains);
      KeptByInsert(was, before, written, mem, free, list, cur, remains);
    }

    /** Free is at work on segment k: it is out of the list, and its header is still its own. */
    ghost predicate Open(k: nat)
      reads this
    {
      && 0 < blocks < MAX_BLOCKS && k < |segs| && segs[k].used
      && Tiled(segs, End()) && Settled(segs) && rc == UsedCount(segs)
      && HeadedBut(mem, segs, k) && Lists(segs, list) && ListValid()
    }

    /** Back collation. */
    method JoinPrev(subject: nat, ghost k: nat) returns (start: nat)
      requires Open(k) && subject == segs[k].start && TagExact(mem, segs, k)
      modifies this`mem, this`freelist, this`list, this`segs
      ensures segs == JoinedBelow(old(segs), k) && Open(PlaceBelow(old(segs), k))
      ensures start == segs[PlaceBelow(old(segs), k)].start
      ensures old(TaggedBut(mem, segs, k + 1)) ==> TaggedBut(mem, segs, PlaceBelow(old(segs), k) + 1)
    {
      hide Linked, Descending, Tiled, Settled, UsedCount, Lists, SameBodies, OthersSame, HeadedBut, TaggedBut, Kept;
      hide Joined;
      start := subject;
      NeighbourBelow(mem, segs, End(), k);
      if mem[subject].prev != 0 {
        var prev := subject - mem[subject].prev;
        if !mem[prev].used {
          ghost var was, free := mem, list;
          ghost var p := ListPlace(segs, list, k - 1);
          mem := mem[prev := mem[prev].(size := mem[prev].size + mem[subject].size)];
          ResizedInList(was, mem, freelist, list, p);
          ghost var resized := mem;
          Take(prev, p);
          start := prev;
          KeptByResize(was, resized, mem, free, prev);
          WithoutHas(free, p);
          JoinIsOpen(was, mem, free, list, segs, End(), k - 1, k);
          PrevsKept(was, mem, free, prev);
          JoinTags(was, mem, segs, k - 1);
          JoinedAt(segs, k - 1);
          segs := Joined(segs, k - 1);
        }
      }
    }

    /** Front collation. */
    method JoinNext(subject: nat, ghost k: nat)
      requires Open(k) && subject == segs[k].start
      modifies this`mem, this`freelist, this`list, this`segs
      ensures segs == JoinedAbove(old(segs), k) && Open(k) && subject == segs[k].start
      ensures old(TaggedBut(mem, segs, k + 1)) ==> Tagged(mem, segs)
    {
      hide Linked, Descending, Tiled, Settled, UsedCount, Lists, SameBodies, OthersSame, HeadedBut, TaggedBut, Tagged;
      hide Kept, Joined;
      SegmentAtWork(mem, segs, k);
      WithinIffFollowed(segs, End(), k);
      if subject + mem[subject].size + ALLOC_HEADER <= blocks * HALLOC_BLOCK {
        var next := subject + mem[subject].size;
        NeighbourAbove(mem, segs, k);
        ghost var exact := TaggedBut(mem, segs, k + 1);
        TagWritten(mem, next, mem[subject].size, freelist, list, segs);
        if exact {
          OtherStarts(segs, End(), k + 1);
          TagMended(mem, next, mem[subject].size, segs, k + 1);
        }
        mem := mem[next := mem[next].(prev := mem[subject].size)];
        if !mem[next].used {
          TakeNext(subject, next, k);
        }
      } else {
        AllTagged(mem, segs, k + 1);
      }
    }

    /** free, without the release of a block whose last segment went. */
    method Free(subject: nat, ghost k: nat)
      requires Valid() && k < |segs| && segs[k].used && subject == segs[k].start && TagExact(mem, segs, k)
      modifies this
      ensures Valid() && segs == Coalesced(old(segs), k) && rc + 1 == old(rc)
      ensures GivesBack(old(segs), segs, k)
      ensures old(Tagged(mem, segs)) ==> Tagged(mem, segs)
      ensures old(freelist) == 0 ==> PrevsSame(old(mem), mem, old(segs))
    {
      hide Linked, Descending, Tiled, Settled, UsedCount, Lists, SameBodies, OthersSame, HeadedBut, Headed;
      hide TaggedBut, Tagged, Kept, Joined, Freed, TagExact, PrevsSame, GivesBack;
      HeadedOpens(mem, segs, k);
      CoalescedKeeps(segs, End(), k);
      CoalescedGivesBack(segs, End(), k);
      AllTagged(mem, segs, k + 1);
      if freelist == 0 {
        Empty(mem, freelist, list);
        NoneFree(segs, list, k);
        MarkFree(subject, k);
      } else {
        NoneFreeBelow(segs, k);
        var start := JoinPrev(subject, k);
        ghost var m := PlaceBelow(old(segs), k);
        NoneFreeAround(segs, m);
        JoinNext(start, m);
        MarkFree(start, m);
      }
      rc := rc - 1;
    }

    /** The tag of segment k spans more than the segment below: it leads to segment j, which is how
        splits can leave it. */
    ghost predicate Mistagged(j: nat, k: nat)
      reads this
    {
      && j + 1 < k < |segs| && segs[k].used && segs[k].start in mem
      && mem[segs[k].start].prev == segs[k].start - segs[j].start
    }

    /** Everything but that no two neighbours are free. */
    ghost predicate Coherent()
      reads this
    {
      && 0 < blocks < MAX_BLOCKS && Tiled(segs, End()) && rc == UsedCount(segs)
      && Headed(mem, segs) && Lists(segs, list) && ListValid()
    }

    /** free without a change below. */
    method FreeAboveOnly(subject: nat, ghost k: nat)
      requires Valid() && k < |segs| && segs[k].used && subject == segs[k].start
      modifies this
      ensures Coherent() && segs == Freed(JoinedAbove(old(segs), k), k) && rc + 1 == old(rc)
      ensures Settled(segs) <==> !FreeBelow(old(segs), k)
    {
      hide Linked, Descending, Tiled, Settled, UsedCount, Lists, SameBodies, OthersSame, HeadedBut, Headed;
      hide TaggedBut, Tagged, Kept, Joined, Freed, TagExact;
      HeadedOpens(mem, segs, k);
      FreedAboveOnly(segs, End(), k);
      if freelist == 0 {
        Empty(mem, freelist, list);
        NoneFree(segs, list, k);
        MarkFree(subject, k);
      } else {
        JoinNext(subject, k);
        MarkFree(subject, k);
      }
      rc := rc - 1;
    }

    /** free where the segment the tag leads to is free. */
    method FreeFarBelow(subject: nat, own: bool, data: Header, ghost j: nat, ghost k: nat) returns (done: bool)
      requires Valid() && Mistagged(j, k) && subject == segs[k].start && !segs[j].used
      requires own <==> IsStart(segs, Beyond(segs, j, k))
      modifies this
      ensures segs == old(segs) && Overlaps(mem, segs, j) && HasFarSize(mem, segs, j, k)
      ensures done <==> own || data.used
      ensures done ==> ListValid() && segs[j].start in list
    {
      hide Linked, Descending, Tiled, Settled, UsedCount, Lists, SameBodies, OthersSame, Headed, Kept, Overlaps;
      FarTag(mem, segs, End(), j, k);
      FarNext(segs, list, End(), j, k);
      FreedCount(segs, k);
      var prev := subject - mem[subject].prev;
      ghost var p := ListPlace(segs, list, j);
      JoinFar(prev, mem[subject].size, j, k, p);
      var next := prev + mem[prev].size;
      assert next + ALLOC_HEADER <= blocks * HALLOC_BLOCK;
      if own {
        RetagFar(next, mem[prev].size, j, k);
        if !mem[next].used {
          TakeFar(prev, next, j, k);
        }
      } else {
        ghost var taken := mem;
        mem := mem[next := data.(prev := mem[prev].size)];
        UsedOutsideList(taken, mem, freelist, list, next);
        OverlapsElsewhere(taken, mem, segs, End(), j, next);
        if !data.used {
          return false;
        }
      }
      ghost var shorter, joined := list, mem;
      OverlapsFree(mem, segs, j);
      p := Insert(prev);
      WithHas(shorter, p, prev);
      OverlapsStill(joined, mem, segs, j);
      rc := rc - 1;
      done := true;
    }

    /** The headers of the segments but segment j are their own, apart from their tags, and the
        list holds the free ones of them. */
    ghost predicate JoinedFar(j: nat)
      reads this
    {
      && ListValid() && Overlaps(mem, segs, j)
      && (forall i :: 0 <= i < |segs| && i != j ==>
            segs[i].start in mem && mem[segs[i].start].size == segs[i].size && mem[segs[i].start].used == segs[i].used)
      && (forall o :: o in list <==> IsFreeStart(segs, o) && o != segs[j].start)
    }

    /** Back collation with segment j. */
    method JoinFar(prev: nat, size: nat, ghost j: nat, ghost k: nat, ghost p: nat)
      requires Valid() && Mistagged(j, k) && !segs[j].used && prev == segs[j].start && size == segs[k].size
      requires prev in mem && mem[prev].size == segs[j].size && p < |list| && list[p] == prev
      modifies this`mem, this`freelist, this`list
      ensures JoinedFar(j) && prev in mem && mem[prev].size == segs[j].size + segs[k].size
    {
      hide Linked, Descending, Tiled, Settled, UsedCount, SameBodies, OthersSame, Kept, Overlaps;
      ghost var was, free := mem, list;
      HeadedAll(was, segs, End(), j);
      FarUsed(segs, End(), j, k);
      mem := mem[prev := mem[prev].(size := mem[prev].size + size)];
      ResizedInList(was, mem, freelist, list, p);
      ghost var resized := mem;
      Take(prev, p);
      BodiesSame(resized, mem);
      WithoutHas(free, p);
      OverlapsAtFirst(mem, segs, j);
    }

    /** Front collation meets a header of the block and writes its tag. */
    method RetagFar(next: nat, size: nat, ghost j: nat, ghost k: nat)
      requires blocks > 0 && Tiled(segs, End()) && JoinedFar(j) && j + 1 < k < |segs|
      requires next == Beyond(segs, j, k) && IsStart(segs, next)
      modifies this`mem
      ensures JoinedFar(j) && next in mem && next != segs[j].start
      ensures segs[j].start in mem && segs[j].start in old(mem)
      ensures mem[segs[j].start].size == old(mem)[segs[j].start].size
      ensures mem[next].used <==> !IsFreeStart(segs, next)
    {
      hide Linked, Descending, Tiled;
      StartIsSegment(segs, next);
      BeyondIsAbove(segs, End(), j, k);
      ghost var m :| 0 <= m < |segs| && segs[m].start == next;
      assert m != j;
      ghost var was := mem;
      TagWritten(mem, next, size, freelist, list, segs);
      mem := mem[next := mem[next].(prev := size)];
      OverlapsStillBodies(was, mem, segs, j);
    }

    /** Front collation takes in a free segment above. */
    method TakeFar(prev: nat, next: nat, ghost j: nat, ghost k: nat)
      requires blocks > 0 && Tiled(segs, End()) && Settled(segs) && JoinedFar(j) && j + 1 < k < |segs| && segs[k].used
      requires prev == segs[j].start && next == Beyond(segs, j, k) && IsFreeStart(segs, next)
      requires next in mem && prev in mem && next != prev
      modifies this`mem, this`freelist, this`list
      ensures ListValid() && Overlaps(mem, segs, j) && prev !in list && prev in mem
      ensures forall m :: 0 <= m < |segs| && segs[m].start == next ==>
                prev in old(mem) && mem[prev].size == old(mem)[prev].size + segs[m].size
    {
      hide Linked, Descending, Tiled, Settled, SameBodies, OthersSame, Overlaps;
      ghost var m := FreeBelowEnd(segs, End(), j, k, next);
      ghost var p :| 0 <= p < |list| && list[p] == next;
      ghost var was, free := mem, list;
      LinkedIsDistinct(mem, freelist, list);
      TakenDescends(mem, list, p);
      Take(next, p);
      WithoutHas(free, p);
      BodiesSame(was, mem);
      OverlapsStill(was, mem, segs, j);
      ghost var taken := mem;
      mem := mem[prev := mem[prev].(size := mem[prev].size + mem[next].size)];
      UsedOutsideList(taken, mem, freelist, list, prev);
      OverlapsGrows(taken, mem, segs, End(), j);
      if next + mem[next].size + ALLOC_HEADER <= blocks * HALLOC_BLOCK {
        var nextnext := next + mem[next].size;
        ghost var grown := mem;
        TagWritten(mem, nextnext, mem[prev].size, freelist, list, segs);
        mem := mem[nextnext := mem[nextnext].(prev := mem[prev].size)];
        OverlapsStillBodies(grown, mem, segs, j);
      }
    }

    /** free of a segment with such a tag.  own says whether front collation meets a header of the
        block; if not, the bytes of the caller read as data there, and if that is a free header it
        goes on with links the caller wrote.  Here it stops then. */
    method FreeMistagged(subject: nat, own: bool, data: Header, ghost j: nat, ghost k: nat) returns (done: bool)
      requires Valid() && Mistagged(j, k) && subject == segs[k].start
      requires own <==> IsStart(segs, Beyond(segs, j, k))
      modifies this
      ensures done <==> old(segs)[j].used || own || data.used
      ensures old(segs)[j].used ==> Coherent() && segs == Freed(JoinedAbove(old(segs), k), k) && rc + 1 == old(rc)
      ensures old(segs)[j].used ==> (Valid() <==> old(segs)[k - 1].used)
      ensures !old(segs)[j].used ==> segs == old(segs) && Overlaps(mem, segs, j) && HasFarSize(mem, segs, j, k)
      ensures !old(segs)[j].used && done ==> ListValid() && segs[j].start in list
      ensures (exists now :: Describes(mem, now, old(segs), k, End())) <==> old(segs)[j].used && old(segs)[k - 1].used
    {
      hide Linked, Descending, Tiled, Settled, UsedCount, Lists, SameBodies, OthersSame, HeadedBut, Headed, Describes;
      hide Overlaps, HasFarSize;
      ghost var was := segs;
      FarTag(mem, segs, End(), j, k);
      if freelist == 0 {
        Empty(mem, freelist, list);
        NoneFreeAtAll(segs, list, j);
      }
      if freelist == 0 || mem[subject - mem[subject].prev].used {
        FreeAboveOnly(subject, k);
        DescribedIff(mem, was, End(), k);
        done := true;
      } else {
        done := FreeFarBelow(subject, own, data, j, k);
        OverlapsIsNotDescribed(mem, was, End(), j, k);
      }
    }

    /** The end of free. */
    method MarkFree(subject: nat, ghost k: nat)
      requires Open(k) && subject == segs[k].start
      modifies this`mem, this`freelist, this`list, this`segs
      ensures segs == Freed(old(segs), k) && Headed(mem, segs) && Lists(segs, list) && ListValid()
      ensures old(Tagged(mem, segs)) ==> Tagged(mem, segs)
      ensures PrevsSame(old(mem), mem, old(segs))
    {
      hide Linked, Descending, Settled, UsedCount, Lists, SameBodies, OthersSame, HeadedBut, Headed, Tagged, Freed;
      hide PrevsSame;
      SegmentAtWork(mem, segs, k);
      UsedNotListed(segs, list, End());
      StartIsNotNull(segs, End(), k);
      ghost var was, shorter := mem, list;
      mem := mem[subject := mem[subject].(used := false)];
      UsedOutsideList(was, mem, freelist, list, subject);
      ghost var p := Insert(subject);
      WithHas(shorter, p, subject);
      FreedIsSound(was, mem, shorter, list, segs, End(), k);
      MarkPrevs(was, mem, segs, k);
      segs := Freed(segs, k);
    }

    /** The part of front collation that takes in a free segment. */
    method TakeNext(subject: nat, next: nat, ghost k: nat)
      requires Open(k) && subject == segs[k].start
      requires k + 1 < |segs| && next == segs[k + 1].start && !segs[k + 1].used
      modifies this`mem, this`freelist, this`list, this`segs
      ensures segs == Joined(old(segs), k) && Open(k) && subject == segs[k].start
      ensures old(Tagged(mem, segs)) ==> Tagged(mem, segs)
    {
      hide Linked, Descending, Tiled, Settled, UsedCount, Lists, SameBodies, OthersSame, HeadedBut, TaggedBut, Tagged;
      hide Kept, Joined;
      SegmentAtWork(mem, segs, k);
      NeighbourAbove(mem, segs, k);
      WithinIffFollowed(segs, End(), k + 1);
      ghost var was, free := mem, list;
      ghost var p := ListPlace(segs, list, k + 1);
      LinkedIsDistinct(mem, freelist, list);
      TakenDescends(mem, list, p);
      Take(next, p);
      ghost var taken := mem;
      WithoutHas(free, p);
      KeptByTake(was, taken, free);
      UsedNotListed(segs, free, End());
      KeptByTouch(was, taken, free, subject, segs[k].size + segs[k + 1].size, next);
      mem := mem[subject := mem[subject].(size := mem[subject].size + mem[next].size)];
      UsedOutsideList(taken, mem, freelist, list, subject);
      JoinIsOpen(was, mem, free, list, segs, End(), k, k);
      PrevsKept(was, mem, free, subject);
      JoinTags(was, mem, segs, k);
      AllTagged(was, segs, k + 2);
      JoinedAt(segs, k);
      ghost var before := segs;
      segs := Joined(segs, k);
      if next + mem[next].size + ALLOC_HEADER <= blocks * HALLOC_BLOCK {
        var nextnext := next + mem[next].size;
        NeighbourAbove(mem, segs, k);
        TagWritten(mem, nextnext, mem[subject].size, freelist, list, segs);
        if TaggedBut(mem, segs, k + 1) {
          OtherStarts(segs, End(), k + 1);
          TagMended(mem, nextnext, mem[subject].size, segs, k + 1);
        }
        mem := mem[nextnext := mem[nextnext].(prev := mem[subject].size)];
      } else {
        AllTagged(mem, segs, k + 1);
      }
    }
  }

  /** A list of segments that the headers of memory describe, tiled and settled, with all the
      segments of the list before that were in use, but segment k. */
  ghost predicate Describes(mem: Mem, now: seq<Seg>, was: seq<Seg>, k: nat, end: nat) {
    && Tiled(now, end) && Settled(now) && Headed(mem, now)
    && forall i :: 0 <= i < |was| && i != k && was[i].used ==> was[i] in now
  }

  /** The free segment j reaches into the segment behind it, which is in use. */
  ghost predicate Overlaps(mem: Mem, segs: seq<Seg>, j: nat) {
    && j + 1 < |segs| && segs[j + 1].used && segs[j].start in mem
    && mem[segs[j].start].size > segs[j].size && !mem[segs[j].start].used
    && forall i :: 0 <= i < j ==> segs[i].start in mem && mem[segs[i].start].size == segs[i].size
  }

  /** It is as long as segments j and k together, and a free segment where that ends. */
  ghost predicate HasFarSize(mem: Mem, segs: seq<Seg>, j: nat, k: nat) {
    && j < |segs| && k < |segs| && segs[j].start in mem
    && (!IsFreeStart(segs, Beyond(segs, j, k)) ==> mem[segs[j].start].size == segs[j].size + segs[k].size)
    && forall m :: 0 <= m < |segs| && segs[m].start == Beyond(segs, j, k) && !segs[m].used ==>
         mem[segs[j].start].size == segs[j].size + segs[k].size + segs[m].size
  }

  /** Where a segment of the length of j and k together would end if it began where j does. */
  function Beyond(segs: seq<Seg>, j: nat, k: nat): nat {
    if j < |segs| && k < |segs| then segs[j].start + segs[j].size + segs[k].size else 0
  }

  ghost predicate IsStart(segs: seq<Seg>, o: nat) {
    exists s :: s in segs && s.start == o
  }

  /** Headers describe one list of segments at most: two that agree on sizes agree on starts. */
  lemma {:induction false} SameStarts(mem: Mem, s: seq<Seg>, t: seq<Seg>, end: nat, n: nat)
    requires Tiled(s, end) && Tiled(t, end) && Headed(mem, t) && n <= |s|
    requires forall i :: 0 <= i < n ==> s[i].start in mem && mem[s[i].start].size == s[i].size
    ensures n < |s| ==> n < |t| && t[n].start == s[n].start
    ensures n == |s| ==> n == |t|
    ensures forall i :: 0 <= i < n ==> i < |t| && t[i].start == s[i].start && t[i].size == s[i].size
  {
    if n > 0 {
      SameStarts(mem, s, t, end, n - 1);
      assert Abuts(s, n - 1, end) && Abuts(t, n - 1, end);
      assert t[n - 1] in t && HasHeader(mem, t[n - 1]);
      if n < |s| {
        SegmentsApart(s, end, n, n - 1);
      }
      if n < |t| {
        SegmentsApart(t, end, n, n - 1);
      }
    }
  }

  lemma TilingIsUnique(mem: Mem, s: seq<Seg>, t: seq<Seg>, end: nat)
    requires Tiled(s, end) && Tiled(t, end) && Headed(mem, s) && Headed(mem, t)
    ensures s == t
  {
    forall i | 0 <= i < |s| ensures s[i].start in mem && mem[s[i].start].size == s[i].size {
      assert s[i] in s;
    }
    SameStarts(mem, s, t, end, |s|);
    forall i | 0 <= i < |s| ensures s[i] == t[i] {
      assert s[i] in s && t[i] in t && HasHeader(mem, s[i]) && HasHeader(mem, t[i]);
    }
  }

  lemma DescribedIff(mem: Mem, was: seq<Seg>, end: nat, k: nat)
    requires Tiled(was, end) && Settled(was) && 0 < k < |was| && was[k].used
    requires Headed(mem, Freed(JoinedAbove(was, k), k))
    ensures (exists now :: Describes(mem, now, was, k, end)) <==> was[k - 1].used
  {
    hide UsedCount, Headed;
    var after := Freed(JoinedAbove(was, k), k);
    FreedAboveOnly(was, end, k);
    FreedAboveHas(was, k);
    hide Tiled, Settled;
    if was[k - 1].used {
      assert Describes(mem, after, was, k, end);
    } else {
      forall now ensures !Describes(mem, now, was, k, end) {
        if Describes(mem, now, was, k, end) {
          TilingIsUnique(mem, after, now, end);
        }
      }
    }
  }

  lemma OverlapsIsNotDescribed(mem: Mem, was: seq<Seg>, end: nat, j: nat, k: nat)
    requires Tiled(was, end) && Overlaps(mem, was, j) && k != j + 1
    ensures !exists now :: Describes(mem, now, was, k, end)
  {
    forall now ensures !Describes(mem, now, was, k, end) {
      if Describes(mem, now, was, k, end) {
        SameStarts(mem, was, now, end, j);
        assert was[j + 1] in now;
        var i :| 0 <= i < |now| && now[i] == was[j + 1];
        assert Abuts(was, j, end) && Abuts(was, j + 1, end);
        assert now[j] in now && HasHeader(mem, now[j]);
        SegmentsApart(now, end, j, i);
      }
    }
  }

  /** Where a tag over several segments leads. */
  lemma FarTag(mem: Mem, segs: seq<Seg>, end: nat, j: nat, k: nat)
    requires Tiled(segs, end) && Headed(mem, segs) && j < k < |segs|
    ensures segs[k].start - (segs[k].start - segs[j].start) == segs[j].start != 0
    ensures HasHeader(mem, segs[j]) && HasHeader(mem, segs[k]) && segs[j].start < segs[k].start
  {
    Ascending(segs, end, j, k);
    assert Abuts(segs, j, end);
    assert segs[j] in segs && segs[k] in segs;
    StartIsNotNull(segs, end, j);
  }

  lemma FarUsed(segs: seq<Seg>, end: nat, j: nat, k: nat)
    requires Tiled(segs, end) && Settled(segs) && j + 1 < k < |segs| && !segs[j].used
    ensures segs[j + 1].used && segs[k].size > 0
  {
    assert Abuts(segs, k, end);
    assert segs[j].used || segs[j + 1].used;
  }

  /** Where front collation then looks: in the block, and on the list only if a segment is there. */
  lemma FarNext(segs: seq<Seg>, list: seq<nat>, end: nat, j: nat, k: nat)
    requires Tiled(segs, end) && Lists(segs, list) && j + 1 < k < |segs|
    ensures Beyond(segs, j, k) in list ==> IsStart(segs, Beyond(segs, j, k))
    ensures Beyond(segs, j, k) > segs[j].start && Beyond(segs, j, k) + ALLOC_HEADER <= end + 1
  {
    assert Abuts(segs, j, end) && Abuts(segs, k, end) && Abuts(segs, j + 1, end);
    Ascending(segs, end, j + 1, k);
    Ascending(segs, end, k, |segs|);
  }

  lemma BeyondIsAbove(segs: seq<Seg>, end: nat, j: nat, k: nat)
    requires Tiled(segs, end) && j < k < |segs|
    ensures Beyond(segs, j, k) > segs[j].start
  {
    assert Abuts(segs, j, end);
  }

  lemma StartIsSegment(segs: seq<Seg>, o: nat)
    requires IsStart(segs, o)
    ensures exists m :: 0 <= m < |segs| && segs[m].start == o
  {
  }

  /** A free segment that begins there is followed by another. */
  lemma FreeBelowEnd(segs: seq<Seg>, end: nat, j: nat, k: nat, o: nat) returns (m: nat)
    requires Tiled(segs, end) && j + 1 < k < |segs| && segs[k].used && o == Beyond(segs, j, k) && IsFreeStart(segs, o)
    ensures m + 1 < |segs| && segs[m].start == o && !segs[m].used && m != j
    ensures segs[m + 1].start == o + segs[m].size && m + 1 != j
  {
    var s :| s in segs && s.start == o && !s.used;
    m :| 0 <= m < |segs| && segs[m] == s;
    assert Abuts(segs, j, end) && Abuts(segs, m, end) && Abuts(segs, k, end);
    assert Abuts(segs, j + 1, end);
    Ascending(segs, end, j + 1, k);
    SegmentsApart(segs, end, m, k);
    if m > k {
      Ascending(segs, end, k, m);
    }
    if m < j {
      Ascending(segs, end, m, j);
    }
  }

  lemma HeadedAll(mem: Mem, segs: seq<Seg>, end: nat, j: nat)
    requires Tiled(segs, end) && Headed(mem, segs) && j < |segs|
    ensures forall i :: 0 <= i < |segs| ==>
              segs[i].start in mem && mem[segs[i].start].size == segs[i].size && mem[segs[i].start].used == segs[i].used
    ensures forall i :: 0 <= i < |segs| && i != j ==> segs[i].start != segs[j].start
  {
    forall i | 0 <= i < |segs|
      ensures segs[i].start in mem && mem[segs[i].start].size == segs[i].size
      ensures mem[segs[i].start].used == segs[i].used
    {
      assert segs[i] in segs && HasHeader(mem, segs[i]);
    }
    OtherStarts(segs, end, j);
  }

  lemma BodiesSame(mem: Mem, after: Mem)
    requires SameBodies(mem, after)
    ensures after.Keys == mem.Keys
    ensures forall o :: o in mem ==> after[o].size == mem[o].size && after[o].used == mem[o].used
  {
  }

  lemma OverlapsAtFirst(mem: Mem, segs: seq<Seg>, j: nat)
    requires j + 1 < |segs| && segs[j + 1].used && segs[j].start in mem
    requires mem[segs[j].start].size > segs[j].size && !mem[segs[j].start].used
    requires forall i :: 0 <= i < j ==> segs[i].start in mem && mem[segs[i].start].size == segs[i].size
    ensures Overlaps(mem, segs, j)
  {
  }

  lemma OverlapsFree(mem: Mem, segs: seq<Seg>, j: nat)
    requires Overlaps(mem, segs, j)
    ensures segs[j].start in mem
  {
  }

  lemma OverlapsStillBodies(mem: Mem, after: Mem, segs: seq<Seg>, j: nat)
    requires Overlaps(mem, segs, j) && after.Keys == mem.Keys
    requires forall o :: o in mem ==> after[o].size == mem[o].size && after[o].used == mem[o].used
    ensures Overlaps(after, segs, j)
  {
  }

  lemma OverlapsStill(mem: Mem, after: Mem, segs: seq<Seg>, j: nat)
    requires Overlaps(mem, segs, j) && SameBodies(mem, after)
    ensures Overlaps(after, segs, j)
  {
  }

  /** What is written further up, or at segment j to make it longer, does not matter. */
  lemma OverlapsElsewhere(mem: Mem, after: Mem, segs: seq<Seg>, end: nat, j: nat, o: nat)
    requires Overlaps(mem, segs, j) && Tiled(segs, end)
    requires o > segs[j].start && o in after && after == mem[o := after[o]]
    ensures Overlaps(after, segs, j)
  {
    StartsBelow(segs, end, j);
  }

  lemma OverlapsGrows(mem: Mem, after: Mem, segs: seq<Seg>, end: nat, j: nat)
    requires Overlaps(mem, segs, j) && Tiled(segs, end) && segs[j].start in after
    requires after == mem[segs[j].start := after[segs[j].start]]
    requires after[segs[j].start].size >= mem[segs[j].start].size && !after[segs[j].start].used
    ensures Overlaps(after, segs, j)
  {
    StartsBelow(segs, end, j);
  }

  lemma StartsBelow(segs: seq<Seg>, end: nat, j: nat)
    requires Tiled(segs, end) && j < |segs|
    ensures forall i :: 0 <= i < j ==> segs[i].start < segs[j].start
  {
    forall i | 0 <= i < j ensures segs[i].start < segs[j].start {
      Ascending(segs, end, i, j);
      assert Abuts(segs, i, end);
    }
  }

  /** The freed segment gets its mark and enters the list. */
  lemma FreedIsSound(was: Mem, after: Mem, list: seq<nat>, longer: seq<nat>, segs: seq<Seg>, end: nat, k: nat)
    requires Tiled(segs, end) && HeadedBut(was, segs, k) && Lists(segs, list) && k < |segs| && segs[k].used
    requires SameBodies(was[segs[k].start := was[segs[k].start].(used := false)], after)
    requires OthersSame(was[segs[k].start := was[segs[k].start].(used := false)], after, longer)
    requires forall o :: o in longer <==> o in list || o == segs[k].start
    ensures Headed(after, Freed(segs, k)) && Lists(Freed(segs, k), longer)
    ensures Tagged(was, segs) ==> Tagged(after, Freed(segs, k))
  {
    UsedNotListed(segs, list, end);
    StartsDiffer(segs, end);
    OtherStarts(segs, end, k);
    FreedHas(segs, end, k);
    hide Tiled;
    var now := Freed(segs, k);
    forall i | 0 <= i < |now| ensures HasHeader(after, now[i]) {
      if i != k {
        assert now[i] == segs[i] && HasHeader(was, segs[i]);
      }
    }
    assert segs[k] in segs && now[k] in now;
    forall o ensures o in longer <==> IsFreeStart(now, o) {
      if o in list {
        var s :| s in segs && s.start == o && !s.used;
        assert s in now;
      }
    }
    if Tagged(was, segs) {
      forall i | 0 <= i < |now| ensures TagExact(after, now, i) {
        assert TagExact(was, segs, i);
      }
    }
  }

  lemma MarkPrevs(was: Mem, after: Mem, segs: seq<Seg>, k: nat)
    requires HeadedBut(was, segs, k) && k < |segs|
    requires SameBodies(was[segs[k].start := was[segs[k].start].(used := false)], after)
    ensures PrevsSame(was, after, segs)
  {
    forall s | s in segs ensures s.start in was && s.start in after && after[s.start].prev == was[s.start].prev {
      var i :| 0 <= i < |segs| && segs[i] == s;
      assert i != k ==> HasHeader(was, segs[i]);
    }
  }

  lemma NoneFree(segs: seq<Seg>, list: seq<nat>, k: nat)
    requires Lists(segs, list) && list == []
    ensures !FreeBelow(segs, k) && !FreeAbove(segs, k)
  {
    assert k > 0 && k < |segs| ==> segs[k - 1] in segs && !IsFreeStart(segs, segs[k - 1].start);
    assert k + 1 < |segs| ==> segs[k + 1] in segs && !IsFreeStart(segs, segs[k + 1].start);
  }

  lemma NoneFreeAtAll(segs: seq<Seg>, list: seq<nat>, k: nat)
    requires Lists(segs, list) && list == [] && k < |segs|
    ensures segs[k].used
  {
    assert segs[k] in segs && !IsFreeStart(segs, segs[k].start);
  }

  lemma HeadedOpens(mem: Mem, segs: seq<Seg>, k: nat)
    requires Headed(mem, segs) && k < |segs| && segs[k].used
    ensures HeadedBut(mem, segs, k) && HasHeader(mem, segs[k])
  {
    assert segs[k] in segs;
  }

  lemma SegmentAtWork(mem: Mem, segs: seq<Seg>, k: nat)
    requires HeadedBut(mem, segs, k) && k < |segs|
    ensures segs[k].start in mem && mem[segs[k].start].size == segs[k].size
    ensures mem[segs[k].start].next == 0 && mem[segs[k].start].bef == 0
  {
  }

  lemma NeighbourAbove(mem: Mem, segs: seq<Seg>, k: nat)
    requires HeadedBut(mem, segs, k) && k + 1 < |segs|
    ensures HasHeader(mem, segs[k + 1])
  {
    assert k + 1 != k;
  }

  lemma AllTagged(mem: Mem, segs: seq<Seg>, k: nat)
    ensures TaggedBut(mem, segs, k) && k >= |segs| ==> Tagged(mem, segs)
    ensures Tagged(mem, segs) ==> TaggedBut(mem, segs, k)
  {
  }

  /** A tag that is exact leads to the segment below. */
  lemma NeighbourBelow(mem: Mem, segs: seq<Seg>, end: nat, k: nat)
    requires Tiled(segs, end) && HeadedBut(mem, segs, k) && k < |segs| && TagExact(mem, segs, k)
    ensures segs[k].start in mem && mem[segs[k].start].size == segs[k].size
    ensures k == 0 ==> mem[segs[k].start].prev == 0
    ensures k > 0 ==>
              && mem[segs[k].start].prev != 0 && segs[k].start - mem[segs[k].start].prev == segs[k - 1].start
              && HasHeader(mem, segs[k - 1])
  {
    if k > 0 {
      assert Abuts(segs, k - 1, end);
    }
  }

  lemma StartIsNotNull(segs: seq<Seg>, end: nat, k: nat)
    requires Tiled(segs, end) && k < |segs|
    ensures segs[k].start != 0 && segs[k] in segs
  {
    if k > 0 {
      Ascending(segs, end, 0, k);
    }
  }

  lemma LinkedIsDistinct(mem: Mem, head: nat, list: seq<nat>)
    requires Linked(mem, head, list)
    ensures Distinct(list)
  {
  }

  lemma ListPlace(segs: seq<Seg>, list: seq<nat>, k: nat) returns (p: nat)
    requires Lists(segs, list) && k < |segs| && !segs[k].used
    ensures p < |list| && list[p] == segs[k].start
  {
    assert segs[k] in segs && IsFreeStart(segs, segs[k].start);
    assert segs[k].start in list;
    p :| 0 <= p < |list| && list[p] == segs[k].start;
  }

  /** A listed segment may grow if it is taken next. */
  lemma ResizedInList(was: Mem, mem: Mem, head: nat, list: seq<nat>, p: nat)
    requires Linked(was, head, list) && Descending(was, list) && p < |list| && list[p] in was && list[p] in mem
    requires mem == was[list[p] := mem[list[p]]]
    requires mem[list[p]].next == was[list[p]].next && mem[list[p]].bef == was[list[p]].bef
    ensures Linked(mem, head, list) && Descending(mem, Without(list, p)) && Distinct(list)
  {
    LinkedSame(was, mem, head, list);
    TakenDescends(was, list, p);
    WithoutHas(list, p);
    DescendingOn(was, mem, Without(list, p));
  }

  /** A header outside the list grows after another was taken. */
  lemma KeptByTouch(was: Mem, taken: Mem, list: seq<nat>, o: nat, size: nat, other: nat)
    requires Kept(was, taken, list, {}) && o in was && o !in list && other in was
    ensures o in taken && taken[o] == was[o] && other in taken && taken[other].size == was[other].size
    ensures Kept(was, taken[o := taken[o].(size := size)], list, {o})
  {
  }

  lemma KeptByResize(was: Mem, resized: Mem, after: Mem, list: seq<nat>, o: nat)
    requires o in was && o in resized && resized == was[o := resized[o]]
    requires SameBodies(resized, after) && OthersSame(resized, after, list)
    ensures Kept(was, after, list, {o}) && o in after
    ensures after[o].size == resized[o].size && after[o].prev == resized[o].prev && after[o].used == resized[o].used
  {
  }

  lemma PrevsKept(was: Mem, after: Mem, list: seq<nat>, o: nat)
    requires Kept(was, after, list, {o}) && o in was && o in after && after[o].prev == was[o].prev
    ensures forall p :: p in was ==> p in after && after[p].prev == was[p].prev
  {
  }

  /** Writing a prev tag: everything else stays. */
  lemma TagWritten(mem: Mem, o: nat, tag: nat, head: nat, list: seq<nat>, segs: seq<Seg>)
    requires o in mem && Linked(mem, head, list) && Descending(mem, list)
    ensures var after := mem[o := mem[o].(prev := tag)];
            && Linked(after, head, list) && Descending(after, list)
            && (Headed(mem, segs) ==> Headed(after, segs))
            && (forall k :: HeadedBut(mem, segs, k) ==> HeadedBut(after, segs, k))
  {
    var after := mem[o := mem[o].(prev := tag)];
    LinkedSame(mem, after, head, list);
    DescendingOn(mem, after, list);
  }

  /** The one tag that may be wrong is written. */
  lemma TagMended(mem: Mem, o: nat, tag: nat, segs: seq<Seg>, i: nat)
    requires TaggedBut(mem, segs, i) && 0 < i < |segs| && segs[i].start == o && o in mem && tag == segs[i - 1].size
    requires forall j :: 0 <= j < |segs| && j != i ==> segs[j].start != o
    ensures Tagged(mem[o := mem[o].(prev := tag)], segs)
  {
    var after := mem[o := mem[o].(prev := tag)];
    forall j | 0 <= j < |segs| ensures TagExact(after, segs, j) {
      assert j != i ==> TagExact(mem, segs, j);
    }
  }

  lemma OtherStarts(segs: seq<Seg>, end: nat, i: nat)
    requires Tiled(segs, end) && i < |segs|
    ensures forall j :: 0 <= j < |segs| && j != i ==> segs[j].start != segs[i].start
  {
    forall j | 0 <= j < |segs| && j != i ensures segs[j].start != segs[i].start {
      SegmentsApart(segs, end, i, j);
      SegmentsApart(segs, end, j, i);
    }
  }

  /** The check against the end of the block finds the segments behind which another lies. */
  lemma WithinIffFollowed(segs: seq<Seg>, end: nat, k: nat)
    requires Tiled(segs, end) && k < |segs|
    ensures segs[k].End() + ALLOC_HEADER <= end + 1 <==> k + 1 < |segs|
    ensures k + 1 < |segs| ==> segs[k + 1].start == segs[k].End()
  {
    assert Abuts(segs, k, end);
    if k + 1 < |segs| {
      assert Abuts(segs, k + 1, end);
      Ascending(segs, end, k + 1, |segs|);
    }
  }

  lemma FollowerOfRest(mem: Mem, before: seq<Seg>, segs: seq<Seg>, end: nat, k: nat, size: nat)
    requires Tiled(before, end) && Tiled(segs, end) && Headed(mem, segs) && k < |before| && size <= before[k].size
    requires segs == Carved(before, k, size) && Remains(before[k], size)
    requires before[k].End() + ALLOC_HEADER <= end + 1
    ensures k + 2 < |segs| && segs[k + 2].start == before[k].End() && segs[k + 2].start in mem
    ensures segs[k + 1].size == before[k].size - size
    ensures forall j :: 0 <= j < |segs| && j != k + 2 ==> segs[j].start != before[k].End()
  {
    WithinIffFollowed(before, end, k);
    assert segs[k + 2] == before[k + 1];
    assert segs[k + 2] in segs;
    OtherStarts(segs, end, k + 2);
  }

  lemma NoFollower(mem: Mem, before: seq<Seg>, segs: seq<Seg>, end: nat, k: nat, size: nat)
    requires Tiled(before, end) && k < |before|
    requires !(Remains(before[k], size) && before[k].End() + ALLOC_HEADER <= end + 1)
    ensures !(Remains(before[k], size) && k + 1 < |before|)
  {
    WithinIffFollowed(before, end, k);
  }

  /** One of segments j and j + 1 is at work, the other free: joined they are at work. */
  lemma JoinIsOpen(was: Mem, after: Mem, free: seq<nat>, list: seq<nat>, segs: seq<Seg>, end: nat, j: nat, k: nat)
    requires Tiled(segs, end) && Settled(segs) && HeadedBut(was, segs, k) && Lists(segs, free)
    requires j + 1 < |segs| && (k == j || k == j + 1) && segs[k].used && !segs[2 * j + 1 - k].used
    requires Kept(was, after, free, {segs[j].start})
    requires segs[j].start in after && after[segs[j].start].size == segs[j].size + segs[j + 1].size
    requires after[segs[j].start].next == 0 && after[segs[j].start].bef == 0
    requires forall o :: o in list <==> o in free && o != segs[2 * j + 1 - k].start
    ensures Tiled(Joined(segs, j), end) && Settled(Joined(segs, j)) && UsedCount(Joined(segs, j)) == UsedCount(segs)
    ensures HeadedBut(after, Joined(segs, j), j) && Lists(Joined(segs, j), list)
  {
    hide Tiled, Settled, UsedCount, Joined, Kept, HeadedBut, Lists;
    JoinedKeeps(segs, end, j);
    JoinHeaded(was, after, free, segs, end, j, k);
    JoinLists(free, list, segs, end, j, k);
  }

  lemma JoinHeaded(was: Mem, after: Mem, free: seq<nat>, segs: seq<Seg>, end: nat, j: nat, k: nat)
    requires Tiled(segs, end) && HeadedBut(was, segs, k) && Lists(segs, free)
    requires j + 1 < |segs| && (k == j || k == j + 1)
    requires Kept(was, after, free, {segs[j].start})
    requires segs[j].start in after && after[segs[j].start].size == segs[j].size + segs[j + 1].size
    requires after[segs[j].start].next == 0 && after[segs[j].start].bef == 0
    ensures HeadedBut(after, Joined(segs, j), j)
  {
    hide Tiled, Lists;
    UsedNotListed(segs, free, end);
    var now := Joined(segs, j);
    forall i | 0 <= i < |now| && i != j ensures HasHeader(after, now[i]) {
      var o := if i < j then i else i + 1;
      assert now[i] == segs[o] && HasHeader(was, segs[o]);
      SegmentsApart(segs, end, o, j);
      SegmentsApart(segs, end, j, o);
    }
  }

  lemma JoinLists(free: seq<nat>, list: seq<nat>, segs: seq<Seg>, end: nat, j: nat, k: nat)
    requires Tiled(segs, end) && Lists(segs, free)
    requires j + 1 < |segs| && (k == j || k == j + 1) && segs[k].used && !segs[2 * j + 1 - k].used
    requires forall o :: o in list <==> o in free && o != segs[2 * j + 1 - k].start
    ensures Lists(Joined(segs, j), list)
  {
    JoinedHas(segs, end, j);
    StartsDiffer(segs, end);
    hide Tiled, Joined;
    var now := Joined(segs, j);
    assert segs[j] in segs && segs[j + 1] in segs;
    forall o ensures o in list <==> IsFreeStart(now, o) {
      if o in list {
        var s :| s in segs && s.start == o && !s.used;
        assert s in now;
      }
      if IsFreeStart(now, o) {
        var s :| s in now && s.start == o && !s.used;
        assert s in segs;
      }
    }
  }

  /** Joining leaves at most the tag behind the joined segment wrong. */
  lemma JoinTags(was: Mem, after: Mem, segs: seq<Seg>, j: nat)
    requires j + 1 < |segs|
    requires forall i :: 0 <= i < |segs| && segs[i].start in was ==>
               segs[i].start in after && after[segs[i].start].prev == was[segs[i].start].prev
    ensures TaggedBut(was, segs, j + 2) ==> TaggedBut(after, Joined(segs, j), j + 1)
  {
    if TaggedBut(was, segs, j + 2) {
      var now := Joined(segs, j);
      forall i | 0 <= i < |now| && i != j + 1 ensures TagExact(after, now, i) {
        assert TagExact(was, segs, if i <= j then i else i + 1);
      }
    }
  }

  /** What a header change leaves alone: the bodies, and all of the headers outside the free list. */
  ghost predicate Kept(mem: Mem, after: Mem, list: seq<nat>, touched: set<nat>) {
    forall o :: o in mem && o !in touched ==>
      && o in after
      && after[o].size == mem[o].size && after[o].prev == mem[o].prev && after[o].used == mem[o].used
      && (o !in list ==> after[o] == mem[o])
  }

  lemma KeptByTake(mem: Mem, after: Mem, list: seq<nat>)
    requires SameBodies(mem, after) && OthersSame(mem, after, list)
    ensures Kept(mem, after, list, {})
  {
  }

  /** A new header is written, then inserted. */
  lemma KeptByInsert(was: Mem, before: Mem, written: Mem, after: Mem, free: seq<nat>, list: seq<nat>, cur: nat,
                     what: nat)
    requires Kept(was, before, free, {}) && cur != what && cur in before && what in written
    requires written == before[what := written[what]]
    requires SameBodies(written, after) && OthersSame(written, after, list)
    requires forall o :: o in list <==> (o in free && o != cur) || o == what
    ensures Kept(was, after, free, {what})
    ensures cur in after && after[cur] == before[cur]
    ensures what in after && after[what].size == written[what].size
    ensures after[what].prev == written[what].prev && after[what].used == written[what].used
  {
  }

  /** Writing a header outside the list does not disturb the list. */
  lemma UsedOutsideList(mem: Mem, after: Mem, head: nat, list: seq<nat>, o: nat)
    requires Linked(mem, head, list) && Descending(mem, list) && o !in list && o in after
    requires after == mem[o := after[o]]
    ensures Linked(after, head, list) && Descending(after, list)
  {
    forall i | 0 <= i < |list| ensures LinkedAt(after, list, i) {
      assert LinkedAt(mem, list, i);
    }
  }

  /** All segments but segment k have their headers; that one is linked to nothing. */
  ghost predicate HeadedBut(mem: Mem, segs: seq<Seg>, k: nat) {
    && (forall i :: 0 <= i < |segs| && i != k ==> HasHeader(mem, segs[i]))
    && (k < |segs| ==>
          && segs[k].start in mem && mem[segs[k].start].size == segs[k].size
          && mem[segs[k].start].next == 0 && mem[segs[k].start].bef == 0)
  }

  ghost predicate TaggedBut(mem: Mem, segs: seq<Seg>, k: nat) {
    forall i :: 0 <= i < |segs| && i != k ==> TagExact(mem, segs, i)
  }

  /** No header of a segment or of the list lies where the rest begins. */
  lemma RestIsNew(segs: seq<Seg>, list: seq<nat>, end: nat, k: nat, size: nat)
    requires Tiled(segs, end) && Lists(segs, list) && k < |segs| && 0 < size < segs[k].size
    ensures segs[k].start + size !in list && segs[k].start + size != 0 && segs[k].start + size != segs[k].start
    ensures forall s :: s in segs ==> s.start != segs[k].start + size
  {
    forall s | s in segs ensures s.start != segs[k].start + size {
      var i :| 0 <= i < |segs| && segs[i] == s;
      if i != k {
        SegmentsApart(segs, end, k, i);
        SegmentsApart(segs, end, i, k);
      }
    }
  }

  /** The headers split writes. */
  ghost predicate CutWritten(was: Mem, after: Mem, seg: Seg, size: nat) {
    && seg.start in was && seg.start in after
    && after[seg.start] == Header(0, 0, if Remains(seg, size) then size else seg.size, was[seg.start].prev, true)
    && (Remains(seg, size) ==>
          && seg.start + size in after
          && after[seg.start + size].size == seg.size - size && after[seg.start + size].prev == size
          && !after[seg.start + size].used)
  }

  lemma CutIsSound(was: Mem, last: Mem, after: Mem, free: seq<nat>, list: seq<nat>, segs: seq<Seg>, end: nat, k: nat,
                   size: nat)
    requires Tiled(segs, end) && Settled(segs) && Headed(was, segs) && Lists(segs, free)
    requires k < |segs| && !segs[k].used && ALLOC_HEADER < size <= segs[k].size
    requires Kept(was, last, free, if Remains(segs[k], size) then {segs[k].start + size} else {})
    requires segs[k].start in after && after == last[segs[k].start := after[segs[k].start]]
    requires CutWritten(was, after, segs[k], size)
    requires forall o :: o in list <==>
               (o in free && o != segs[k].start) || (Remains(segs[k], size) && o == segs[k].start + size)
    ensures Tiled(Carved(segs, k, size), end) && Settled(Carved(segs, k, size))
    ensures UsedCount(Carved(segs, k, size)) == UsedCount(segs) + 1
    ensures Headed(after, Carved(segs, k, size)) && Lists(Carved(segs, k, size), list)
    ensures Tagged(was, segs) ==>
              && (Tagged(after, Carved(segs, k, size)) <==> !(Remains(segs[k], size) && k + 1 < |segs|))
              && TaggedBut(after, Carved(segs, k, size), k + 2)
  {
    hide Tiled, Settled, UsedCount, Headed, Lists, Kept, Tagged, TaggedBut, Carved, Cut, PrevsSame;
    CarvedKeeps(segs, end, k, size);
    CutHeaded(was, last, after, free, segs, end, k, size);
    CutLists(free, list, segs, end, k, size);
    if Tagged(was, segs) {
      CutPrevs(was, last, after, free, segs, end, k, size);
      CutTags(was, after, free, segs, end, k, size);
    }
  }

  lemma UsedNotListed(segs: seq<Seg>, list: seq<nat>, end: nat)
    requires Tiled(segs, end) && Lists(segs, list)
    ensures forall s :: s in segs && s.used ==> s.start !in list
  {
    StartsDiffer(segs, end);
  }

  lemma CutHeaded(was: Mem, last: Mem, after: Mem, free: seq<nat>, segs: seq<Seg>, end: nat, k: nat, size: nat)
    requires Tiled(segs, end) && Headed(was, segs) && Lists(segs, free)
    requires k < |segs| && !segs[k].used && ALLOC_HEADER < size <= segs[k].size
    requires Kept(was, last, free, if Remains(segs[k], size) then {segs[k].start + size} else {})
    requires segs[k].start in after && after == last[segs[k].start := after[segs[k].start]]
    requires CutWritten(was, after, segs[k], size)
    ensures Headed(after, Carved(segs, k, size))
  {
    hide Tiled, Lists, Carved;
    CarvedHas(segs, end, k, size);
    UsedNotListed(segs, free, end);
    if Remains(segs[k], size) {
      RestIsNew(segs, free, end, k, size);
    }
    forall s | s in Carved(segs, k, size) ensures HasHeader(after, s) {
      if s in segs && s.start != segs[k].start {
        assert HasHeader(was, s);
      }
    }
  }

  lemma CutLists(free: seq<nat>, list: seq<nat>, segs: seq<Seg>, end: nat, k: nat, size: nat)
    requires Tiled(segs, end) && Lists(segs, free)
    requires k < |segs| && !segs[k].used && ALLOC_HEADER < size <= segs[k].size
    requires forall o :: o in list <==>
               (o in free && o != segs[k].start) || (Remains(segs[k], size) && o == segs[k].start + size)
    ensures Lists(Carved(segs, k, size), list)
  {
    hide Tiled, Carved;
    CarvedHas(segs, end, k, size);
    var after := Carved(segs, k, size);
    forall o ensures o in list <==> IsFreeStart(after, o) {
      if o in free && o != segs[k].start {
        var s :| s in segs && s.start == o && !s.used;
        assert s in after;
      } else if Remains(segs[k], size) && o == segs[k].start + size {
        assert Cut(segs[k], size)[1] in after;
      }
    }
  }

  /** The tags of the segments there are stay as they are. */
  ghost predicate PrevsSame(mem: Mem, after: Mem, segs: seq<Seg>) {
    forall s :: s in segs ==> s.start in mem && s.start in after && after[s.start].prev == mem[s.start].prev
  }

  lemma CutPrevs(was: Mem, last: Mem, after: Mem, free: seq<nat>, segs: seq<Seg>, end: nat, k: nat, size: nat)
    requires Tiled(segs, end) && Headed(was, segs) && Lists(segs, free)
    requires k < |segs| && !segs[k].used && ALLOC_HEADER < size <= segs[k].size
    requires Kept(was, last, free, if Remains(segs[k], size) then {segs[k].start + size} else {})
    requires segs[k].start in after && after == last[segs[k].start := after[segs[k].start]]
    requires CutWritten(was, after, segs[k], size)
    ensures PrevsSame(was, after, segs)
  {
    hide Tiled, Lists;
    if Remains(segs[k], size) {
      RestIsNew(segs, free, end, k, size);
    }
    forall s | s in segs ensures s.start in was && s.start in after && after[s.start].prev == was[s.start].prev {
      assert HasHeader(was, s);
    }
  }

  lemma CutTags(was: Mem, after: Mem, free: seq<nat>, segs: seq<Seg>, end: nat, k: nat, size: nat)
    requires Tiled(segs, end) && Tagged(was, segs) && Lists(segs, free)
    requires k < |segs| && !segs[k].used && ALLOC_HEADER < size <= segs[k].size
    requires CutWritten(was, after, segs[k], size) && PrevsSame(was, after, segs)
    ensures Tagged(after, Carved(segs, k, size)) <==> !(Remains(segs[k], size) && k + 1 < |segs|)
    ensures TaggedBut(after, Carved(segs, k, size), k + 2)
  {
    hide Tiled, Lists;
    var now := Carved(segs, k, size);
    forall i | 0 <= i < |now| && !(Remains(segs[k], size) && i == k + 2) ensures TagExact(after, now, i) {
      if i <= k {
        assert TagExact(was, segs, i);
      } else if !Remains(segs[k], size) {
        assert TagExact(was, segs, i) && now[i] == segs[i];
      } else if i > k + 2 {
        assert TagExact(was, segs, i - 1) && now[i] == segs[i - 1] && now[i - 1] == segs[i - 2];
      }
    }
    if Remains(segs[k], size) && k + 1 < |segs| {
      assert now[k + 2] == segs[k + 1];
      assert TagExact(was, segs, k + 1);
      assert !TagExact(after, now, k + 2);
    }
  }

  /** The head of the free list is a free segment with its header. */
  lemma HeadSegment(mem: Mem, head: nat, segs: seq<Seg>, list: seq<nat>, end: nat, k: nat)
    requires Tiled(segs, end) && Headed(mem, segs) && Lists(segs, list) && Linked(mem, head, list)
    requires head != 0 && k < |segs| && segs[k].start == head
    ensures Distinct(list) && |list| > 0 && list[0] == head && !segs[k].used && HasHeader(mem, segs[k])
    ensures BLOCK_HEADER <= head < head + segs[k].size <= end
  {
    assert LinkedAt(mem, list, 0);
    assert list[0] in list;
    StartsDiffer(segs, end);
    assert Abuts(segs, k, end);
    Ascending(segs, end, k, |segs|);
    if k > 0 {
      Ascending(segs, end, 0, k);
    }
  }

  lemma PlaceBefore(mem: Mem, head: nat, list: seq<nat>, p: nat, size: nat)
    requires Linked(mem, head, list) && IsPlace(mem, list, size, p)
    ensures p <= |list| && (Nth(list, p - 1) == 0 <==> p == 0)
  {
    assert p > 0 ==> LinkedAt(mem, list, p - 1);
  }

  lemma Empty(mem: Mem, head: nat, list: seq<nat>)
    requires Linked(mem, head, list) && head == 0
    ensures list == []
  {
    assert list != [] ==> LinkedAt(mem, list, 0);
  }
}
