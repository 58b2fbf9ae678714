/** The segments of a heap block (kernel/src/memory/halloc.c) as a list: how they tile the
    block, what split cuts and what free puts together. */
module HeapSegments {

  const HALLOC_BLOCK: nat := 4096
  /** sizeof(block_header_t) and sizeof(alloc_header_t) */
  const BLOCK_HEADER: nat := 24
  const ALLOC_HEADER: nat := 20

  datatype Seg = Seg(start: nat, size: nat, used: bool) {
    function End(): nat {
      start + size
    }
  }

  /** Where segment i begins, or the end behind the last. */
  function StartOf(segs: seq<Seg>, i: nat, end: nat): nat {
    if i < |segs| then segs[i].start else end
  }

  /** Segment i is large enough and ends where the next begins. */
  ghost predicate Abuts(segs: seq<Seg>, i: nat, end: nat) {
    i < |segs| && segs[i].size > ALLOC_HEADER && segs[i].End() == StartOf(segs, i + 1, end)
  }

  /** Stepping by size from the first segment visits each of them and stops at the end. */
  ghost predicate Tiled(segs: seq<Seg>, end: nat) {
    && |segs| > 0 && segs[0].start == BLOCK_HEADER
    && forall i :: 0 <= i < |segs| ==> Abuts(segs, i, end)
  }

  /** No two neighbours are free. */
  ghost predicate Settled(segs: seq<Seg>) {
    forall i :: 0 <= i < |segs| - 1 ==> segs[i].used || segs[i + 1].used
  }

  function UsedCount(segs: seq<Seg>): nat {
    if segs == [] then 0 else (if segs[0].used then 1 else 0) + UsedCount(segs[1..])
  }

  lemma {:induction false} UsedCountConcat(s: seq<Seg>, t: seq<Seg>)
    ensures UsedCount(s + t) == UsedCount(s) + UsedCount(t)
  {
    if s == [] {
      assert s + t == t;
    } else {
      assert (s + t)[1..] == s[1..] + t;
      UsedCountConcat(s[1..], t);
    }
  }

  lemma CountOfOne(seg: Seg)
    ensures UsedCount([seg]) == if seg.used then 1 else 0
  {
    assert [seg][1..] == [];
  }

  /** The number of used segments around some in the middle. */
  lemma UsedAround(s: seq<Seg>, mid: seq<Seg>, t: seq<Seg>)
    ensures UsedCount(s + mid + t) == UsedCount(s) + UsedCount(mid) + UsedCount(t)
  {
    UsedCountConcat(s + mid, t);
    UsedCountConcat(s, mid);
  }

  lemma {:induction false} Ascending(segs: seq<Seg>, end: nat, i: nat, j: nat)
    requires Tiled(segs, end) && i < j <= |segs|
    ensures segs[i].End() <= StartOf(segs, j, end)
    decreases j
  {
    assert Abuts(segs, j - 1, end);
    if i + 1 < j {
      Ascending(segs, end, i, j - 1);
    }
  }

  /** Different segments do not overlap, and all end in the block. */
  lemma SegmentsApart(segs: seq<Seg>, end: nat, i: nat, j: nat)
    requires Tiled(segs, end) && i < |segs| && j < |segs| && i != j
    ensures segs[i].End() <= segs[j].start || segs[j].End() <= segs[i].start
    ensures BLOCK_HEADER <= segs[i].start < segs[i].End() <= end
  {
    if i < j {
      Ascending(segs, end, i, j);
    } else {
      Ascending(segs, end, j, i);
    }
    assert Abuts(segs, i, end);
    Ascending(segs, end, i, |segs|);
    if i > 0 {
      Ascending(segs, end, 0, i);
    }
  }

  // ----- split

  /** split takes the whole segment unless a header and more would be left. */
  predicate Remains(seg: Seg, size: nat) {
    size + ALLOC_HEADER < seg.size
  }

  function Cut(seg: Seg, size: nat): seq<Seg>
    requires size <= seg.size
  {
    if Remains(seg, size) then [Seg(seg.start, size, true), Seg(seg.start + size, seg.size - size, false)]
    else [Seg(seg.start, seg.size, true)]
  }

  function Carved(segs: seq<Seg>, k: nat, size: nat): seq<Seg>
    requires k < |segs| && size <= segs[k].size
  {
    segs[..k] + Cut(segs[k], size) + segs[k + 1..]
  }

  /** A request of so many bytes is answered from segment k: the piece begins where the segment did
      and is at most 20 bytes longer than asked for; if the segment was longer than that, the rest
      is a free segment right behind the piece.  All other segments stay. */
  ghost predicate TakesPiece(was: seq<Seg>, now: seq<Seg>, k: nat, size: nat) {
    && k < |was| && !was[k].used && k < |now| && now[..k] == was[..k]
    && now[k].start == was[k].start && now[k].used && size <= now[k].size <= size + 20
    && if was[k].size <= size + 20 then now[k].size == was[k].size && now[k + 1..] == was[k + 1..]
       else && now[k].size == size && k + 1 < |now|
            && now[k + 1] == Seg(was[k].start + size, was[k].size - size, false) && now[k + 2..] == was[k + 1..]
  }

  lemma CarvedTakes(segs: seq<Seg>, k: nat, size: nat)
    requires k < |segs| && !segs[k].used && size <= segs[k].size
    ensures TakesPiece(segs, Carved(segs, k, size), k, size)
  {
  }

  lemma CarvedKeeps(segs: seq<Seg>, end: nat, k: nat, size: nat)
    requires Tiled(segs, end) && Settled(segs) && k < |segs| && !segs[k].used
    requires ALLOC_HEADER < size <= segs[k].size
    ensures Tiled(Carved(segs, k, size), end) && Settled(Carved(segs, k, size))
    ensures UsedCount(Carved(segs, k, size)) == UsedCount(segs) + 1
  {
    var after := Carved(segs, k, size);
    assert segs == segs[..k] + [segs[k]] + segs[k + 1..];
    UsedAround(segs[..k], [segs[k]], segs[k + 1..]);
    UsedAround(segs[..k], Cut(segs[k], size), segs[k + 1..]);
    CutCount(segs[k], size);
    CarvedTiles(segs, end, k, size);
    CarvedSettles(segs, k, size);
  }

  lemma CutCount(seg: Seg, size: nat)
    requires !seg.used && size <= seg.size
    ensures UsedCount(Cut(seg, size)) == 1 && UsedCount([seg]) == 0
  {
    assert UsedCount([seg][1..]) == 0;
    if Remains(seg, size) {
      assert Cut(seg, size)[1..] == [Seg(seg.start + size, seg.size - size, false)];
      assert UsedCount(Cut(seg, size)[1..][1..]) == 0;
    } else {
      assert UsedCount(Cut(seg, size)[1..]) == 0;
    }
  }

  lemma CarvedTiles(segs: seq<Seg>, end: nat, k: nat, size: nat)
    requires Tiled(segs, end) && k < |segs| && ALLOC_HEADER < size <= segs[k].size
    ensures Tiled(Carved(segs, k, size), end)
  {
    var after := Carved(segs, k, size);
    var more := |after| - |segs|;
    assert Abuts(segs, k, end);
    forall i | 0 <= i < |after| ensures Abuts(after, i, end) {
      if i < k {
        assert Abuts(segs, i, end);
      } else if i > k + more {
        assert Abuts(segs, i - more, end);
      }
    }
  }

  lemma CarvedSettles(segs: seq<Seg>, k: nat, size: nat)
    requires Settled(segs) && k < |segs| && !segs[k].used && size <= segs[k].size
    ensures Settled(Carved(segs, k, size))
  {
    var after := Carved(segs, k, size);
    var more := |after| - |segs|;
    forall i | 0 <= i < |after| - 1 ensures after[i].used || after[i + 1].used {
      if i > k + more {
        assert after[i] == segs[i - more] && after[i + 1] == segs[i + 1 - more];
      } else if i == k + more && more == 1 {
        assert after[i + 1] == segs[k + 1];
        assert segs[k].used || segs[k + 1].used;
      }
    }
  }

  // ----- free

  /** Segments k and k + 1 become one, in use while free is at work on it. */
  function Joined(segs: seq<Seg>, k: nat): seq<Seg>
    requires k + 1 < |segs|
  {
    segs[..k] + [Seg(segs[k].start, segs[k].size + segs[k + 1].size, true)] + segs[k + 2..]
  }

  /** There is a free segment right below segment k, or right above. */
  predicate FreeBelow(segs: seq<Seg>, k: nat) {
    0 < k < |segs| && !segs[k - 1].used
  }

  predicate FreeAbove(segs: seq<Seg>, k: nat) {
    k + 1 < |segs| && !segs[k + 1].used
  }

  function JoinedBelow(segs: seq<Seg>, k: nat): seq<Seg> {
    if FreeBelow(segs, k) then Joined(segs, k - 1) else segs
  }

  /** The place of segment k after that. */
  function PlaceBelow(segs: seq<Seg>, k: nat): nat {
    if FreeBelow(segs, k) then k - 1 else k
  }

  function JoinedAbove(segs: seq<Seg>, k: nat): seq<Seg> {
    if FreeAbove(segs, k) then Joined(segs, k) else segs
  }

  function Freed(segs: seq<Seg>, k: nat): seq<Seg> {
    if k < |segs| then segs[k := segs[k].(used := false)] else segs
  }

  /** free: segment k and its free neighbours become one free segment. */
  function Coalesced(segs: seq<Seg>, k: nat): seq<Seg> {
    Freed(JoinedAbove(JoinedBelow(segs, k), PlaceBelow(segs, k)), PlaceBelow(segs, k))
  }

  lemma JoinedAt(segs: seq<Seg>, k: nat)
    requires k + 1 < |segs|
    ensures |Joined(segs, k)| == |segs| - 1
    ensures Joined(segs, k)[k] == Seg(segs[k].start, segs[k].size + segs[k + 1].size, true)
    ensures k + 2 < |segs| ==> Joined(segs, k)[k + 1] == segs[k + 2]
  {
  }

  lemma JoinedTiles(segs: seq<Seg>, end: nat, k: nat)
    requires Tiled(segs, end) && k + 1 < |segs|
    ensures Tiled(Joined(segs, k), end)
  {
    var after := Joined(segs, k);
    assert Abuts(segs, k, end) && Abuts(segs, k + 1, end);
    forall i | 0 <= i < |after| ensures Abuts(after, i, end) {
      if i < k {
        assert Abuts(segs, i, end);
      } else if i > k {
        assert Abuts(segs, i + 1, end);
      }
    }
  }

  lemma JoinedCount(segs: seq<Seg>, k: nat)
    requires k + 1 < |segs| && segs[k].used != segs[k + 1].used
    ensures UsedCount(Joined(segs, k)) == UsedCount(segs)
  {
    hide UsedCount;
    var one := [Seg(segs[k].start, segs[k].size + segs[k + 1].size, true)];
    var two := [segs[k]] + [segs[k + 1]];
    assert segs == segs[..k] + two + segs[k + 2..];
    UsedAround(segs[..k], two, segs[k + 2..]);
    UsedAround(segs[..k], one, segs[k + 2..]);
    UsedCountConcat([segs[k]], [segs[k + 1]]);
    CountOfOne(segs[k]);
    CountOfOne(segs[k + 1]);
    CountOfOne(one[0]);
  }

  lemma JoinedSettles(segs: seq<Seg>, k: nat)
    requires Settled(segs) && k + 1 < |segs|
    ensures Settled(Joined(segs, k))
  {
    var after := Joined(segs, k);
    assert forall i :: 0 <= i < k ==> after[i] == segs[i];
    assert forall i :: k < i < |after| ==> after[i] == segs[i + 1];
  }

  lemma JoinedKeeps(segs: seq<Seg>, end: nat, k: nat)
    requires Tiled(segs, end) && Settled(segs) && k + 1 < |segs| && segs[k].used != segs[k + 1].used
    ensures Tiled(Joined(segs, k), end) && Settled(Joined(segs, k))
    ensures UsedCount(Joined(segs, k)) == UsedCount(segs)
  {
    JoinedTiles(segs, end, k);
    JoinedCount(segs, k);
    JoinedSettles(segs, k);
  }

  lemma FreedCount(segs: seq<Seg>, k: nat)
    requires k < |segs| && segs[k].used
    ensures UsedCount(Freed(segs, k)) + 1 == UsedCount(segs)
  {
    var was, now := [segs[k]], [segs[k].(used := false)];
    assert segs == segs[..k] + was + segs[k + 1..];
    assert Freed(segs, k) == segs[..k] + now + segs[k + 1..];
    UsedAround(segs[..k], was, segs[k + 1..]);
    UsedAround(segs[..k], now, segs[k + 1..]);
    assert was[1..] == [] && now[1..] == [];
    assert UsedCount(was) == 1 && UsedCount(now) == 0;
  }

  lemma FreedKeeps(segs: seq<Seg>, end: nat, k: nat)
    requires Tiled(segs, end) && Settled(segs) && k < |segs| && segs[k].used
    requires !FreeBelow(segs, k) && !FreeAbove(segs, k)
    ensures Tiled(Freed(segs, k), end) && Settled(Freed(segs, k))
    ensures UsedCount(Freed(segs, k)) + 1 == UsedCount(segs)
  {
    hide UsedCount;
    FreedCount(segs, k);
    FreedTiles(segs, end, k);
  }

  /** Without a look at the segment below, two free neighbours are left if that one is free. */
  lemma FreedAboveOnly(segs: seq<Seg>, end: nat, k: nat)
    requires Tiled(segs, end) && Settled(segs) && k < |segs| && segs[k].used
    ensures var now := Freed(JoinedAbove(segs, k), k);
            Tiled(now, end) && UsedCount(now) + 1 == UsedCount(segs) && (Settled(now) <==> !FreeBelow(segs, k))
  {
    hide UsedCount, Tiled;
    var top := JoinedAbove(segs, k);
    if FreeAbove(segs, k) {
      JoinedKeeps(segs, end, k);
    }
    FreedCount(top, k);
    FreedTiles(top, end, k);
    var now := Freed(top, k);
    assert k > 0 ==> now[k - 1] == segs[k - 1] && (now[k - 1].used || now[k - 1 + 1].used <==> segs[k - 1].used);
    forall i | 0 <= i < |now| - 1 && i != k - 1 ensures now[i].used || now[i + 1].used {
      assert Settled(top) && (top[i].used || top[i + 1].used);
      if i == k && FreeAbove(segs, k) {
        assert segs[k + 1].used || segs[k + 1 + 1].used;
      }
    }
  }

  lemma FreedTiles(segs: seq<Seg>, end: nat, k: nat)
    requires Tiled(segs, end)
    ensures Tiled(Freed(segs, k), end)
  {
    forall i | 0 <= i < |segs| ensures Abuts(Freed(segs, k), i, end) {
      assert Abuts(segs, i, end);
    }
  }

  /** The other segments in use stay. */
  lemma FreedAboveHas(segs: seq<Seg>, k: nat)
    requires k < |segs|
    ensures forall i :: 0 <= i < |segs| && i != k && segs[i].used ==> segs[i] in Freed(JoinedAbove(segs, k), k)
  {
    var now := Freed(JoinedAbove(segs, k), k);
    forall i | 0 <= i < |segs| && i != k && segs[i].used ensures segs[i] in now {
      assert segs[i] == now[if i < k || !FreeAbove(segs, k) then i else i - 1];
    }
  }

  /** After joining below nothing free is left there; after joining above, nothing on either side. */
  lemma NoneFreeBelow(segs: seq<Seg>, k: nat)
    requires Settled(segs) && k < |segs| && segs[k].used
    ensures var mid, m := JoinedBelow(segs, k), PlaceBelow(segs, k);
            m < |mid| && mid[m].used && !FreeBelow(mid, m)
  {
    assert k > 1 ==> segs[k - 2].used || segs[k - 2 + 1].used;
  }

  lemma NoneFreeAround(segs: seq<Seg>, k: nat)
    requires Settled(segs) && k < |segs| && segs[k].used && !FreeBelow(segs, k)
    ensures var top := JoinedAbove(segs, k); k < |top| && top[k].used && !FreeBelow(top, k) && !FreeAbove(top, k)
  {
    assert k + 2 < |segs| ==> segs[k + 1].used || segs[k + 1 + 1].used;
  }

  lemma CoalescedKeeps(segs: seq<Seg>, end: nat, k: nat)
    requires Tiled(segs, end) && Settled(segs) && k < |segs| && segs[k].used
    ensures Tiled(Coalesced(segs, k), end) && Settled(Coalesced(segs, k))
    ensures UsedCount(Coalesced(segs, k)) + 1 == UsedCount(segs)
  {
    hide Tiled, Settled, UsedCount, Joined, Freed;
    var mid, m := JoinedBelow(segs, k), PlaceBelow(segs, k);
    if FreeBelow(segs, k) {
      JoinedKeeps(segs, end, k - 1);
    }
    NoneFreeBelow(segs, k);
    if FreeAbove(mid, m) {
      JoinedKeeps(mid, end, m);
    }
    NoneFreeAround(mid, m);
    FreedKeeps(JoinedAbove(mid, m), end, m);
  }

  /** The segments in use afterwards are those before but segment k. */
  ghost predicate GivesBack(was: seq<Seg>, now: seq<Seg>, k: nat) {
    k < |was| && forall s: Seg :: s.used ==> (s in now <==> s in was && s != was[k])
  }

  lemma CoalescedGivesBack(segs: seq<Seg>, end: nat, k: nat)
    requires Tiled(segs, end) && Settled(segs) && k < |segs| && segs[k].used
    ensures GivesBack(segs, Coalesced(segs, k), k)
  {
    hide Tiled, Settled, UsedCount, Joined, Freed;
    var mid, m := JoinedBelow(segs, k), PlaceBelow(segs, k);
    NoneFreeBelow(segs, k);
    BelowHas(segs, end, k);
    AboveHas(mid, end, m);
    var top := JoinedAbove(mid, m);
    NoneFreeAround(mid, m);
    FreedHas(top, end, m);
    StartsDiffer(top, end);
  }

  /** Apart from the segment at work, joining changes no used one. */
  lemma BelowHas(segs: seq<Seg>, end: nat, k: nat)
    requires Tiled(segs, end) && Settled(segs) && k < |segs| && segs[k].used
    ensures var mid, m := JoinedBelow(segs, k), PlaceBelow(segs, k);
            && Tiled(mid, end) && Settled(mid) && m < |mid| && mid[m].used
            && forall s: Seg :: s.used ==> ((s in mid && s != mid[m]) <==> (s in segs && s != segs[k]))
  {
    hide Tiled, Settled, Joined, UsedCount;
    NoneFreeBelow(segs, k);
    StartsDiffer(segs, end);
    if FreeBelow(segs, k) {
      JoinedKeeps(segs, end, k - 1);
      JoinedHas(segs, end, k - 1);
      JoinedAt(segs, k - 1);
      OneEach(segs, end, k - 1, k);
    }
  }

  lemma AboveHas(segs: seq<Seg>, end: nat, k: nat)
    requires Tiled(segs, end) && Settled(segs) && k < |segs| && segs[k].used
    ensures var top := JoinedAbove(segs, k);
            && Tiled(top, end) && k < |top| && top[k].used
            && forall s: Seg :: s.used ==> ((s in top && s != top[k]) <==> (s in segs && s != segs[k]))
  {
    hide Tiled, Settled, Joined, UsedCount;
    StartsDiffer(segs, end);
    if FreeAbove(segs, k) {
      JoinedKeeps(segs, end, k);
      JoinedHas(segs, end, k);
      JoinedAt(segs, k);
      OneEach(segs, end, k, k + 1);
    }
  }

  lemma OneEach(segs: seq<Seg>, end: nat, i: nat, j: nat)
    requires Tiled(segs, end) && i < j < |segs|
    ensures segs[i] in segs && segs[j] in segs && segs[i].start < segs[j].start
  {
    Ascending(segs, end, i, j);
    assert Abuts(segs, i, end);
  }

  // ----- which segments there are then

  lemma StartsDiffer(segs: seq<Seg>, end: nat)
    requires Tiled(segs, end)
    ensures forall s, t :: s in segs && t in segs && s.start == t.start ==> s == t
  {
    forall s, t | s in segs && t in segs && s.start == t.start ensures s == t {
      var i :| 0 <= i < |segs| && segs[i] == s;
      var j :| 0 <= j < |segs| && segs[j] == t;
      if i != j {
        SegmentsApart(segs, end, i, j);
        SegmentsApart(segs, end, j, i);
      }
    }
  }

  lemma CarvedHas(segs: seq<Seg>, end: nat, k: nat, size: nat)
    requires Tiled(segs, end) && k < |segs| && size <= segs[k].size
    ensures forall s :: s in Carved(segs, k, size) <==>
              (s in segs && s.start != segs[k].start) || s in Cut(segs[k], size)
  {
    StartsDiffer(segs, end);
    forall i | 0 <= i < |segs| && i != k ensures segs[i].start != segs[k].start {
      SegmentsApart(segs, end, i, k);
      SegmentsApart(segs, end, k, i);
    }
    assert segs == segs[..k] + [segs[k]] + segs[k + 1..];
  }

  lemma JoinedHas(segs: seq<Seg>, end: nat, k: nat)
    requires Tiled(segs, end) && k + 1 < |segs|
    ensures forall s :: s in Joined(segs, k) <==>
              (s in segs && s.start != segs[k].start && s.start != segs[k + 1].start) ||
              s == Seg(segs[k].start, segs[k].size + segs[k + 1].size, true)
  {
    StartsDiffer(segs, end);
    forall i | 0 <= i < |segs| && i != k && i != k + 1
      ensures segs[i].start != segs[k].start && segs[i].start != segs[k + 1].start
    {
      SegmentsApart(segs, end, i, k);
      SegmentsApart(segs, end, i, k + 1);
      SegmentsApart(segs, end, k, i);
    }
    assert segs == segs[..k] + [segs[k], segs[k + 1]] + segs[k + 2..];
  }

  lemma FreedHas(segs: seq<Seg>, end: nat, k: nat)
    requires Tiled(segs, end) && k < |segs|
    ensures forall s :: s in Freed(segs, k) <==>
              (s in segs && s.start != segs[k].start) || s == segs[k].(used := false)
  {
    StartsDiffer(segs, end);
    forall i | 0 <= i < |segs| && i != k ensures segs[i].start != segs[k].start {
      SegmentsApart(segs, end, i, k);
      SegmentsApart(segs, end, k, i);
    }
    assert segs == segs[..k] + [segs[k]] + segs[k + 1..];
    assert Freed(segs, k) == segs[..k] + [segs[k].(used := false)] + segs[k + 1..];
  }
}
