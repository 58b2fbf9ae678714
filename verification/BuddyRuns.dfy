/** Whole runs of buddy_alloc and buddy_free: the bitmaps summarise the used blocks after
    every run exactly if the levels are long enough (kernel/src/memory/buddy_alloc.c). */
module BuddyRuns {
  import opened Basics
  import opened BuddyBits

  datatype Op = Take(offset: nat, count: nat) | Give(offset: nat, count: nat)

  /** Not empty and below the last block. */
  predicate Legal(l: Layout, ops: seq<Op>) {
    forall k :: 0 <= k < |ops| ==> 0 < ops[k].count && ops[k].offset + ops[k].count <= l.blocks
  }

  function Step(bits: Bits, l: Layout, op: Op): Bits
    requires op.count > 0
  {
    match op
    case Take(offset, count) => Marked(bits, l, 0, offset, offset + count - 1)
    case Give(offset, count) => Cleared(bits, l, 0, offset, offset + count - 1)
  }

  function Run(bits: Bits, l: Layout, ops: seq<Op>): Bits
    requires Legal(l, ops)
    decreases |ops|
  {
    if ops == [] then bits else Step(Run(bits, l, ops[..|ops| - 1]), l, ops[|ops| - 1])
  }

  /** The blocks that are used, counting from the bottom bitmap's promise. */
  function UsedAfter(used: set<nat>, ops: seq<Op>): set<nat>
    decreases |ops|
  {
    if ops == [] then used
    else
      var before, op := UsedAfter(used, ops[..|ops| - 1]), ops[|ops| - 1];
      if op.Take? then before + Range(op.offset, op.count) else before - Range(op.offset, op.count)
  }

  lemma OnlyLevelsTwice(a: Bits, b: Bits, c: Bits, l: Layout)
    requires OnlyLevels(a, b, l) && OnlyLevels(b, c, l)
    ensures OnlyLevels(a, c, l)
  {
  }

  lemma {:induction false} RunKeepsSummary(bits: Bits, l: Layout, ops: seq<Op>, used: set<nat>)
    requires l.Proper() && Fits(l.blocks, l.order) && 8 * l.End() <= |bits|
    requires Legal(l, ops) && Summary(bits, l, used)
    ensures Summary(Run(bits, l, ops), l, UsedAfter(used, ops))
    ensures OnlyLevels(bits, Run(bits, l, ops), l)
    decreases |ops|
  {
    hide Summary, OnlyLevels, Fits, LevelBytes, Log2, Marked, Cleared;
    if ops == [] {
      NothingDiffers(bits, l);
    } else {
      var front, op := ops[..|ops| - 1], ops[|ops| - 1];
      RunKeepsSummary(bits, l, front, used);
      var mid, there := Run(bits, l, front), UsedAfter(used, front);
      SameLength(bits, mid, l);
      if op.Take? {
        AllocIsUnion(mid, l, op.offset, op.count, there);
      } else {
        FreeIsDifference(mid, l, op.offset, op.count, there);
      }
      OnlyLevelsTwice(bits, mid, Run(bits, l, ops), l);
    }
  }

  lemma NothingDiffers(bits: Bits, l: Layout)
    ensures OnlyLevels(bits, bits, l)
  {
  }

  lemma SameLength(bits: Bits, after: Bits, l: Layout)
    requires OnlyLevels(bits, after, l)
    ensures |after| == |bits|
  {
  }

  // ----- what one range taken and given back does

  /** The used blocks determine every bit of the levels. */
  lemma SummaryDetermines(a: Bits, b: Bits, l: Layout, used: set<nat>)
    requires Summary(a, l, used) && Summary(b, l, used) && OnlyLevels(a, b, l)
    ensures a == b
  {
    forall n | 0 <= n < |a| ensures a[n] == b[n] {
      if l.Bit(0, 0) <= n < 8 * l.End() {
        var o, i := SomeLevel(l, n, l.order + 1);
        assert LevelSays(a, l, o, used) && LevelSays(b, l, o, used);
        assert Get(a, l.Bit(o, i)) == Get(b, l.Bit(o, i));
      }
    }
  }

  /** Each bit between the levels' start and end is one of a level. */
  lemma {:induction false} SomeLevel(l: Layout, n: nat, end: nat) returns (o: nat, i: nat)
    requires l.Bit(0, 0) <= n < l.Bit(end, 0)
    ensures o < end && i < 8 * SizeAt(l.blocks, o) && n == l.Bit(o, i)
    decreases end
  {
    if l.Bit(end - 1, 0) <= n {
      o, i := end - 1, n - l.Bit(end - 1, 0);
      assert l.Start(end) == l.Start(end - 1) + SizeAt(l.blocks, end - 1);
    } else {
      o, i := SomeLevel(l, n, end - 1);
    }
  }

  /** Freeing a range just taken from free blocks restores every bit. */
  lemma FreeUndoesAlloc(bits: Bits, l: Layout, offset: nat, count: nat, used: set<nat>)
    requires l.Proper() && Fits(l.blocks, l.order) && 8 * l.End() <= |bits|
    requires count > 0 && offset + count <= l.blocks && Summary(bits, l, used)
    requires used !! Range(offset, count)
    ensures Run(bits, l, [Take(offset, count), Give(offset, count)]) == bits
  {
    var ops := [Take(offset, count), Give(offset, count)];
    RunKeepsSummary(bits, l, ops, used);
    hide Summary, OnlyLevels, Fits, Run;
    assert ops[..1] == [Take(offset, count)] && ops[..1][..0] == [];
    assert UsedAfter(used, ops[..1]) == used + Range(offset, count);
    assert used + Range(offset, count) - Range(offset, count) == used;
    SummaryDetermines(bits, Run(bits, l, ops), l, used);
  }

  // ----- only levels that fit keep the summary

  /** After every run from an empty bitmap the bits say which blocks are used, and no bit
      outside the bitmaps has changed. */
  ghost predicate KeepsSummary(l: Layout) {
    forall bits: Bits, ops: seq<Op> ::
      8 * l.End() < |bits| && Summary(bits, l, {}) && Legal(l, ops) ==>
        Summary(Run(bits, l, ops), l, UsedAfter({}, ops)) && OnlyLevels(bits, Run(bits, l, ops), l)
  }

  lemma {:induction false} MarkedKeeps(bits: Bits, l: Layout, o: nat, first: nat, last: nat, n: nat)
    requires Get(bits, n)
    ensures Get(Marked(bits, l, o, first, last), n)
    decreases l.order + 1 - o
  {
    if o <= l.order {
      MarkedKeeps(SetBits(bits, l.Bit(o, first), l.Bit(o, last + 1)), l, o + 1, first / 2, last / 2, n);
    }
  }

  /** Taking one block marks its buddy at every order, wherever that bit is. */
  lemma {:induction false} MarkedSets(bits: Bits, l: Layout, o: nat, b: nat, p: nat)
    requires o <= p <= l.order && l.Bit(p, Half(b, p)) < |bits|
    ensures Get(Marked(bits, l, o, Half(b, o), Half(b, o)), l.Bit(p, Half(b, p)))
    decreases l.order + 1 - o
  {
    hide SizeAt, LevelBytes;
    var mid := SetBits(bits, l.Bit(o, Half(b, o)), l.Bit(o, Half(b, o) + 1));
    if o == p {
      assert Get(mid, l.Bit(p, Half(b, p)));
      MarkedKeeps(mid, l, o + 1, Half(b, o) / 2, Half(b, o) / 2, l.Bit(p, Half(b, p)));
    } else {
      MarkedSets(mid, l, o + 1, b, p);
    }
  }

  lemma {:induction false} InUseOfOne(b: nat, o: nat, i: nat)
    ensures InUse({b}, o, i) <==> i == Half(b, o)
  {
    if o > 0 {
      InUseOfOne(b, o - 1, 2 * i);
      InUseOfOne(b, o - 1, 2 * i + 1);
    }
  }

  lemma OneBitRefutes(bits: Bits, l: Layout, o: nat, i: nat, used: set<nat>)
    requires o <= l.order && i < 8 * SizeAt(l.blocks, o)
    requires Get(bits, l.Bit(o, i)) != InUse(used, o, i)
    ensures !Summary(bits, l, used)
  {
    assert !LevelSays(bits, l, o, used);
  }

  lemma LevelAfter(l: Layout, o: nat)
    ensures SizeAt(l.blocks, o) > 0
    ensures l.Start(o + 1) == l.Start(o) + SizeAt(l.blocks, o)
  {
  }

  /** A partial buddy without a bit of its own: taking the last block alone goes wrong. */
  lemma LastBlockGoesWrong(l: Layout, o: nat, bits: Bits)
    requires l.Proper() && o <= l.order && Half(l.blocks - 1, o) >= 8 * SizeAt(l.blocks, o)
    requires 8 * l.End() < |bits| && !Get(bits, 8 * l.End())
    ensures !(Summary(Step(bits, l, Take(l.blocks - 1, 1)), l, {l.blocks - 1}) &&
              OnlyLevels(bits, Step(bits, l, Take(l.blocks - 1, 1)), l))
  {
    hide Fits, LevelBytes, SizeAt, Log2, Summary, Marked, InUse, OnlyLevels, Layout.Bit, Layout.End;
    var b := l.blocks - 1;
    var after := Step(bits, l, Take(b, 1));
    assert after == Marked(bits, l, 0, b, b);
    MarksNextLevel(l, o, bits);
    if o < l.order {
      LevelAfter(l, o);
      LevelAfter(l, o + 1);
      InUseOfOne(b, o + 1, 0);
      OneBitRefutes(after, l, o + 1, 0, {b});
    } else {
      EndIsNext(l);
      BitBehind(bits, after, l);
    }
  }

  /** Its bit is the first of the next level. */
  lemma MarksNextLevel(l: Layout, o: nat, bits: Bits)
    requires l.Proper() && o <= l.order && Half(l.blocks - 1, o) >= 8 * SizeAt(l.blocks, o)
    requires 8 * l.End() < |bits|
    ensures Get(Marked(bits, l, 0, l.blocks - 1, l.blocks - 1), l.Bit(o + 1, 0))
    ensures |Marked(bits, l, 0, l.blocks - 1, l.blocks - 1)| == |bits|
  {
    hide Fits, LevelBytes, SizeAt, Log2, Marked;
    FitsAt(l.blocks, o);
    LevelAfter(l, o);
    assert l.Bit(o, Half(l.blocks - 1, o)) == l.Bit(o + 1, 0);
    StartsGrow(l, o + 1, l.order + 1);
    MarkedSets(bits, l, 0, l.blocks - 1, o);
  }

  lemma EndIsNext(l: Layout)
    ensures l.Bit(l.order + 1, 0) == 8 * l.End()
  {
  }

  lemma BitBehind(bits: Bits, after: Bits, l: Layout)
    requires |after| == |bits| && 8 * l.End() < |bits|
    requires after[8 * l.End()] != bits[8 * l.End()]
    ensures !OnlyLevels(bits, after, l)
  {
    hide Layout.End;
  }

  /** The hierarchy is sound over whole runs exactly if every level has room for the last,
      possibly partial, buddy. */
  lemma SoundIffFits(l: Layout)
    requires l.Proper()
    ensures KeepsSummary(l) <==> Fits(l.blocks, l.order)
  {
    if Fits(l.blocks, l.order) {
      forall bits: Bits, ops: seq<Op> | 8 * l.End() < |bits| && Summary(bits, l, {}) && Legal(l, ops)
        ensures Summary(Run(bits, l, ops), l, UsedAfter({}, ops)) && OnlyLevels(bits, Run(bits, l, ops), l)
      {
        RunKeepsSummary(bits, l, ops, {});
      }
    } else {
      var o: nat :| o <= l.order && Half(l.blocks - 1, o) >= 8 * SizeAt(l.blocks, o);
      var bits: Bits := seq(8 * l.End() + 1, n => false);
      EmptySummary(bits, l);
      var ops := [Take(l.blocks - 1, 1)];
      assert Legal(l, ops) && ops[..0] == [];
      hide Summary, OnlyLevels, Fits, Half, SizeAt;
      assert Run(bits, l, ops) == Step(bits, l, ops[0]);
      assert UsedAfter({}, ops) == Range(l.blocks - 1, 1) == {l.blocks - 1};
      LastBlockGoesWrong(l, o, bits);
    }
  }

  /** Cleared levels say that no block is used. */
  lemma EmptySummary(bits: Bits, l: Layout)
    requires 8 * l.End() <= |bits|
    requires forall n :: l.Bit(0, 0) <= n < 8 * l.End() ==> !Get(bits, n)
    ensures Summary(bits, l, {})
  {
    forall o, i | 0 <= o <= l.order && 0 <= i < 8 * SizeAt(l.blocks, o)
      ensures Get(bits, l.Bit(o, i)) <==> InUse({}, o, i)
    {
      InsideLevel(l, o, i);
      InUseOfNone(o, i);
    }
  }

  // ----- the smallest layout that does not fit: 17 blocks

  lemma {:induction false} ClearIdleNeverSets(bits: Bits, l: Layout, o: nat, first: nat, end: nat, n: nat)
    requires o > 0 && !Get(bits, n)
    ensures !Get(ClearIdle(bits, l, o, first, end), n)
  {
    if first < end {
      ClearIdleNeverSets(bits, l, o, first, end - 1, n);
    }
  }

  lemma {:induction false} ClearedNeverSets(bits: Bits, l: Layout, o: nat, first: nat, last: nat, n: nat)
    requires !Get(bits, n)
    ensures !Get(Cleared(bits, l, o, first, last), n)
    decreases l.order + 1 - o
  {
    if o == 0 && o <= l.order {
      ClearedNeverSets(ClearBits(bits, l.Bit(0, first), l.Bit(0, last + 1)), l, 1, first / 2, last / 2, n);
    } else if o <= l.order {
      ClearIdleNeverSets(bits, l, o, first, last + 1, n);
      ClearedNeverSets(ClearIdle(bits, l, o, first, last + 1), l, o + 1, first / 2, last / 2, n);
    }
  }

  /** Marking one block leaves alone the bits that are not its buddies'. */
  lemma {:induction false} MarkedLeaves(bits: Bits, l: Layout, o: nat, b: nat, n: nat)
    requires !Get(bits, n) && forall p :: o <= p <= l.order ==> n != l.Bit(p, Half(b, p))
    ensures !Get(Marked(bits, l, o, Half(b, o), Half(b, o)), n)
    decreases l.order + 1 - o
  {
    hide SizeAt, LevelBytes;
    if o <= l.order {
      MarkedLeaves(SetBits(bits, l.Bit(o, Half(b, o)), l.Bit(o, Half(b, o) + 1)), l, o + 1, b, n);
    }
  }

  lemma SeventeenBlocks(at: nat) returns (l: Layout)
    ensures l == Layout(at, 17, PossibleOrder(17, 15)) && l.order == 4 && l.Proper()
    ensures l.Start(0) == at + 104 && l.Start(1) == at + 107 && l.Start(2) == at + 108
    ensures l.Start(3) == at + 109 && l.Start(4) == at + 110 && l.End() == at + 111
  {
    l := Layout(at, 17, PossibleOrder(17, 15));
    assert Log2(17) == 4 by {
      assert Log2(8) == 3;
    }
    assert Pow2(1) == 2 && Pow2(2) == 4 && Pow2(3) == 8 && Pow2(4) == 16;
    assert SizeAt(17, 0) == 3 && SizeAt(17, 1) == 1 && SizeAt(17, 2) == 1 && SizeAt(17, 3) == 1 && SizeAt(17, 4) == 1;
    assert LevelBytes(17, 0) == 0 && LevelBytes(17, 1) == 3 && LevelBytes(17, 2) == 4;
    assert LevelBytes(17, 3) == 5 && LevelBytes(17, 4) == 6 && LevelBytes(17, 5) == 7;
  }

  /** The buddies of a block of 17, order by order. */
  lemma HalvesOf(b: nat)
    ensures Half(b, 0) == b && Half(b, 1) == b / 2 && Half(b, 2) == b / 2 / 2
    ensures Half(b, 3) == b / 2 / 2 / 2 && Half(b, 4) == b / 2 / 2 / 2 / 2
  {
  }

  /** Taking blocks 16 and 0 and giving 16 back leaves block 0 used, yet four blocks from 0
      on are the first that buddy_find sees free. */
  lemma GivesOutTwice(at: nat, bits: Bits)
    requires 8 * (at + 111) < |bits| && forall n :: 8 * at <= n < |bits| ==> !bits[n]
    ensures var l, ops := Layout(at, 17, PossibleOrder(17, 15)), [Take(16, 1), Take(0, 1), Give(16, 1)];
            && Legal(l, ops)
            && UsedAfter({}, ops) == {0}
            && Finds(Run(bits, l, ops), l, SearchOrder(l, 4), SearchLength(l, 4), 0)
  {
    hide Marked, Cleared, Pow2, SearchOrder, SearchLength, Log2;
    var l := SeventeenBlocks(at);
    var ops := [Take(16, 1), Take(0, 1), Give(16, 1)];
    ThreeSteps(bits, l, ops);
    OrderTwoBit(l, at, bits);
    FourBlocks(l);
    hide Run, UsedAfter, Step;
  }

  lemma ThreeSteps(bits: Bits, l: Layout, ops: seq<Op>)
    requires |ops| == 3 && Legal(l, ops)
    ensures Run(bits, l, ops) == Step(Step(Step(bits, l, ops[0]), l, ops[1]), l, ops[2])
    ensures ops == [Take(16, 1), Take(0, 1), Give(16, 1)] ==> UsedAfter({}, ops) == {0}
  {
    hide Step;
    var two, one := ops[..2], ops[..2][..1];
    assert two[1] == ops[1] && one == [ops[0]] && one[..0] == [];
    assert Run(bits, l, one) == Step(bits, l, ops[0]);
    assert Run(bits, l, two) == Step(Step(bits, l, ops[0]), l, ops[1]);
    if ops == [Take(16, 1), Take(0, 1), Give(16, 1)] {
      assert UsedAfter({}, one) == {16};
      assert UsedAfter({}, two) == {16, 0};
    }
  }

  lemma FourBlocks(l: Layout)
    requires l.order == 4 && l.blocks == 17
    ensures SearchOrder(l, 4) == 2 && SearchLength(l, 4) == 1 && CountAt(17, 2) == 4
  {
    assert Pow2(1) == 2 && Pow2(2) == 4;
    assert RequiredOrder(4, 2) == 2;
    assert RequiredOrder(4, 1) == 2;
  }

  /** Block 17 does not exist, and its bit is no buddy's of a block below 17. */
  lemma NotABuddy(l: Layout, at: nat, b: nat)
    requires l == Layout(at, 17, 4) && b <= 16
    requires l.Start(0) == at + 104 && l.Start(1) == at + 107 && l.Start(2) == at + 108
    requires l.Start(3) == at + 109 && l.Start(4) == at + 110
    ensures forall p :: 0 <= p <= l.order ==> l.Bit(0, 17) != l.Bit(p, Half(b, p))
  {
    hide LevelBytes, SizeAt;
    forall p | 0 <= p <= l.order ensures l.Bit(0, 17) != l.Bit(p, Half(b, p)) {
      if p > 0 {
        StartsGrow(l, 1, p);
      } else {
        HalvesOf(b);
      }
    }
  }

  /** Bit 8 of order 1 is bit 0 of order 2, and freeing block 16 clears it. */
  lemma GivingBackClears(l: Layout, at: nat, bits: Bits)
    requires l == Layout(at, 17, 4) && l.Start(1) == at + 107 && l.Start(2) == at + 108
    requires 8 * (at + 111) < |bits| && !Get(bits, l.Bit(0, 17))
    ensures !Get(Step(bits, l, Give(16, 1)), l.Bit(2, 0))
  {
    hide LevelBytes, SizeAt, Half, Log2, Pow2, Marked;
    var bottom := ClearBits(bits, l.Bit(0, 16), l.Bit(0, 17));
    assert !Get(bottom, l.Bit(0, 16)) && !Get(bottom, l.Bit(0, 17));
    var first := ClearIdle(bottom, l, 1, 8, 9);
    assert first == ClearIfIdle(ClearIdle(bottom, l, 1, 8, 8), l, 1, 8);
    assert !Get(first, l.Bit(1, 8));
    assert Step(bits, l, Give(16, 1)) == Cleared(bottom, l, 1, 8, 8) == Cleared(first, l, 2, 4, 4);
    ClearedNeverSets(first, l, 2, 4, 4, l.Bit(2, 0));
  }

  lemma OrderTwoBit(l: Layout, at: nat, bits: Bits)
    requires l == Layout(at, 17, 4) && 8 * (at + 111) < |bits| && forall n :: 8 * at <= n < |bits| ==> !bits[n]
    requires l.Start(0) == at + 104 && l.Start(1) == at + 107 && l.Start(2) == at + 108
    requires l.Start(3) == at + 109 && l.Start(4) == at + 110
    ensures !Get(Step(Step(Step(bits, l, Take(16, 1)), l, Take(0, 1)), l, Give(16, 1)), l.Bit(2, 0))
  {
    hide LevelBytes, SizeAt, Half, Log2, Pow2, Marked, Cleared;
    var n := l.Bit(0, 17);
    HalvesOf(16);
    HalvesOf(0);
    NotABuddy(l, at, 16);
    NotABuddy(l, at, 0);
    MarkedLeaves(bits, l, 0, 16, n);
    var one := Step(bits, l, Take(16, 1));
    MarkedLeaves(one, l, 0, 0, n);
    GivingBackClears(l, at, Step(one, l, Take(0, 1)));
  }
}
