/** The hierarchy of bitmaps of kernel/src/memory/buddy_alloc.c on plain bits: its layout,
    what marking and clearing a range of blocks does to the bits, and what they summarise. */
module BuddyBits {
  import opened Basics

  /** The bits of memory in address order: bit n is bit n % 8 of byte n / 8. */
  type Bits = seq<bool>

  // ----- powers of two and repeated halving

  function Pow2(o: nat): (p: nat)
    ensures p > 0
  {
    if o == 0 then 1 else 2 * Pow2(o - 1)
  }

  /** The first block of buddy i of order o: i << o. */
  function First(o: nat, i: nat): nat {
    i * Pow2(o)
  }

  lemma FirstOfHalves(o: nat, i: nat)
    requires o > 0
    ensures First(o, i) == First(o - 1, 2 * i)
  {
    assert i * (2 * Pow2(o - 1)) == (2 * i) * Pow2(o - 1);
  }

  lemma FirstIsMonotone(o: nat, i: nat, j: nat)
    requires i <= j
    ensures First(o, i) <= First(o, j)
  {
    hide Pow2;
    assert i * Pow2(o) <= j * Pow2(o);
  }

  lemma FirstIsAdditive(o: nat, i: nat, j: nat)
    ensures First(o, i + j) == First(o, i) + First(o, j)
  {
    hide Pow2;
    assert (i + j) * Pow2(o) == i * Pow2(o) + j * Pow2(o);
  }

  /** x >> o */
  function Half(x: nat, o: nat): nat {
    if o == 0 then x else Half(x, o - 1) / 2
  }

  lemma DivideTwice(x: nat, p: nat)
    requires p > 0
    ensures x / (2 * p) == (x / p) / 2
  {
    var q, r := x / p, x % p;
    var h, b := q / 2, q % 2;
    assert p * q == (2 * p) * h + p * b;
    assert p * b <= p;
    QuotientIs(x, 2 * p, h, p * b + r);
  }

  lemma QuotientIs(x: nat, d: nat, h: nat, r: nat)
    requires d > 0 && r < d && x == d * h + r
    ensures x / d == h && x % d == r
  {
    var q := x / d;
    assert x == d * q + x % d;
    assert q < h ==> d * (q + 1) <= d * h;
    assert h < q ==> d * (h + 1) <= d * q;
  }

  lemma QuotientIsNat(x: nat, d: nat)
    requires d > 0
    ensures x / d >= 0
  {
    assert x == d * (x / d) + x % d;
    var q := x / d;
    assert q < 0 ==> d * (q + 1) <= 0;
  }

  lemma {:induction false} HalfDivides(x: nat, o: nat)
    ensures Half(x, o) == x / Pow2(o)
  {
    if o > 0 {
      HalfDivides(x, o - 1);
      DivideTwice(x, Pow2(o - 1));
    }
  }

  lemma {:induction false} HalfIsMonotone(x: nat, y: nat, o: nat)
    requires x <= y
    ensures Half(x, o) <= Half(y, o)
  {
    if o > 0 {
      HalfIsMonotone(x, y, o - 1);
    }
  }

  // ----- the layout

  /** buddy_get_possible_order before the cap: the largest o with a whole buddy of 2^o blocks. */
  function Log2(blocks: nat): nat {
    if blocks < 2 then 0 else 1 + Log2(blocks / 2)
  }

  function PossibleOrder(blocks: nat, most: nat): nat {
    if Log2(blocks) < most then Log2(blocks) else most
  }

  lemma {:induction false} HalfOfHalf(x: nat, o: nat)
    ensures Half(x, o + 1) == Half(x / 2, o)
  {
    if o > 0 {
      HalfOfHalf(x, o - 1);
    }
  }

  /** Up to the possible order there is a whole buddy, and at Log2 exactly one. */
  lemma {:induction false} WholeBuddyUpToLog2(blocks: nat, o: nat)
    requires blocks > 0
    ensures o <= Log2(blocks) <==> Half(blocks, o) > 0
    ensures o == Log2(blocks) ==> Half(blocks, o) == 1
  {
    if blocks >= 2 && o > 0 {
      WholeBuddyUpToLog2(blocks / 2, o - 1);
      HalfOfHalf(blocks, o - 1);
    } else if blocks == 1 && o > 0 {
      HalfIsMonotone(1, 1, o);
      HalfOfHalf(1, o - 1);
      HalfOfZero(o - 1);
    }
  }

  lemma {:induction false} HalfOfZero(o: nat)
    ensures Half(0, o) == 0
  {
    if o > 0 {
      HalfOfZero(o - 1);
    }
  }

  function CountAt(blocks: nat, o: nat): nat {
    QuotientIsNat(blocks, Pow2(o));
    blocks / Pow2(o)
  }

  /** buddy_get_size_at_order: the bytes of a level.  The subtraction is on 64 bits. */
  function SizeAt(blocks: nat, o: nat): nat {
    var count := CountAt(blocks, o);
    (if count == 0 then U64 - 1 else count - 1) / 8 + 1
  }

  const HEADER_BYTES: nat := 24
  const DESC_BYTES: nat := 16

  /** The bytes of the levels below o. */
  function LevelBytes(blocks: nat, o: nat): nat {
    if o == 0 then 0 else LevelBytes(blocks, o - 1) + SizeAt(blocks, o - 1)
  }

  /** A buddy allocator with its header at a byte address. */
  datatype Layout = Layout(at: nat, blocks: nat, order: nat) {
    function Start(o: nat): nat {
      at + HEADER_BYTES + (order + 1) * DESC_BYTES + LevelBytes(blocks, o)
    }

    function End(): nat {
      Start(order + 1)
    }

    /** The global number of bit i of level o. */
    function Bit(o: nat, i: nat): nat {
      8 * Start(o) + i
    }

    predicate Proper() {
      0 < blocks < U64 && order <= Log2(blocks) && order < 31
    }
  }

  /** buddy_get_size */
  function Predicted(blocks: nat, most: nat): nat {
    var order := PossibleOrder(blocks, most);
    LevelBytes(blocks, order + 1) + HEADER_BYTES + (order + 1) * DESC_BYTES
  }

  lemma {:induction false} LevelBytesGrow(blocks: nat, o: nat, p: nat)
    requires o <= p
    ensures LevelBytes(blocks, o) <= LevelBytes(blocks, p)
    decreases p
  {
    if o < p {
      LevelBytesGrow(blocks, o, p - 1);
    }
  }

  lemma {:induction false} Log2IsMonotone(few: nat, many: nat)
    requires few <= many
    ensures Log2(few) <= Log2(many)
  {
    if few >= 2 {
      Log2IsMonotone(few / 2, many / 2);
    }
  }

  lemma {:induction false} LevelBytesMonotone(few: nat, many: nat, o: nat)
    requires 0 < few <= many && o <= Log2(few) + 1
    ensures LevelBytes(few, o) <= LevelBytes(many, o)
  {
    if o > 0 {
      LevelBytesMonotone(few, many, o - 1);
      HalfDivides(few, o - 1);
      HalfDivides(many, o - 1);
      HalfIsMonotone(few, many, o - 1);
      WholeBuddyUpToLog2(few, o - 1);
    }
  }

  /** More blocks never need less metadata. */
  lemma PredictedIsMonotone(few: nat, many: nat, most: nat)
    requires 0 < few <= many
    ensures Predicted(few, most) <= Predicted(many, most)
  {
    hide Log2, LevelBytes;
    Log2IsMonotone(few, many);
    var o, p := PossibleOrder(few, most), PossibleOrder(many, most);
    LevelBytesMonotone(few, many, o + 1);
    LevelBytesGrow(many, o + 1, p + 1);
  }

  /** The prediction is where the levels end. */
  lemma PredictedIsLayout(at: nat, blocks: nat, most: nat)
    ensures Layout(at, blocks, PossibleOrder(blocks, most)).End() == at + Predicted(blocks, most)
  {
  }

  /** Without a block the level size wraps, so no region is long enough to hold it. */
  lemma NoBlocksNeedTooMuch(most: nat)
    ensures Predicted(0, most) == 0x2000_0000_0000_0000 + 40
  {
    assert LevelBytes(0, 1) == SizeAt(0, 0);
    assert CountAt(0, 0) == 0;
  }

  /** A level has at most a byte for each block. */
  lemma {:induction false} LevelBytesBound(blocks: nat, o: nat)
    requires blocks > 0 && o <= Log2(blocks) + 1
    ensures LevelBytes(blocks, o) <= o * blocks
  {
    if o > 0 {
      LevelBytesBound(blocks, o - 1);
      HalfDivides(blocks, o - 1);
      WholeBuddyUpToLog2(blocks, o - 1);
      HalfIsLess(blocks, o - 1);
      assert o * blocks == (o - 1) * blocks + blocks;
    }
  }

  lemma {:induction false} HalfIsLess(x: nat, o: nat)
    ensures Half(x, o) <= x
  {
    if o > 0 {
      HalfIsLess(x, o - 1);
    }
  }

  lemma PredictedIsSmall(blocks: nat)
    requires blocks > 0
    ensures 0 < Predicted(blocks, 15) <= 16 * blocks + 280
  {
    hide Log2, LevelBytes;
    var o := PossibleOrder(blocks, 15);
    LevelBytesBound(blocks, o + 1);
    assert (o + 1) * blocks <= 16 * blocks;
  }

  /** For 17 blocks: levels of 3, 1, 1, 1 and 1 bytes, behind 24 bytes and 16 for each of them. */
  lemma PredictedOfSeventeen()
    ensures Predicted(17, 15) == 111
  {
    assert Log2(17) == 4 by {
      assert Log2(2) == 1 && Log2(4) == 2 && Log2(8) == 3;
    }
    assert Pow2(2) == 4 && Pow2(4) == 16;
    assert SizeAt(17, 0) == 3 && SizeAt(17, 1) == 1 && SizeAt(17, 2) == 1 && SizeAt(17, 3) == 1 && SizeAt(17, 4) == 1;
    assert LevelBytes(17, 2) == 4 && LevelBytes(17, 4) == 6;
  }

  // ----- when the levels are long enough

  /** Every block's buddy has a bit inside its own level. */
  ghost predicate Fits(blocks: nat, order: nat)
    requires blocks > 0
  {
    forall o :: 0 <= o <= order ==> Half(blocks - 1, o) < 8 * SizeAt(blocks, o)
  }

  lemma {:induction false} HalfOfPrevious(x: nat, o: nat)
    requires x > 0
    ensures Half(x - 1, o) == if x % Pow2(o) == 0 then Half(x, o) - 1 else Half(x, o)
  {
    hide Half, Pow2;
    HalfDivides(x, o);
    HalfDivides(x - 1, o);
    QuotientOfPrevious(x, Pow2(o));
  }

  lemma QuotientOfPrevious(x: nat, p: nat)
    requires x > 0 && p > 0
    ensures (x - 1) / p == if x % p == 0 then x / p - 1 else x / p
  {
    var q, r := x / p, x % p;
    assert x == p * q + r;
    if r == 0 {
      assert q == 0 ==> p * q == 0;
      assert p * q == p * (q - 1) + p;
      QuotientIs(x - 1, p, q - 1, p - 1);
    } else {
      QuotientIs(x - 1, p, q, r - 1);
    }
  }

  /** A level rounds the number of whole buddies up to bytes, so the partial buddy at the
      end has its bit there unless the whole ones fill the bytes exactly. */
  lemma FitsAt(blocks: nat, o: nat)
    requires blocks > 0 && o <= Log2(blocks)
    ensures Half(blocks - 1, o) < 8 * SizeAt(blocks, o) <==>
              blocks % Pow2(o) == 0 || (blocks / Pow2(o)) % 8 != 0
    ensures Half(blocks - 1, o) <= 8 * SizeAt(blocks, o)
  {
    hide Half, Pow2, Log2;
    HalfOfPrevious(blocks, o);
    HalfDivides(blocks, o);
    WholeBuddyUpToLog2(blocks, o);
  }

  /** The condition on the two numbers a caller has in hand. */
  lemma FitsIff(blocks: nat, order: nat)
    requires blocks > 0 && order <= Log2(blocks)
    ensures Fits(blocks, order) <==>
              forall o :: 0 <= o <= order ==> blocks % Pow2(o) == 0 || (blocks / Pow2(o)) % 8 != 0
  {
    hide Half, SizeAt, Log2;
    if Fits(blocks, order) {
      forall o | 0 <= o <= order ensures blocks % Pow2(o) == 0 || (blocks / Pow2(o)) % 8 != 0 {
        FitsAt(blocks, o);
      }
    } else {
      var o :| 0 <= o <= order && Half(blocks - 1, o) >= 8 * SizeAt(blocks, o);
      FitsAt(blocks, o);
    }
  }

  // ----- what the bits should say

  /** Some block of buddy i of order o is used. */
  ghost predicate InUse(used: set<nat>, o: nat, i: nat) {
    if o == 0 then i in used else InUse(used, o - 1, 2 * i) || InUse(used, o - 1, 2 * i + 1)
  }

  lemma {:induction false} InUseMeans(used: set<nat>, o: nat, i: nat)
    ensures InUse(used, o, i) <==> exists b :: b in used && First(o, i) <= b < First(o, i + 1)
  {
    if o > 0 {
      hide First;
      InUseMeans(used, o - 1, 2 * i);
      InUseMeans(used, o - 1, 2 * i + 1);
      FirstOfHalves(o, i);
      FirstOfHalves(o, i + 1);
      FirstIsMonotone(o - 1, 2 * i, 2 * i + 1);
      FirstIsMonotone(o - 1, 2 * i + 1, 2 * i + 2);
    } else {
      assert First(0, i) == i && First(0, i + 1) == i + 1;
    }
  }

  lemma {:induction false} InUseOfNone(o: nat, i: nat)
    ensures !InUse({}, o, i)
  {
    if o > 0 {
      InUseOfNone(o - 1, 2 * i);
      InUseOfNone(o - 1, 2 * i + 1);
    }
  }

  function Get(bits: Bits, n: nat): bool {
    n < |bits| && bits[n]
  }

  /** One level says of each of its buddies whether a block of it is used. */
  ghost predicate LevelSays(bits: Bits, l: Layout, o: nat, used: set<nat>) {
    forall i :: 0 <= i < 8 * SizeAt(l.blocks, o) ==> (Get(bits, l.Bit(o, i)) <==> InUse(used, o, i))
  }

  /** Every level does: the invariant of the hierarchy. */
  ghost predicate Summary(bits: Bits, l: Layout, used: set<nat>) {
    forall o :: 0 <= o <= l.order ==> LevelSays(bits, l, o, used)
  }

  /** Levels below o already say `now`, the others still say `was`. */
  ghost predicate Between(bits: Bits, l: Layout, o: nat, was: set<nat>, now: set<nat>) {
    && (forall p :: 0 <= p < o && p <= l.order ==> LevelSays(bits, l, p, now))
    && (forall p :: o <= p <= l.order ==> LevelSays(bits, l, p, was))
  }

  /** Only bits of level o differ. */
  ghost predicate OnlyLevel(bits: Bits, after: Bits, l: Layout, o: nat) {
    && |after| == |bits|
    && forall n :: 0 <= n < |bits| && after[n] != bits[n] ==> l.Bit(o, 0) <= n < l.Bit(o + 1, 0)
  }

  /** No bit outside the bitmaps differs. */
  ghost predicate OnlyLevels(bits: Bits, after: Bits, l: Layout) {
    && |after| == |bits|
    && forall n :: 0 <= n < |bits| && after[n] != bits[n] ==> l.Bit(0, 0) <= n < 8 * l.End()
  }

  lemma StartsGrow(l: Layout, o: nat, p: nat)
    requires o <= p
    ensures l.Start(o) <= l.Start(p)
  {
    LevelBytesGrow(l.blocks, o, p);
  }

  lemma OtherLevelsStay(bits: Bits, after: Bits, l: Layout, o: nat, p: nat, used: set<nat>)
    requires OnlyLevel(bits, after, l, o) && p != o && LevelSays(bits, l, p, used)
    ensures LevelSays(after, l, p, used)
  {
    if p < o {
      StartsGrow(l, p + 1, o);
    } else {
      StartsGrow(l, o + 1, p);
    }
    forall i | 0 <= i < 8 * SizeAt(l.blocks, p)
      ensures Get(after, l.Bit(p, i)) <==> InUse(used, p, i)
    {
      var n := l.Bit(p, i);
      assert l.Bit(p + 1, 0) == l.Bit(p, 0) + 8 * SizeAt(l.blocks, p);
      assert Get(after, n) == Get(bits, n);
    }
  }

  lemma OneLevelOn(bits: Bits, after: Bits, l: Layout, o: nat, was: set<nat>, now: set<nat>)
    requires o <= l.order && Between(bits, l, o, was, now)
    requires OnlyLevel(bits, after, l, o) && LevelSays(after, l, o, now)
    ensures Between(after, l, o + 1, was, now)
  {
    hide LevelSays, OnlyLevel, SizeAt;
    forall p | 0 <= p < o ensures LevelSays(after, l, p, now) {
      OtherLevelsStay(bits, after, l, o, p, now);
    }
    forall p | o < p <= l.order ensures LevelSays(after, l, p, was) {
      OtherLevelsStay(bits, after, l, o, p, was);
    }
  }

  lemma OnlyLevelsAlong(bits: Bits, mid: Bits, after: Bits, l: Layout, o: nat)
    requires o <= l.order && OnlyLevel(bits, mid, l, o) && OnlyLevels(mid, after, l)
    ensures OnlyLevels(bits, after, l)
  {
    StartsGrow(l, 0, o);
    StartsGrow(l, o + 1, l.order + 1);
  }

  // ----- buddy_alloc on bits

  function SetBits(bits: Bits, from: nat, end: nat): (after: Bits)
    ensures |after| == |bits|
  {
    seq(|bits|, n requires 0 <= n < |bits| => bits[n] || from <= n < end)
  }

  function Marked(bits: Bits, l: Layout, o: nat, first: nat, last: nat): (after: Bits)
    ensures |after| == |bits|
    decreases l.order + 1 - o
  {
    if o > l.order then bits
    else Marked(SetBits(bits, l.Bit(o, first), l.Bit(o, last + 1)), l, o + 1, first / 2, last / 2)
  }

  function Range(offset: nat, count: nat): (r: set<nat>)
    ensures forall b :: b in r <==> offset <= b < offset + count
  {
    if count == 0 then {} else Range(offset, count - 1) + {offset + count - 1}
  }

  /** The range makes exactly the buddies from first >> o to last >> o used. */
  lemma {:induction false} InUseAfterTaking(used: set<nat>, first: nat, last: nat, o: nat, i: nat)
    requires first <= last
    ensures InUse(used + Range(first, last - first + 1), o, i) <==>
              InUse(used, o, i) || Half(first, o) <= i <= Half(last, o)
  {
    if o > 0 {
      InUseAfterTaking(used, first, last, o - 1, 2 * i);
      InUseAfterTaking(used, first, last, o - 1, 2 * i + 1);
      HalfIsMonotone(first, last, o - 1);
    }
  }

  lemma SetOnlyLevel(bits: Bits, l: Layout, o: nat, f: nat, t: nat)
    requires t < 8 * SizeAt(l.blocks, o)
    ensures OnlyLevel(bits, SetBits(bits, l.Bit(o, f), l.Bit(o, t + 1)), l, o)
  {
    assert l.Start(o + 1) == l.Start(o) + SizeAt(l.blocks, o);
    hide SizeAt, LevelBytes;
  }

  lemma SetGet(bits: Bits, l: Layout, o: nat, f: nat, t: nat, i: nat)
    requires l.Bit(o, i) < |bits|
    ensures Get(SetBits(bits, l.Bit(o, f), l.Bit(o, t + 1)), l.Bit(o, i)) <==> Get(bits, l.Bit(o, i)) || f <= i <= t
  {
    hide SizeAt, LevelBytes;
  }

  lemma InsideLevel(l: Layout, o: nat, i: nat)
    requires o <= l.order && i < 8 * SizeAt(l.blocks, o)
    ensures l.Bit(0, 0) <= l.Bit(o, i) < l.Bit(o + 1, 0) <= 8 * l.End()
  {
    StartsGrow(l, 0, o);
    StartsGrow(l, o + 1, l.order + 1);
    assert l.Start(o + 1) == l.Start(o) + SizeAt(l.blocks, o);
    hide SizeAt, LevelBytes;
  }

  lemma MarkLevel(bits: Bits, l: Layout, o: nat, first: nat, last: nat, used: set<nat>)
    requires l.Proper() && Fits(l.blocks, l.order) && o <= l.order && 8 * l.End() <= |bits|
    requires first <= last < l.blocks && LevelSays(bits, l, o, used)
    ensures var after := SetBits(bits, l.Bit(o, Half(first, o)), l.Bit(o, Half(last, o) + 1));
            && OnlyLevel(bits, after, l, o)
            && LevelSays(after, l, o, used + Range(first, last - first + 1))
  {
    hide Half, SizeAt, LevelBytes, Get, SetBits, OnlyLevel, Log2, InUse;
    HalfIsMonotone(last, l.blocks - 1, o);
    SetOnlyLevel(bits, l, o, Half(first, o), Half(last, o));
    var after := SetBits(bits, l.Bit(o, Half(first, o)), l.Bit(o, Half(last, o) + 1));
    forall i | 0 <= i < 8 * SizeAt(l.blocks, o)
      ensures Get(after, l.Bit(o, i)) <==> InUse(used + Range(first, last - first + 1), o, i)
    {
      InsideLevel(l, o, i);
      SetGet(bits, l, o, Half(first, o), Half(last, o), i);
      InUseAfterTaking(used, first, last, o, i);
    }
  }

  lemma {:induction false} MarkedSays(bits: Bits, l: Layout, o: nat, first: nat, last: nat, used: set<nat>)
    requires l.Proper() && Fits(l.blocks, l.order) && 8 * l.End() <= |bits| && o <= l.order + 1
    requires first <= last < l.blocks
    requires Between(bits, l, o, used, used + Range(first, last - first + 1))
    ensures var after := Marked(bits, l, o, Half(first, o), Half(last, o));
            && Summary(after, l, used + Range(first, last - first + 1))
            && OnlyLevels(bits, after, l)
    decreases l.order + 1 - o
  {
    hide LevelSays, Fits, OnlyLevel, SizeAt, SetBits;
    if o <= l.order {
      var mid := SetBits(bits, l.Bit(o, Half(first, o)), l.Bit(o, Half(last, o) + 1));
      MarkLevel(bits, l, o, first, last, used);
      OneLevelOn(bits, mid, l, o, used, used + Range(first, last - first + 1));
      MarkedSays(mid, l, o + 1, first, last, used);
      OnlyLevelsAlong(bits, mid, Marked(mid, l, o + 1, Half(first, o + 1), Half(last, o + 1)), l, o);
    }
  }

  /** buddy_alloc is set union. */
  lemma AllocIsUnion(bits: Bits, l: Layout, offset: nat, count: nat, used: set<nat>)
    requires l.Proper() && Fits(l.blocks, l.order) && 8 * l.End() <= |bits|
    requires count > 0 && offset + count <= l.blocks && Summary(bits, l, used)
    ensures var after := Marked(bits, l, 0, offset, offset + count - 1);
            Summary(after, l, used + Range(offset, count)) && OnlyLevels(bits, after, l)
  {
    hide LevelSays, Fits, SizeAt, LevelBytes, Log2, OnlyLevels, Marked;
    MarkedSays(bits, l, 0, offset, offset + count - 1, used);
  }

  // ----- buddy_free on bits

  /** Clears buddy i of order o unless one of its halves is still used. */
  function ClearIfIdle(bits: Bits, l: Layout, o: nat, i: nat): (after: Bits)
    requires o > 0
    ensures |after| == |bits|
  {
    if Get(bits, l.Bit(o - 1, 2 * i)) || Get(bits, l.Bit(o - 1, 2 * i + 1)) || |bits| <= l.Bit(o, i) then bits
    else bits[l.Bit(o, i) := false]
  }

  function ClearIdle(bits: Bits, l: Layout, o: nat, first: nat, end: nat): (after: Bits)
    requires o > 0
    ensures |after| == |bits|
  {
    if end <= first then bits
    else ClearIfIdle(ClearIdle(bits, l, o, first, end - 1), l, o, end - 1)
  }

  function ClearBits(bits: Bits, from: nat, end: nat): (after: Bits)
    ensures |after| == |bits|
  {
    seq(|bits|, n requires 0 <= n < |bits| => bits[n] && !(from <= n < end))
  }

  function Cleared(bits: Bits, l: Layout, o: nat, first: nat, last: nat): (after: Bits)
    ensures |after| == |bits|
    decreases l.order + 1 - o
  {
    if o > l.order then bits
    else if o == 0 then Cleared(ClearBits(bits, l.Bit(0, first), l.Bit(0, last + 1)), l, 1, first / 2, last / 2)
    else Cleared(ClearIdle(bits, l, o, first, last + 1), l, o + 1, first / 2, last / 2)
  }

  /** A buddy the range does not meet stays as it was. */
  lemma {:induction false} InUseElsewhere(used: set<nat>, first: nat, last: nat, o: nat, i: nat)
    requires first <= last && !(Half(first, o) <= i <= Half(last, o))
    ensures InUse(used - Range(first, last - first + 1), o, i) <==> InUse(used, o, i)
  {
    if o > 0 {
      InUseElsewhere(used, first, last, o - 1, 2 * i);
      InUseElsewhere(used, first, last, o - 1, 2 * i + 1);
    }
  }

  lemma ClearBottom(bits: Bits, l: Layout, first: nat, last: nat, used: set<nat>)
    requires l.Proper() && Fits(l.blocks, l.order) && 8 * l.End() <= |bits|
    requires first <= last < l.blocks && LevelSays(bits, l, 0, used)
    ensures var after := ClearBits(bits, l.Bit(0, first), l.Bit(0, last + 1));
            OnlyLevel(bits, after, l, 0) && LevelSays(after, l, 0, used - Range(first, last - first + 1))
  {
    assert Half(l.blocks - 1, 0) == l.blocks - 1;
    StartsGrow(l, 1, l.order + 1);
    var after := ClearBits(bits, l.Bit(0, first), l.Bit(0, last + 1));
    assert l.Bit(1, 0) == l.Bit(0, 0) + 8 * SizeAt(l.blocks, 0);
    forall i | 0 <= i < 8 * SizeAt(l.blocks, 0)
      ensures Get(after, l.Bit(0, i)) <==> InUse(used - Range(first, last - first + 1), 0, i)
    {
    }
  }

  /** Level o after the buddies below `end` have been looked at. */
  ghost predicate PartlySays(bits: Bits, l: Layout, o: nat, first: nat, end: nat, was: set<nat>, now: set<nat>) {
    forall i :: 0 <= i < 8 * SizeAt(l.blocks, o) ==>
      (Get(bits, l.Bit(o, i)) <==> InUse(if first <= i < end then now else was, o, i))
  }

  /** A buddy before the last of its level has both halves inside the level below. */
  lemma HalvesInLevel(l: Layout, o: nat, i: nat)
    requires l.Proper() && Fits(l.blocks, l.order) && 0 < o <= l.order && i <= Half(l.blocks - 1, o)
    ensures 2 * i + 1 < 8 * SizeAt(l.blocks, o - 1)
  {
    hide SizeAt, Log2;
    assert Half(l.blocks - 1, o - 1) < 8 * SizeAt(l.blocks, o - 1);
    assert 2 * i <= Half(l.blocks - 1, o - 1);
  }

  lemma ClearOne(bits: Bits, l: Layout, o: nat, first: nat, end: nat, was: set<nat>, now: set<nat>)
    requires l.Proper() && Fits(l.blocks, l.order) && 0 < o <= l.order && 8 * l.End() <= |bits|
    requires first <= end <= Half(l.blocks - 1, o)
    requires forall b :: b in now ==> b in was
    requires LevelSays(bits, l, o - 1, now) && PartlySays(bits, l, o, first, end, was, now)
    ensures var after := ClearIfIdle(bits, l, o, end);
            OnlyLevel(bits, after, l, o) && PartlySays(after, l, o, first, end + 1, was, now)
  {
    HalvesInLevel(l, o, end);
    InUseShrinks(was, now, o, end);
    StartsGrow(l, o + 1, l.order + 1);
    assert l.Bit(o + 1, 0) == l.Bit(o, 0) + 8 * SizeAt(l.blocks, o);
    assert InUse(now, o, end) <==> Get(bits, l.Bit(o - 1, 2 * end)) || Get(bits, l.Bit(o - 1, 2 * end + 1));
    assert Get(bits, l.Bit(o, end)) <==> InUse(was, o, end);
  }

  lemma {:induction false} InUseShrinks(was: set<nat>, now: set<nat>, o: nat, i: nat)
    requires forall b :: b in now ==> b in was
    ensures InUse(now, o, i) ==> InUse(was, o, i)
  {
    if o > 0 {
      InUseShrinks(was, now, o - 1, 2 * i);
      InUseShrinks(was, now, o - 1, 2 * i + 1);
    }
  }

  lemma OnlyLevelTwice(a: Bits, b: Bits, c: Bits, l: Layout, o: nat)
    requires OnlyLevel(a, b, l, o) && OnlyLevel(b, c, l, o)
    ensures OnlyLevel(a, c, l, o)
  {
  }

  lemma {:induction false} ClearIdleSays(bits: Bits, l: Layout, o: nat, first: nat, end: nat, was: set<nat>,
                                         now: set<nat>)
    requires l.Proper() && Fits(l.blocks, l.order) && 0 < o <= l.order && 8 * l.End() <= |bits|
    requires first <= end <= Half(l.blocks - 1, o) + 1
    requires forall b :: b in now ==> b in was
    requires LevelSays(bits, l, o - 1, now) && LevelSays(bits, l, o, was)
    ensures var after := ClearIdle(bits, l, o, first, end);
            OnlyLevel(bits, after, l, o) && PartlySays(after, l, o, first, end, was, now)
  {
    hide SizeAt, LevelBytes, Log2, Half, InUse, ClearIfIdle;
    if first < end {
      var before := ClearIdle(bits, l, o, first, end - 1);
      ClearIdleSays(bits, l, o, first, end - 1, was, now);
      hide Fits, PartlySays, OnlyLevel;
      OtherLevelsStay(bits, before, l, o, o - 1, now);
      hide LevelSays;
      ClearOne(before, l, o, first, end - 1, was, now);
      OnlyLevelTwice(bits, before, ClearIfIdle(before, l, o, end - 1), l, o);
    }
  }

  lemma PartlyIsWholly(bits: Bits, l: Layout, o: nat, first: nat, last: nat, used: set<nat>)
    requires first <= last
    requires PartlySays(bits, l, o, Half(first, o), Half(last, o) + 1, used, used - Range(first, last - first + 1))
    ensures LevelSays(bits, l, o, used - Range(first, last - first + 1))
  {
    hide Half, SizeAt, LevelBytes, Get, InUse;
    forall i | 0 <= i < 8 * SizeAt(l.blocks, o)
      ensures Get(bits, l.Bit(o, i)) <==> InUse(used - Range(first, last - first + 1), o, i)
    {
      if !(Half(first, o) <= i <= Half(last, o)) {
        InUseElsewhere(used, first, last, o, i);
      }
    }
  }

  lemma ClearLevel(bits: Bits, l: Layout, o: nat, first: nat, last: nat, used: set<nat>)
    requires l.Proper() && Fits(l.blocks, l.order) && 0 < o <= l.order && 8 * l.End() <= |bits|
    requires first <= last < l.blocks && LevelSays(bits, l, o, used)
    requires LevelSays(bits, l, o - 1, used - Range(first, last - first + 1))
    ensures var after := ClearIdle(bits, l, o, Half(first, o), Half(last, o) + 1);
            OnlyLevel(bits, after, l, o) && LevelSays(after, l, o, used - Range(first, last - first + 1))
  {
    hide *;
    var now := used - Range(first, last - first + 1);
    assert forall b :: b in now ==> b in used;
    HalfIsMonotone(first, last, o);
    HalfIsMonotone(last, l.blocks - 1, o);
    ClearIdleSays(bits, l, o, Half(first, o), Half(last, o) + 1, used, now);
    PartlyIsWholly(ClearIdle(bits, l, o, Half(first, o), Half(last, o) + 1), l, o, first, last, used);
  }

  lemma {:induction false} ClearedSays(bits: Bits, l: Layout, o: nat, first: nat, last: nat, used: set<nat>)
    requires l.Proper() && Fits(l.blocks, l.order) && 8 * l.End() <= |bits| && o <= l.order + 1
    requires first <= last < l.blocks
    requires Between(bits, l, o, used, used - Range(first, last - first + 1))
    ensures var after := Cleared(bits, l, o, Half(first, o), Half(last, o));
            && Summary(after, l, used - Range(first, last - first + 1))
            && OnlyLevels(bits, after, l)
    decreases l.order + 1 - o
  {
    hide LevelSays, Fits, OnlyLevel, SizeAt, ClearBits, ClearIdle;
    if o <= l.order {
      var f, t := Half(first, o), Half(last, o);
      var mid := if o == 0 then ClearBits(bits, l.Bit(0, f), l.Bit(0, t + 1)) else ClearIdle(bits, l, o, f, t + 1);
      if o == 0 {
        ClearBottom(bits, l, first, last, used);
      } else {
        ClearLevel(bits, l, o, first, last, used);
      }
      OneLevelOn(bits, mid, l, o, used, used - Range(first, last - first + 1));
      ClearedSays(mid, l, o + 1, first, last, used);
      OnlyLevelsAlong(bits, mid, Cleared(mid, l, o + 1, Half(first, o + 1), Half(last, o + 1)), l, o);
    }
  }

  /** buddy_free is set difference. */
  lemma FreeIsDifference(bits: Bits, l: Layout, offset: nat, count: nat, used: set<nat>)
    requires l.Proper() && Fits(l.blocks, l.order) && 8 * l.End() <= |bits|
    requires count > 0 && offset + count <= l.blocks && Summary(bits, l, used)
    ensures var after := Cleared(bits, l, 0, offset, offset + count - 1);
            Summary(after, l, used - Range(offset, count)) && OnlyLevels(bits, after, l)
  {
    hide LevelSays, Fits, SizeAt, LevelBytes, Log2, OnlyLevels, Cleared;
    ClearedSays(bits, l, 0, offset, offset + count - 1, used);
  }

  // ----- buddy_find on bits

  /** The least order below 31 whose buddies hold count blocks, or 31. */
  function RequiredOrder(count: nat, from: nat): (o: nat)
    requires from <= 31
    ensures from <= o <= 31
    ensures o < 31 ==> count <= Pow2(o)
    ensures from < o ==> Pow2(o - 1) < count
    decreases 31 - from
  {
    if from == 31 || count <= Pow2(from) then from else RequiredOrder(count, from + 1)
  }

  /** The order buddy_find looks at for a number of blocks. */
  function SearchOrder(l: Layout, count: nat): nat {
    if RequiredOrder(count, 0) > l.order then l.order else RequiredOrder(count, 0)
  }

  /** How many neighbouring buddies of that order it wants. */
  function SearchLength(l: Layout, count: nat): (n: nat)
    requires count > 0
    ensures n > 0
  {
    QuotientIsNat(count - 1, Pow2(l.order));
    if RequiredOrder(count, 0) > l.order then (count - 1) / Pow2(l.order) + 1 else 1
  }

  /** Buddies i to i + n - 1 of order o are marked free. */
  ghost predicate RunFree(bits: Bits, l: Layout, o: nat, i: nat, n: nat) {
    forall j :: i <= j < i + n ==> !Get(bits, l.Bit(o, j))
  }

  /** What buddy_find answers: the first run that is free. */
  ghost predicate Finds(bits: Bits, l: Layout, o: nat, n: nat, i: nat) {
    && i + n <= CountAt(l.blocks, o)
    && RunFree(bits, l, o, i, n)
    && forall k :: 0 <= k < i ==> !RunFree(bits, l, o, k, n)
  }

  ghost predicate FindsNone(bits: Bits, l: Layout, o: nat, n: nat) {
    forall i :: 0 <= i && i + n <= CountAt(l.blocks, o) ==> !RunFree(bits, l, o, i, n)
  }

  lemma OrderInRange(l: Layout, count: nat)
    ensures SearchOrder(l, count) <= l.order
  {
  }

  lemma SearchCovers(l: Layout, count: nat)
    requires count > 0 && l.order < 31
    ensures count <= First(SearchOrder(l, count), SearchLength(l, count))
  {
    hide Pow2, RequiredOrder;
    if RequiredOrder(count, 0) > l.order {
      RoundedUpCovers(count, Pow2(l.order));
      assert SearchOrder(l, count) == l.order;
      assert SearchLength(l, count) == (count - 1) / Pow2(l.order) + 1;
    } else {
      assert First(SearchOrder(l, count), SearchLength(l, count)) == Pow2(RequiredOrder(count, 0));
    }
  }

  lemma RoundedUpCovers(count: nat, p: nat)
    requires count > 0 && p > 0
    ensures count <= ((count - 1) / p + 1) * p
  {
    var q := (count - 1) / p;
    assert count - 1 == p * q + (count - 1) % p;
    assert (q + 1) * p == p * q + p;
  }

  /** Block b lies in buddy b >> o. */
  lemma BuddyOfBlock(b: nat, o: nat)
    ensures First(o, Half(b, o)) <= b < First(o, Half(b, o) + 1)
  {
    HalfDivides(b, o);
    hide Pow2, Half;
    assert b == Pow2(o) * (b / Pow2(o)) + b % Pow2(o);
    assert (b / Pow2(o) + 1) * Pow2(o) == Pow2(o) * (b / Pow2(o)) + Pow2(o);
  }

  lemma BuddyWithin(b: nat, o: nat, i: nat, n: nat)
    requires First(o, i) <= b < First(o, i + n)
    ensures i <= Half(b, o) < i + n
  {
    hide First, Half;
    BuddyOfBlock(b, o);
    if Half(b, o) < i {
      FirstIsMonotone(o, Half(b, o) + 1, i);
    }
    if Half(b, o) >= i + n {
      FirstIsMonotone(o, i + n, Half(b, o));
    }
  }

  /** k whole buddies exist exactly if they end with the last block or before. */
  lemma WholeBuddies(blocks: nat, o: nat, k: nat)
    ensures First(o, k) <= blocks <==> k <= CountAt(blocks, o)
  {
    hide Pow2;
    var count := CountAt(blocks, o);
    assert blocks == Pow2(o) * count + blocks % Pow2(o);
    assert First(o, count) <= blocks < First(o, count + 1) by {
      FirstIsAdditive(o, count, 1);
    }
    if k <= count {
      FirstIsMonotone(o, k, count);
    } else {
      FirstIsMonotone(o, count + 1, k);
    }
  }

  /** A block of buddies i to i + n - 1 of order o is used. */
  ghost predicate RunTaken(used: set<nat>, o: nat, i: nat, n: nat) {
    exists b :: b in used && First(o, i) <= b < First(o, i + n)
  }

  lemma BitSays(bits: Bits, l: Layout, o: nat, i: nat, used: set<nat>)
    requires l.Proper() && o <= l.order && i < CountAt(l.blocks, o) && Summary(bits, l, used)
    ensures Get(bits, l.Bit(o, i)) <==> InUse(used, o, i)
  {
    assert LevelSays(bits, l, o, used);
  }

  /** A run of buddies is marked free exactly if no block of it is used. */
  lemma RunFreeMeans(bits: Bits, l: Layout, o: nat, i: nat, n: nat, used: set<nat>)
    requires l.Proper() && o <= l.order && i + n <= CountAt(l.blocks, o) && Summary(bits, l, used)
    ensures RunFree(bits, l, o, i, n) <==> !RunTaken(used, o, i, n)
  {
    hide Summary, First, Half, LevelSays, InUse, Get, CountAt, Log2;
    if RunTaken(used, o, i, n) {
      var b :| b in used && First(o, i) <= b < First(o, i + n);
      BuddyWithin(b, o, i, n);
      BuddyOfBlock(b, o);
      InUseMeans(used, o, Half(b, o));
      BitSays(bits, l, o, Half(b, o), used);
    }
    forall j | i <= j < i + n && Get(bits, l.Bit(o, j)) ensures RunTaken(used, o, i, n) {
      BitSays(bits, l, o, j, used);
      InUseMeans(used, o, j);
      FirstIsMonotone(o, i, j);
      FirstIsMonotone(o, j + 1, i + n);
    }
  }

  /** A found offset is aligned, its range ends with the last block or before, and is free. */
  lemma FindIsSound(bits: Bits, l: Layout, count: nat, o: nat, n: nat, i: nat, used: set<nat>)
    requires l.Proper() && count > 0 && Summary(bits, l, used)
    requires o == SearchOrder(l, count) && n == SearchLength(l, count)
    requires Finds(bits, l, o, n, i)
    ensures First(o, i) + count <= l.blocks
    ensures Range(First(o, i), count) !! used
  {
    hide First, RequiredOrder, RunFree, Summary, SearchOrder, SearchLength, CountAt;
    SearchCovers(l, count);
    OrderInRange(l, count);
    RunFreeMeans(bits, l, o, i, n, used);
    WholeBuddies(l.blocks, o, i + n);
    FirstIsAdditive(o, i, n);
  }

  /** It fails exactly if a used block lies in each run of enough whole buddies. */
  lemma FindIsExact(bits: Bits, l: Layout, o: nat, n: nat, used: set<nat>)
    requires l.Proper() && o <= l.order && Summary(bits, l, used)
    ensures FindsNone(bits, l, o, n) <==>
              forall i: nat :: First(o, i + n) <= l.blocks ==> RunTaken(used, o, i, n)
  {
    hide First, RunFree, RunTaken, Summary, CountAt;
    forall i: nat | i + n <= CountAt(l.blocks, o) ensures RunFree(bits, l, o, i, n) <==> !RunTaken(used, o, i, n) {
      RunFreeMeans(bits, l, o, i, n, used);
    }
    if FindsNone(bits, l, o, n) {
      forall i: nat | First(o, i + n) <= l.blocks ensures RunTaken(used, o, i, n) {
        WholeBuddies(l.blocks, o, i + n);
      }
    } else {
      var i: nat :| i + n <= CountAt(l.blocks, o) && RunFree(bits, l, o, i, n);
      WholeBuddies(l.blocks, o, i + n);
      assert !RunTaken(used, o, i, n);
    }
  }

  // ----- what buddy_find has to answer

  ghost predicate UsedBetween(used: set<nat>, first: nat, end: nat) {
    exists b :: b in used && first <= b < end
  }

  /** If n buddies of order p from buddy i on are whole, a block of them is used. */
  ghost predicate RowTaken(used: set<nat>, blocks: nat, p: nat, i: nat, n: nat) {
    (i + n) * Pow2(p) <= blocks ==> UsedBetween(used, i * Pow2(p), (i + n) * Pow2(p))
  }

  /** n buddies of an order are enough for count blocks, and fewer are not. */
  predicate IsEnough(order: nat, count: nat, n: nat) {
    n > 0 && (n - 1) * Pow2(order) < count <= n * Pow2(order)
  }

  /** There is no room for count blocks: a used block lies in each whole buddy that is long enough,
      and if the largest are not, in each row of as many of those as it takes. */
  ghost predicate NoneFree(used: set<nat>, blocks: nat, order: nat, count: nat) {
    && (forall p: nat, i: nat :: p <= order && count <= Pow2(p) ==> RowTaken(used, blocks, p, i, 1))
    && (count > Pow2(order) ==>
          forall i: nat, n: nat :: IsEnough(order, count, n) ==> RowTaken(used, blocks, order, i, n))
  }

  lemma {:induction false} Pow2IsMonotone(p: nat, q: nat)
    requires p <= q
    ensures Pow2(p) <= Pow2(q)
    decreases q
  {
    if p < q {
      Pow2IsMonotone(p, q - 1);
    }
  }

  lemma {:induction false} RequiredIsLeast(count: nat, from: nat, p: nat)
    requires from <= p < 31 && count <= Pow2(p)
    ensures RequiredOrder(count, from) <= p
    decreases 31 - from
  {
    if count > Pow2(from) {
      RequiredIsLeast(count, from + 1, p);
    }
  }

  /** Buddy i of order p begins with a buddy of each order below. */
  lemma {:induction false} FirstWithin(p: nat, q: nat, i: nat) returns (j: nat)
    requires q <= p
    ensures j * Pow2(q) == i * Pow2(p) && (j + 1) * Pow2(q) <= (i + 1) * Pow2(p)
    decreases p
  {
    if q == p {
      j := i;
    } else {
      assert i * (2 * Pow2(p - 1)) == (2 * i) * Pow2(p - 1);
      assert (2 * i + 1) * Pow2(p - 1) <= (i + 1) * (2 * Pow2(p - 1)) by {
        assert (i + 1) * (2 * Pow2(p - 1)) == (2 * i + 1) * Pow2(p - 1) + Pow2(p - 1);
      }
      j := FirstWithin(p - 1, q, 2 * i);
    }
  }

  lemma LongerIsTaken(used: set<nat>, blocks: nat, p: nat, q: nat, i: nat)
    requires q <= p && forall j: nat :: RowTaken(used, blocks, q, j, 1)
    ensures RowTaken(used, blocks, p, i, 1)
  {
    hide Pow2;
    var j := FirstWithin(p, q, i);
    assert RowTaken(used, blocks, q, j, 1);
  }

  lemma RowLengthIs(count: nat, p: nat, n: nat)
    requires count > 0 && p > 0 && n > 0
    ensures (n - 1) * p < count <= n * p <==> n == (count - 1) / p + 1
  {
    var q, r := (count - 1) / p, (count - 1) % p;
    assert count - 1 == p * q + r;
    assert n - 1 < q ==> n * p <= q * p;
    assert n - 1 > q ==> (q + 1) * p <= (n - 1) * p;
  }

  /** buddy_find fails exactly if there is no room. */
  lemma FailsIff(bits: Bits, l: Layout, count: nat, used: set<nat>)
    requires l.Proper() && count > 0 && Summary(bits, l, used)
    ensures FindsNone(bits, l, SearchOrder(l, count), SearchLength(l, count)) <==>
              NoneFree(used, l.blocks, l.order, count)
  {
    var o, n := SearchOrder(l, count), SearchLength(l, count);
    hide Summary, FindsNone, RequiredOrder, Pow2;
    FindIsExact(bits, l, o, n, used);
    assert FindsNone(bits, l, o, n) <==> forall i: nat :: RowTaken(used, l.blocks, o, i, n) by {
      RowsTaken(used, l.blocks, o, n);
    }
    if count <= Pow2(l.order) {
      RequiredIsLeast(count, 0, l.order);
      SearchesShort(used, l, count);
    } else {
      SearchesLong(used, l, count);
    }
  }

  lemma RowsTaken(used: set<nat>, blocks: nat, o: nat, n: nat)
    ensures (forall i: nat :: First(o, i + n) <= blocks ==> RunTaken(used, o, i, n)) <==>
            (forall i: nat :: RowTaken(used, blocks, o, i, n))
  {
    hide Pow2;
    forall i: nat ensures RowTaken(used, blocks, o, i, n) <==> (First(o, i + n) <= blocks ==> RunTaken(used, o, i, n)) {
    }
  }

  lemma SearchesShort(used: set<nat>, l: Layout, count: nat)
    requires l.Proper() && 0 < count <= Pow2(l.order) && RequiredOrder(count, 0) <= l.order
    ensures (forall i: nat :: RowTaken(used, l.blocks, SearchOrder(l, count), i, SearchLength(l, count))) <==>
              NoneFree(used, l.blocks, l.order, count)
  {
    hide Pow2, RowTaken, RequiredOrder;
    var o := RequiredOrder(count, 0);
    assert SearchOrder(l, count) == o && SearchLength(l, count) == 1 && count <= Pow2(o);
    hide SearchOrder, SearchLength;
    if forall i: nat :: RowTaken(used, l.blocks, o, i, 1) {
      forall p: nat, i: nat | p <= l.order && count <= Pow2(p) ensures RowTaken(used, l.blocks, p, i, 1) {
        RequiredIsLeast(count, 0, p);
        LongerIsTaken(used, l.blocks, p, o, i);
      }
    }
  }

  lemma SearchesLong(used: set<nat>, l: Layout, count: nat)
    requires l.Proper() && count > Pow2(l.order)
    ensures (forall i: nat :: RowTaken(used, l.blocks, SearchOrder(l, count), i, SearchLength(l, count))) <==>
              NoneFree(used, l.blocks, l.order, count)
  {
    hide Pow2, RowTaken, RequiredOrder;
    if RequiredOrder(count, 0) <= l.order {
      Pow2IsMonotone(RequiredOrder(count, 0), l.order);
    }
    var n := SearchLength(l, count);
    assert SearchOrder(l, count) == l.order && n == (count - 1) / Pow2(l.order) + 1;
    hide SearchOrder, SearchLength;
    forall p: nat | p <= l.order ensures count > Pow2(p) {
      Pow2IsMonotone(p, l.order);
    }
    RowsOfOneLength(used, l.blocks, l.order, count, n);
  }

  lemma RowsOfOneLength(used: set<nat>, blocks: nat, order: nat, count: nat, n: nat)
    requires count > 0 && n > 0 && n == (count - 1) / Pow2(order) + 1
    ensures (forall i: nat :: RowTaken(used, blocks, order, i, n)) <==>
            (forall i: nat, m: nat :: IsEnough(order, count, m) ==> RowTaken(used, blocks, order, i, m))
  {
    hide Pow2, RowTaken;
    RowLengthIs(count, Pow2(order), n);
    forall m: nat | IsEnough(order, count, m) ensures m == n {
      RowLengthIs(count, Pow2(order), m);
    }
  }

  /** One block has room exactly if a block is not used. */
  lemma OneHasRoomIff(used: set<nat>, blocks: nat, order: nat)
    ensures NoneFree(used, blocks, order, 1) <==> forall b :: 0 <= b < blocks ==> b in used
  {
    if NoneFree(used, blocks, order, 1) {
      forall b | 0 <= b < blocks ensures b in used {
        assert RowTaken(used, blocks, 0, b, 1);
      }
    }
    if forall b :: 0 <= b < blocks ==> b in used {
      forall p: nat, i: nat ensures RowTaken(used, blocks, p, i, 1) {
        hide Pow2;
        assert (i + 1) * Pow2(p) == i * Pow2(p) + Pow2(p);
        assert i * Pow2(p) < blocks ==> i * Pow2(p) in used;
      }
    }
  }

  /** The order of a bitmap: the largest with a whole buddy, up to a limit. */
  lemma PossibleOrderIs(blocks: nat, most: nat)
    requires blocks > 0
    ensures var o := PossibleOrder(blocks, most);
            o <= most && Pow2(o) <= blocks && (o < most ==> blocks < 2 * Pow2(o))
  {
    hide Log2, Half, Pow2;
    var o := PossibleOrder(blocks, most);
    WholeBuddyUpToLog2(blocks, o);
    WholeBuddyUpToLog2(blocks, o + 1);
    HalfDivides(blocks, o);
    HalfDivides(blocks, o + 1);
    AtLeastOne(blocks, Pow2(o));
    AtLeastOne(blocks, Pow2(o + 1));
    assert Pow2(o + 1) == 2 * Pow2(o) by {
      TwiceAsLong(o);
    }
  }

  lemma TwiceAsLong(o: nat)
    ensures Pow2(o + 1) == 2 * Pow2(o)
  {
  }

  lemma AtLeastOne(x: nat, p: nat)
    requires p > 0
    ensures x / p > 0 <==> p <= x
  {
    assert x == p * (x / p) + x % p;
  }
}
