/** kernel/src/memory/buddy_alloc.c: bitmaps kept as bytes inside the memory they manage. */
module BuddyAlloc {
  import opened Basics
  import opened BuddyBits

  // ----- bits of a byte

  /** (b >> k) & 1 */
  function TestBit(b: bv8, k: nat): bool
    requires k < 8
  {
    ((b >> k) & 1) != 0
  }

  /** b | (1 << k) */
  function WithBit(b: bv8, k: nat): bv8
    requires k < 8
  {
    b | (1 << k)
  }

  /** b & ~(1 << k) */
  function WithoutBit(b: bv8, k: nat): bv8
    requires k < 8
  {
    b & !(1 << k)
  }

  lemma SetMask(b: bv8, k: nat, j: nat)
    requires k < 8 && j < 8
    ensures TestBit(WithBit(b, k), j) <==> TestBit(b, j) || j == k
  {
    if k == 0 {} else if k == 1 {} else if k == 2 {} else if k == 3 {}
    else if k == 4 {} else if k == 5 {} else if k == 6 {} else {}
  }

  lemma ClearMask(b: bv8, k: nat, j: nat)
    requires k < 8 && j < 8
    ensures TestBit(WithoutBit(b, k), j) <==> TestBit(b, j) && j != k
  {
    if k == 0 {} else if k == 1 {} else if k == 2 {} else if k == 3 {}
    else if k == 4 {} else if k == 5 {} else if k == 6 {} else {}
  }

  lemma ZeroHasNoBit(k: nat)
    requires k < 8
    ensures !TestBit(0, k)
  {
  }

  /** Byte b is the byte was with bit k written. */
  ghost predicate OneBitWritten(was: bv8, b: bv8, k: nat, value: bool) {
    forall j: nat :: j < 8 ==> (TestBit(b, j) <==> if j == k then value else TestBit(was, j))
  }

  lemma MaskWrites(b: bv8, k: nat)
    requires k < 8
    ensures OneBitWritten(b, WithBit(b, k), k, true)
    ensures OneBitWritten(b, WithoutBit(b, k), k, false)
  {
    hide TestBit, WithBit, WithoutBit;
    forall j: nat | j < 8 ensures TestBit(WithBit(b, k), j) <==> if j == k then true else TestBit(b, j) {
      SetMask(b, k, j);
    }
    forall j: nat | j < 8 ensures TestBit(WithoutBit(b, k), j) <==> if j == k then false else TestBit(b, j) {
      ClearMask(b, k, j);
    }
  }

  /** Memory as bits. */
  function BitsOf(bytes: seq<bv8>): (bits: Bits)
    ensures |bits| == 8 * |bytes|
  {
    seq(8 * |bytes|, n requires 0 <= n < 8 * |bytes| => TestBit(bytes[n / 8], n % 8))
  }

  lemma OneByteWritten(bytes: seq<bv8>, n: nat, b: bv8, value: bool)
    requires n / 8 < |bytes|
    requires OneBitWritten(bytes[n / 8], b, n % 8, value)
    ensures n < 8 * |bytes| && BitsOf(bytes[n / 8 := b]) == BitsOf(bytes)[n := value]
  {
    hide TestBit;
    var after, wanted := BitsOf(bytes[n / 8 := b]), BitsOf(bytes)[n := value];
    forall m | 0 <= m < 8 * |bytes| ensures after[m] == wanted[m] {
      if m / 8 == n / 8 {
        assert m == n <==> m % 8 == n % 8;
      }
    }
  }

  lemma ByteOfBit(start: nat, i: nat)
    ensures (8 * start + i) / 8 == start + i / 8 && (8 * start + i) % 8 == i % 8
  {
  }

  // ----- the prediction functions

  /** buddy_get_possible_order */
  method GetPossibleOrder(blockCount: nat, maxOrder: nat) returns (order: nat)
    ensures order == PossibleOrder(blockCount, maxOrder)
  {
    order := 0;
    var left: nat := blockCount / 2;
    while left > 0
      invariant order + (if left == 0 then 0 else Log2(left) + 1) == Log2(blockCount)
    {
      order := order + 1;
      left := left / 2;
    }
    order := if order < maxOrder then order else maxOrder;
  }

  /** buddy_get_size */
  method GetSize(blockCount: nat, maxOrder: nat) returns (size: nat)
    ensures size == Predicted(blockCount, maxOrder)
  {
    var order := GetPossibleOrder(blockCount, maxOrder);
    var length := 0;
    for i := 0 to order + 1
      invariant length == LevelBytes(blockCount, i)
    {
      length := length + SizeAt(blockCount, i);
    }
    size := length + HEADER_BYTES + (order + 1) * DESC_BYTES;
  }

  /** BUDDY_ALLOC_FAILED */
  const FAILED: nat := U64 - 1

  /** buddy_desc_t: the address of a level and the number of its whole buddies */
  datatype Level = Level(ptr: nat, count: nat)

  /** buddy_t; the bitmaps are bytes of memory, the header fields are fields here. */
  class Buddy {
    const memory: array<bv8>
    const at: nat
    var dataStart: nat
    var blockCount: nat
    var order: nat
    var levels: seq<Level>

    ghost function L(): Layout
      reads this
    {
      Layout(at, blockCount, order)
    }

    ghost function Bits(): Bits
      reads memory
    {
      BitsOf(memory[..])
    }

    ghost predicate Valid()
      reads this
    {
      && L().Proper()
      && L().End() < memory.Length
      && |levels| == order + 1
      && forall o :: 0 <= o <= order ==> levels[o] == Level(L().Start(o), CountAt(blockCount, o))
    }

    /** buddy_create */
    constructor (memory: array<bv8>, at: nat, dataStart: nat, blockCount: nat, maxOrder: nat)
      requires 0 < blockCount < U64 && maxOrder < 31
      requires at + Predicted(blockCount, maxOrder) < memory.Length
      modifies memory
      ensures Valid() && this.memory == memory && this.at == at && this.dataStart == dataStart
      ensures this.blockCount == blockCount && order == PossibleOrder(blockCount, maxOrder)
      ensures L().End() == at + Predicted(blockCount, maxOrder)
      ensures Bits() == ClearBits(BitsOf(old(memory[..])), L().Bit(0, 0), 8 * L().End())
    {
      this.memory := memory;
      this.at := at;
      this.dataStart := dataStart;
      this.blockCount := blockCount;
      var top := GetPossibleOrder(blockCount, maxOrder);
      order := top;
      levels := [];
      new;
      PredictedIsLayout(at, blockCount, maxOrder);
      ghost var was := memory[..];
      WriteLevels();
      ClearedBytes(was, memory[..], L().Start(0), L().End());
    }

    /** The loop of buddy_create over the orders. */
    method WriteLevels()
      requires L().Proper() && L().End() < memory.Length && levels == []
      modifies this`levels, memory
      ensures Valid()
      ensures forall k :: 0 <= k < memory.Length ==>
                memory[k] == if L().Start(0) <= k < L().End() then 0 else old(memory[k])
    {
      hide LevelBytes, SizeAt, CountAt, Log2;
      var ptr := at + HEADER_BYTES + (order + 1) * DESC_BYTES;
      FirstLevel(L());
      for i := 0 to order + 1
        invariant 0 <= i <= order + 1 && |levels| == i
        invariant ptr == L().Start(i)
        invariant forall o :: 0 <= o < i ==> levels[o] == Level(L().Start(o), CountAt(blockCount, o))
        invariant forall k :: 0 <= k < memory.Length ==>
                    memory[k] == if L().Start(0) <= k < ptr then 0 else old(memory[k])
      {
        LevelFollows(L(), i);
        StartsGrow(L(), 0, i);
        StartsGrow(L(), i + 1, order + 1);
        levels := levels + [Level(ptr, CountAt(blockCount, i))];
        var size := SizeAt(blockCount, i);
        Zero(ptr, size);
        ptr := ptr + size;
      }
    }

    /** memset(ptr, 0, size) */
    method Zero(ptr: nat, size: nat)
      requires ptr + size <= memory.Length
      modifies memory
      ensures forall k :: 0 <= k < memory.Length ==>
                memory[k] == if ptr <= k < ptr + size then 0 else old(memory[k])
    {
      for k := ptr to ptr + size
        invariant forall j :: 0 <= j < memory.Length ==> memory[j] == if ptr <= j < k then 0 else old(memory[j])
      {
        memory[k] := 0;
      }
    }

    /** (ptr[i / 8] >> (i % 8)) & 1 */
    method Test(o: nat, i: nat) returns (bit: bool)
      requires Valid() && o <= order && levels[o].ptr + i / 8 < memory.Length
      ensures bit == Get(Bits(), L().Bit(o, i))
    {
      hide LevelBytes, TestBit, Log2, CountAt;
      ByteOfBit(levels[o].ptr, i);
      bit := TestBit(memory[levels[o].ptr + i / 8], i % 8);
    }

    /** ptr[i / 8] |= 1 << (i % 8) */
    method Set(o: nat, i: nat)
      requires Valid() && o <= order && levels[o].ptr + i / 8 < memory.Length
      modifies memory
      ensures L().Bit(o, i) < |old(Bits())| && Bits() == old(Bits())[L().Bit(o, i) := true]
    {
      hide LevelBytes, TestBit, OneBitWritten, Log2, WithBit, WithoutBit, CountAt;
      ghost var was := memory[..];
      ByteOfBit(levels[o].ptr, i);
      var b := memory[levels[o].ptr + i / 8];
      MaskWrites(b, i % 8);
      memory[levels[o].ptr + i / 8] := WithBit(b, i % 8);
      OneByteWritten(was, L().Bit(o, i), WithBit(b, i % 8), true);
      assert memory[..] == was[levels[o].ptr + i / 8 := WithBit(b, i % 8)];
    }

    /** ptr[i / 8] &= ~(1 << (i % 8)) */
    method Clear(o: nat, i: nat)
      requires Valid() && o <= order && levels[o].ptr + i / 8 < memory.Length
      modifies memory
      ensures L().Bit(o, i) < |old(Bits())| && Bits() == old(Bits())[L().Bit(o, i) := false]
    {
      hide LevelBytes, TestBit, OneBitWritten, Log2, WithBit, WithoutBit, CountAt;
      ghost var was := memory[..];
      ByteOfBit(levels[o].ptr, i);
      var b := memory[levels[o].ptr + i / 8];
      MaskWrites(b, i % 8);
      memory[levels[o].ptr + i / 8] := WithoutBit(b, i % 8);
      OneByteWritten(was, L().Bit(o, i), WithoutBit(b, i % 8), false);
      assert memory[..] == was[levels[o].ptr + i / 8 := WithoutBit(b, i % 8)];
    }

    /** buddy_find */
    method Find(count: nat) returns (offset: nat)
      requires Valid() && count > 0
      ensures var o, n := SearchOrder(L(), count), SearchLength(L(), count);
              if offset == FAILED then FindsNone(Bits(), L(), o, n)
              else exists i: nat :: offset == First(o, i) && Finds(Bits(), L(), o, n, i)
      ensures forall used: set<nat> :: Summary(Bits(), L(), used) ==>
                && (offset == FAILED <==> NoneFree(used, blockCount, order, count))
                && (offset != FAILED ==> offset + count <= blockCount && Range(offset, count) !! used)
    {
      FindsIff(count);
      offset := FindAtOrder(count);
    }

    /** The search itself. */
    method FindAtOrder(count: nat) returns (offset: nat)
      requires Valid() && count > 0
      ensures var o, n := SearchOrder(L(), count), SearchLength(L(), count);
              if offset == FAILED then FindsNone(Bits(), L(), o, n)
              else exists i: nat :: offset == First(o, i) && Finds(Bits(), L(), o, n, i)
    {
      hide SizeAt, LevelBytes, Log2, First, Pow2, RequiredOrder, Finds, FindsNone, CountAt, BitsOf;
      var required := GetRequiredOrder(count);
      assert SearchOrder(L(), count) == if required > order then order else required;
      assert SearchLength(L(), count) == if required > order then (count - 1) / Pow2(order) + 1 else 1;
      if required > order {
        offset := FindRun(order, (count - 1) / Pow2(order) + 1);
      } else {
        offset := FindRun(required, 1);
      }
    }

    /** What the answer says of the blocks that are used. */
    lemma FindsIff(count: nat)
      requires Valid() && count > 0
      ensures forall used: set<nat> :: Summary(Bits(), L(), used) ==>
                (FindsNone(Bits(), L(), SearchOrder(L(), count), SearchLength(L(), count)) <==>
                   NoneFree(used, blockCount, order, count))
      ensures forall used: set<nat>, i: nat ::
                (Summary(Bits(), L(), used) &&
                 Finds(Bits(), L(), SearchOrder(L(), count), SearchLength(L(), count), i)) ==>
                  First(SearchOrder(L(), count), i) + count <= blockCount &&
                  Range(First(SearchOrder(L(), count), i), count) !! used
    {
      hide SizeAt, LevelBytes, Log2, First, Pow2, SearchOrder, SearchLength, Finds, FindsNone, CountAt, BitsOf, Summary;
      forall used: set<nat> | Summary(Bits(), L(), used)
        ensures FindsNone(Bits(), L(), SearchOrder(L(), count), SearchLength(L(), count)) <==>
                  NoneFree(used, blockCount, order, count)
      {
        FailsIff(Bits(), L(), count, used);
      }
      forall used: set<nat>, i: nat | Summary(Bits(), L(), used) &&
          Finds(Bits(), L(), SearchOrder(L(), count), SearchLength(L(), count), i)
        ensures First(SearchOrder(L(), count), i) + count <= blockCount
        ensures Range(First(SearchOrder(L(), count), i), count) !! used
      {
        FindIsSound(Bits(), L(), count, SearchOrder(L(), count), SearchLength(L(), count), i, used);
      }
    }

    /** The first loop of buddy_find. */
    method GetRequiredOrder(count: nat) returns (required: nat)
      ensures required == RequiredOrder(count, 0)
    {
      hide Pow2;
      required := 31;
      for i := 0 to 31
        invariant required == 31 && RequiredOrder(count, 0) == RequiredOrder(count, i)
      {
        if count <= Pow2(i) {
          required := i;
          break;
        }
      }
    }

    /** The other two: count free buddies in a row, starting again at a used one. */
    method FindRun(o: nat, wanted: nat) returns (offset: nat)
      requires Valid() && o <= order && wanted > 0
      ensures if offset == FAILED then FindsNone(Bits(), L(), o, wanted)
              else exists i: nat :: offset == First(o, i) && Finds(Bits(), L(), o, wanted, i)
    {
      hide First, SizeAt, LevelBytes, Log2, CountAt, Pow2, BitsOf;
      var row := 0;
      for i := 0 to levels[o].count
        invariant 0 <= row <= i && row < wanted
        invariant RunFree(Bits(), L(), o, i - row, row)
        invariant row < i ==> Get(Bits(), L().Bit(o, i - row - 1))
        invariant forall k: nat :: k + wanted <= i ==> !RunFree(Bits(), L(), o, k, wanted)
      {
        InCount(o, i);
        var used := Test(o, i);
        row := if used then 0 else row + 1;
        NoEarlierRun(Bits(), L(), o, i, row, wanted);
        if row >= wanted {
          assert Finds(Bits(), L(), o, wanted, i - wanted + 1);
          BuddyStarts(blockCount, o, i - wanted + 1);
          return First(o, i - wanted + 1);
        }
      }
      offset := FAILED;
    }

    /** A counted buddy has its bit in its level. */
    lemma InCount(o: nat, i: nat)
      requires Valid() && o <= order && i < CountAt(blockCount, o)
      ensures levels[o].ptr + i / 8 < memory.Length
    {
      hide SizeAt, LevelBytes, Log2, CountAt, Pow2;
      CountedHasBit(blockCount, o, i);
      LevelFollows(L(), o);
      StartsGrow(L(), o + 1, order + 1);
    }

    /** buddy_alloc */
    method Alloc(offset: nat, count: nat)
      requires Valid() && count > 0 && offset + count <= blockCount
      modifies memory
      ensures Bits() == Marked(old(Bits()), L(), 0, offset, offset + count - 1)
    {
      hide SizeAt, LevelBytes, Log2, SetBits;
      var first, last := offset, offset + count - 1;
      for o := 0 to order + 1
        invariant 0 <= o <= order + 1
        invariant first == Half(offset, o) && last == Half(offset + count - 1, o)
        invariant Marked(Bits(), L(), o, first, last) == Marked(old(Bits()), L(), 0, offset, offset + count - 1)
      {
        HalfIsMonotone(offset, offset + count - 1, o);
        SetLevel(o, first, last, offset + count - 1);
        first, last := first / 2, last / 2;
      }
    }

    method SetLevel(o: nat, first: nat, last: nat, ghost b: nat)
      requires Valid() && o <= order && b < blockCount && first <= last == Half(b, o)
      modifies memory
      ensures Bits() == SetBits(old(Bits()), L().Bit(o, first), L().Bit(o, last + 1))
    {
      hide SizeAt, LevelBytes, Log2, Half, SetBits;
      NoneSet(Bits(), L().Bit(o, first));
      for i := first to last + 1
        invariant Bits() == SetBits(old(Bits()), L().Bit(o, first), L().Bit(o, i))
      {
        InMemory(b, o, i);
        Set(o, i);
        SetOneMore(old(Bits()), L().Bit(o, first), L().Bit(o, i));
      }
    }

    /** buddy_free */
    method Free(offset: nat, count: nat)
      requires Valid() && count > 0 && offset + count <= blockCount
      modifies memory
      ensures Bits() == Cleared(old(Bits()), L(), 0, offset, offset + count - 1)
    {
      hide SizeAt, LevelBytes, Log2, ClearBits, ClearIdle;
      var first, last := offset, offset + count - 1;
      ClearBottomLevel(first, last);
      first, last := first / 2, last / 2;
      for o := 1 to order + 1
        invariant 1 <= o <= order + 1
        invariant first == Half(offset, o) && last == Half(offset + count - 1, o)
        invariant Cleared(Bits(), L(), o, first, last) == Cleared(old(Bits()), L(), 0, offset, offset + count - 1)
      {
        HalfIsMonotone(offset, offset + count - 1, o);
        ClearLevelAbove(o, first, last, offset + count - 1);
        first, last := first / 2, last / 2;
      }
    }

    method ClearBottomLevel(first: nat, last: nat)
      requires Valid() && first <= last < blockCount
      modifies memory
      ensures Bits() == ClearBits(old(Bits()), L().Bit(0, first), L().Bit(0, last + 1))
    {
      hide SizeAt, LevelBytes, Log2, ClearBits;
      NoneSet(Bits(), L().Bit(0, first));
      for i := first to last + 1
        invariant Bits() == ClearBits(old(Bits()), L().Bit(0, first), L().Bit(0, i))
      {
        InMemory(last, 0, i);
        Clear(0, i);
        ClearOneMore(old(Bits()), L().Bit(0, first), L().Bit(0, i));
      }
    }

    method ClearLevelAbove(o: nat, first: nat, last: nat, ghost b: nat)
      requires Valid() && 0 < o <= order && b < blockCount && first <= last == Half(b, o)
      modifies memory
      ensures Bits() == ClearIdle(old(Bits()), L(), o, first, last + 1)
    {
      hide SizeAt, LevelBytes, Log2, Half, BitsOf, CountAt;
      for i := first to last + 1
        invariant Bits() == ClearIdle(old(Bits()), L(), o, first, i)
      {
        HalfOnce(b, o);
        InMemory(b, o - 1, 2 * i);
        InMemory(b, o - 1, 2 * i + 1);
        InMemory(b, o, i);
        var b1 := Test(o - 1, 2 * i);
        var b2 := Test(o - 1, 2 * i + 1);
        if !b1 && !b2 {
          Clear(o, i);
        }
      }
    }

    /** A buddy of an existing block, or its other half, has its byte below the first byte
        past the levels or in it. */
    lemma InMemory(b: nat, o: nat, i: nat)
      requires Valid() && o <= order && b < blockCount && i <= 2 * (Half(b, o) / 2) + 1
      ensures levels[o].ptr + i / 8 < memory.Length
    {
      hide Half, SizeAt, LevelBytes, Log2, CountAt, Pow2;
      var l := L();
      HalfIsMonotone(b, blockCount - 1, o);
      FitsAt(blockCount, o);
      LevelFollows(l, o);
      StartsGrow(l, o + 1, order + 1);
      PairInByte(Half(b, o), i, SizeAt(blockCount, o));
    }
  }

  /** One buddy further: what its bit says about the runs that end with it. */
  lemma NoEarlierRun(bits: Bits, l: Layout, o: nat, i: nat, row: nat, wanted: nat)
    requires 0 < wanted && row <= i + 1 && row <= wanted
    requires forall k: nat :: k + wanted <= i ==> !RunFree(bits, l, o, k, wanted)
    requires row < i + 1 ==> Get(bits, l.Bit(o, i - row))
    ensures forall k: nat :: k + wanted <= i + 1 && (row < wanted || k < i + 1 - wanted) ==>
              !RunFree(bits, l, o, k, wanted)
  {
    hide SizeAt, LevelBytes;
  }

  lemma SetOneMore(bits: Bits, from: nat, n: nat)
    requires from <= n < |bits|
    ensures SetBits(bits, from, n)[n := true] == SetBits(bits, from, n + 1)
  {
  }

  lemma ClearOneMore(bits: Bits, from: nat, n: nat)
    requires from <= n < |bits|
    ensures ClearBits(bits, from, n)[n := false] == ClearBits(bits, from, n + 1)
  {
  }

  lemma NoneSet(bits: Bits, n: nat)
    ensures SetBits(bits, n, n) == bits && ClearBits(bits, n, n) == bits
  {
  }

  lemma BuddyStarts(blocks: nat, o: nat, i: nat)
    requires i < CountAt(blocks, o)
    ensures First(o, i) < blocks
  {
    hide CountAt;
    WholeBuddies(blocks, o, i + 1);
    FirstIsAdditive(o, i, 1);
  }

  lemma HalfOnce(b: nat, o: nat)
    requires o > 0
    ensures Half(b, o) == Half(b, o - 1) / 2
  {
  }

  lemma CountedHasBit(blocks: nat, o: nat, i: nat)
    requires i < CountAt(blocks, o)
    ensures i / 8 < SizeAt(blocks, o)
  {
    hide CountAt;
  }

  lemma PairInByte(h: nat, i: nat, size: nat)
    requires h <= 8 * size && i <= 2 * (h / 2) + 1
    ensures i / 8 <= size
  {
  }

  lemma FirstLevel(l: Layout)
    ensures l.Start(0) == l.at + HEADER_BYTES + (l.order + 1) * DESC_BYTES
  {
  }

  lemma LevelFollows(l: Layout, o: nat)
    ensures l.Start(o + 1) == l.Start(o) + SizeAt(l.blocks, o)
  {
  }

  lemma ClearedBytes(was: seq<bv8>, now: seq<bv8>, first: nat, end: nat)
    requires |now| == |was| && forall k :: 0 <= k < |was| ==> now[k] == if first <= k < end then 0 else was[k]
    ensures BitsOf(now) == ClearBits(BitsOf(was), 8 * first, 8 * end)
  {
    hide TestBit;
    forall n | 0 <= n < 8 * |was| ensures BitsOf(now)[n] == ClearBits(BitsOf(was), 8 * first, 8 * end)[n] {
      ZeroHasNoBit(n % 8);
    }
  }
}
