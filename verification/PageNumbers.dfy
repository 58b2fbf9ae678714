/** Words as numbers, page numbers, and the regions that paging_area_size measures.
    Comparing and subtracting 64-bit words is done on numbers here: the value of a
    word is counted up from zero, so that only single steps look at bits. */
module PageNumbers {
  import opened PageWords

  // ----- words as numbers

  /** The number that a word stands for, counted up from zero. */
  function Value(w: bv64): nat
    decreases w
  {
    if w == 0 then 0 else Value(w - 1) + 1
  }

  lemma Successor(w: bv64)
    requires w + 1 != 0
    ensures Value(w + 1) == Value(w) + 1
  {
    assert w + 1 - 1 == w;
  }

  lemma {:induction false} ValueInjective(a: bv64, b: bv64)
    requires Value(a) == Value(b)
    ensures a == b
    decreases Value(a)
  {
    if a != 0 {
      ValueInjective(a - 1, b - 1);
      PredecessorInjective(a, b);
    }
  }

  lemma PredecessorInjective(a: bv64, b: bv64)
    requires a - 1 == b - 1
    ensures a == b
  {
  }

  lemma Predecessor(w: bv64)
    requires Value(w) > 0
    ensures w != 0 && Value(w - 1) == Value(w) - 1
  {
  }

  function Minus(b: bv64, a: bv64): bv64 {
    b - a
  }

  /** Subtraction is that of numbers when it does not borrow. */
  lemma {:induction false} ValueMinus(a: bv64, b: bv64)
    requires Value(a) <= Value(b)
    ensures Value(Minus(b, a)) == Value(b) - Value(a)
    decreases Value(b)
  {
    hide Value, Minus;
    if Value(a) == 0 {
      MinusNothing(a, b);
    } else {
      Predecessor(a);
      Predecessor(b);
      ValueMinus(a - 1, b - 1);
      MinusBothOne(a, b);
    }
  }

  lemma MinusNothing(a: bv64, b: bv64)
    requires Value(a) == 0
    ensures Minus(b, a) == b
  {
  }

  lemma MinusBothOne(a: bv64, b: bv64)
    ensures Minus(b - 1, a - 1) == Minus(b, a)
  {
  }

  lemma PositiveValue(w: bv64)
    requires w != 0
    ensures Value(w) > 0 && Value(w - 1) == Value(w) - 1
  {
  }

  lemma ValueOfZero()
    ensures Value(0) == 0
  {
  }

  // ----- page numbers and regions

  /** `(a & PAGING_ENTRY_ADDR_MASK) >> 12` */
  function PageBits(a: bv64): bv64 {
    Address(a) >> 12
  }

  function Offset(a: bv64): bv64 {
    a & 0xFFF
  }

  /** The number of the page that address a lies in. */
  function PageNumber(a: bv64): nat {
    Value(PageBits(a))
  }

  /** An address below 2^48. */
  predicate Low(a: bv64) {
    a & 0xFFFF_0000_0000_0000 == 0
  }

  /** The number of bytes of a page. */
  function PageBytes(): nat {
    Value(0xFFF) + 1
  }

  lemma PageNumberNamesPage(a: bv64, b: bv64)
    ensures PageNumber(a) == PageNumber(b) <==> Address(a) == Address(b)
  {
    AddressFromBits(a);
    AddressFromBits(b);
    hide Address;
    if PageNumber(a) == PageNumber(b) {
      ValueInjective(PageBits(a), PageBits(b));
    }
  }

  lemma AddressFromBits(a: bv64)
    ensures PageBits(a) << 12 == Address(a)
  {
  }

  /** Going up one byte within a page ... */
  lemma NextByteOffset(a: bv64)
    requires Offset(a) != 0xFFF
    ensures Offset(a + 1) == Offset(a) + 1
  {
  }

  lemma NextByteSamePage(a: bv64)
    requires Offset(a) != 0xFFF
    ensures PageBits(a + 1) == PageBits(a)
  {
    hide Address, Offset;
    NextByteSameAddress(a);
  }

  lemma NextByteSameAddress(a: bv64)
    requires Offset(a) != 0xFFF
    ensures Address(a + 1) == Address(a)
  {
  }

  /** ... and into the next one. */
  lemma NextByteNextPage(a: bv64)
    requires Offset(a) == 0xFFF && Low(a) && Low(a + 1) && a + 1 != 0
    ensures Offset(a + 1) == 0
    ensures PageBits(a + 1) == PageBits(a) + 1
  {
  }

  lemma PreviousLow(a: bv64)
    requires Low(a) && a != 0
    ensures Low(a - 1)
  {
  }

  lemma MinusPlus(a: bv64)
    ensures a - 1 + 1 == a
  {
  }

  lemma PageBitsNotLast(a: bv64)
    ensures PageBits(a) + 1 != 0
  {
  }

  lemma OffsetNotLast(a: bv64)
    ensures Offset(a) + 1 != 0
  {
  }

  lemma ZeroParts()
    ensures Offset(0) == 0 && PageBits(0) == 0
  {
  }

  /** The page number times the bytes of a page, plus the offset. */
  function FromParts(a: bv64): nat {
    PageBytes() * PageNumber(a) + Value(Offset(a))
  }

  lemma FromPartsWithin(b: bv64)
    requires Offset(b) != 0xFFF
    ensures FromParts(b + 1) == FromParts(b) + 1
  {
    hide Offset, PageBits, Value;
    NextByteOffset(b);
    NextByteSamePage(b);
    OffsetNotLast(b);
    Successor(Offset(b));
  }

  lemma FromPartsAcross(b: bv64)
    requires Offset(b) == 0xFFF && Low(b) && Low(b + 1) && b + 1 != 0
    ensures FromParts(b + 1) == FromParts(b) + 1
  {
    hide Low, Offset, PageBits, Value;
    NextByteNextPage(b);
    PageBitsNotLast(b);
    Successor(PageBits(b));
    ValueOfZero();
    assert PageBytes() * (PageNumber(b) + 1) == PageBytes() * PageNumber(b) + PageBytes();
  }

  lemma FromPartsStep(b: bv64)
    requires Low(b) && Low(b + 1) && b + 1 != 0
    ensures FromParts(b + 1) == FromParts(b) + 1
  {
    hide Low, Offset, FromParts;
    if Offset(b) == 0xFFF {
      FromPartsAcross(b);
    } else {
      FromPartsWithin(b);
    }
  }

  /** An address is its page number times the bytes of a page, plus its offset. */
  lemma {:induction false} PageAndOffset(a: bv64)
    requires Low(a)
    ensures Value(a) == FromParts(a)
    decreases Value(a)
  {
    hide Low, Offset, PageBits, Value;
    ValueOfZero();
    if a == 0 {
      ZeroParts();
      assert PageBytes() * 0 == 0;
    } else {
      PositiveValue(a);
      MinusPlus(a);
      PreviousLow(a);
      PageAndOffset(a - 1);
      FromPartsStep(a - 1);
    }
  }

  lemma MinusOneMore(m: bv64, x: bv64)
    requires x != m
    ensures Value(Minus(m, x + 1)) < Value(Minus(m, x))
  {
    hide Minus, Value;
    MinusNonzero(m, x);
    MinusSuccessor(m, x);
    PositiveValue(Minus(m, x));
  }

  lemma MinusNonzero(m: bv64, x: bv64)
    requires x != m
    ensures Minus(m, x) != 0
  {
  }

  lemma MinusSuccessor(m: bv64, x: bv64)
    ensures Minus(m, x + 1) == Minus(m, x) - 1
  {
  }

  lemma {:induction false} OffsetBound(x: bv64)
    requires x & 0xFFF == x
    ensures Value(x) <= Value(0xFFF)
    decreases Value(Minus(0xFFF, x))
  {
    hide Value, Minus;
    if x != 0xFFF {
      OffsetUp(x);
      OffsetBound(x + 1);
      Successor(x);
    }
  }

  lemma OffsetUp(x: bv64)
    requires x & 0xFFF == x && x != 0xFFF
    ensures (x + 1) & 0xFFF == x + 1 && x + 1 != 0
    ensures Value(Minus(0xFFF, x + 1)) < Value(Minus(0xFFF, x))
  {
    MinusOneMore(0xFFF, x);
  }

  lemma OffsetBelowPage(a: bv64)
    ensures Value(Offset(a)) < PageBytes()
  {
    hide Value;
    OffsetTwice(a);
    OffsetBound(Offset(a));
  }

  lemma OffsetTwice(a: bv64)
    ensures Offset(a) & 0xFFF == Offset(a)
  {
  }

  lemma {:induction false} OnePageMore(n: nat, p: nat, q: nat)
    requires p > q
    ensures n * p >= n * q + n
    decreases p
  {
    assert n * p == n * (p - 1) + n;
    if p > q + 1 {
      OnePageMore(n, p - 1, q);
    }
  }

  /** Higher addresses lie in higher pages. */
  lemma PageNumberMonotone(a: bv64, b: bv64)
    requires Low(a) && Low(b) && Value(a) <= Value(b)
    ensures PageNumber(a) <= PageNumber(b)
  {
    hide Low, Offset, Value, PageNumber;
    PageAndOffset(a);
    PageAndOffset(b);
    OffsetBelowPage(a);
    OffsetBelowPage(b);
    if PageNumber(a) > PageNumber(b) {
      OnePageMore(PageBytes(), PageNumber(a), PageNumber(b));
    }
  }

  // ----- regions

  /** The number of the last page below 2^48. */
  function LastPage(): nat {
    Value(0xF_FFFF_FFFF)
  }

  lemma {:induction false} PageBound(x: bv64)
    requires x & 0xF_FFFF_FFFF == x
    ensures Value(x) <= LastPage()
    decreases Value(Minus(0xF_FFFF_FFFF, x))
  {
    hide Value, Minus;
    if x != 0xF_FFFF_FFFF {
      PageUp(x);
      PageBound(x + 1);
      Successor(x);
    }
  }

  lemma PageUp(x: bv64)
    requires x & 0xF_FFFF_FFFF == x && x != 0xF_FFFF_FFFF
    ensures (x + 1) & 0xF_FFFF_FFFF == x + 1 && x + 1 != 0
    ensures Value(Minus(0xF_FFFF_FFFF, x + 1)) < Value(Minus(0xF_FFFF_FFFF, x))
  {
    MinusOneMore(0xF_FFFF_FFFF, x);
  }

  lemma PageBitsTwice(a: bv64)
    ensures PageBits(a) & 0xF_FFFF_FFFF == PageBits(a)
  {
  }

  lemma PageNumberBound(a: bv64)
    ensures PageNumber(a) <= LastPage()
  {
    hide PageBits, Value, LastPage;
    PageBitsTwice(a);
    PageBound(PageBits(a));
  }

  lemma NextPageBits(a: bv64)
    requires Low(a) && PageBits(a) != 0xF_FFFF_FFFF
    ensures Low(a + 4096)
    ensures PageBits(a + 4096) == PageBits(a) + 1
  {
  }

  /** 4096 bytes further on is the next page. */
  lemma NextPage(a: bv64)
    requires Low(a) && PageNumber(a) < LastPage()
    ensures Low(a + 4096) && PageNumber(a + 4096) == PageNumber(a) + 1
  {
    hide PageBits, Value, Low;
    NextPageBits(a);
    PageBitsNotLast(a);
    Successor(PageBits(a));
  }

  /** The last byte of a region. */
  function LastByte(base: bv64, size: bv64): bv64 {
    base + size - 1
  }

  /** A region that ends below 2^48 and does not wrap. */
  ghost predicate Region(base: bv64, size: bv64) {
    Low(base) && Low(LastByte(base, size)) && Value(base) <= Value(LastByte(base, size))
  }

  /** paging_area_size */
  function AreaSize(base: bv64, size: bv64): bv64 {
    Minus(PageBits(LastByte(base, size)), PageBits(base)) + 1
  }

  lemma MinusIsLast(a: bv64, b: bv64)
    requires Minus(b, a) + 1 == 0
    ensures a == b + 1
  {
  }

  lemma DifferenceNotLast(a: bv64, b: bv64)
    requires PageNumber(a) <= PageNumber(b)
    ensures Minus(PageBits(b), PageBits(a)) + 1 != 0
  {
    hide PageBits, Minus, Value;
    if Minus(PageBits(b), PageBits(a)) + 1 == 0 {
      MinusIsLast(PageBits(a), PageBits(b));
      PageBitsNotLast(b);
      Successor(PageBits(b));
    }
  }

  /** A region takes as many pages as paging_area_size says, from the page of its first
      byte to that of its last. */
  lemma AreaSizeIsExact(base: bv64, size: bv64)
    requires Region(base, size)
    ensures PageNumber(base) <= PageNumber(LastByte(base, size))
    ensures Value(AreaSize(base, size)) == PageNumber(LastByte(base, size)) - PageNumber(base) + 1
  {
    hide PageBits, Minus, Value, Low, LastByte;
    var last := LastByte(base, size);
    PageNumberMonotone(base, last);
    ValueMinus(PageBits(base), PageBits(last));
    DifferenceNotLast(base, last);
    Successor(Minus(PageBits(last), PageBits(base)));
  }
}
