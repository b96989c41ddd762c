/**
  Which elements of an array of aggregates the classifier visits for one eightbyte
  (dyncall_aggregate_x64.c, lines 103 to 111), as commented and as compiled.
 */
module Windows {
  import opened Classify

  /** Element `e` of the array at `offset` shares a byte with the eightbyte at `q`. */
  predicate ElementOverlaps(q: nat, offset: nat, size: nat, e: int) {
    offset + size * e < q + 8 && q < offset + size * e + size
  }

  lemma MulMonotone(size: nat, a: int, b: int)
    requires a <= b
    ensures size * a <= size * b
  {
  }

  /**
    Nothing is lost: of an array lying in the first sixteen bytes, every element that overlaps
    the eightbyte is in the window, and the window stays inside the array. This is what the
    comment above the computation claims, for element sizes that need not divide eight.
   */
  lemma WindowLosesNothing(q: nat, offset: nat, size: nat, arrayLen: nat, e: nat)
    requires q == 0 || q == 8
    requires size > 0 && e < arrayLen && offset + size * arrayLen <= 16
    requires ElementOverlaps(q, offset, size, e)
    ensures var w := WindowOf(FromFirstElement, q, offset, size, arrayLen);
            0 <= w.first <= e < w.end <= arrayLen
  {
    DivBounds(8, size);
    if offset <= q {
      DivBounds(q - offset, size);
      WindowBounds(q, offset, size, arrayLen, e, (q - offset) / size, 8 / size);
    } else {
      WindowBounds(q, offset, size, arrayLen, e, 0, 8 / size);
    }
  }

  lemma DivBounds(x: nat, size: nat)
    requires size > 0
    ensures x / size >= 0 && size * (x / size) <= x < size * (x / size) + size
  {
    assert x == size * (x / size) + x % size;
  }

  /** The window bounds with the two quotients named: `j` elements end before the eightbyte, `c` fit in it. */
  lemma WindowBounds(q: nat, offset: nat, size: nat, arrayLen: nat, e: nat, j: nat, c: nat)
    requires q == 0 || q == 8
    requires size > 0 && e < arrayLen && offset + size * arrayLen <= 16
    requires ElementOverlaps(q, offset, size, e)
    requires size * c <= 8 < size * c + size
    requires if offset <= q then size * j <= q - offset < size * j + size else j == 0
    ensures j <= e < c + j + 1
  {
    if e < j {
      MulMonotone(size, e + 1, j);
      assert false;
    }
    if e >= c + j + 1 {
      MulMonotone(size, c + j + 1, e);
      MulMonotone(size, e + 1, arrayLen);
      Distribute(size, c, j);
      assert false;
    }
  }

  lemma Distribute(size: nat, c: nat, j: nat)
    ensures size * (c + j + 1) == size * c + size * j + size
  {
  }

  /** Containment is essential: six three-byte elements reach past byte 16 and the last one is missed. */
  lemma WindowNeedsContainment()
    ensures ElementOverlaps(8, 0, 3, 5) && WindowOf(FromFirstElement, 8, 0, 3, 6) == Window(2, 5)
  {
  }

  /**
    The window as C computes it is the intended one exactly when the field starts at or before
    the eightbyte. Otherwise the difference wraps, and the window is empty or begins at a
    negative index.
   */
  lemma CWindowExact(q: nat, offset: nat, size: nat, arrayLen: nat)
    requires q == 0 || q == 8
    requires size > 0 && arrayLen > 0 && offset + size * arrayLen <= 16
    requires offset < q + 8 && q < offset + size * arrayLen
    ensures offset <= q <==>
            var w := WindowOf(CArithmetic, q, offset, size, arrayLen); 0 <= w.first < w.end
    ensures offset <= q ==>
            WindowOf(CArithmetic, q, offset, size, arrayLen) == WindowOf(FromFirstElement, q, offset, size, arrayLen)
  {
    ArrayLenBound(size, arrayLen);
    if offset <= q {
      CWindowInside(q, offset, size, arrayLen);
    } else {
      CWindowWraps(q, offset, size, arrayLen);
    }
  }

  lemma CWindowInside(q: nat, offset: nat, size: nat, arrayLen: nat)
    requires 0 < size <= 16 && 0 < arrayLen <= 16 && q <= 8
    requires offset <= q < offset + size * arrayLen
    ensures var w := WindowOf(CArithmetic, q, offset, size, arrayLen);
            0 <= w.first < w.end && w == WindowOf(FromFirstElement, q, offset, size, arrayLen)
  {
    DivBelow(8, size, 9);
    DivBelow(q - offset, size, arrayLen);
    SmallWindow((q - offset) / size, 8 / size, arrayLen, q - offset);
  }

  lemma SmallWindow(j: nat, c: nat, arrayLen: nat, difference: nat)
    requires j < arrayLen <= 16 && c <= 8 && difference <= 8
    ensures U64(difference) == difference && I32(j) == j
    ensures CWindow(j, c, arrayLen) == Window(j, if c + j + 1 > arrayLen then arrayLen else c + j + 1)
  {
    WindowEnd(j, c, arrayLen);
  }

  // --- a field that starts inside the eightbyte -------------------------------------------

  /** Element sizes for which the wrapped quotient, truncated to int, is a large positive index. */
  predicate LostSize(size: nat) {
    size in {3, 5, 9, 11, 12, 14, 15}
  }

  /**
    A start `d` bytes into the eightbyte with which the compiled window does no harm: it visits
    every element that overlaps the eightbyte, and the first element lies inside it.
   */
  predicate HarmlessStart(d: nat, size: nat) {
    d > 0 && size in {1, 2, 4, 6, 7} && d + size <= 8
  }

  lemma CWindowWraps(q: nat, offset: nat, size: nat, arrayLen: nat)
    requires 0 < size <= 16 && 0 < arrayLen <= 16 && q < offset < q + 8
    ensures var w := WindowOf(CArithmetic, q, offset, size, arrayLen);
            if LostSize(size) then w.end <= w.first else w.first < 0 <= w.end <= arrayLen
  {
    DivBelow(8, size, 9);
    WrappedIndex(offset - q, size);
    assert q - offset == 0 - (offset - q);
    var j := I32(U64(q - offset) / size);
    if LostSize(size) {
      WindowEnd(j, 8 / size, arrayLen);
    } else {
      NegativeWindowEnd(j, 8 / size, arrayLen);
    }
  }

  lemma WindowEnd(j: int, c: nat, arrayLen: nat)
    requires 0 <= j < 0x8000_0000 && c <= 8 && 0 < arrayLen <= 16
    ensures var end := CWindow(j, c, arrayLen).end;
            && (j < arrayLen ==> j < end && end == if c + j + 1 > arrayLen then arrayLen else c + j + 1)
            && (j > 16 ==> end <= j)
  {
  }

  /** A negative sum compares as a huge unsigned number and is cut to the array length. */
  lemma NegativeWindowEnd(j: int, c: nat, arrayLen: nat)
    requires -0x8000_0000 <= j < 0 && c <= 8 && 0 < arrayLen <= 16
    ensures CWindow(j, c, arrayLen).end == if 0 <= c + j + 1 <= arrayLen then c + j + 1 else arrayLen
  {
    assert U64(j) == 0x1_0000_0000_0000_0000 + j;
    if c + j + 1 >= 0 {
      assert I32(c + U64(j) + 1) == c + j + 1;
    } else {
      assert I32(c + U64(j) + 1) == c + j + 1;
      assert U64(c + j + 1) > 16;
    }
  }

  lemma ArrayLenBound(size: nat, arrayLen: nat)
    requires size > 0 && arrayLen > 0 && size * arrayLen <= 16
    ensures arrayLen <= 16 && size <= 16
  {
  }

  lemma DivBelow(x: nat, size: nat, n: nat)
    requires size > 0 && x < size * n
    ensures 0 <= x / size < n
  {
    DivBounds(x, size);
    if x / size >= n {
      MulMonotone(size, n, x / size);
      assert false;
    }
  }

  /**
    The truncated quotient of a wrapped difference is never an index of a small array: its sign
    depends on the size.
   */
  lemma WrappedIndex(d: nat, size: nat)
    requires 1 <= d <= 7 && 1 <= size <= 16
    ensures var j := I32(U64(0 - d) / size);
            if LostSize(size) then j > 16 else if size in {1, 2, 4, 8, 16} then -8 < j < 0 else j < -8
  {
    match size
    case 1 => Quotient(d, size, 0xFFFFFFFFFFFFFFF9, 0xFFFFFFFFFFFFFFFF);
    case 2 => Quotient(d, size, 0x7FFFFFFFFFFFFFFC, 0x7FFFFFFFFFFFFFFF);
    case 3 => Quotient(d, size, 0x5555555555555553, 0x5555555555555555);
    case 4 => Quotient(d, size, 0x3FFFFFFFFFFFFFFE, 0x3FFFFFFFFFFFFFFF);
    case 5 => Quotient(d, size, 0x3333333333333331, 0x3333333333333333);
    case 6 => Quotient(d, size, 0x2AAAAAAAAAAAAAA9, 0x2AAAAAAAAAAAAAAA);
    case 7 => Quotient(d, size, 0x2492492492492491, 0x2492492492492492);
    case 8 => Quotient(d, size, 0x1FFFFFFFFFFFFFFF, 0x1FFFFFFFFFFFFFFF);
    case 9 => Quotient(d, size, 0x1C71C71C71C71C71, 0x1C71C71C71C71C71);
    case 10 => Quotient(d, size, 0x1999999999999998, 0x1999999999999999);
    case 11 => Quotient(d, size, 0x1745D1745D1745D0, 0x1745D1745D1745D1);
    case 12 => Quotient(d, size, 0x1555555555555554, 0x1555555555555555);
    case 13 => Quotient(d, size, 0x13B13B13B13B13B0, 0x13B13B13B13B13B1);
    case 14 => Quotient(d, size, 0x1249249249249248, 0x1249249249249249);
    case 15 => Quotient(d, size, 0x1111111111111110, 0x1111111111111111);
    case 16 => Quotient(d, size, 0xFFFFFFFFFFFFFFF, 0xFFFFFFFFFFFFFFF);
  }

  /** All quotients for one size lie in a band that truncation to int does not tear apart. */
  lemma Quotient(d: nat, size: nat, lo: nat, hi: nat)
    requires 1 <= d <= 7 && 0 < size
    requires size * lo <= 0xFFFF_FFFF_FFFF_FFF9 && 0xFFFF_FFFF_FFFF_FFFF < size * hi + size
    requires I32(hi) == I32(lo) + (hi - lo) && lo <= hi
    ensures I32(lo) <= I32(U64(0 - d) / size) <= I32(hi)
  {
    var x := 0x1_0000_0000_0000_0000 - d;
    assert U64(0 - d) == x;
    DivBounds(x, size);
    QuotientBetween(x, x / size, size, lo, hi);
    Truncation(x / size, lo, hi);
  }

  lemma QuotientBetween(x: nat, y: nat, size: nat, lo: nat, hi: nat)
    requires size * y <= x < size * y + size
    requires size * lo <= x < size * hi + size
    ensures lo <= y <= hi
  {
    if y < lo {
      MulMonotone(size, y + 1, lo);
      assert false;
    }
    if y > hi {
      MulMonotone(size, hi + 1, y);
      assert false;
    }
  }

  lemma Truncation(y: nat, lo: nat, hi: nat)
    requires lo <= y <= hi && I32(hi) == I32(lo) + (hi - lo)
    ensures I32(y) == I32(lo) + (y - lo)
  {
  }

  /** For a size that divides eight the wrapped quotient is the rounded-up number of elements before the field. */
  lemma WrappedIndexOfDivisor(d: nat, size: nat)
    requires 1 <= d <= 7 && size in {1, 2, 4, 8}
    ensures I32(U64(0 - d) / size) == -((d + size - 1) / size)
  {
    match size
    case 1 => DivisorQuotient(d, 1, 0x1_0000_0000_0000_0000);
    case 2 => DivisorQuotient(d, 2, 0x8000_0000_0000_0000);
    case 4 => DivisorQuotient(d, 4, 0x4000_0000_0000_0000);
    case 8 => DivisorQuotient(d, 8, 0x2000_0000_0000_0000);
  }

  lemma DivisorQuotient(d: nat, size: nat, c: nat)
    requires 1 <= d <= 7 && 0 < size && size * c == 0x1_0000_0000_0000_0000 && c % 0x1_0000_0000 == 0
    ensures I32(U64(0 - d) / size) == -((d + size - 1) / size)
  {
    hide U64, I32;
    var x, t := 0x1_0000_0000_0000_0000 - d, (d + size - 1) / size;
    WrappedDifference(d);
    DivBounds(x, size);
    DivBounds(d + size - 1, size);
    TimesDifference(size, c, t);
    TermBound(d, size, t);
    QuotientBetween(x, x / size, size, c - t, c - t);
    TruncatedBelow(c, t);
  }

  lemma WrappedDifference(d: nat)
    requires 1 <= d <= 7
    ensures U64(0 - d) == 0x1_0000_0000_0000_0000 - d
  {
  }

  lemma TimesDifference(size: nat, c: nat, t: nat)
    ensures size * (c - t) == size * c - size * t
  {
  }

  lemma TermBound(d: nat, size: nat, t: nat)
    requires 0 < d <= 7 && size > 0 && size * t <= d + size - 1 < size * t + size
    ensures t <= 7
  {
    if t > 7 {
      MulMonotone(size, 8, t);
      assert false;
    }
  }

  lemma TruncatedBelow(c: nat, t: nat)
    requires c % 0x1_0000_0000 == 0 && t <= 7
    ensures I32(c - t) + t == 0
  {
  }

  /** Unless the size is lost, the window begins below zero and takes in every element that overlaps the eightbyte. */
  lemma InsideWindow(q: nat, offset: nat, size: nat, arrayLen: nat)
    requires q == 0 || q == 8
    requires q < offset < q + 8 && size > 0 && !LostSize(size) && arrayLen > 0 && offset + size * arrayLen <= 16
    ensures var w := WindowOf(CArithmetic, q, offset, size, arrayLen);
            && w.first < 0 <= w.end <= arrayLen
            && forall e :: 0 <= e < arrayLen && ElementOverlaps(q, offset, size, e) ==> e < w.end
  {
    ArrayLenBound(size, arrayLen);
    CWindowWraps(q, offset, size, arrayLen);
    MulMonotone(size, 1, arrayLen);
    if size in {1, 2, 4, 8} {
      forall e | 0 <= e < arrayLen && ElementOverlaps(q, offset, size, e)
        ensures e < WindowOf(CArithmetic, q, offset, size, arrayLen).end
      {
        OverlapOfDivisor(offset - q, size, e);
        DivisorWindowEnd(q, offset, size, arrayLen);
      }
    } else {
      LongWindowEnd(q, offset, size, arrayLen);
    }
  }

  lemma DivisorWindowEnd(q: nat, offset: nat, size: nat, arrayLen: nat)
    requires q < offset < q + 8 && size in {1, 2, 4, 8} && 0 < arrayLen <= 16
    ensures var k := 8 / size - (offset - q + size - 1) / size + 1;
            WindowOf(CArithmetic, q, offset, size, arrayLen).end == if 0 <= k <= arrayLen then k else arrayLen
  {
    WrappedIndexOfDivisor(offset - q, size);
    assert q - offset == 0 - (offset - q);
    hide U64, I32;
    NegativeWindowEnd(-((offset - q + size - 1) / size), 8 / size, arrayLen);
  }

  /** For the other sizes the window reaches to the end of the array. */
  lemma LongWindowEnd(q: nat, offset: nat, size: nat, arrayLen: nat)
    requires q < offset < q + 8 && size in {6, 7, 10, 13} && 0 < arrayLen <= 16
    ensures WindowOf(CArithmetic, q, offset, size, arrayLen).end == arrayLen
  {
    WrappedIndex(offset - q, size);
    assert q - offset == 0 - (offset - q);
    NegativeWindowEnd(I32(U64(q - offset) / size), 8 / size, arrayLen);
  }

  lemma OverlapOfDivisor(d: nat, size: nat, e: nat)
    requires 1 <= d <= 7 && size in {1, 2, 4, 8} && d + size * e < 8
    ensures e < 8 / size - (d + size - 1) / size + 1
  {
  }
}
