/** Powers of two, and numbers seen as rows of bits. */
module Bits {
  import opened Arithmetic

  /** Two to the power i. */
  function Size(i: nat): (r: nat)
    ensures r >= 1
  {
    if i == 0 then 1 else 2 * Size(i - 1)
  }

  /** The i lowest bits are clear. */
  predicate Aligned(a: nat, i: nat)
  {
    i == 0 || (a % 2 == 0 && Aligned(a / 2, i - 1))
  }

  /** Bit i of a number. */
  predicate Bit(a: nat, i: nat)
  {
    if i == 0 then a % 2 == 1 else Bit(a / 2, i - 1)
  }

  /** a without its i lowest bits. */
  function Shift(a: nat, i: nat): nat
  {
    if i == 0 then a else Shift(a / 2, i - 1)
  }

  lemma {:induction false} AlignedNext(a: nat, i: nat)
    ensures Aligned(a, i + 1) <==> Aligned(a, i) && !Bit(a, i)
  {
    if i > 0 {
      AlignedNext(a / 2, i - 1);
    }
  }

  /** The upper half of an aligned block is aligned and has the size bit set. */
  lemma {:induction false} UpperHalf(a: nat, i: nat)
    requires Aligned(a, i) && !Bit(a, i)
    ensures Aligned(a + Size(i), i) && Bit(a + Size(i), i)
  {
    if i > 0 {
      assert (a + Size(i)) / 2 == a / 2 + Size(i - 1);
      UpperHalf(a / 2, i - 1);
    }
  }

  /** Clearing the size bit gives the lower half. */
  lemma {:induction false} LowerHalf(a: nat, i: nat)
    requires Aligned(a, i) && Bit(a, i)
    ensures a >= Size(i) && Aligned(a - Size(i), i) && !Bit(a - Size(i), i)
  {
    if i > 0 {
      LowerHalf(a / 2, i - 1);
      assert (a - Size(i)) / 2 == a / 2 - Size(i - 1);
    }
  }

  lemma {:induction false} AlignedLess(a: nat, i: nat, j: nat)
    requires Aligned(a, j) && i <= j
    ensures Aligned(a, i)
  {
    if i > 0 {
      AlignedLess(a / 2, i - 1, j - 1);
    }
  }

  /** A block does not cross the boundary of a larger aligned area. */
  lemma {:induction false} SameArea(a: nat, i: nat, p: nat, n: nat)
    requires Aligned(a, i) && i <= n && a <= p < a + Size(i)
    ensures Shift(p, n) == Shift(a, n)
  {
    if i > 0 {
      assert a / 2 <= p / 2 < a / 2 + Size(i - 1);
      SameArea(a / 2, i - 1, p / 2, n - 1);
    }
  }

  lemma {:induction false} SizeMonotone(i: nat, j: nat)
    requires i <= j
    ensures Size(i) <= Size(j) && (i < j ==> 2 * Size(i) <= Size(j))
  {
    if i < j {
      SizeMonotone(i, j - 1);
    }
  }

  /** The number of trailing zeros. */
  function TrailingZeros(a: nat): (r: nat)
    requires a > 0
    ensures forall i: nat :: Aligned(a, i) <==> i <= r
  {
    if a % 2 == 1 then 0 else TrailingZeros(a / 2) + 1
  }

  function FloorLog(n: nat): (r: nat)
    requires n > 0
    ensures Size(r) <= n < Size(r + 1)
  {
    if n == 1 then 0 else FloorLog(n / 2) + 1
  }

  lemma SizeZero()
    ensures Size(0) == 1
  {}

  lemma {:induction false} SizeAdd(i: nat, j: nat)
    ensures Size(i + j) == Size(i) * Size(j)
  {
    if i > 0 {
      SizeAdd(i - 1, j);
      MulAssoc(2, Size(i - 1), Size(j));
    }
  }

  lemma SizeStep(i: nat)
    ensures Size(i + 1) == 2 * Size(i)
  {}

  /** Shifting right divides by a power of two. */
  lemma {:induction false} ShiftDivides(x: nat, n: nat)
    ensures Shift(x, n) == x / Size(n)
    decreases n
  {
    if n > 0 {
      ShiftDivides(x / 2, n - 1);
      DivDiv(x, 2, Size(n - 1));
      SizeStep(n - 1);
    } else {
      SizeZero();
    }
  }

  /** Bit i is the digit of weight 2^i. */
  lemma {:induction false} BitDivides(x: nat, i: nat)
    ensures Bit(x, i) <==> x / Size(i) % 2 == 1
    decreases i
  {
    if i > 0 {
      BitDivides(x / 2, i - 1);
      DivDiv(x, 2, Size(i - 1));
      SizeStep(i - 1);
    } else {
      SizeZero();
    }
  }

  // ---------------------------------------------------------------------------
  // Bitwise operations
  // ---------------------------------------------------------------------------

  function And(x: nat, y: nat): nat
  {
    if x == 0 || y == 0 then 0 else 2 * And(x / 2, y / 2) + if x % 2 == 1 && y % 2 == 1 then 1 else 0
  }

  function Or(x: nat, y: nat): nat
  {
    if x == 0 then y else if y == 0 then x else 2 * Or(x / 2, y / 2) + if x % 2 == 1 || y % 2 == 1 then 1 else 0
  }

  lemma {:induction false} ZeroBits(i: nat)
    ensures !Bit(0, i)
  {
    if i > 0 {
      ZeroBits(i - 1);
    }
  }

  lemma {:induction false} OrBit(x: nat, y: nat, i: nat)
    ensures Bit(Or(x, y), i) <==> Bit(x, i) || Bit(y, i)
    decreases i
  {
    ZeroBits(i);
    if x != 0 && y != 0 && i > 0 {
      assert Or(x, y) / 2 == Or(x / 2, y / 2);
      OrBit(x / 2, y / 2, i - 1);
    }
  }

  lemma {:induction false} AndSelf(x: nat)
    ensures And(x, x) == x
  {
    if x > 0 {
      AndSelf(x / 2);
    }
  }

  /** A power of two has one bit. */
  lemma {:induction false} SizeBit(k: nat, i: nat)
    ensures Bit(Size(k), i) <==> i == k
  {
    if k > 0 && i > 0 {
      SizeBit(k - 1, i - 1);
    } else if i > 0 {
      ZeroBits(i - 1);
    }
  }

  lemma {:induction false} OrBound(x: nat, y: nat, n: nat)
    requires x < Size(n) && y < Size(n)
    ensures Or(x, y) < Size(n) && (y > 0 ==> Or(x, y) > 0)
    decreases n
  {
    if n > 0 && x > 0 && y > 0 {
      OrBound(x / 2, y / 2, n - 1);
    }
  }

  /** A non-zero number has a lowest set bit; below it all are clear. */
  lemma {:induction false} LowestBit(w: nat)
    requires w > 0
    ensures Bit(w, TrailingZeros(w)) && forall i: nat :: i < TrailingZeros(w) ==> !Bit(w, i)
  {
    if w % 2 == 0 {
      LowestBit(w / 2);
      forall i: nat | i < TrailingZeros(w) ensures !Bit(w, i) {
      }
    }
  }

  lemma {:induction false} LowestBound(w: nat, n: nat)
    requires 0 < w < Size(n)
    ensures TrailingZeros(w) < n
  {
    if w % 2 == 0 {
      LowestBound(w / 2, n - 1);
    }
  }

  /** Masking a number with its predecessor clears exactly the lowest set bit. */
  lemma {:induction false} ClearLowest(w: nat, i: nat)
    requires w > 0
    ensures And(w, w - 1) < w && (Bit(And(w, w - 1), i) <==> Bit(w, i) && i != TrailingZeros(w))
  {
    if w % 2 == 1 {
      assert (w - 1) / 2 == w / 2;
      AndSelf(w / 2);
      ZeroBits(i);
      if i > 0 && w > 1 {
        assert And(w, w - 1) / 2 == w / 2;
      } else if w == 1 && i > 0 {
        ZeroBits(i - 1);
      }
    } else {
      assert (w - 1) / 2 == w / 2 - 1;
      ZeroBits(if i > 0 then i - 1 else 0);
      ClearLowest(w / 2, if i > 0 then i - 1 else 0);
    }
  }

}
