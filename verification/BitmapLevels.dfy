/**
 * The levels of an allocation bitmap: a set bit at level 0 is a free index, a set bit above says that a word below is
 * not zero.
 */
module BitmapLevels {
  import opened Bits

  const LEVELS := 5
  const TOP := 4
  const WORD := 64

  /** 64-bit words, and enough of them at each level to summarise the level below. */
  ghost predicate Shape(w: seq<seq<nat>>)
  {
    && |w| == LEVELS
    && (forall l: nat, k: nat :: l < LEVELS && k < |w[l]| ==> w[l][k] < Size(WORD))
    && |w[0]| <= WORD * |w[1]| && |w[1]| <= WORD * |w[2]| && |w[2]| <= WORD * |w[3]| && |w[3]| <= WORD * |w[4]|
  }

  ghost predicate BitAt(w: seq<seq<nat>>, l: nat, x: nat)
    requires l < |w| && x < WORD * |w[l]|
  {
    Bit(w[l][x / WORD], x % WORD)
  }

  ghost predicate NonZero(w: seq<seq<nat>>, l: nat, k: nat)
    requires l < |w|
  {
    k < |w[l]| && w[l][k] != 0
  }

  /** Bit x of level l says whether word x of the level below is not zero. */
  ghost predicate Summed(w: seq<seq<nat>>, l: nat, x: nat)
    requires 1 <= l < |w| && x < WORD * |w[l]|
  {
    BitAt(w, l, x) <==> NonZero(w, l - 1, x)
  }

  /** Every summary bit is right, except perhaps bit y of level m. */
  ghost predicate SummedBut(w: seq<seq<nat>>, m: nat, y: nat)
  {
    |w| == LEVELS
      && forall l: nat, x: nat :: 1 <= l < LEVELS && x < WORD * |w[l]| && (l != m || x != y) ==> Summed(w, l, x)
  }

  /** The summaries of all levels agree with the level below. */
  ghost predicate Agreeing(w: seq<seq<nat>>)
  {
    Shape(w) && SummedBut(w, 0, 0)
  }

  ghost function FreeSet(w: seq<seq<nat>>): set<nat>
    requires |w| == LEVELS
  {
    set x: nat | x < WORD * |w[0]| && BitAt(w, 0, x)
  }

  ghost function Put(w: seq<seq<nat>>, l: nat, k: nat, v: nat): seq<seq<nat>>
    requires l < |w| && k < |w[l]|
  {
    var row: seq<nat> := w[l][k := v];
    w[l := row]
  }

  // ---------------------------------------------------------------------------
  // Changing one bit
  // ---------------------------------------------------------------------------

  /** t is w with word k of level l replaced by v, which differs in bit i only. */
  ghost predicate Flips(w: seq<seq<nat>>, l: nat, k: nat, v: nat, i: nat, on: bool)
    requires l < |w| && k < |w[l]|
  {
    v < Size(WORD) && i < WORD && forall j: nat :: Bit(v, j) <==> (if j == i then on else Bit(w[l][k], j))
  }

  lemma OrFlips(w: seq<seq<nat>>, l: nat, k: nat, i: nat)
    requires Shape(w) && l < LEVELS && k < |w[l]| && i < WORD
    ensures Flips(w, l, k, Or(w[l][k], Size(i)), i, true) && Or(w[l][k], Size(i)) != 0
  {
    hide Bit, Size, Or;
    var u := w[l][k];
    SizeMonotone(i, WORD);
    OrBound(u, Size(i), WORD);
    forall j: nat ensures Bit(Or(u, Size(i)), j) <==> (if j == i then true else Bit(u, j)) {
      OrBit(u, Size(i), j);
      SizeBit(i, j);
    }
  }

  lemma AndFlips(w: seq<seq<nat>>, l: nat, k: nat)
    requires Shape(w) && l < LEVELS && NonZero(w, l, k)
    ensures var u := w[l][k]; TrailingZeros(u) < WORD && Flips(w, l, k, And(u, u - 1), TrailingZeros(u), false)
  {
    hide Bit, Size, And;
    var u := w[l][k];
    assert u < Size(WORD);
    LowestBound(u, WORD);
    ClearLowest(u, 0);
    var v, z := And(u, u - 1), TrailingZeros(u);
    forall j: nat ensures Bit(v, j) <==> (if j == z then false else Bit(u, j)) {
      ClearLowest(u, j);
    }
    assert Flips(w, l, k, v, z, false);
  }

  /** The effect of a flipped bit on all bits. */
  lemma FlippedBit(w: seq<seq<nat>>, l: nat, k: nat, v: nat, i: nat, on: bool, m: nat, x: nat)
    requires l < |w| && k < |w[l]| && Flips(w, l, k, v, i, on) && m < |w| && x < WORD * |w[m]|
    ensures BitAt(Put(w, l, k, v), m, x) <==> if m == l && x == WORD * k + i then on else BitAt(w, m, x)
  {
    hide Bit, Size;
  }

  lemma PutShape(w: seq<seq<nat>>, l: nat, k: nat, v: nat)
    requires Shape(w) && l < LEVELS && k < |w[l]| && v < Size(WORD)
    ensures Shape(Put(w, l, k, v)) && forall m: nat :: m < LEVELS ==> |Put(w, l, k, v)[m]| == |w[m]|
    ensures forall m: nat, x: nat :: m < LEVELS && (m != l || x != k) ==>
            (NonZero(Put(w, l, k, v), m, x) <==> NonZero(w, m, x))
    ensures NonZero(Put(w, l, k, v), l, k) <==> v != 0
  {
    hide Size;
  }

  /**
    * Flipping a bit to what the level below demands mends it; only the bit above, which summarises the changed
    * word, may then be wrong.
    */
  lemma FlippedSummary(w: seq<seq<nat>>, l: nat, k: nat, v: nat, i: nat, on: bool)
    requires Shape(w) && l < LEVELS && k < |w[l]| && Flips(w, l, k, v, i, on)
    requires SummedBut(w, l, WORD * k + i) && (l > 0 ==> (NonZero(w, l - 1, WORD * k + i) <==> on))
    ensures Shape(Put(w, l, k, v)) && SummedBut(Put(w, l, k, v), l + 1, k)
    ensures (v != 0 <==> w[l][k] != 0) ==> SummedBut(Put(w, l, k, v), 0, 0)
  {
    hide Flips, Bit, Size, Shape, NonZero, BitAt, Put;
    FlipsBound(w, l, k, v, i, on);
    PutShape(w, l, k, v);
    ShapeLevels(w);
    var t := Put(w, l, k, v);
    ShapeLevels(t);
    forall m: nat, x: nat | 1 <= m < LEVELS && x < WORD * |t[m]|
      && (m != l + 1 || x != k || (v != 0 <==> w[l][k] != 0)) ensures Summed(t, m, x) {
      FlippedBit(w, l, k, v, i, on, m, x);
      assert m != l || x != WORD * k + i ==> Summed(w, m, x);
      NonZeroAt(w, l, k);
    }
  }

  lemma FlipsBound(w: seq<seq<nat>>, l: nat, k: nat, v: nat, i: nat, on: bool)
    requires l < |w| && k < |w[l]| && Flips(w, l, k, v, i, on)
    ensures v < Size(WORD) && i < WORD
  {
    hide Size, Bit;
  }

  lemma ShapeLevels(w: seq<seq<nat>>)
    requires Shape(w)
    ensures |w| == LEVELS && forall l: nat :: 1 <= l < LEVELS ==> |w[l - 1]| <= WORD * |w[l]|
  {
    hide Size;
  }

  lemma NonZeroAt(w: seq<seq<nat>>, l: nat, k: nat)
    requires l < |w| && k < |w[l]|
    ensures NonZero(w, l, k) <==> w[l][k] != 0
  {}

  // ---------------------------------------------------------------------------
  // Finding the lowest bit
  // ---------------------------------------------------------------------------

  /** o is the first word of level l that is not zero. */
  ghost predicate FirstWord(w: seq<seq<nat>>, l: nat, o: nat)
    requires l < |w|
  {
    NonZero(w, l, o) && forall x: nat :: x < o ==> !NonZero(w, l, x)
  }

  /** o is the first set bit of level l. */
  ghost predicate FirstBit(w: seq<seq<nat>>, l: nat, o: nat)
    requires l < |w|
  {
    o < WORD * |w[l]| && BitAt(w, l, o) && forall x: nat :: x < o ==> !BitAt(w, l, x)
  }

  lemma FirstBitOfWord(w: seq<seq<nat>>, l: nat, o: nat)
    requires Shape(w) && l < LEVELS && FirstWord(w, l, o)
    ensures TrailingZeros(w[l][o]) < WORD && FirstBit(w, l, WORD * o + TrailingZeros(w[l][o]))
  {
    hide Bit, Size;
    var u := w[l][o];
    LowestBound(u, WORD);
    LowestBit(u);
    var y := WORD * o + TrailingZeros(u);
    assert y / WORD == o && y % WORD == TrailingZeros(u);
    forall x: nat | x < y ensures !BitAt(w, l, x) {
      if x / WORD < o {
        assert !NonZero(w, l, x / WORD);
        ZeroBits(x % WORD);
      }
    }
  }

  /** The first set bit of a summary points at the first non-zero word below. */
  lemma FirstWordBelow(w: seq<seq<nat>>, l: nat, o: nat)
    requires Agreeing(w) && 1 <= l < LEVELS && FirstBit(w, l, o)
    ensures FirstWord(w, l - 1, o)
  {
    hide Shape, BitAt, NonZero;
    var m := l - 1;
    forall x: nat | x <= o ensures NonZero(w, m, x) <==> BitAt(w, l, x) {
      assert Summed(w, l, x);
    }
  }

  /** With no word set at the top, no index is free. */
  lemma {:induction false} NothingBelow(w: seq<seq<nat>>, l: nat)
    requires Agreeing(w) && l < LEVELS && forall k: nat :: !NonZero(w, l, k)
    ensures FreeSet(w) == {}
  {
    hide Size, Bit;
    if l == 0 {
      forall x: nat | x < WORD * |w[0]| ensures !BitAt(w, 0, x) {
        assert !NonZero(w, 0, x / WORD);
        ZeroBits(x % WORD);
      }
    } else {
      var m := l - 1;
      forall k: nat ensures !NonZero(w, m, k) {
        ShapeLevels(w);
        if k < |w[m]| {
          assert Summed(w, l, k);
          assert !NonZero(w, l, k / WORD);
          ZeroBits(k % WORD);
        }
      }
      NothingBelow(w, m);
    }
  }

  /** A set bit at any level is seen in the word of every level above it. */
  lemma SeenAbove(w: seq<seq<nat>>, l: nat, x: nat)
    requires Agreeing(w) && l < LEVELS && x < WORD * |w[l]| && BitAt(w, l, x)
    ensures NonZero(w, l, x / WORD)
    ensures l + 1 < LEVELS ==> x / WORD < WORD * |w[l + 1]| && BitAt(w, l + 1, x / WORD)
  {
    hide Size, Bit;
    ZeroBits(x % WORD);
    ShapeLevels(w);
    assert NonZero(w, l, x / WORD);
    if l + 1 < LEVELS {
      assert |w[l + 1 - 1]| <= WORD * |w[l + 1]|;
      assert Summed(w, l + 1, x / WORD);
    }
  }

  /** The word of the top level above an index. */
  function TopOf(x: nat, l: nat): nat
    requires l < LEVELS
    decreases LEVELS - l
  {
    if l == TOP then x / WORD else TopOf(x / WORD, l + 1)
  }

  /** Going up from a set bit, the top word is not zero, and lies at or before every word on the way. */
  lemma {:induction false} SeenAtTop(w: seq<seq<nat>>, l: nat, x: nat)
    requires Agreeing(w) && l < LEVELS && x < WORD * |w[l]| && BitAt(w, l, x)
    ensures NonZero(w, TOP, TopOf(x, l)) && TopOf(x, l) <= x / WORD
    decreases LEVELS - l
  {
    hide Agreeing, BitAt, NonZero;
    SeenAbove(w, l, x);
    if l < TOP {
      SeenAtTop(w, l + 1, x / WORD);
    }
  }

  /** How one flipped bit of level 0 changes the free set; above level 0 nothing does. */
  lemma FlippedFree(w: seq<seq<nat>>, l: nat, k: nat, v: nat, i: nat, on: bool)
    requires |w| == LEVELS && l < LEVELS && k < |w[l]| && Flips(w, l, k, v, i, on)
    ensures FreeSet(Put(w, l, k, v)) ==
            if l > 0 then FreeSet(w) else if on then FreeSet(w) + {WORD * k + i} else FreeSet(w) - {WORD * k + i}
  {
    hide Size, Bit, BitAt;
    FlipsBound(w, l, k, v, i, on);
    var t := Put(w, l, k, v);
    forall x: nat | x < WORD * |w[0]|
      ensures BitAt(t, 0, x) <==> if l == 0 && x == WORD * k + i then on else BitAt(w, 0, x) {
      FlippedBit(w, l, k, v, i, on, 0, x);
    }
  }

  /** No bit above the top level is missing. */
  lemma SummedTop(w: seq<seq<nat>>, y: nat)
    requires SummedBut(w, LEVELS, y)
    ensures SummedBut(w, 0, 0)
  {
    hide Summed;
  }

  /** A bit that is right completes the summaries. */
  lemma SummedAll(w: seq<seq<nat>>, m: nat, y: nat)
    requires SummedBut(w, m, y) && m < LEVELS && y < WORD * |w[m]| && BitAt(w, m, y) && (m > 0 ==> NonZero(w, m - 1, y))
    ensures SummedBut(w, 0, 0)
  {
    hide BitAt, NonZero;
    forall l: nat, x: nat | 1 <= l < LEVELS && x < WORD * |w[l]| ensures Summed(w, l, x) {
      assert l != m || x != y ==> Summed(w, l, x);
    }
  }

  lemma SummedFewer(w: seq<seq<nat>>, m: nat, y: nat)
    requires SummedBut(w, 0, 0)
    ensures SummedBut(w, m, y)
  {
    hide Summed;
  }
}
