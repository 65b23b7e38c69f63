/** Address ranges that tile an interval, and the operations that cut, join, add and drop them. */
module MemoryTiles {

  /** The length of each range by its first address. */
  type Tiles = map<nat, nat>

  ghost predicate Inside(m: Tiles, a: nat, lo: nat, hi: nat)
    requires a in m
  {
    lo <= a && m[a] >= 1 && a + m[a] <= hi
  }

  ghost predicate Followed(m: Tiles, a: nat, hi: nat)
    requires a in m
  {
    a + m[a] < hi ==> a + m[a] in m
  }

  ghost predicate Apart(m: Tiles, a: nat, b: nat)
    requires a in m
  {
    a < b ==> a + m[a] <= b
  }

  /** The ranges tile [lo, hi) without gaps or overlaps. */
  ghost predicate Tiling(m: Tiles, lo: nat, hi: nat)
  {
    && lo <= hi && (lo < hi ==> lo in m)
    && (forall a {:trigger Inside(m, a, lo, hi)} {:trigger Followed(m, a, hi)} :: a in m ==>
       Inside(m, a, lo, hi) && Followed(m, a, hi))
    && forall a, b {:trigger Apart(m, a, b)} :: a in m && b in m ==> Apart(m, a, b)
  }

  /** Every address of the interval lies in a range: the one found by looking down. */
  lemma {:induction false} Covered(m: Tiles, lo: nat, hi: nat, x: nat) returns (a: nat)
    requires Tiling(m, lo, hi) && lo <= x < hi
    ensures a in m && a <= x < a + m[a]
  {
    a := CoveredFrom(m, lo, hi, x, lo);
  }

  lemma {:induction false} CoveredFrom(m: Tiles, lo: nat, hi: nat, x: nat, from: nat) returns (a: nat)
    requires Tiling(m, lo, hi) && lo <= from <= x < hi && from in m
    ensures a in m && a <= x < a + m[a]
    decreases hi - from
  {
    assert Inside(m, from, lo, hi) && Followed(m, from, hi);
    if x < from + m[from] {
      return from;
    }
    a := CoveredFrom(m, lo, hi, x, from + m[from]);
  }

  /** Cutting a range in two. */
  lemma CutTiling(m: Tiles, lo: nat, hi: nat, a: nat, l: nat)
    requires Tiling(m, lo, hi) && a in m && 1 <= l < m[a]
    ensures a + l !in m && Tiling(m[a := l][a + l := m[a] - l], lo, hi)
  {
    var t := m[a := l][a + l := m[a] - l];
    assert Inside(m, a, lo, hi) && Followed(m, a, hi);
    forall b | b in m ensures b <= a || b >= a + m[a] {
      assert Apart(m, a, b);
    }
    forall b | b in t ensures Inside(t, b, lo, hi) && Followed(t, b, hi) {
      if b in m {
        assert Inside(m, b, lo, hi) && Followed(m, b, hi);
      }
    }
    forall b, c | b in t && c in t ensures Apart(t, b, c) {
      if b in m { assert Apart(m, b, a) && Apart(m, a, b); }
      if c in m { assert Apart(m, c, a) && Apart(m, a, c) && Inside(m, c, lo, hi); }
      if b in m && c in m { assert Apart(m, b, c); }
    }
  }

  /** Joining two neighbours. */
  lemma JoinTiling(m: Tiles, lo: nat, hi: nat, p: nat, a: nat)
    requires Tiling(m, lo, hi) && p in m && a in m && p + m[p] == a
    ensures Tiling((m - {a})[p := m[p] + m[a]], lo, hi)
  {
    var t := (m - {a})[p := m[p] + m[a]];
    assert Inside(m, a, lo, hi) && Inside(m, p, lo, hi);
    forall b | b in t ensures Inside(t, b, lo, hi) && Followed(t, b, hi) {
      JoinedTile(m, lo, hi, p, a, b);
    }
    forall b, c | b in t && c in t ensures Apart(t, b, c) {
      JoinedApart(m, lo, hi, p, a, b, c);
    }
  }

  lemma JoinedTile(m: Tiles, lo: nat, hi: nat, p: nat, a: nat, b: nat)
    requires Tiling(m, lo, hi) && p in m && a in m && p + m[p] == a && b in m && b != a
    ensures var t := (m - {a})[p := m[p] + m[a]]; Inside(t, b, lo, hi) && Followed(t, b, hi)
  {
    assert Inside(m, a, lo, hi) && Followed(m, a, hi) && Inside(m, p, lo, hi);
    assert Inside(m, b, lo, hi) && Followed(m, b, hi) && Apart(m, b, p) && Apart(m, p, b);
  }

  lemma JoinedApart(m: Tiles, lo: nat, hi: nat, p: nat, a: nat, b: nat, c: nat)
    requires Tiling(m, lo, hi) && p in m && a in m && p + m[p] == a && b in m && b != a && c in m && c != a
    ensures var t := (m - {a})[p := m[p] + m[a]]; Apart(t, b, c)
  {
    assert Apart(m, b, c) && Apart(m, a, c) && Inside(m, c, lo, hi);
  }

  /** Dropping the first range, with the lower end moving up. */
  lemma DropTiling(m: Tiles, lo: nat, hi: nat)
    requires Tiling(m, lo, hi) && lo in m
    ensures Tiling(m - {lo}, lo + m[lo], hi)
  {
    var t := m - {lo};
    assert Inside(m, lo, lo, hi) && Followed(m, lo, hi);
    forall b | b in t ensures Inside(t, b, lo + m[lo], hi) && Followed(t, b, hi) {
      assert Inside(m, b, lo, hi) && Followed(m, b, hi) && Apart(m, lo, b);
    }
    forall b, c | b in t && c in t ensures Apart(t, b, c) {
      assert Apart(m, b, c);
    }
  }

  /** Adding a range below the lower end. */
  lemma AddTiling(m: Tiles, lo: nat, hi: nat, l: nat)
    requires Tiling(m, lo, hi) && 1 <= l <= lo
    ensures lo - l !in m && Tiling(m[lo - l := l], lo - l, hi)
  {
    var t, n := m[lo - l := l], lo - l;
    forall b | b in m ensures b >= lo {
      assert Inside(m, b, lo, hi);
    }
    forall b | b in t ensures Inside(t, b, n, hi) && Followed(t, b, hi) {
      if b in m {
        assert Inside(m, b, lo, hi) && Followed(m, b, hi);
      }
    }
    forall b, c | b in t && c in t ensures Apart(t, b, c) {
      if b in m { assert Inside(m, b, lo, hi); }
      if c in m { assert Inside(m, c, lo, hi); }
      if b in m && c in m { assert Apart(m, b, c); }
    }
  }

  lemma TileInside(m: Tiles, lo: nat, hi: nat, a: nat)
    requires Tiling(m, lo, hi) && a in m
    ensures lo <= a && m[a] >= 1 && a + m[a] <= hi
  {
    assert Inside(m, a, lo, hi);
  }

  /** Different tiles do not overlap. */
  lemma TilesApart(m: Tiles, lo: nat, hi: nat, a: nat, b: nat)
    requires Tiling(m, lo, hi) && a in m && b in m && a != b
    ensures m[a] >= 1 && m[b] >= 1 && (a + m[a] <= b || b + m[b] <= a)
  {
    assert Apart(m, a, b) && Apart(m, b, a) && Inside(m, a, lo, hi) && Inside(m, b, lo, hi);
  }

  /** Two ranges that share an address are the same. */
  lemma SameTile(m: Tiles, lo: nat, hi: nat, a: nat, b: nat, x: nat)
    requires Tiling(m, lo, hi) && a in m && b in m && a <= x < a + m[a] && b <= x < b + m[b]
    ensures a == b
  {
    assert Apart(m, a, b) && Apart(m, b, a);
  }

  /** At most one range ends at an address. */
  lemma SameEnd(m: Tiles, lo: nat, hi: nat, a: nat, b: nat)
    requires Tiling(m, lo, hi) && a in m && b in m && a + m[a] == b + m[b]
    ensures a == b
  {
    assert Apart(m, a, b) && Apart(m, b, a) && Inside(m, a, lo, hi) && Inside(m, b, lo, hi);
  }
}
