/**
 * The identifier allocator: an alternating partition of a range into used and free regions, kept in an ordered tree.
 */
module ResourceManager {
  import opened OrderedKeys

  const MODULUS := 0x1_0000_0000_0000_0000
  /** The last two 64-bit identifiers. */
  const FIRST := 0xffff_ffff_ffff_fffe
  const LAST := 0xffff_ffff_ffff_ffff

  datatype Region = Region(length: nat, used: bool)

  type Tree = map<nat, Region>

  /** 64-bit addition. */
  function Add(x: nat, y: nat): nat
  {
    (x + y) % MODULUS
  }

  ghost predicate Inside(m: Tree, k: nat, lo: nat, hi: nat)
    requires k in m
  {
    lo <= k && m[k].length >= 1 && k + m[k].length <= hi + 1
  }

  /** The region after k starts where k ends and is of the other kind. */
  ghost predicate Alternates(m: Tree, k: nat, hi: nat)
    requires k in m
  {
    k + m[k].length <= hi ==> k + m[k].length in m && m[k + m[k].length].used != m[k].used
  }

  ghost predicate Apart(m: Tree, k: nat, j: nat)
    requires k in m
  {
    k < j ==> k + m[k].length <= j
  }

  /** The regions partition [lo, hi] and alternate between used and free. */
  ghost predicate Partition(m: Tree, lo: nat, hi: nat)
  {
    && lo in m
    && (forall k {:trigger Inside(m, k, lo, hi)} {:trigger Alternates(m, k, hi)} :: k in m ==>
       Inside(m, k, lo, hi) && Alternates(m, k, hi))
    && forall k, j {:trigger Apart(m, k, j)} :: k in m && j in m ==> Apart(m, k, j)
  }

  /** The identifiers of region k are free exactly when the region is. */
  ghost predicate Reflects(m: Tree, k: nat, free: set<nat>)
    requires k in m
  {
    forall x: nat :: k <= x < k + m[k].length ==> (x in free <==> !m[k].used)
  }

  /** The tree stands for this set of free identifiers. */
  ghost predicate Inv(m: Tree, lo: nat, hi: nat, free: set<nat>)
  {
    && 1 <= lo < hi < MODULUS && Partition(m, lo, hi)
    && (forall k {:trigger Reflects(m, k, free)} :: k in m ==> Reflects(m, k, free))
    && forall x :: x in free ==> lo <= x <= hi
  }

  /** The region at or before an identifier of the range holds it. */
  lemma FloorHolds(m: Tree, lo: nat, hi: nat, free: set<nat>, x: nat, k: nat)
    requires Inv(m, lo, hi, free) && lo <= x <= hi && IsFloor(m.Keys, x, k)
    ensures k <= x < k + m[k].length && (x in free <==> !m[k].used) && Inside(m, k, lo, hi)
  {
    assert Alternates(m, k, hi) && Inside(m, k, lo, hi) && Reflects(m, k, free);
  }

  lemma FirstKey(m: Tree, lo: nat, hi: nat, free: set<nat>, x: nat, k: nat)
    requires Inv(m, lo, hi, free) && x <= 1 && IsCeiling(m.Keys, x, k)
    ensures k == lo && Inside(m, lo, lo, hi) && Alternates(m, lo, hi) && Reflects(m, lo, free)
  {
    assert Inside(m, k, lo, hi);
  }

  // ---------------------------------------------------------------------------
  // Changing the kind of one identifier
  // ---------------------------------------------------------------------------

  /**
    * The region that identifier x of region k will belong to: it takes in the neighbour before if x is the first of
    * its region, and the neighbour after if x is the last.
    */
  datatype Flip = Flip(k: nat, x: nat, start: nat, end: nat)

  ghost predicate FlipOk(m: Tree, lo: nat, hi: nat, f: Flip)
  {
    && f.k in m && f.k <= f.x < f.k + m[f.k].length
    && (if f.k < f.x || f.x == lo then f.start == f.x else f.start in m && f.start + m[f.start].length == f.x)
    && var e := f.k + m[f.k].length;
       if f.x + 1 < e || e == hi + 1 then f.end == f.x + 1 else e in m && f.end == e + m[e].length
  }

  /** The tree after the flip. */
  ghost function Flipped(m: Tree, f: Flip): Tree
    requires f.k in m && f.k <= f.x < f.k + m[f.k].length && f.start <= f.end
  {
    var u, e := m[f.k].used, f.k + m[f.k].length;
    var t := (m - {f.k, f.x + 1})[f.start := Region(f.end - f.start, !u)];
    var t' := if f.k < f.x then t[f.k := Region(f.x - f.k, u)] else t;
    if f.x + 1 < e then t'[f.x + 1 := Region(e - f.x - 1, u)] else t'
  }

  ghost function FlippedSet(free: set<nat>, x: nat): set<nat>
  {
    if x in free then free - {x} else free + {x}
  }

  /** j is a region that the flip does not touch. */
  ghost predicate Untouched(m: Tree, f: Flip, j: nat)
  {
    j in m && j != f.k && (j + m[j].length <= f.start || j >= f.end)
  }

  /** What there is to know about the place of a flip. */
  lemma FlipPlace(m: Tree, lo: nat, hi: nat, f: Flip)
    requires Partition(m, lo, hi) && FlipOk(m, lo, hi, f)
    ensures lo <= f.start <= f.x < f.end <= hi + 1
    ensures f.start < f.x ==> f.k == f.x && f.start in m && m[f.start].used != m[f.k].used && m[f.start].length >= 1
    ensures f.x + 1 < f.end ==>
            f.x + 1 == f.k + m[f.k].length && f.x + 1 in m && m[f.x + 1].used != m[f.k].used
            && f.end == f.x + 1 + m[f.x + 1].length
    ensures f.k + m[f.k].length <= hi + 1 && lo <= f.k
  {
    assert Inside(m, f.k, lo, hi) && Alternates(m, f.k, hi);
    if f.start < f.x {
      assert Inside(m, f.start, lo, hi) && Alternates(m, f.start, hi);
    }
    if f.x + 1 in m {
      assert Inside(m, f.x + 1, lo, hi);
    }
  }

  /** The regions after the flip: the changed one, the rests of the old one, and the untouched ones. */
  lemma FlipKeys(m: Tree, lo: nat, hi: nat, f: Flip, j: nat)
    requires Partition(m, lo, hi) && FlipOk(m, lo, hi, f) && lo <= f.start <= f.x < f.end
    ensures var t := Flipped(m, f);
            j in t <==>
              || j == f.start || (j == f.k && f.k < f.x) || (j == f.x + 1 && f.x + 1 < f.k + m[f.k].length)
              || Untouched(m, f, j)
  {
    FlipPlace(m, lo, hi, f);
    if j in m {
      assert Apart(m, j, f.k) && Apart(m, f.k, j);
      if f.start in m { assert Apart(m, f.start, j) && Apart(m, j, f.start); }
      if f.x + 1 in m { assert Apart(m, f.x + 1, j) && Apart(m, j, f.x + 1); }
      assert Inside(m, j, lo, hi);
    }
  }

  lemma FlipValues(m: Tree, lo: nat, hi: nat, f: Flip, j: nat)
    requires Partition(m, lo, hi) && FlipOk(m, lo, hi, f) && lo <= f.start <= f.x < f.end && j in Flipped(m, f)
    ensures var t, u := Flipped(m, f), m[f.k].used;
            && (j == f.start ==> t[j] == Region(f.end - f.start, !u))
            && (j == f.k && f.k < f.x ==> t[j] == Region(f.x - f.k, u))
            && (j == f.x + 1 && f.x + 1 < f.k + m[f.k].length ==> t[j] == Region(f.k + m[f.k].length - f.x - 1, u))
            && (Untouched(m, f, j) ==> t[j] == m[j])
  {
    FlipPlace(m, lo, hi, f);
    FlipKeys(m, lo, hi, f, j);
    if Untouched(m, f, j) {
      assert Inside(m, j, lo, hi) && Apart(m, f.k, j) && Apart(m, j, f.k);
    }
  }

  lemma FlipInside(m: Tree, lo: nat, hi: nat, f: Flip, j: nat)
    requires Partition(m, lo, hi) && FlipOk(m, lo, hi, f) && lo <= f.start <= f.x < f.end && j in Flipped(m, f)
    ensures Inside(Flipped(m, f), j, lo, hi)
  {
    hide Flipped, Untouched, Partition, FlipOk, Alternates, Apart;
    FlipPlace(m, lo, hi, f);
    FlipKeys(m, lo, hi, f, j);
    FlipValues(m, lo, hi, f, j);
    UntouchedAt(m, lo, hi, f, j);
  }

  lemma UntouchedAt(m: Tree, lo: nat, hi: nat, f: Flip, j: nat)
    requires Partition(m, lo, hi)
    ensures Untouched(m, f, j) ==>
            j in m && j != f.k && Inside(m, j, lo, hi) && Alternates(m, j, hi)
            && (j + m[j].length <= f.start || j >= f.end)
  {}

  lemma FlipAlternates(m: Tree, lo: nat, hi: nat, f: Flip, j: nat)
    requires Partition(m, lo, hi) && FlipOk(m, lo, hi, f) && lo <= f.start <= f.x < f.end && j in Flipped(m, f)
    ensures Alternates(Flipped(m, f), j, hi)
  {
    hide Flipped, Partition, Apart, Untouched;
    var t := Flipped(m, f);
    FlipPlace(m, lo, hi, f);
    FlipKeys(m, lo, hi, f, j);
    FlipValues(m, lo, hi, f, j);
    UntouchedAt(m, lo, hi, f, j);
    var n := j + t[j].length;
    if n <= hi {
      FlipNext(m, lo, hi, f, j, n);
      FlipValues(m, lo, hi, f, n);
    }
  }

  /** The region that follows region j after the flip. */
  lemma FlipNext(m: Tree, lo: nat, hi: nat, f: Flip, j: nat, n: nat)
    requires Partition(m, lo, hi) && FlipOk(m, lo, hi, f) && lo <= f.start <= f.x < f.end && j in Flipped(m, f)
             && n == j + Flipped(m, f)[j].length <= hi
    ensures n in Flipped(m, f)
    ensures Flipped(m, f)[n].used != Flipped(m, f)[j].used
  {
    hide Flipped;
    FlipPlace(m, lo, hi, f);
    FlipKeys(m, lo, hi, f, j);
    FlipValues(m, lo, hi, f, j);
    FlipKeys(m, lo, hi, f, n);
    assert Inside(m, f.k, lo, hi) && Alternates(m, f.k, hi);
    if f.x + 1 in m { assert Inside(m, f.x + 1, lo, hi); }
    if j == f.start {
      if f.x + 1 < f.end {
        assert Alternates(m, f.x + 1, hi);
      }
    } else if j == f.k {
    } else if j == f.x + 1 && f.x + 1 < f.k + m[f.k].length {
    } else {
      assert Alternates(m, j, hi) && Inside(m, j, lo, hi) && n in m;
      assert Apart(m, j, f.k) && Apart(m, f.k, j) && Apart(m, n, f.k) && Apart(m, f.k, n);
      assert Inside(m, n, lo, hi);
      if f.start in m {
        assert Apart(m, n, f.start) && Apart(m, f.start, n) && Apart(m, j, f.start) && Apart(m, f.start, j)
          && Inside(m, f.start, lo, hi);
      }
    }
    FlipValues(m, lo, hi, f, n);
  }

  lemma FlipApart(m: Tree, lo: nat, hi: nat, f: Flip, i: nat, j: nat)
    requires Partition(m, lo, hi) && FlipOk(m, lo, hi, f) && lo <= f.start <= f.x < f.end && i in Flipped(m, f)
             && j in Flipped(m, f)
    ensures Apart(Flipped(m, f), i, j)
  {
    hide Flipped;
    FlipPlace(m, lo, hi, f);
    FlipKeys(m, lo, hi, f, i);
    FlipValues(m, lo, hi, f, i);
    FlipKeys(m, lo, hi, f, j);
    FlipValues(m, lo, hi, f, j);
    if i in m { assert Apart(m, i, f.k) && Apart(m, f.k, i) && Inside(m, i, lo, hi); }
    if j in m { assert Apart(m, j, f.k) && Apart(m, f.k, j) && Inside(m, j, lo, hi); }
    if i in m && j in m { assert Apart(m, i, j); }
  }

  lemma FlipReflects(m: Tree, lo: nat, hi: nat, free: set<nat>, f: Flip, j: nat)
    requires Inv(m, lo, hi, free) && FlipOk(m, lo, hi, f) && lo <= f.start <= f.x < f.end && j in Flipped(m, f)
    ensures Reflects(Flipped(m, f), j, FlippedSet(free, f.x))
  {
    hide Flipped;
    FlipPlace(m, lo, hi, f);
    FlipKeys(m, lo, hi, f, j);
    FlipValues(m, lo, hi, f, j);
    assert Reflects(m, f.k, free);
    if j in m { assert Apart(m, j, f.k) && Apart(m, f.k, j) && Inside(m, j, lo, hi) && Reflects(m, j, free); }
    if f.start in m { assert Reflects(m, f.start, free); }
    if f.x + 1 in m { assert Reflects(m, f.x + 1, free); }
  }

  /** Flipping one identifier keeps the partition alternating and changes exactly that identifier. */
  lemma FlipInv(m: Tree, lo: nat, hi: nat, free: set<nat>, f: Flip)
    requires Inv(m, lo, hi, free) && FlipOk(m, lo, hi, f)
    ensures f.start <= f.end && Inv(Flipped(m, f), lo, hi, FlippedSet(free, f.x))
  {
    hide Flipped, Inside, Alternates, Apart, Reflects;
    FlipPlace(m, lo, hi, f);
    var t := Flipped(m, f);
    FlipKeys(m, lo, hi, f, lo);
    FirstRegion(m, lo, hi, f);
    forall j | j in t ensures Inside(t, j, lo, hi) && Alternates(t, j, hi) && Reflects(t, j, FlippedSet(free, f.x)) {
      FlipInside(m, lo, hi, f, j);
      FlipAlternates(m, lo, hi, f, j);
      FlipReflects(m, lo, hi, free, f, j);
    }
    forall i, j | i in t && j in t ensures Apart(t, i, j) {
      FlipApart(m, lo, hi, f, i, j);
    }
  }

  lemma FirstRegion(m: Tree, lo: nat, hi: nat, f: Flip)
    requires Partition(m, lo, hi) && FlipOk(m, lo, hi, f)
    ensures f.start == lo || (f.k == lo && f.k < f.x) || Untouched(m, f, lo)
  {
    FlipPlace(m, lo, hi, f);
    assert Apart(m, lo, f.k) && Inside(m, f.k, lo, hi) && Inside(m, lo, lo, hi);
    if f.start in m { assert Apart(m, lo, f.start) && Inside(m, f.start, lo, hi); }
  }

  // ---------------------------------------------------------------------------
  // The manager
  // ---------------------------------------------------------------------------

  class Manager {
    var tree: Tree
    const hi: nat
    ghost const lo: nat
    ghost var free: set<nat>

    ghost predicate Valid()
      reads this
    {
      Inv(tree, lo, hi, free)
    }

    /** A manager of the identifiers from min (at least 1) to max, all free. */
    constructor (min: nat, max: nat)
      requires (if min == 0 then 1 else min) < max < MODULUS
      ensures Valid() && hi == max && lo == (if min == 0 then 1 else min)
              && forall x: nat :: x in free <==> lo <= x <= hi
    {
      var first := if min == 0 then 1 else min;
      hi, lo := max, first;
      tree := map[first := Region(max - first + 1, false)];
      free := Range(first, max);
    }

    /** Creates a manager, or nothing for an empty range or one of a single identifier. */
    static method Create(min: nat, max: nat) returns (r: Manager?)
      requires max < MODULUS
      ensures r == null <==> (if min == 0 then 1 else min) >= max
      ensures r != null ==>
              fresh(r) && r.Valid() && r.hi == max && r.lo == (if min == 0 then 1 else min)
              && forall x: nat :: x in r.free <==> (if min == 0 then 1 else min) <= x <= max
    {
      if (if min == 0 then 1 else min) >= max {
        return null;
      }
      r := new Manager(min, max);
    }

    /** Takes the least free identifier; 0 if there is none. */
    method Alloc() returns (out: nat)
      requires Valid()
      modifies this
      ensures Valid()
      ensures old(free) == {} ==> out == 0 && free == {} && tree == old(tree)
      ensures old(free) != {} ==>
              out in old(free) && (forall x :: x in old(free) ==> out <= x) && free == old(free) - {out}
    {
      hide Inv, IsCeiling, FlipOk, Add;
      ghost var m := tree;
      HasFirst(m, lo, hi, free);
      var found, prev := Ceiling(tree.Keys, 1);
      FirstFound(m, lo, hi, free, found, prev);
      LeastFree(m, lo, hi, free);
      var key := prev;
      if tree[prev].used {
        key := Add(prev, tree[prev].length);
        if key !in tree {
          return 0;
        }
      }
      out := key;
      ghost var f := Flip(key, out, prev, EndAfter(m, hi, key, out));
      EndOk(m, lo, hi, free, key, out);
      StartOk(m, lo, hi, f);
      FlipInv(m, lo, hi, free, f);
      var region := tree[key];
      tree := tree - {key};
      if prev == key {
        tree := tree[prev := Region(0, true)];
      }
      tree := tree[prev := Region(tree[prev].length + 1, true)];
      if region.length > 1 {
        tree := tree[Add(key, 1) := Region(region.length - 1, false)];
      } else if Add(out, 1) in tree {
        var length := tree[Add(out, 1)].length;
        tree := tree - {Add(out, 1)};
        tree := tree[prev := Region(tree[prev].length + length, true)];
      }
      assert tree == Flipped(m, f);
      free := free - {out};
    }

    /**
      * Frees a used identifier and refuses any other. Freeing the identifier 2^64 - 1 while its predecessor is free
      * looks up the successor with a sum that wraps to 0 and removes the first region instead: exactly then the
      * partition is lost.
      */
    method Dealloc(x: nat) returns (ok: bool)
      requires Valid() && x < MODULUS
      modifies this
      ensures ok <==> lo <= x <= hi && x !in old(free)
      ensures !ok ==> Valid() && free == old(free) && tree == old(tree)
      ensures ok ==> free == old(free) + {x}
      ensures ok ==> (Valid() <==> !(x == MODULUS - 1 && x - 1 in old(free)))
      ensures ok && !Valid() ==> lo !in tree
    {
      hide Inv, IsFloor, FlipOk, Add;
      ghost var m := tree;
      HasFirst(m, lo, hi, free);
      if x == 0 || x > hi {
        return false;
      }
      var found, k := Floor(tree.Keys, x);
      FloorFound(m, lo, hi, free, x, found, k);
      if !found || !tree[k].used {
        return false;
      }
      ghost var p := PrevRegion(m, lo, hi, free, k);
      ghost var f := Flip(k, x, if k < x || x == lo then x else p, EndAfter(m, hi, k, x));
      EndOk(m, lo, hi, free, k, x);
      StartOk(m, lo, hi, f);
      FlipInv(m, lo, hi, free, f);
      WrapIff(m, lo, hi, free, k, x, p);
      if x == k {
        DeallocFirst(x, f);
        LostFirst(tree, lo, hi, free + {x});
      } else if x == k + tree[k].length - 1 {
        var next := Add(x, 1);
        var length := 0;
        if next in tree {
          length := tree[next].length;
          tree := tree - {next};
        }
        tree := tree[x := Region(length + 1, false)];
        tree := tree[k := Region(tree[k].length - 1, true)];
        assert tree == Flipped(m, f);
      } else {
        tree := tree[x := Region(1, false)];
        tree := tree[Add(x, 1) := Region(k + tree[k].length - x - 1, true)];
        tree := tree[k := Region(x - k, true)];
        assert tree == Flipped(m, f);
      }
      free := free + {x};
      ok := true;
    }

    /** The case of an identifier that is the first of its region. */
    method DeallocFirst(x: nat, ghost f: Flip)
      requires Valid() && lo <= x <= hi && x in tree && tree[x].used && f.k == x == f.x && FlipOk(tree, lo, hi, f)
      modifies this`tree
      ensures f.start <= f.end
      ensures if x == MODULUS - 1 then lo !in tree else tree == Flipped(old(tree), f)
    {
      hide Inv, IsFloor, IsCeiling, FlipOk, Add;
      ghost var m := tree;
      FlipInv(m, lo, hi, free, f);
      FirstFlip(m, lo, hi, free, f);
      var region := tree[x];
      tree := tree - {x};
      var found, prev := Floor(tree.Keys, x - 1);
      BeforeFound(m, lo, hi, free, f, found, prev);
      if found {
        tree := tree[prev := tree[prev].(length := tree[prev].length + 1)];
      } else {
        prev := x;
        tree := tree[x := Region(1, false)];
      }
      if region.length > 1 {
        tree := tree[Add(x, 1) := Region(region.length - 1, true)];
      } else {
        ghost var t := tree;
        var more, next := Ceiling(tree.Keys, Add(x, 1));
        AfterFound(m, lo, hi, free, f, t, more, next);
        if more {
          var length := tree[next].length;
          tree := tree - {next};
          if next != prev {
            tree := tree[prev := tree[prev].(length := tree[prev].length + length)];
          }
        }
      }
      assert x != MODULUS - 1 ==> tree == Flipped(m, f);
    }

    /** Whether an identifier is used; one above the range counts like the last of the range. */
    method IsUsed(x: nat) returns (used: bool)
      requires Valid()
      ensures used <==> lo <= x && (if x <= hi then x else hi) !in free
    {
      var found, k := Floor(tree.Keys, x);
      if !found {
        return false;
      }
      assert Inside(tree, k, lo, hi);
      if lo <= x {
        FloorHolds(tree, lo, hi, free, if x <= hi then x else hi, k);
      }
      used := tree[k].used;
    }
  }

  /** A manager of the last two 64-bit identifiers, both taken and given back in order: the first region is gone. */
  method LastIdentifierLost() returns (tree: Tree)
    ensures forall free :: !Inv(tree, FIRST, LAST, free)
  {
    hide Inv;
    var m := Manager.Create(FIRST, LAST);
    assert FIRST in m.free && LAST in m.free && m.free == {FIRST, LAST};
    var a := m.Alloc();
    assert m.free == {LAST} && LAST in m.free;
    var b := m.Alloc();
    assert m.free == {};
    var ok := m.Dealloc(FIRST);
    assert FIRST in m.free;
    ok := m.Dealloc(LAST);
    forall free ensures !Inv(m.tree, FIRST, LAST, free) {
      LostFirst(m.tree, FIRST, LAST, free);
    }
    tree := m.tree;
  }

  ghost function Range(lo: nat, hi: nat): (r: set<nat>)
    ensures forall x: nat :: x in r <==> lo <= x <= hi
    decreases hi
  {
    if hi < lo then {} else if hi == 0 then {0} else Range(lo, hi - 1) + {hi}
  }

  // ---------------------------------------------------------------------------
  // Where the lookups lead
  // ---------------------------------------------------------------------------

  ghost function EndAfter(m: Tree, hi: nat, k: nat, x: nat): nat
    requires k in m
  {
    var e := k + m[k].length;
    if x + 1 < e || e == hi + 1 || e !in m then x + 1 else e + m[e].length
  }

  /** The region before region k. */
  lemma PrevRegion(m: Tree, lo: nat, hi: nat, free: set<nat>, k: nat) returns (p: nat)
    requires Inv(m, lo, hi, free) && k in m
    ensures k > lo ==>
            p in m && p < k && p + m[p].length == k && m[p].used != m[k].used && (k - 1 in free <==> !m[p].used)
  {
    assert Inside(m, k, lo, hi);
    p := 0;
    if k > lo {
      var s := set j | j in m && j < k;
      assert lo in s && forall j :: j in m && j < k ==> j in s;
      p := Greatest(s);
      assert IsFloor(m.Keys, k - 1, p);
      FloorHolds(m, lo, hi, free, k - 1, p);
      assert Apart(m, p, k) && Alternates(m, p, hi);
    }
  }

  lemma StartOk(m: Tree, lo: nat, hi: nat, f: Flip)
    requires f.k in m && f.k <= f.x < f.k + m[f.k].length && f.end == EndAfter(m, hi, f.k, f.x)
    requires f.k + m[f.k].length != hi + 1 ==> f.k + m[f.k].length in m
    requires if f.k < f.x || f.x == lo then f.start == f.x else f.start in m && f.start + m[f.start].length == f.x
    ensures FlipOk(m, lo, hi, f)
  {}

  /** Where the flipped region ends, and that the 64-bit sum finds the region after it. */
  lemma EndOk(m: Tree, lo: nat, hi: nat, free: set<nat>, k: nat, x: nat)
    requires Inv(m, lo, hi, free) && k in m && k <= x < k + m[k].length
    ensures var e := k + m[k].length;
            && e <= hi + 1 && (Add(x, 1) == x + 1 || Add(x, 1) == 0) && 0 !in m && hi + 1 !in m
            && (e != hi + 1 ==> e in m && m[e].used != m[k].used)
            && (x + 1 < e ==> Add(x, 1) == x + 1 && x + 1 !in m)
            && (x + 1 == e ==> (Add(x, 1) in m <==> e <= hi) && (e <= hi ==> Add(x, 1) == x + 1))
  {
    assert Inside(m, k, lo, hi) && Alternates(m, k, hi);
    if x + 1 in m {
      assert Inside(m, x + 1, lo, hi) && Apart(m, k, x + 1);
    }
    forall j | j in m ensures lo <= j <= hi {
      assert Inside(m, j, lo, hi);
    }
  }

  /** The least free identifier starts the first region or the one after it. */
  lemma LeastFree(m: Tree, lo: nat, hi: nat, free: set<nat>)
    requires Inv(m, lo, hi, free) && lo in m
    ensures m[lo].length >= 1
    ensures !m[lo].used ==> lo in free && forall x :: x in free ==> lo <= x
    ensures m[lo].used ==>
              var e := Add(lo, m[lo].length);
              && (e !in m ==> free == {})
              && (e in m ==>
                 e == lo + m[lo].length && !m[e].used && m[e].length >= 1 && e in free
                 && forall x :: x in free ==> e <= x)
  {
    assert Inside(m, lo, lo, hi) && Alternates(m, lo, hi) && Reflects(m, lo, free);
    EndOk(m, lo, hi, free, lo, lo + m[lo].length - 1);
    var e := lo + m[lo].length;
    assert Add(lo, m[lo].length) == Add(e - 1, 1);
    if m[lo].used {
      assert forall x :: x in free ==> x >= e;
      if e in m {
        assert Inside(m, e, lo, hi) && Reflects(m, e, free);
      }
    }
  }

  lemma HasFirst(m: Tree, lo: nat, hi: nat, free: set<nat>)
    requires Inv(m, lo, hi, free)
    ensures lo in m && 1 <= lo < hi < MODULUS
  {}

  lemma FirstFound(m: Tree, lo: nat, hi: nat, free: set<nat>, found: bool, k: nat)
    requires Inv(m, lo, hi, free) && (found ==> IsCeiling(m.Keys, 1, k))
             && (!found ==> forall j :: j in m.Keys ==> j < 1)
    ensures found && k == lo
  {
    assert lo in m;
    FirstKey(m, lo, hi, free, 1, k);
  }

  lemma FloorFound(m: Tree, lo: nat, hi: nat, free: set<nat>, x: nat, found: bool, k: nat)
    requires Inv(m, lo, hi, free) && x <= hi && (found ==> IsFloor(m.Keys, x, k))
             && (!found ==> forall j :: j in m.Keys ==> j > x)
    ensures found <==> lo <= x
    ensures found ==> k in m && lo <= k <= x < k + m[k].length && (x in free <==> !m[k].used)
  {
    if found {
      assert Inside(m, k, lo, hi);
      FloorHolds(m, lo, hi, free, x, k);
    }
  }

  /** The successor lookup wraps exactly for the last 64-bit identifier with a free predecessor. */
  lemma WrapIff(m: Tree, lo: nat, hi: nat, free: set<nat>, k: nat, x: nat, p: nat)
    requires Inv(m, lo, hi, free) && k in m && k <= x < k + m[k].length && x <= hi && m[k].used
    requires k > lo ==> p in m && m[p].used != m[k].used && (k - 1 in free <==> !m[p].used)
    ensures x == MODULUS - 1 ==> (k == x <==> x - 1 in free)
  {
    assert Reflects(m, k, free) && Inside(m, k, lo, hi);
  }

  lemma LostFirst(m: Tree, lo: nat, hi: nat, free: set<nat>)
    ensures lo !in m ==> !Inv(m, lo, hi, free)
  {}

  /** The shape of a flip at the start of a region. */
  lemma FirstFlip(m: Tree, lo: nat, hi: nat, free: set<nat>, f: Flip)
    requires Inv(m, lo, hi, free) && FlipOk(m, lo, hi, f) && f.k == f.x
    ensures lo in m && 1 <= lo <= f.x <= hi < MODULUS && m[f.x].length >= 1 && f.x + m[f.x].length <= hi + 1
    ensures if f.x == lo then f.start == f.x
            else f.start in m && f.start < f.x && f.start + m[f.start].length == f.x && m[f.start].used != m[f.x].used
    ensures f.end == EndAfter(m, hi, f.k, f.x) && (m[f.x].length == 1 && f.x < hi ==> f.x + 1 in m && f.x + 1 != hi + 1)
    ensures (m[f.x].length > 1 || f.x == hi ==> f.x + 1 !in m) && (m[f.x].length > 1 ==> Add(f.x, 1) == f.x + 1)
  {
    FlipPlace(m, lo, hi, f);
    EndOk(m, lo, hi, free, f.k, f.x);
    assert Inside(m, f.x, lo, hi);
    if f.start in m { assert Inside(m, f.start, lo, hi); }
    if f.x + 1 in m { assert Inside(m, f.x + 1, lo, hi); }
  }

  /** The lookup before the first identifier of a region finds the region before. */
  lemma BeforeFound(m: Tree, lo: nat, hi: nat, free: set<nat>, f: Flip, found: bool, k: nat)
    requires Inv(m, lo, hi, free) && FlipOk(m, lo, hi, f) && f.k == f.x && f.x > 0
    requires (found ==> IsFloor((m - {f.x}).Keys, f.x - 1, k))
             && (!found ==> forall j :: j in (m - {f.x}).Keys ==> j > f.x - 1)
    ensures found <==> f.x != lo
    ensures found ==> k == f.start
  {
    FirstFlip(m, lo, hi, free, f);
    assert f.x != lo ==> lo in m - {f.x};
    if found {
      assert Inside(m, k, lo, hi);
      if f.start in m {
        assert Apart(m, f.start, k) && f.start in m - {f.x};
      }
    }
  }

  /** The lookup after a region of one identifier finds the region after, unless the sum wraps. */
  lemma AfterFound(m: Tree, lo: nat, hi: nat, free: set<nat>, f: Flip, t: Tree, found: bool, k: nat)
    requires Inv(m, lo, hi, free) && FlipOk(m, lo, hi, f) && f.k == f.x && m[f.x].length == 1
    requires t.Keys == (if f.x == lo then m.Keys else m.Keys - {f.x})
    requires (found ==> IsCeiling(t.Keys, Add(f.x, 1), k)) && (!found ==> forall j :: j in t.Keys ==> j < Add(f.x, 1))
    ensures f.x == MODULUS - 1 ==> found && k == lo
    ensures f.x < MODULUS - 1 ==> Add(f.x, 1) == f.x + 1 && (found <==> f.x < hi) && (found ==> k == f.x + 1)
  {
    FirstFlip(m, lo, hi, free, f);
    if found {
      assert Inside(m, k, lo, hi);
    }
    assert lo in t;
    assert m[f.x].length == 1 && f.x < hi ==> f.x + 1 in t;
  }
}
