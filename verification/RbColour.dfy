/** Order and colour invariants of the tree value, and how each rebalancing case restores them. */
module RbColour {
  import opened RbShape

  // ---------------------------------------------------------------------------
  // In-order contents
  // ---------------------------------------------------------------------------

  datatype Item = Item(node: Node, key: nat)

  ghost function Items(t: Tree): seq<Item>
  {
    match t
    case Nil => []
    case Fork(n, k, _, l, r) => Items(l) + [Item(n, k)] + Items(r)
  }

  /** What comes before and after the hole. */
  ghost function Before(c: Ctx): seq<Item>
  {
    match c
    case Top => []
    case In(up, n, k, _, dir, sib) => if dir then Before(up) + Items(sib) + [Item(n, k)] else Before(up)
  }

  ghost function After(c: Ctx): seq<Item>
  {
    match c
    case Top => []
    case In(up, n, k, _, dir, sib) => if dir then After(up) else [Item(n, k)] + Items(sib) + After(up)
  }

  /** One step of the context, unfolded. */
  lemma CtxStep(c: Ctx, t: Tree)
    requires c.In?
    ensures Plug(c, t) == Plug(c.up, Mk(c.node, c.key, c.red, c.dir, t, c.sib))
    ensures var s, m := Items(c.sib), [Item(c.node, c.key)];
            if c.dir then
              && Items(Mk(c.node, c.key, c.red, c.dir, t, c.sib)) == s + m + Items(t)
              && Before(c) == Before(c.up) + s + m && After(c) == After(c.up)
            else
              && Items(Mk(c.node, c.key, c.red, c.dir, t, c.sib)) == Items(t) + m + s
              && Before(c) == Before(c.up) && After(c) == m + s + After(c.up)
  {}

  lemma {:induction false} ItemsPlug(c: Ctx, t: Tree)
    ensures Items(Plug(c, t)) == Before(c) + Items(t) + After(c)
    decreases c
  {
    if c.Top? {
    } else {
      ItemsPlugIn(c, t, Mk(c.node, c.key, c.red, c.dir, t, c.sib));
    }
  }

  lemma ItemsPlugIn(c: Ctx, t: Tree, u: Tree)
    requires c.In? && u == Mk(c.node, c.key, c.red, c.dir, t, c.sib)
    ensures Items(Plug(c, t)) == Before(c) + Items(t) + After(c)
    decreases c, 0
  {
    hide *;
    CtxStep(c, t);
    ItemsPlug(c.up, u);
    var m, s := [Item(c.node, c.key)], Items(c.sib);
    if c.dir {
    } else {
    }
  }

  /** Keys strictly increase. */
  ghost predicate Sorted(s: seq<Item>)
  {
    forall i, j :: 0 <= i < j < |s| ==> s[i].key < s[j].key
  }

  ghost predicate AllBelow(s: seq<Item>, k: nat)
  {
    forall i :: i in s ==> i.key < k
  }

  ghost predicate AllAbove(s: seq<Item>, k: nat)
  {
    forall i :: i in s ==> i.key > k
  }

  /** The key is outside everything around the hole. */
  ghost predicate Brackets(c: Ctx, k: nat)
  {
    AllBelow(Before(c), k) && AllAbove(After(c), k)
  }

  /** An element of a sorted sequence separates the rest. */
  lemma SortedAround(b: seq<Item>, m: Item, a: seq<Item>)
    requires Sorted(b + [m] + a)
    ensures AllBelow(b, m.key) && AllAbove(a, m.key)
  {
    var s := b + [m] + a;
    assert s[|b|] == m;
    forall i | i in b ensures i.key < m.key {
      var j :| 0 <= j < |b| && b[j] == i;
      assert s[j] == i;
    }
    forall i | i in a ensures i.key > m.key {
      var j :| 0 <= j < |a| && a[j] == i;
      assert s[|b| + 1 + j] == i;
    }
  }

  /** The in-order contents around the root of the focused fork. */
  lemma ItemsAround(c: Ctx, t: Tree)
    requires t.Fork?
    ensures Items(Plug(c, t)) == (Before(c) + Items(t.left)) + [Item(t.node, t.key)] + (Items(t.right) + After(c))
  {
    hide *;
    ItemsPlug(c, t);
    ItemsFork(t);
  }

  lemma ItemsFork(t: Tree)
    requires t.Fork?
    ensures Items(t) == Items(t.left) + [Item(t.node, t.key)] + Items(t.right)
  {}

  /** Going towards the key keeps it bracketed. */
  lemma BracketsDown(c: Ctx, t: Tree, k: nat)
    requires t.Fork? && k != t.key && Sorted(Items(Plug(c, t))) && Brackets(c, k)
    ensures Brackets(Below(c, t, t.key < k), k)
  {
    ItemsAround(c, t);
    SortedAround(Before(c) + Items(t.left), Item(t.node, t.key), Items(t.right) + After(c));
  }

  lemma SortedInsert(b: seq<Item>, a: seq<Item>, i: Item)
    requires Sorted(b + a) && AllBelow(b, i.key) && AllAbove(a, i.key)
    ensures Sorted(b + [i] + a)
  {
    var s, u := b + a, b + [i] + a;
    forall p, q | 0 <= p < q < |u|
      ensures u[p].key < u[q].key
    {
      var p', q' := if p <= |b| then p else p - 1, if q <= |b| then q else q - 1;
      if p != |b| && q != |b| {
        assert u[p] == s[p'] && u[q] == s[q'];
      } else if p == |b| {
        assert u[q] in a;
      } else {
        assert u[p] in b;
      }
    }
  }

  lemma SortedRemove(b: seq<Item>, a: seq<Item>, i: Item)
    requires Sorted(b + [i] + a)
    ensures Sorted(b + a)
  {
    var s, u := b + a, b + [i] + a;
    forall p, q | 0 <= p < q < |s|
      ensures s[p].key < s[q].key
    {
      var p', q' := if p < |b| then p else p + 1, if q < |b| then q else q + 1;
      assert s[p] == u[p'] && s[q] == u[q'];
    }
  }

  // ---------------------------------------------------------------------------
  // Colours
  // ---------------------------------------------------------------------------

  ghost predicate IsRed(t: Tree)
  {
    t.Fork? && t.red
  }

  ghost predicate CtxRed(c: Ctx)
  {
    c.In? && c.red
  }

  lemma CtxRedIs(c: Ctx)
    ensures CtxRed(c) <==> c.In? && c.red
  {}

  lemma IsRedIs(t: Tree)
    ensures IsRed(t) <==> t.Fork? && t.red
  {}

  /** Black nodes on the way down. */
  ghost function Height(t: Tree): nat
  {
    match t
    case Nil => 0
    case Fork(_, _, red, l, _) => Height(l) + if red then 0 else 1
  }

  /** Equal black heights everywhere and no red node with a red child; the root may be red. */
  ghost predicate Good(t: Tree)
  {
    match t
    case Nil => true
    case Fork(_, _, red, l, r) =>
      Good(l) && Good(r) && Height(l) == Height(r) && (red ==> !IsRed(l) && !IsRed(r))
  }

  /** The context accepts every good subtree of black height h (with a black root below a red node). */
  ghost predicate CtxOk(c: Ctx, h: int)
  {
    match c
    case Top => true
    case In(up, _, _, red, _, sib) =>
      Good(sib) && Height(sib) == h && (red ==> !IsRed(sib) && !CtxRed(up)) && CtxOk(up, h + if red then 0 else 1)
  }

  lemma {:induction false} GoodPlug(c: Ctx, t: Tree)
    requires Good(t) && CtxOk(c, Height(t)) && !(IsRed(t) && CtxRed(c))
    ensures Good(Plug(c, t))
    decreases c
  {
    if c.In? {
      GoodPlug(c.up, Mk(c.node, c.key, c.red, c.dir, t, c.sib));
    }
  }

  lemma {:induction false} GoodSplit(c: Ctx, t: Tree)
    requires Good(Plug(c, t))
    ensures Good(t) && CtxOk(c, Height(t)) && !(IsRed(t) && CtxRed(c))
    decreases c
  {
    if c.In? {
      GoodSplit(c.up, Mk(c.node, c.key, c.red, c.dir, t, c.sib));
    }
  }

  lemma WithChildItems(t: Tree, dir: bool, s: Tree)
    requires t.Fork? && Items(s) == Items(t.Child(dir))
    ensures Items(WithChild(t, dir, s)) == Items(t)
  {}

  // ---------------------------------------------------------------------------
  // Insertion
  // ---------------------------------------------------------------------------

  /** The tree after the last rotation of an insertion: the rotated root black, the old one red. */
  ghost function Raised(t: Tree, dir: bool): Tree
    requires t.Fork? && t.Child(dir).Fork?
  {
    var r := Rotated(t, !dir);
    WithChild(Paint(r, false), !dir, Paint(r.Child(!dir), true))
  }

  lemma RaisedGood(t: Tree, dir: bool)
    requires t.Fork? && !t.red && t.Child(dir).Fork? && t.Child(dir).red
    requires var y, w := t.Child(dir), t.Child(!dir); var a, b := y.Child(dir), y.Child(!dir);
             && Good(a) && Good(b) && Good(w) && Height(a) == Height(b) == Height(w) && !IsRed(b) && !IsRed(w)
    ensures Good(Raised(t, dir)) && Height(Raised(t, dir)) == Height(t.Child(!dir)) + 1 && !IsRed(Raised(t, dir))
  {}

  /** The grandparent's subtree when x and its parent are on the same side. */
  lemma InsertOuter(c: Ctx, t: Tree)
    requires c.In? && c.red && c.up.In? && !IsRed(c.up.sib) && c.dir == c.up.dir
    requires IsRed(t) && Good(t) && CtxOk(c, Height(t))
    ensures var z := Mk(c.up.node, c.up.key, c.up.red, c.up.dir, Mk(c.node, c.key, c.red, c.dir, t, c.sib), c.up.sib);
            Good(Raised(z, c.up.dir)) && Good(Plug(c.up.up, Raised(z, c.up.dir)))
  {
    var z := Mk(c.up.node, c.up.key, c.up.red, c.up.dir, Mk(c.node, c.key, c.red, c.dir, t, c.sib), c.up.sib);
    RaisedGood(z, c.up.dir);
    GoodPlug(c.up.up, Raised(z, c.up.dir));
  }

  /** The same after x has been rotated above its parent. */
  lemma InsertInner(c: Ctx, t: Tree)
    requires c.In? && c.red && c.up.In? && !IsRed(c.up.sib) && c.dir != c.up.dir
    requires IsRed(t) && Good(t) && CtxOk(c, Height(t))
    ensures var y := Mk(c.node, c.key, c.red, c.dir, t, c.sib);
            var z := Mk(c.up.node, c.up.key, c.up.red, c.up.dir, Rotated(y, c.up.dir), c.up.sib);
            Good(Raised(z, c.up.dir)) && Good(Plug(c.up.up, Raised(z, c.up.dir)))
  {
    var y := Mk(c.node, c.key, c.red, c.dir, t, c.sib);
    var z := Mk(c.up.node, c.up.key, c.up.red, c.up.dir, Rotated(y, c.up.dir), c.up.sib);
    RaisedGood(z, c.up.dir);
    GoodPlug(c.up.up, Raised(z, c.up.dir));
  }

  lemma UpTreeParts(c: Ctx, t: Tree)
    requires c.In?
    ensures var u := UpTree(c, t);
            u.Fork? && u.node == c.node && u.red == c.red && u.Child(c.dir) == t && u.Child(!c.dir) == c.sib
    ensures Plug(c.up, UpTree(c, t)) == Plug(c, t)
    ensures WithChild(UpTree(c, t), c.dir, t) == UpTree(c, t)
  {}

  /** A subtree replaced by one with the same contents leaves the whole contents alone. */
  lemma SameItems(c: Ctx, t: Tree, u: Tree)
    requires Items(t) == Items(u)
    ensures Items(Plug(c, t)) == Items(Plug(c, u))
  {
    ItemsPlug(c, t);
    ItemsPlug(c, u);
  }

  /** The three recolourings of the red-uncle case, in order. */
  lemma RedUncleSteps(c: Ctx, t: Tree)
    requires c.In? && c.red && c.up.In? && IsRed(c.up.sib) && Good(t) && CtxOk(c, Height(t))
    ensures var dir := c.up.dir; var y := UpTree(c, t); var z := UpTree(c.up, y);
            var z1 := WithChild(z, dir, Paint(y, false));
            var z2 := Paint(z1, true);
            var u := WithChild(z2, !dir, Paint(c.up.sib, false));
            && z.Child(dir) == y && z1.Fork? && z1.node == c.up.node && z2.Fork? && z2.Child(!dir) == c.up.sib
            && u.Fork? && u.node == c.up.node
            && IsRed(u) && Good(u) && CtxOk(c.up.up, Height(u)) && Items(Plug(c.up.up, u)) == Items(Plug(c, t))
  {
    var dir := c.up.dir;
    var y := UpTree(c, t);
    var z := UpTree(c.up, y);
    var z1 := WithChild(z, dir, Paint(y, false));
    var z2 := Paint(z1, true);
    var u := WithChild(z2, !dir, Paint(c.up.sib, false));
    WithChildItems(z, dir, Paint(y, false));
    WithChildItems(z2, !dir, Paint(c.up.sib, false));
    SameItems(c.up.up, z, u);
  }

  /** The final rotation and recolourings of an insertion below a black uncle. */
  lemma BlackUncleSteps(c: Ctx, t: Tree)
    requires c.In? && c.red && c.up.In? && !IsRed(c.up.sib)
    requires IsRed(t) && Good(t) && CtxOk(c, Height(t))
    ensures var dir := c.up.dir; var y := UpTree(c, t);
            && y.Fork? && (c.dir != dir ==> y.Child(!dir).Fork?)
            && var y' := if c.dir != dir then Rotated(y, dir) else y;
               var z := UpTree(c.up, y');
               && y'.Fork? && z.Fork? && z.node == c.up.node && z.Child(dir) == y'
               && var r := Rotated(z, !dir);
                  && r.Fork? && r.node == y'.node && Paint(r, false).Child(!dir) == r.Child(!dir)
                  && r.Child(!dir).Fork? && r.Child(!dir).node == c.up.node
                  && Good(Plug(c.up.up, Raised(z, dir))) && Items(Plug(c.up.up, Raised(z, dir))) == Items(Plug(c, t))
                  && Raised(z, dir) == WithChild(Paint(r, false), !dir, Paint(r.Child(!dir), true))
  {
    var dir := c.up.dir;
    var y := UpTree(c, t);
    if c.dir != dir { InsertInner(c, t); } else { InsertOuter(c, t); }
    var y' := if c.dir != dir then Rotated(y, dir) else y;
    var z0, z := UpTree(c.up, y), UpTree(c.up, y');
    WithChildItems(z0, dir, y');
    RaisedItems(z, dir);
    SameItems(c.up.up, z0, Raised(z, dir));
  }

  lemma RaisedItems(t: Tree, dir: bool)
    requires t.Fork? && t.Child(dir).Fork?
    ensures Items(Raised(t, dir)) == Items(t)
  {
    var r := Rotated(t, !dir);
    WithChildItems(Paint(r, false), !dir, Paint(r.Child(!dir), true));
  }

  /** A red parent at the top, painted black. */
  lemma TopSteps(c: Ctx, t: Tree)
    requires c.In? && c.up.Top? && Good(t) && CtxOk(c, Height(t))
    ensures var u := Paint(UpTree(c, t), false); Good(u) && Items(u) == Items(Plug(c, t))
  {
  }

  /** The elements of a sequence. */
  ghost function ItemSet(s: seq<Item>): set<Item>
  {
    set i | i in s
  }

  ghost predicate HasKeyIn(s: seq<Item>, k: nat)
  {
    exists i :: i in s && i.key == k
  }

  /** The root of the focused fork is in the tree. */
  lemma FoundItem(c: Ctx, t: Tree)
    requires t.Fork?
    ensures Item(t.node, t.key) in Items(Plug(c, t)) && HasKeyIn(Items(Plug(c, t)), t.key)
  {
    ItemsAround(c, t);
  }

  /** An empty hole that brackets the key proves its absence. */
  lemma NotFound(c: Ctx, k: nat)
    requires Brackets(c, k)
    ensures !HasKeyIn(Items(Plug(c, Nil)), k)
  {
    ItemsPlug(c, Nil);
  }

  /** Filling a bracketing hole with a red leaf. */
  lemma LeafInserted(c: Ctx, x: Node, k: nat)
    requires Brackets(c, k) && Sorted(Items(Plug(c, Nil))) && Good(Plug(c, Nil))
    ensures var s, leaf := Items(Plug(c, Nil)), Fork(x, k, true, Nil, Nil); var u := Items(Plug(c, leaf));
            && Sorted(u) && ItemSet(u) == ItemSet(s) + {Item(x, k)}
            && IsRed(leaf) && Good(leaf) && CtxOk(c, Height(leaf))
  {
    var leaf := Fork(x, k, true, Nil, Nil);
    ItemsPlug(c, Nil);
    ItemsPlug(c, leaf);
    assert Items(leaf) == [Item(x, k)];
    assert Before(c) + [] + After(c) == Before(c) + After(c);
    SortedInsert(Before(c), After(c), Item(x, k));
    GoodSplit(c, Nil);
  }

  lemma LeafTree(x: Node, k: nat, red: bool)
    ensures var leaf := Fork(x, k, red, Nil, Nil);
            Good(leaf) && Items(leaf) == [Item(x, k)] && Sorted(Items(leaf))
              && ItemSet(Items(leaf)) == ItemSet(Items(Nil)) + {Item(x, k)}
    ensures Items(Nil) == [] && !HasKeyIn(Items(Nil), k)
  {}

  // ---------------------------------------------------------------------------
  // Neighbours
  // ---------------------------------------------------------------------------

  /** The contents on one side of the hole; `true` is the right side. */
  ghost function Beside(c: Ctx, dir: bool): seq<Item>
  {
    if dir then After(c) else Before(c)
  }

  /** The element next to the hole in the contents on side dir. */
  ghost function Nearest(s: seq<Item>, dir: bool): Item
    requires s != []
  {
    if dir then s[0] else s[|s| - 1]
  }

  /** The last element of a subtree's contents on side dir. */
  ghost function Furthest(s: seq<Item>, dir: bool): Item
    requires s != []
  {
    if dir then s[|s| - 1] else s[0]
  }

  lemma BesideStep(c: Ctx, dir: bool)
    ensures c.Top? ==> Beside(c, dir) == []
    ensures c.In? && c.dir == dir ==> Beside(c, dir) == Beside(c.up, dir)
    ensures c.In? && c.dir != dir ==> Beside(c, dir) != [] && Nearest(Beside(c, dir), dir) == Item(c.node, c.key)
  {}

  lemma FurthestStep(t: Tree, dir: bool)
    requires t.Fork? && t.Child(dir).Fork?
    ensures Items(t) != [] && Items(t.Child(dir)) != [] && Furthest(Items(t), dir) == Furthest(Items(t.Child(dir)), dir)
  {}

  lemma FurthestEnd(t: Tree, dir: bool)
    requires t.Fork? && t.Child(dir).Nil?
    ensures Items(t) != [] && Furthest(Items(t), dir) == Item(t.node, t.key)
  {}

  /** i is the greatest element with a key of at most k. */
  ghost predicate Floor(s: seq<Item>, k: nat, i: Item)
  {
    i in s && i.key <= k && forall j :: j in s && j.key <= k ==> j.key <= i.key
  }

  /** i is the least element with a key of at least k. */
  ghost predicate Ceiling(s: seq<Item>, k: nat, i: Item)
  {
    i in s && i.key >= k && forall j :: j in s && j.key >= k ==> j.key >= i.key
  }

  lemma NearestFloor(b: seq<Item>, a: seq<Item>, k: nat)
    requires Sorted(b + a) && AllBelow(b, k) && AllAbove(a, k)
    ensures b == [] ==> AllAbove(b + a, k)
    ensures b != [] ==> Floor(b + a, k, Nearest(b, false))
  {
    if b != [] {
      var n := |b| - 1;
      assert (b + a)[n] == b[n];
      forall j | j in b + a && j.key <= k ensures j.key <= b[n].key {
        assert j in b;
        var p :| 0 <= p < |b| && b[p] == j;
        assert (b + a)[p] == j;
      }
    }
  }

  lemma NearestCeiling(b: seq<Item>, a: seq<Item>, k: nat)
    requires Sorted(b + a) && AllBelow(b, k) && AllAbove(a, k)
    ensures a == [] ==> AllBelow(b + a, k)
    ensures a != [] ==> Ceiling(b + a, k, Nearest(a, true))
  {
    if a != [] {
      assert (b + a)[|b|] == a[0];
      forall j | j in b + a && j.key >= k ensures j.key >= a[0].key {
        assert j in a;
        var p :| 0 <= p < |a| && a[p] == j;
        assert (b + a)[|b| + p] == j;
      }
    }
  }

  lemma HoleFloor(c: Ctx, k: nat)
    requires Brackets(c, k) && Sorted(Items(Plug(c, Nil)))
    ensures Before(c) == Beside(c, false) && After(c) == Beside(c, true)
    ensures Before(c) == [] ==> AllAbove(Items(Plug(c, Nil)), k)
    ensures Before(c) != [] ==> Floor(Items(Plug(c, Nil)), k, Nearest(Before(c), false))
    ensures After(c) == [] ==> AllBelow(Items(Plug(c, Nil)), k)
    ensures After(c) != [] ==> Ceiling(Items(Plug(c, Nil)), k, Nearest(After(c), true))
  {
    ItemsPlug(c, Nil);
    assert Before(c) + [] + After(c) == Before(c) + After(c);
    NearestFloor(Before(c), After(c), k);
    NearestCeiling(Before(c), After(c), k);
  }

  /** The item with the key itself is both floor and ceiling. */
  lemma FoundBoth(s: seq<Item>, i: Item)
    requires i in s
    ensures Floor(s, i.key, i) && Ceiling(s, i.key, i)
  {}
}
