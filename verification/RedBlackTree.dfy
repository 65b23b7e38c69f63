/** The kernel's red-black tree with parent links: rotations, insertion and removal in place. */
module RedBlackTree {
  import opened RbShape
  import opened RbColour
  import opened RbExchange
  import opened RbRemoval

  class RbTree {
    var root: Node?
    ghost var store: Store  // the records of the nodes in the tree
    ghost var tree: Tree    // the tree they form

    constructor ()
      ensures Valid() && tree == Nil && store == map[]
    {
      root := null;
      store, tree := map[], Nil;
    }

    /** The node fields hold the recorded values. */
    ghost predicate Mirror()
      reads this`store, store.Keys
    {
      forall n :: n in store ==>
        && n.key == store[n].key && n.left == store[n].left && n.right == store[n].right
        && n.parent == store[n].parent && n.red == store[n].red
    }

    /** Linked consistently, in search order, with the colour invariant; the root may be red. */
    ghost predicate Valid()
      reads this, store.Keys
    {
      Mirror() && Focus(store, root, Top, tree) && Good(tree) && Sorted(Items(tree))
    }

    /** The record of a node in the tree. */
    lemma PaintIs(t: Tree, red: bool)
      requires t.Fork?
      ensures Paint(t, red).Fork? && Paint(t, red).node == t.node
    {}

    lemma Read(n: Node)
      requires Mirror() && n in store
      ensures store[n] == Rec(n.key, n.left, n.right, n.parent, n.red)
      ensures forall dir :: n.Child(dir) == store[n].Child(dir)
    {}

    method SetChild(n: Node, dir: bool, c: Node?)
      requires Mirror() && n in store
      modifies n, this`store
      ensures Mirror() && store == old(store)[n := old(store)[n].SetChild(dir, c)]
    {
      if dir { n.right := c; } else { n.left := c; }
      store := store[n := store[n].SetChild(dir, c)];
    }

    method SetParent(n: Node, p: Node?)
      requires Mirror() && n in store
      modifies n, this`store
      ensures Mirror() && store == old(store)[n := old(store)[n].(parent := p)]
    {
      n.parent := p;
      store := store[n := store[n].(parent := p)];
    }

    method SetRed(n: Node, red: bool)
      requires Mirror() && n in store
      modifies n, this`store
      ensures Mirror() && store == old(store)[n := old(store)[n].(red := red)]
    {
      n.red := red;
      store := store[n := store[n].(red := red)];
    }

    /** The part of a rotation below the parent. */
    method RotateLinks(x: Node, z: Node, b: Node?, y: Node?, dir: bool)
      requires Mirror() && x in store && z in store && (b != null ==> b in store)
      modifies this`store, store.Keys
      ensures Mirror() && store == RotInner(old(store), x, z, b, y, dir)
    {
      hide Mirror;
      SetChild(x, !dir, b);
      if b != null {
        SetParent(b, x);
      }
      SetChild(z, dir, x);
      SetParent(x, z);
      SetParent(z, y);
    }

    /** Rotates the subtree at x towards side dir; the context is relinked to the new subtree root. */
    method Rotate(x: Node, dir: bool, ghost c: Ctx, ghost t: Tree)
      requires Mirror() && Focus(store, root, c, t)
      requires t.Fork? && t.Child(!dir).Fork? && t.node == x
      modifies this`root, this`store, store.Keys
      ensures Mirror() && Focus(store, root, c, Rotated(t, dir)) && store.Keys == old(store.Keys)
    {
      hide *;
      ghost var h := store;
      ghost var side := if c.In? then c.dir else false;
      RotationReads(h, root, c, t, dir);
      RotateDone(h, root, c, t, dir, side);
      Read(x);
      var y := x.parent;
      var z := x.Child(!dir);
      Read(z);
      var b := z.Child(dir);
      RotStoreIs(h, x, z, b, y, dir, side);
      RotateLinks(x, z, b, y, dir);
      if y != null {
        Read(y);
        SetChild(y, x == y.right, z);
      } else {
        root := z;
      }
    }
  
    /** Recolours the root of the focused subtree. */
    method SetColour(n: Node, red: bool, ghost c: Ctx, ghost t: Tree)
      requires Mirror() && Focus(store, root, c, t) && t.Fork? && t.node == n
      modifies this`store, store.Keys
      ensures Mirror() && Focus(store, root, c, Paint(t, red)) && store.Keys == old(store.Keys)
    {
      hide *;
      PaintFocus(store, root, c, t, red);
      SetRed(n, red);
    }

    /** Recolours a child of the focused subtree's root. */
    method SetColourBelow(n: Node, red: bool, ghost c: Ctx, ghost t: Tree, ghost dir: bool)
      requires Mirror() && Focus(store, root, c, t) && t.Fork? && t.Child(dir).Fork? && t.Child(dir).node == n
      modifies this`store, store.Keys
      ensures Mirror() && Focus(store, root, c, WithChild(t, dir, Paint(t.Child(dir), red)))
              && store.Keys == old(store.Keys)
    {
      hide *;
      ghost var s := t.Child(dir);
      FocusDown(store, root, c, t, dir);
      PaintIs(s, red);
      SetColour(n, red, Below(c, t, dir), s);
      BelowUp(c, t, dir, Paint(s, red));
      FocusUp(store, root, Below(c, t, dir), Paint(s, red));
    }

    /** The rotations that end an insertion below a black (or missing) uncle. */
    method InsertLast(x: Node, y0: Node, z: Node, dir: bool, ghost c: Ctx, ghost t: Tree) returns (ghost t': Tree)
      requires Mirror() && Focus(store, root, c, t) && t.Fork? && t.node == x
      requires c.In? && c.node == y0 && c.red && c.up.In? && c.up.node == z && c.up.dir == dir && !IsRed(c.up.sib)
      requires IsRed(t) && Good(t) && CtxOk(c, Height(t))
      modifies this`root, this`store, store.Keys
      ensures Mirror() && Focus(store, root, Top, t') && store.Keys == old(store.Keys)
      ensures Good(t') && Items(t') == Items(Plug(c, t))
    {
      hide *;
      BlackUncleSteps(c, t);
      var y := y0;
      ghost var up := c.up.up;
      ghost var yt := UpTree(c, t);
      UpTreeParts(c, t);
      ParentReads(store, root, c, t);
      FocusUp(store, root, c, t);
      ParentReads(store, root, c.up, yt);
      Read(y);
      if x == y.Child(!dir) {
        Rotate(y, dir, c.up, yt);
        yt := Rotated(yt, dir);
        ParentReads(store, root, c.up, yt);
        Read(z);
        y := z.Child(dir);
      }
      FocusUp(store, root, c.up, yt);
      ghost var zt := UpTree(c.up, yt);
      Rotate(z, !dir, up, zt);
      ghost var r := Rotated(zt, !dir);
      SetColour(y, false, up, r);
      PaintIs(r, false);
      SetColourBelow(z, true, up, Paint(r, false), !dir);
      t' := Plug(up, Raised(zt, dir));
      FocusAll(store, root, up, Raised(zt, dir));
    }

    /** The upward pass of an insertion: x is red, and only the edge to its parent y may be red-red. */
    method InsertFixup(x0: Node, y0: Node?, ghost c0: Ctx, ghost t0: Tree) returns (ghost t': Tree)
      requires Mirror() && Focus(store, root, c0, t0) && t0.Fork? && t0.node == x0 && y0 == CtxNode(c0)
      requires IsRed(t0) && Good(t0) && CtxOk(c0, Height(t0))
      modifies this`root, this`store, store.Keys
      ensures Mirror() && Focus(store, root, Top, t') && store.Keys == old(store.Keys)
      ensures Good(t') && Items(t') == Items(Plug(c0, t0))
    {
      hide *;
      var x, y := x0, y0;
      ghost var c, t := c0, t0;
      while y != null && y.red
        invariant Mirror() && store.Keys == old(store.Keys)
        invariant Focus(store, root, c, t) && t.Fork? && t.node == x && y == CtxNode(c)
        invariant IsRed(t) && Good(t) && CtxOk(c, Height(t)) && Items(Plug(c, t)) == Items(Plug(c0, t0))
        decreases c
      {
        CtxNodeIs(c);
        ParentReads(store, root, c, t);
        Read(y);
        FocusUp(store, root, c, t);
        UpTreeParts(c, t);
        ghost var yt := UpTree(c, t);
        var z := y.parent;
        CtxNodeIs(c.up);
        if z == null {
          SetColour(y, false, c.up, yt);
          TopSteps(c, t);
          return Paint(yt, false);
        }
        ParentReads(store, root, c.up, yt);
        Read(z);
        FocusUp(store, root, c.up, yt);
        UpTreeParts(c.up, yt);
        var dir := y == z.right;
        var w := z.Child(!dir);
        var red := false;
        RootIs(c.up.sib);
        IsRedIs(c.up.sib);
        if w != null {
          Read(w);
          red := w.red;
        }
        if !red {
          t' := InsertLast(x, y, z, dir, c, t);
          return;
        }
        RedUncleSteps(c, t);
        ghost var up := c.up.up;
        ghost var zt := UpTree(c.up, yt);
        SetColourBelow(y, false, up, zt, dir);
        ghost var z1 := WithChild(zt, dir, Paint(yt, false));
        SetColour(z, true, up, z1);
        SetColourBelow(w, false, up, Paint(z1, true), !dir);
        x := z;
        t := WithChild(Paint(z1, true), !dir, Paint(c.up.sib, false));
        c := up;
        NodeReads(store, root, c, t);
        Read(x);
        y := x.parent;
      }
      CtxNodeIs(c);
      CtxRedIs(c);
      if c.In? {
        ParentReads(store, root, c, t);
        Read(y);
      }
      FocusAll(store, root, c, t);
      GoodPlug(c, t);
      t' := Plug(c, t);
    }
  
    /** Links the new red leaf x below y on side dir. */
    method Attach(x: Node, y: Node, dir: bool, ghost c: Ctx)
      requires Mirror() && Focus(store, root, c, Nil) && c.In? && c.node == y && c.dir == dir
      requires x !in store && x.left == null && x.right == null && x.red
      modifies this`store, x, y
      ensures Mirror() && Focus(store, root, c, Fork(x, x.key, true, Nil, Nil)) && store.Keys == old(store.Keys) + {x}
      ensures x.key == old(x.key)
    {
      hide *;
      AttachFocus(store, root, c, x, x.key);
      x.parent := y;
      AddRecord(x);
      SetChild(y, dir, x);
    }

    /** A node that joins the store with the fields it has. */
    ghost method AddRecord(x: Node)
      requires Mirror() && x !in store
      modifies this`store
      ensures Mirror() && store == old(store)[x := Rec(x.key, x.left, x.right, x.parent, x.red)]
    {
      store := store[x := Rec(x.key, x.left, x.right, x.parent, x.red)];
    }
  
    lemma ValidParts()
      requires Valid()
      ensures Mirror() && Focus(store, root, Top, tree) && Good(tree) && Sorted(Items(tree))
      ensures Plug(Top, tree) == tree && root == Root(tree)
      ensures forall k :: Brackets(Top, k)
    {}

    lemma ValidIntro()
      requires Mirror() && Focus(store, root, Top, tree) && Good(tree) && Sorted(Items(tree))
      ensures Valid()
    {}

    /**
     * Adds x under its key. A key that is already present leaves the tree alone, and
     * the argument itself is returned; otherwise the result is null and exactly x is added.
     */
    method LookupOrInsert(x: Node) returns (r: Node?)
      requires Valid() && x !in store
      modifies this, x, store.Keys
      ensures Valid() && x.key == old(x.key)
      ensures old(HasKeyIn(Items(tree), x.key)) ==>
              r == x && root == old(root) && store == old(store) && tree == old(tree)
      ensures !old(HasKeyIn(Items(tree), x.key)) ==>
                && r == null && store.Keys == old(store.Keys) + {x}
                && ItemSet(Items(tree)) == old(ItemSet(Items(tree))) + {Item(x, x.key)}
    {
      hide *;
      ValidParts();
      RootIs(tree);
      x.left, x.right := null, null;
      if root == null {
        InsertFirst(x);
        return null;
      }
      x.parent, x.red := null, true;
      ValidIntro();
      ghost var k := x.key;
      var y, found, c, t := Descend(x.key);
      if found {
        FoundItem(c, t);
        return x;
      }
      var dir := y.key < x.key;
      NodeReads(store, root, c, t);
      Read(y);
      RootIs(t.Child(dir));
      FocusDown(store, root, c, t, dir);
      BelowIs(c, t, dir);
      c := Below(c, t, dir);
      NotFound(c, x.key);
      LeafInserted(c, x, x.key);
      Attach(x, y, dir, c);
      tree := InsertFixup(x, y, c, Fork(x, x.key, true, Nil, Nil));
      assert Item(x, k) in ItemSet(Items(tree));
      ItemSetIs(Items(tree), Item(x, k));
      ItemRecord(store, tree, CtxNode(Top), Item(x, k), root);
      Read(x);
      ValidIntro();
      r := null;
    }

    /** The node with key k, or the node below which it belongs. */
    method Descend(k: nat) returns (y: Node, found: bool, ghost c: Ctx, ghost t: Tree)
      requires Valid() && root != null
      ensures Focus(store, root, c, t) && t.Fork? && t.node == y && y in store && Plug(c, t) == tree
      ensures t.key == y.key && (found <==> y.key == k)
      ensures !found ==> y.Child(y.key < k) == null && Brackets(Below(c, t, y.key < k), k)
    {
      hide *;
      ValidParts();
      RootIs(tree);
      y := root;
      c, t := Top, tree;
      NodeReads(store, root, c, t);
      Read(y);
      while y.Child(y.key < k) != null
        invariant y in store && store[y] == Rec(y.key, y.left, y.right, y.parent, y.red)
        invariant Focus(store, root, c, t) && t.Fork? && t.node == y && t.key == y.key && Plug(c, t) == tree
                  && Brackets(c, k)
        invariant forall dir :: y.Child(dir) == store[y].Child(dir) == Root(t.Child(dir))
        decreases t
      {
        if k == y.key {
          found := true;
          return;
        }
        var dir := y.key < k;
        y := y.Child(dir);
        BracketsDown(c, t, k);
        FocusDown(store, root, c, t, dir);
        RootIs(t.Child(dir));
        ChildSmaller(t, dir);
        c, t := Below(c, t, dir), t.Child(dir);
        NodeReads(store, root, c, t);
        Read(y);
      }
      found := k == y.key;
      if !found {
        BracketsDown(c, t, k);
      }
    }

    /** The first node becomes a black root. */
    method InsertFirst(x: Node)
      requires Valid() && root == null && x !in store && x.left == null && x.right == null
      modifies this, x
      ensures Valid() && x.key == old(x.key) && store.Keys == old(store.Keys) + {x}
      ensures !old(HasKeyIn(Items(tree), x.key))
      ensures ItemSet(Items(tree)) == old(ItemSet(Items(tree))) + {Item(x, x.key)}
    {
      assert tree == Nil && store.Keys == {};
      x.parent, x.red := null, false;
      root := x;
      store := store[x := Rec(x.key, null, null, null, false)];
      LeafTree(x, x.key, false);
      tree := Fork(x, x.key, false, Nil, Nil);
      assert Shaped(store, tree, CtxNode(Top)) && store.Keys == Ids(tree) + CtxIds(Top);
    }

    /** The node with the given key. */
    method Lookup(k: nat) returns (r: Node?)
      requires Valid()
      ensures r == null <==> !HasKeyIn(Items(tree), k)
      ensures r != null ==> Item(r, k) in Items(tree)
    {
      hide *;
      ValidParts();
      r := root;
      ghost var c, t := Top, tree;
      while r != null
        invariant Focus(store, root, c, t) && r == Root(t) && Plug(c, t) == tree && Brackets(c, k)
        decreases t
      {
        RootIs(t);
        NodeReads(store, root, c, t);
        Read(r);
        if r.key == k {
          FoundItem(c, t);
          return;
        }
        var dir := r.key < k;
        r := r.Child(dir);
        BracketsDown(c, t, k);
        FocusDown(store, root, c, t, dir);
        ChildSmaller(t, dir);
        c, t := Below(c, t, dir), t.Child(dir);
      }
      RootIs(t);
      NotFound(c, k);
    }

    /** Climbs until it arrives from the side opposite to dir: the in-order neighbour of x's subtree on side dir. */
    method Climb(x0: Node, dir: bool, ghost c0: Ctx, ghost t0: Tree) returns (x: Node?)
      requires Mirror() && Focus(store, root, c0, t0) && t0.Fork? && t0.node == x0
      ensures x == null <==> Beside(c0, dir) == []
      ensures x != null ==> Beside(c0, dir) != [] && Nearest(Beside(c0, dir), dir) == Item(x, x.key)
    {
      hide *;
      x := x0;
      ghost var c, t := c0, t0;
      var y: Node;
      while true
        invariant Focus(store, root, c, t) && t.Fork? && t.node == x && x != null && Beside(c, dir) == Beside(c0, dir)
        decreases c
      {
        y := x;
        NodeReads(store, root, c, t);
        Read(x);
        CtxNodeIs(c);
        BesideStep(c, dir);
        x := x.parent;
        if x == null {
          return;
        }
        ParentReads(store, root, c, t);
        Read(x);
        if y != x.Child(dir) {
          return;
        }
        FocusUp(store, root, c, t);
        UpTreeParts(c, t);
        c, t := c.up, UpTree(c, t);
      }
    }

    /** The outermost node of a subtree on the given side. */
    method Outermost(x0: Node, dir: bool, ghost c0: Ctx, ghost t0: Tree) returns (x: Node)
      requires Mirror() && Focus(store, root, c0, t0) && t0.Fork? && t0.node == x0
      ensures Items(t0) != [] && Furthest(Items(t0), dir) == Item(x, x.key)
    {
      hide *;
      x := x0;
      ghost var c, t := c0, t0;
      ItemsNonEmpty(t);
      NodeReads(store, root, c, t);
      Read(x);
      while x.Child(dir) != null
        invariant Focus(store, root, c, t) && t.Fork? && t.node == x && t.key == x.key && x in store
        invariant x.Child(dir) == Root(t.Child(dir))
        invariant Items(t) != [] && Items(t0) != [] && Furthest(Items(t), dir) == Furthest(Items(t0), dir)
        decreases t
      {
        x := x.Child(dir);
        FocusDown(store, root, c, t, dir);
        RootIs(t.Child(dir));
        ChildSmaller(t, dir);
        FurthestStep(t, dir);
        c, t := Below(c, t, dir), t.Child(dir);
        NodeReads(store, root, c, t);
        Read(x);
      }
      RootIs(t.Child(dir));
      FurthestEnd(t, dir);
    }

    /**
     * The walk shared by the two ordered lookups: down towards k, and from an empty position back
     * up to the neighbour on the wanted side. The source's descent into a subtree at
     * the empty position cannot happen, because the child on that side was just seen to be missing.
     */
    method LookupNear(k: nat, up: bool) returns (r: Node?)
      requires Valid()
      ensures r == null ==> if up then AllBelow(Items(tree), k) else AllAbove(Items(tree), k)
      ensures r != null && up ==> Ceiling(Items(tree), k, Item(r, r.key))
      ensures r != null && !up ==> Floor(Items(tree), k, Item(r, r.key))
    {
      hide *;
      ValidParts();
      ghost var s := Items(tree);
      if root == null {
        RootIs(tree);
        EmptyTree(k);
        return null;
      }
      var x, found, c, t := Descend(k);
      NodeReads(store, root, c, t);
      Read(x);
      if found {
        FoundItem(c, t);
        FoundBoth(s, Item(x, k));
        return x;
      }
      var dir := x.key < k;
      RootIs(t.Child(dir));
      BelowIs(c, t, dir);
      HoleFloor(Below(c, t, dir), k);
      BesideBelow(c, t, dir);
      if dir != up {
        return x;
      }
      assert x.Child(dir) == null;
      r := Climb(x, up, c, t);
    }

    /** The node with the greatest key of at most k. */
    method LookupDecreasing(k: nat) returns (r: Node?)
      requires Valid()
      ensures r == null ==> AllAbove(Items(tree), k)
      ensures r != null ==> Floor(Items(tree), k, Item(r, r.key))
    {
      hide *;
      r := LookupNear(k, false);
    }

    /** The node with the least key of at least k. */
    method LookupIncreasing(k: nat) returns (r: Node?)
      requires Valid()
      ensures r == null ==> AllBelow(Items(tree), k)
      ensures r != null ==> Ceiling(Items(tree), k, Item(r, r.key))
    {
      hide *;
      r := LookupNear(k, true);
    }

    /** The node with the least key. */
    method IterStart() returns (r: Node?)
      requires Valid()
      ensures r == null <==> Items(tree) == []
      ensures r != null ==> Items(tree)[0] == Item(r, r.key)
    {
      hide *;
      ValidParts();
      RootIs(tree);
      EmptyTree(0);
      if root == null {
        return null;
      }
      ItemsNonEmpty(tree);
      r := Outermost(root, false, Top, tree);
      FurthestIs(Items(tree));
    }

    /** The in-order successor of x. */
    method IterNext(x: Node) returns (r: Node?)
      requires Valid() && x in store
      ensures r == null ==> AllBelow(Items(tree), x.key + 1)
      ensures r != null ==> Ceiling(Items(tree), x.key + 1, Item(r, r.key))
    {
      hide *;
      ValidParts();
      ghost var c, t := FindFocus(store, root, Top, tree, x);
      NodeReads(store, root, c, t);
      Read(x);
      NextItem(c, t);
      RootIs(t.right);
      if x.right != null {
        FocusDown(store, root, c, t, true);
        ChildIs(t);
        r := Outermost(x.right, false, Below(c, t, true), t.right);
      } else {
        r := Climb(x, true, c, t);
      }
    }

    // -------------------------------------------------------------------------
    // Removal
    // -------------------------------------------------------------------------

    method ExchangeHead(x: Node, z: Node, ghost p: Pair, ghost a: Around)
      requires Mirror() && Situation(store, p, a) && p.x == x && p.z == z
      modifies this`root, this`store, store.Keys
      ensures Mirror() && store == ExHead(old(store), p, a)
      ensures root == if a.y == null then z else old(root)
    {
      hide Mirror, Linked;
      Read(x);
      var y := x.parent;
      if y != null {
        Read(y);
        SetChild(y, x == y.right, z);
      } else {
        root := z;
      }
      Read(x);
      SetChild(z, false, x.left);
      SetChild(x, false, null);
      Read(z);
      SetParent(z.left, z);
    }

    method ExchangeMiddle(x: Node, z: Node, ghost h: Store, ghost p: Pair, ghost a: Around)
      requires Mirror() && Situation(h, p, a) && p.x == x && p.z == z && store == ExHead(h, p, a)
      modifies this`store, store.Keys
      ensures Mirror() && store == if a.r == z then ExNear(old(store), p, a) else ExFar(old(store), p, a)
    {
      hide Mirror, Linked;
      Read(x);
      Read(z);
      if z == x.right {
        SetChild(x, true, z.right);
        SetChild(z, true, x);
        SetParent(x, z);
      } else {
        var w := x.right;
        SetChild(x, true, z.right);
        SetChild(z, true, w);
        Read(z);
        SetParent(z.right, z);
        Read(z);
        w := z.parent;
        Read(w);
        SetChild(w, z == w.right, x);
        SetParent(x, w);
      }
    }

    method ExchangeTail(x: Node, z: Node, y: Node?, ghost p: Pair, ghost a: Around)
      requires Mirror() && x in store && z in store && x != z
               && (a.zr != null ==> a.zr in store && a.zr != x && a.zr != z)
      requires p.x == x && p.z == z && a.y == y && store[x].right == a.zr
      modifies this`store, store.Keys
      ensures Mirror() && store == ExTail(old(store), p, a)
    {
      hide Mirror;
      Read(x);
      if x.right != null {
        SetParent(x.right, x);
      }
      SetParent(z, y);
      Read(x);
      Read(z);
      var tmp := z.red;
      SetRed(z, x.red);
      SetRed(x, tmp);
    }

    /** The leftmost node of x's right subtree. */
    method Successor(x: Node, ghost c: Ctx, ghost t: Tree) returns (z: Node, ghost cz: Ctx, ghost tz: Tree)
      requires Mirror() && Focus(store, root, c, t) && t.Fork? && t.node == x && t.left.Fork? && t.right.Fork?
      ensures Focus(store, root, cz, tz) && IsSuccessor(c, t, cz, tz) && tz.node == z
    {
      hide *;
      NodeReads(store, root, c, t);
      Read(x);
      RootIs(t.right);
      z := x.right;
      FocusDown(store, root, c, t, true);
      ChildIs(t);
      cz, tz := Below(c, t, true), t.right;
      SearchStart(c, t);
      NodeReads(store, root, cz, tz);
      Read(z);
      while z.left != null
        invariant Focus(store, root, cz, tz) && Searching(c, t, cz, tz) && tz.Fork? && tz.node == z
        invariant z.left == Root(tz.left)
        decreases tz
      {
        z := z.left;
        RootIs(tz.left);
        FocusDown(store, root, cz, tz, false);
        ChildIs(tz);
        ChildSmaller(tz, false);
        SearchStep(store, root, c, t, cz, tz);
        cz, tz := Below(cz, tz, false), tz.left;
        NodeReads(store, root, cz, tz);
        Read(z);
      }
      RootIs(tz.left);
      SearchEnd(c, t, cz, tz);
    }

    /** Exchanges x with its successor; x ends up with no left child, and only x is in excess. */
    method ExchangeWithSuccessor(x: Node, ghost c: Ctx, ghost t: Tree) returns (ghost c2: Ctx, ghost t2: Tree)
      requires Mirror() && Focus(store, root, c, t) && t.Fork? && t.node == x && t.left.Fork? && t.right.Fork?
      requires Good(Plug(c, t)) && Sorted(Items(Plug(c, t)))
      modifies this`root, this`store, store.Keys
      ensures Mirror() && Focus(store, root, c2, t2) && t2.Fork? && t2.node == x && t2.left.Nil?
              && store.Keys == old(store.Keys)
      ensures Good(Plug(c2, t2)) && IsRemoval(Items(Plug(c, t)), RestItems(c2, t2), Item(t.node, t.key))
    {
      hide *;
      ghost var h := store;
      var z, cz, tz := Successor(x, c, t);
      ExchangeReads(store, root, c, t, cz, tz);
      ghost var p := PairOf(t, tz);
      ghost var a := AroundOf(c, t, cz, tz);
      ExFacts(h, p, a);
      Read(x);
      var y := x.parent;
      ExchangeHead(x, z, p, a);
      ExchangeMiddle(x, z, h, p, a);
      ExchangeTail(x, z, y, p, a);
      RelinkedExchanges(h, store, p, a);
      ExchangeSteps(h, store, old(root), c, t, cz, tz);
      c2, t2 := SwCtx(p, cz), SwTree(p, tz);
    }

    /** A node leaves the store. */
    ghost method DropRecord(x: Node)
      requires Mirror()
      modifies this`store
      ensures Mirror() && store == old(store) - {x}
    {
      store := store - {x};
    }

    /** Puts the only child of x, if any, in the place of x. */
    method SpliceOut(x: Node, y: Node?, ghost c: Ctx, ghost t: Tree)
      requires Mirror() && Focus(store, root, c, t) && t.Fork? && t.node == x && (t.left.Nil? || t.right.Nil?)
               && y == CtxNode(c)
      modifies this`root, this`store, store.Keys
      ensures Mirror() && Focus(store, root, c, Spliced(t)) && store.Keys == old(store.Keys) - {x}
    {
      hide *;
      NodeReads(store, root, c, t);
      Read(x);
      CtxNodeIs(c);
      RootIs(t.left);
      RootIs(t.right);
      SplicedIs(t);
      SpliceFocus(store, root, c, t);
      SpliceStoreIs(store, c, Root(Spliced(t)));
      FocusRoot(store, root, c, t);
      TopRootIs(c, x, Root(Spliced(t)), root);
      var z := if x.left != null then x.left else x.right;
      if y != null {
        ParentReads(store, root, c, t);
        Read(y);
        SetChild(y, x == y.right, z);
      } else {
        root := z;
      }
      if z != null {
        SetRed(z, false);
        SetParent(z, y);
      }
      DropRecord(x);
    }

    /** Case of a red sibling. */
    method RotateRedSibling(y: Node, z: Node, dir: bool, ghost c: Ctx, ghost s: Tree) returns (ghost c1: Ctx)
      requires Mirror() && Focus(store, root, c, s) && Deficit(c, s) && c.In? && c.node == y && c.dir == dir
      requires c.sib.Fork? && c.sib.red && c.sib.node == z
      modifies this`root, this`store, store.Keys
      ensures Mirror() && Focus(store, root, c1, s) && store.Keys == old(store.Keys)
      ensures c1.In? && c1.node == y && c1.dir == dir && c1.red && c1.sib == c.sib.Child(dir) && c1.sib.Fork?
              && !c1.sib.red
      ensures Deficit(c1, s) && Items(Plug(c1, s)) == Items(Plug(c, s))
    {
      hide *;
      RedSibling(c, s);
      FocusUp(store, root, c, s);
      ghost var yt := UpTree(c, s);
      Rotate(y, dir, c.up, yt);
      ghost var r := Rotated(yt, dir);
      SetColourBelow(y, true, c.up, r, dir);
      ghost var r1 := WithChild(r, dir, Paint(r.Child(dir), true));
      SetColour(z, false, c.up, r1);
      ghost var r2 := Paint(r1, false);
      FocusDown(store, root, c.up, r2, dir);
      FocusDown(store, root, Below(c.up, r2, dir), r2.Child(dir), dir);
      c1 := Below(Below(c.up, r2, dir), r2.Child(dir), dir);
    }

    /** Case of a red outer nephew u. */
    method RotateOuter(y: Node, z: Node, u: Node, dir: bool, ghost c: Ctx, ghost s: Tree) returns (ghost t': Tree)
      requires Mirror() && Focus(store, root, c, s) && Deficit(c, s) && c.In? && c.node == y && c.dir == dir
      requires c.sib.Fork? && !c.sib.red && c.sib.node == z && IsRed(c.sib.Child(!dir)) && Root(c.sib.Child(!dir)) == u
      modifies this`root, this`store, store.Keys
      ensures Mirror() && Focus(store, root, Top, t') && store.Keys == old(store.Keys)
      ensures Good(t') && Items(t') == Items(Plug(c, s))
    {
      hide *;
      OuterNephew(c, s);
      RootIs(c.sib.Child(!dir));
      FocusUp(store, root, c, s);
      ghost var yt := UpTree(c, s);
      Rotate(y, dir, c.up, yt);
      ghost var r := Rotated(yt, dir);
      RedAfterRotation(store, root, c, s);
      Read(y);
      SetColour(z, y.red, c.up, r);
      ghost var r1 := Paint(r, c.red);
      SetColourBelow(y, false, c.up, r1, dir);
      ghost var r2 := WithChild(r1, dir, Paint(r1.Child(dir), false));
      SetColourBelow(u, false, c.up, r2, !dir);
      ghost var r3 := WithChild(r2, !dir, Paint(r2.Child(!dir), false));
      FocusAll(store, root, c.up, r3);
      t' := Plug(c.up, r3);
    }

    /** Case of a red inner nephew v. */
    method RotateInner(y: Node, z: Node, v: Node, dir: bool, ghost c: Ctx, ghost s: Tree) returns (ghost t': Tree)
      requires Mirror() && Focus(store, root, c, s) && Deficit(c, s) && c.In? && c.node == y && c.dir == dir
      requires c.sib.Fork? && !c.sib.red && c.sib.node == z
      requires IsRed(c.sib.Child(dir)) && !IsRed(c.sib.Child(!dir)) && Root(c.sib.Child(dir)) == v
      modifies this`root, this`store, store.Keys
      ensures Mirror() && Focus(store, root, Top, t') && store.Keys == old(store.Keys)
      ensures Good(t') && Items(t') == Items(Plug(c, s))
    {
      hide *;
      InnerNephew(c, s);
      RootIs(c.sib.Child(dir));
      FocusUp(store, root, c, s);
      ghost var yt := UpTree(c, s);
      FocusDown(store, root, c.up, yt, !dir);
      ghost var cz := Below(c.up, yt, !dir);
      Rotate(z, !dir, cz, c.sib);
      BelowUp(c.up, yt, !dir, Rotated(c.sib, !dir));
      FocusUp(store, root, cz, Rotated(c.sib, !dir));
      ghost var y' := WithChild(yt, !dir, Rotated(c.sib, !dir));
      Rotate(y, dir, c.up, y');
      ghost var r := Rotated(y', dir);
      RedAfterDoubleRotation(store, root, c, s);
      Read(y);
      SetColour(v, y.red, c.up, r);
      ghost var r1 := Paint(r, c.red);
      SetColourBelow(y, false, c.up, r1, dir);
      ghost var r2 := WithChild(r1, dir, Paint(r1.Child(dir), false));
      SetColourBelow(z, false, c.up, r2, !dir);
      ghost var r3 := WithChild(r2, !dir, Paint(r2.Child(!dir), false));
      FocusAll(store, root, c.up, r3);
      t' := Plug(c.up, r3);
    }

    /** The upward pass of a removal: the subtree on side dir of y is one black node short. */
    method RemoveFixup(y0: Node, dir0: bool, ghost c0: Ctx, ghost s0: Tree) returns (ghost t': Tree)
      requires Mirror() && Focus(store, root, c0, s0) && Deficit(c0, s0) && c0.In? && c0.node == y0 && c0.dir == dir0
      modifies this`root, this`store, store.Keys
      ensures Mirror() && Focus(store, root, Top, t') && store.Keys == old(store.Keys)
      ensures Good(t') && Items(t') == Items(Plug(c0, s0))
    {
      hide *;
      var y, dir := y0, dir0;
      ghost var c, s := c0, s0;
      while true
        invariant Mirror() && store.Keys == old(store.Keys)
        invariant Focus(store, root, c, s) && Deficit(c, s) && c.In? && c.node == y && c.dir == dir
        invariant Items(Plug(c, s)) == Items(Plug(c0, s0))
        decreases c
      {
        ghost var c1 := c;
        SiblingExists(c, s);
        SiblingReads(store, root, c, s);
        Read(y);
        var z := y.Child(!dir);
        Read(z);
        if z.red {
          RootIs(c.sib.Child(dir));
          ChildFork(c.sib, dir);
          var v := z.Child(dir);
          c1 := RotateRedSibling(y, z, dir, c, s);
          z := v;
        }
        var done;
        done, t' := FixBlackSibling(y, z, dir, c1, s);
        if done {
          return;
        }
        s := WithChild(UpTree(c, s), !dir, Paint(c.sib, true));
        c := c.up;
        NodeReads(store, root, c, s);
        Read(y);
        CtxNodeIs(c);
        var x := y;
        y := x.parent;
        if y == null {
          DeficitAtTop(c, s);
          t' := s;
          return;
        }
        ParentReads(store, root, c, s);
        Read(y);
        dir := x == y.right;
      }
    }

    /** The cases of a black sibling z; if the pass must go on, the parent's subtree is the one now short. */
    method FixBlackSibling(y: Node, z: Node, dir: bool, ghost c: Ctx, ghost s: Tree)
      returns (done: bool, ghost t': Tree)
      requires Mirror() && Focus(store, root, c, s) && Deficit(c, s) && c.In? && c.node == y && c.dir == dir
      requires c.sib.Fork? && !c.sib.red && c.sib.node == z
      modifies this`root, this`store, store.Keys
      ensures Mirror() && store.Keys == old(store.Keys)
      ensures done ==> Focus(store, root, Top, t') && Good(t') && Items(t') == Items(Plug(c, s))
      ensures c.red ==> done
      ensures !done ==> var y1 := WithChild(UpTree(c, s), !dir, Paint(c.sib, true));
                        && Focus(store, root, c.up, y1) && y1.Fork? && y1.node == y && Deficit(c.up, y1)
                        && Items(Plug(c.up, y1)) == Items(Plug(c, s))
    {
      hide *;
      t' := Nil;
      SiblingReads(store, root, c, s);
      Read(z);
      var u, v := z.Child(!dir), z.Child(dir);
      RootIs(c.sib.Child(!dir));
      RootIs(c.sib.Child(dir));
      IsRedIs(c.sib.Child(!dir));
      IsRedIs(c.sib.Child(dir));
      if u != null {
        Read(u);
        if u.red {
          t' := RotateOuter(y, z, u, dir, c, s);
          return true, t';
        }
      }
      if v != null {
        Read(v);
        if v.red {
          t' := RotateInner(y, z, v, dir, c, s);
          return true, t';
        }
      }
      ChildFork(c.sib, dir);
      BlackNephews(c, s);
      FocusUp(store, root, c, s);
      ghost var yt := UpTree(c, s);
      SetColourBelow(z, true, c.up, yt, !dir);
      ghost var y1 := WithChild(yt, !dir, Paint(c.sib, true));
      NodeReads(store, root, c.up, y1);
      Read(y);
      if y.red {
        SetColour(y, false, c.up, y1);
        FocusAll(store, root, c.up, Paint(y1, false));
        t' := Plug(c.up, Paint(y1, false));
        return true, t';
      }
      done := false;
    }

    /** Removes x once it has at most one child. */
    method RemoveHere(x: Node, y: Node?, ghost c: Ctx, ghost t: Tree) returns (ghost t': Tree)
      requires Mirror() && Focus(store, root, c, t) && t.Fork? && t.node == x && (t.left.Nil? || t.right.Nil?)
               && y == CtxNode(c)
      requires Good(Plug(c, t))
      modifies this`root, this`store, store.Keys
      ensures Mirror() && Focus(store, root, Top, t') && store.Keys == old(store.Keys) - {x}
      ensures Good(t') && Items(t') == RestItems(c, t)
    {
      hide *;
      NodeReads(store, root, c, t);
      Read(x);
      RootIs(t.left);
      RootIs(t.right);
      CtxNodeIs(c);
      SpliceItems(c, t);
      SplicedIs(t);
      if x.left != null || x.right != null {
        SpliceChild(c, t);
        SpliceOut(x, y, c, t);
        FocusAll(store, root, c, Spliced(t));
        return Plug(c, Spliced(t));
      }
      if y == null || x.red {
        SpliceLeaf(c, t);
        SpliceOut(x, y, c, t);
        FocusAll(store, root, c, Nil);
        return Plug(c, Nil);
      }
      ParentReads(store, root, c, t);
      Read(y);
      var dir := x == y.right;
      SpliceBlackLeaf(c, t);
      SpliceOut(x, y, c, t);
      t' := RemoveFixup(y, dir, c, Nil);
    }

    /** Removes the node x: the tree keeps its invariant and holds exactly the other items. */
    method Remove(x: Node)
      requires Valid() && x in store
      modifies this, store.Keys
      ensures Valid() && store.Keys == old(store.Keys) - {x}
      ensures Item(x, old(x.key)) in old(Items(tree))
      ensures ItemSet(Items(tree)) == old(ItemSet(Items(tree))) - {Item(x, old(x.key))}
    {
      hide *;
      ValidParts();
      ghost var c, t := FindFocus(store, root, Top, tree, x);
      NodeReads(store, root, c, t);
      Read(x);
      RootIs(t.left);
      RootIs(t.right);
      ghost var s, m := Items(tree), Item(x, x.key);
      if x.left != null && x.right != null {
        c, t := ExchangeWithSuccessor(x, c, t);
        NodeReads(store, root, c, t);
        Read(x);
      } else {
        RestRemoves(c, t);
      }
      RemovalParts(s, RestItems(c, t), m);
      tree := RemoveHere(x, x.parent, c, t);
      ValidIntro();
    }
  }

  lemma ChildFork(t: Tree, dir: bool)
    requires t.Fork?
    ensures (t.Child(dir) == t.left && t.Child(!dir) == t.right) || (t.Child(dir) == t.right && t.Child(!dir) == t.left)
  {}

  lemma RemovalParts(s: seq<Item>, u: seq<Item>, m: Item)
    requires IsRemoval(s, u, m)
    ensures Sorted(u) && m in s && ItemSet(u) == ItemSet(s) - {m}
  {}

  lemma TopRootIs(c: Ctx, a: Node?, b: Node?, root: Node?)
    requires root == TopRoot(c, a)
    ensures TopRoot(c, b) == if c.In? then root else b
  {}

  /** The old parent keeps its colour while it is rotated down. */
  lemma RedAfterRotation(h: Store, root: Node?, c: Ctx, s: Tree)
    requires c.In? && c.sib.Fork? && UpTree(c, s).Fork? && UpTree(c, s).Child(!c.dir) == c.sib
    requires Focus(h, root, c.up, Rotated(UpTree(c, s), c.dir))
    ensures c.node in h && h[c.node].red == c.red
  {
    NodeReads(h, root, c.up, Rotated(UpTree(c, s), c.dir));
  }

  lemma RedAfterDoubleRotation(h: Store, root: Node?, c: Ctx, s: Tree)
    requires c.In? && c.sib.Fork? && c.sib.Child(c.dir).Fork? && UpTree(c, s).Fork?
             && UpTree(c, s).Child(!c.dir) == c.sib
    requires Focus(h, root, c.up, Rotated(WithChild(UpTree(c, s), !c.dir, Rotated(c.sib, !c.dir)), c.dir))
    ensures c.node in h && h[c.node].red == c.red
  {
    NodeReads(h, root, c.up, Rotated(WithChild(UpTree(c, s), !c.dir, Rotated(c.sib, !c.dir)), c.dir));
  }

  /** The invariant of the successor search. */
  ghost predicate Searching(c: Ctx, t: Tree, cz: Ctx, tz: Tree)
  {
    && t.Fork? && t.left.Fork? && t.right.Fork? && tz.Fork? && Ids(tz) <= Ids(t.right)
    && Plug(cz, tz) == Plug(c, t) && Before(cz) == Before(Below(c, t, true))
    && ((tz == t.right && cz == Below(c, t, true))
       || (cz.In? && !cz.dir && cz.node in Ids(t.right) && t.right.node !in Ids(tz)))
  }

  lemma SearchStart(c: Ctx, t: Tree)
    requires t.Fork? && t.left.Fork? && t.right.Fork?
    ensures Searching(c, t, Below(c, t, true), t.right)
  {}

  lemma SearchStep(h: Store, root: Node?, c: Ctx, t: Tree, cz: Ctx, tz: Tree)
    requires Searching(c, t, cz, tz) && tz.left.Fork? && Focus(h, root, cz, tz)
    ensures Searching(c, t, Below(cz, tz, false), tz.left)
  {
    ForkParts(h, tz, CtxNode(cz));
    FocusDown(h, root, cz, tz, false);
  }

  lemma SearchEnd(c: Ctx, t: Tree, cz: Ctx, tz: Tree)
    requires Searching(c, t, cz, tz) && tz.left.Nil?
    ensures IsSuccessor(c, t, cz, tz)
  {
    assert tz.node in Ids(tz);
  }

  lemma {:induction false} TopRootInCtx(c: Ctx, r: Node?)
    requires c.In?
    ensures TopRoot(c, r) in CtxIds(c)
  {
    if c.up.In? {
      TopRootInCtx(c.up, c.node);
    }
  }

  /** The situation around x, and the root after the exchange. */
  lemma ExchangeReads(h: Store, root: Node?, c: Ctx, t: Tree, cz: Ctx, tz: Tree)
    requires Focus(h, root, c, t) && Focus(h, root, cz, tz) && IsSuccessor(c, t, cz, tz)
    ensures t.Fork? && tz.Fork? && t.left.Fork? && t.right.Fork? && cz.In?
    ensures var p, a := PairOf(t, tz), AroundOf(c, t, cz, tz);
            && Situation(h, p, a) && p.x == t.node && p.z == tz.node && t.node in h && tz.node in h && t.node != tz.node
            && h[t.node].parent == a.y && (a.zr != null ==> a.zr in h && a.zr != t.node && a.zr != tz.node)
            && Sw(p, root) == if a.y == null then tz.node else root
  {
    SuccessorSituation(h, root, c, t, cz, tz);
    FocusRoot(h, root, c, t);
    ForkParts(h, t, CtxNode(c));
    assert tz.node in Ids(tz);
    if c.In? { TopRootInCtx(c, t.node); }
  }

  lemma ExFacts(h: Store, p: Pair, a: Around)
    requires Situation(h, p, a)
    ensures var h1 := ExHead(h, p, a); var h2 := if a.r == p.z then ExNear(h1, p, a) else ExFar(h1, p, a);
            && p.x in h2 && h2[p.x].right == a.zr
            && h2.Keys == h.Keys && ExTail(h2, p, a).Keys == h.Keys
            && Relinked(h, ExTail(h2, p, a), p, a)
  {
    if a.r == p.z { } else { }
  }

  lemma EmptyTree(k: nat)
    ensures Items(Nil) == [] && AllBelow(Items(Nil), k) && AllAbove(Items(Nil), k)
  {}

  lemma ChildIs(t: Tree)
    requires t.Fork?
    ensures t.Child(true) == t.right && t.Child(false) == t.left
  {}

  lemma ItemsNonEmpty(t: Tree)
    requires t.Fork?
    ensures Items(t) != []
  {}

  lemma FurthestIs(s: seq<Item>)
    requires s != []
    ensures Furthest(s, false) == s[0] && Furthest(s, true) == s[|s| - 1]
  {}

  /** The contents beside an empty child of t's root, on either side. */
  lemma BesideBelow(c: Ctx, t: Tree, dir: bool)
    requires t.Fork?
    ensures var b := Below(c, t, dir);
            && Beside(b, dir) == Beside(c, dir)
            && Beside(b, !dir) != [] && Nearest(Beside(b, !dir), !dir) == Item(t.node, t.key)
            && Before(b) == Beside(b, false) && After(b) == Beside(b, true)
  {}

  /** What follows the root of the focused fork. */
  lemma NextItem(c: Ctx, t: Tree)
    requires t.Fork? && Sorted(Items(Plug(c, t)))
    ensures t.right.Fork? ==>
            Items(t.right) != [] && Ceiling(Items(Plug(c, t)), t.key + 1, Furthest(Items(t.right), false))
    ensures t.right.Nil? ==> (Beside(c, true) == [] ==> AllBelow(Items(Plug(c, t)), t.key + 1))
    ensures t.right.Nil? ==>
            (Beside(c, true) != [] ==> Ceiling(Items(Plug(c, t)), t.key + 1, Nearest(Beside(c, true), true)))
  {
    ItemsAround(c, t);
    var b, a := Before(c) + Items(t.left), Items(t.right) + After(c);
    SortedAround(b, Item(t.node, t.key), a);
    NextOf(b, Item(t.node, t.key), a);
    if t.right.Fork? {
      ItemsNonEmpty(t.right);
      assert a[0] == Items(t.right)[0];
    } else {
      assert a == After(c);
    }
  }

  lemma NextOf(b: seq<Item>, m: Item, a: seq<Item>)
    requires Sorted(b + [m] + a) && AllBelow(b, m.key) && AllAbove(a, m.key)
    ensures a == [] ==> AllBelow(b + [m] + a, m.key + 1)
    ensures a != [] ==> Ceiling(b + [m] + a, m.key + 1, a[0])
  {
    var s := b + [m] + a;
    if a != [] {
      assert s[|b| + 1] == a[0];
      forall j | j in s && j.key >= m.key + 1 ensures j.key >= a[0].key {
        assert j in a;
        var p :| 0 <= p < |a| && a[p] == j;
        assert s[|b| + 1 + p] == j;
      }
    }
  }

  /** Every node of a realised tree can be brought into focus. */
  lemma {:induction false} FindFocus(h: Store, root: Node?, c: Ctx, t: Tree, x: Node) returns (c': Ctx, t': Tree)
    requires Focus(h, root, c, t) && (x in Ids(t) || (c.Top? && x in h))
    ensures Focus(h, root, c', t') && t'.Fork? && t'.node == x && Plug(c', t') == Plug(c, t)
    decreases t
  {
    assert x in Ids(t);
    if x == t.node {
      return c, t;
    }
    var dir := x in Ids(t.right);
    FocusDown(h, root, c, t, dir);
    c', t' := FindFocus(h, root, Below(c, t, dir), t.Child(dir), x);
  }

  lemma ItemSetIs(s: seq<Item>, i: Item)
    ensures i in ItemSet(s) <==> i in s
  {}

  /** The records carry the keys of the tree's items. */
  lemma {:induction false} ItemRecord(h: Store, t: Tree, p: Node?, i: Item, root: Node?)
    requires Shaped(h, t, p) || Focus(h, root, Top, t)
    requires i in Items(t)
    ensures i.node in h && h[i.node].key == i.key
  {
    if i in Items(t.left) {
      ItemRecord(h, t.left, t.node, i, root);
    } else if i in Items(t.right) {
      ItemRecord(h, t.right, t.node, i, root);
    }
  }

  lemma ChildSmaller(t: Tree, dir: bool)
    requires t.Fork?
    ensures t.Child(dir) < t
  {}

  lemma BelowIs(c: Ctx, t: Tree, dir: bool)
    requires t.Fork?
    ensures var b := Below(c, t, dir); b.In? && b.up == c && b.node == t.node && b.dir == dir && CtxNode(b) == t.node
    ensures Plug(Below(c, t, dir), t.Child(dir)) == Plug(c, t)
  {}
}
