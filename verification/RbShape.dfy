/**
 * Nodes of the intrusive red-black tree and the shape of a linked tree: a ghost tree value,
 * a context around a focused subtree, and what it means for node records to realise them.
 */
module RbShape {

  /** An intrusive tree node; the source packs `parent` and `red` into one word. */
  class Node {
    var key: nat
    var left: Node?
    var right: Node?
    var parent: Node?
    var red: bool

    constructor (key: nat)
      ensures this.key == key && left == null && right == null && parent == null && !red
    {
      this.key := key;
      left, right, parent, red := null, null, null, false;
    }

    /** The child on the given side; `true` is the right side. */
    function Child(dir: bool): Node?
      reads this
    {
      if dir then right else left
    }
  }

  /** The contents of a node. */
  datatype Rec = Rec(key: nat, left: Node?, right: Node?, parent: Node?, red: bool) {
    ghost function Child(dir: bool): Node? { if dir then right else left }

    ghost function SetChild(dir: bool, c: Node?): Rec {
      if dir then this.(right := c) else this.(left := c)
    }
  }

  type Store = map<Node, Rec>

  /** The value of a linked tree. */
  datatype Tree = Nil | Fork(node: Node, key: nat, red: bool, left: Tree, right: Tree) {
    ghost function Child(dir: bool): Tree
      requires Fork?
    {
      if dir then right else left
    }
  }

  /** A tree with a hole; `dir` is the side of the hole below `node`, `sib` the other child. */
  datatype Ctx = Top | In(up: Ctx, node: Node, key: nat, red: bool, dir: bool, sib: Tree)

  /** A fork whose child on side dir is a and whose other child is b. */
  ghost function Mk(n: Node, k: nat, r: bool, dir: bool, a: Tree, b: Tree): Tree
  {
    if dir then Fork(n, k, r, b, a) else Fork(n, k, r, a, b)
  }

  ghost function Plug(c: Ctx, t: Tree): Tree
  {
    match c
    case Top => t
    case In(up, n, k, r, dir, sib) => Plug(up, Mk(n, k, r, dir, t, sib))
  }

  ghost function Root(t: Tree): Node?
  {
    if t.Nil? then null else t.node
  }

  ghost function CtxNode(c: Ctx): Node?
  {
    if c.Top? then null else c.node
  }

  /** The root of the whole tree, given the root of the focused part. */
  ghost function TopRoot(c: Ctx, r: Node?): Node?
  {
    match c
    case Top => r
    case In(up, n, _, _, _, _) => TopRoot(up, n)
  }

  ghost function Ids(t: Tree): set<Node>
  {
    match t
    case Nil => {}
    case Fork(n, _, _, l, r) => {n} + Ids(l) + Ids(r)
  }

  ghost function CtxIds(c: Ctx): set<Node>
  {
    match c
    case Top => {}
    case In(up, n, _, _, _, sib) => {n} + Ids(sib) + CtxIds(up)
  }

  ghost predicate Distinct(t: Tree)
  {
    match t
    case Nil => true
    case Fork(n, _, _, l, r) => n !in Ids(l) && n !in Ids(r) && Ids(l) !! Ids(r) && Distinct(l) && Distinct(r)
  }

  ghost predicate CtxDistinct(c: Ctx)
  {
    match c
    case Top => true
    case In(up, n, _, _, _, sib) =>
      n !in Ids(sib) && n !in CtxIds(up) && Ids(sib) !! CtxIds(up) && Distinct(sib) && CtxDistinct(up)
  }

  /** The records realise the tree t below parent p. */
  ghost predicate Shaped(h: Store, t: Tree, p: Node?)
  {
    match t
    case Nil => true
    case Fork(n, k, red, l, r) =>
      n in h && h[n] == Rec(k, Root(l), Root(r), p, red) && Shaped(h, l, n) && Shaped(h, r, n)
  }

  /** The record of a context node. */
  ghost function CtxRec(c: Ctx, hole: Node?): Rec
    requires c.In?
  {
    if c.dir then Rec(c.key, Root(c.sib), hole, CtxNode(c.up), c.red)
    else Rec(c.key, hole, Root(c.sib), CtxNode(c.up), c.red)
  }

  /** The records realise the context c around a subtree with root `hole`. */
  ghost predicate CtxShaped(h: Store, c: Ctx, hole: Node?)
  {
    match c
    case Top => true
    case In(up, n, _, _, _, sib) =>
      n in h && h[n] == CtxRec(c, hole) && Shaped(h, sib, n) && CtxShaped(h, up, n)
  }

  /** The store realises t inside c, over pairwise distinct nodes, below the given root pointer. */
  ghost predicate Focus(h: Store, root: Node?, c: Ctx, t: Tree)
  {
    && Shaped(h, t, CtxNode(c)) && CtxShaped(h, c, Root(t))
    && Distinct(t) && CtxDistinct(c) && Ids(t) !! CtxIds(c)
    && h.Keys == Ids(t) + CtxIds(c)
    && root == TopRoot(c, Root(t))
  }

  // ---------------------------------------------------------------------------
  // Frames
  // ---------------------------------------------------------------------------

  /** Two stores agree on a set of nodes. */
  ghost predicate Agree(h: Store, h': Store, s: set<Node>)
  {
    forall n :: n in s && n in h ==> n in h' && h'[n] == h[n]
  }

  lemma {:induction false} ShapedFrame(h: Store, h': Store, t: Tree, p: Node?)
    requires Shaped(h, t, p) && Agree(h, h', Ids(t))
    ensures Shaped(h', t, p)
  {
    if t.Fork? {
      assert t.node in Ids(t);
      ShapedFrame(h, h', t.left, t.node);
      ShapedFrame(h, h', t.right, t.node);
    }
  }

  lemma {:induction false} CtxFrame(h: Store, h': Store, c: Ctx, hole: Node?)
    requires CtxShaped(h, c, hole) && Agree(h, h', CtxIds(c))
    ensures CtxShaped(h', c, hole)
  {
    if c.In? {
      assert c.node in CtxIds(c);
      ShapedFrame(h, h', c.sib, c.node);
      CtxFrame(h, h', c.up, c.node);
    }
  }

  /** Giving the root of a subtree a new parent. */
  lemma Reparent(h: Store, h': Store, t: Tree, p: Node?, p': Node?)
    requires t.Fork? ==> t.node in h && t.node in h' && h'[t.node] == h[t.node].(parent := p')
    requires Shaped(h, t, p) && Distinct(t) && Agree(h, h', Ids(t) - (if t.Fork? then {t.node} else {}))
    ensures Shaped(h', t, p')
  {
    if t.Fork? {
      var s := Ids(t) - {t.node};
      assert Ids(t.left) <= s && Ids(t.right) <= s;
      ShapedFrame(h, h', t.left, t.node);
      ShapedFrame(h, h', t.right, t.node);
    }
  }

  /** Giving a context a new subtree. */
  lemma Rehole(h: Store, h': Store, c: Ctx, hole: Node?, hole': Node?)
    requires CtxShaped(h, c, hole) && CtxDistinct(c)
    requires c.In? ==> c.node in h' && h'[c.node] == h[c.node].SetChild(c.dir, hole')
    requires Agree(h, h', CtxIds(c) - {CtxNode(c)})
    ensures CtxShaped(h', c, hole')
  {
    if c.In? {
      var s := CtxIds(c) - {c.node};
      assert Ids(c.sib) <= s && CtxIds(c.up) <= s;
      ShapedFrame(h, h', c.sib, c.node);
      CtxFrame(h, h', c.up, c.node);
    }
  }

  // ---------------------------------------------------------------------------
  // Moving the focus
  // ---------------------------------------------------------------------------

  /** The context of the child on side dir of the focused fork. */
  ghost function Below(c: Ctx, t: Tree, dir: bool): Ctx
    requires t.Fork?
  {
    In(c, t.node, t.key, t.red, dir, t.Child(!dir))
  }

  lemma FocusDown(h: Store, root: Node?, c: Ctx, t: Tree, dir: bool)
    requires Focus(h, root, c, t) && t.Fork?
    ensures Focus(h, root, Below(c, t, dir), t.Child(dir))
    ensures Plug(Below(c, t, dir), t.Child(dir)) == Plug(c, t)
  {}

  /** The subtree of the parent of the focused tree. */
  ghost function UpTree(c: Ctx, t: Tree): (u: Tree)
    requires c.In?
    ensures u.Fork?
  {
    Mk(c.node, c.key, c.red, c.dir, t, c.sib)
  }

  lemma FocusUp(h: Store, root: Node?, c: Ctx, t: Tree)
    requires Focus(h, root, c, t) && c.In?
    ensures Focus(h, root, c.up, UpTree(c, t))
  {}

  lemma {:induction false} FocusAll(h: Store, root: Node?, c: Ctx, t: Tree)
    requires Focus(h, root, c, t)
    ensures Focus(h, root, Top, Plug(c, t))
    decreases c
  {
    if c.In? {
      FocusUp(h, root, c, t);
      FocusAll(h, root, c.up, UpTree(c, t));
    }
  }

  /** What a focused fork says about its root's record and surroundings. */
  lemma FocusRoot(h: Store, root: Node?, c: Ctx, t: Tree)
    requires Focus(h, root, c, t) && t.Fork?
    ensures t.node in h && h[t.node] == Rec(t.key, Root(t.left), Root(t.right), CtxNode(c), t.red)
    ensures t.node in Ids(t) && t.node !in CtxIds(c)
    ensures c.In? ==> c.node in h && c.node in CtxIds(c) && h[c.node] == CtxRec(c, t.node) && Root(c.sib) != t.node
    ensures root == TopRoot(c, t.node)
  {
    if c.In? && c.sib.Fork? { assert c.sib.node in Ids(c.sib); }
  }

  // ---------------------------------------------------------------------------
  // Rotation and recolouring of values
  // ---------------------------------------------------------------------------

  /** The rotation of t towards side dir: its other child becomes the root. */
  ghost function Rotated(t: Tree, dir: bool): Tree
    requires t.Fork? && t.Child(!dir).Fork?
  {
    var z := t.Child(!dir);
    Mk(z.node, z.key, z.red, dir, Mk(t.node, t.key, t.red, dir, t.Child(dir), z.Child(dir)), z.Child(!dir))
  }

  lemma RotatedIds(t: Tree, dir: bool)
    requires t.Fork? && t.Child(!dir).Fork? && Distinct(t)
    ensures Ids(Rotated(t, dir)) == Ids(t) && Distinct(Rotated(t, dir))
  {}

  /** The parts of a tree about to be rotated. */
  lemma RotationParts(h: Store, root: Node?, c: Ctx, t: Tree, dir: bool)
    requires Focus(h, root, c, t) && t.Fork? && t.Child(!dir).Fork?
    ensures var x, zt := t.node, t.Child(!dir); var a, b, d := t.Child(dir), zt.Child(dir), zt.Child(!dir);
            var z := zt.node;
            && x in h && z in h && x != z
            && h[x] == Rec(t.key, Root(t.left), Root(t.right), CtxNode(c), t.red)
            && h[z] == Rec(zt.key, Root(zt.left), Root(zt.right), x, zt.red)
            && Shaped(h, a, x) && Shaped(h, b, z) && Shaped(h, d, z) && Distinct(a) && Distinct(b) && Distinct(d)
            && {x, z} !! Ids(a) && {x, z} !! Ids(b) && {x, z} !! Ids(d) && {x, z} !! CtxIds(c)
            && Ids(a) !! Ids(b) && Ids(a) !! Ids(d) && Ids(b) !! Ids(d)
            && Ids(a) !! CtxIds(c) && Ids(b) !! CtxIds(c) && Ids(d) !! CtxIds(c)
            && (b.Fork? ==> b.node in h && b.node in Ids(b))
            && (c.In? ==> c.node in h && c.node in CtxIds(c) && h[c.node] == CtxRec(c, x) && Root(c.sib) != x)
  {
    FocusRoot(h, root, c, t);
    ForkParts(h, t, CtxNode(c));
    ForkParts(h, t.Child(!dir), t.node);
  }

  /** One level of a realised tree. */
  lemma ForkParts(h: Store, t: Tree, p: Node?)
    requires Shaped(h, t, p) && Distinct(t) && t.Fork?
    ensures t.node in h && h[t.node] == Rec(t.key, Root(t.left), Root(t.right), p, t.red)
    ensures Shaped(h, t.left, t.node) && Shaped(h, t.right, t.node) && Distinct(t.left) && Distinct(t.right)
    ensures t.node !in Ids(t.left) && t.node !in Ids(t.right) && Ids(t.left) !! Ids(t.right)
    ensures t.node in Ids(t) && Ids(t.left) <= Ids(t) && Ids(t.right) <= Ids(t)
    ensures t.left.Fork? ==> t.left.node in Ids(t.left) && t.left.node in h
    ensures t.right.Fork? ==> t.right.node in Ids(t.right) && t.right.node in h
  {}

  /** Any store that differs from h as the rotation's assignments do realises the rotated tree. */
  lemma RotateShape(h: Store, h': Store, root: Node?, c: Ctx, t: Tree, dir: bool)
    requires Focus(h, root, c, t) && t.Fork? && t.Child(!dir).Fork?
    requires var x, zt := t.node, t.Child(!dir); var b, z, y := zt.Child(dir), zt.node, CtxNode(c);
             && h'.Keys == h.Keys
             && (forall n :: n in h && n != x && n != z && n != Root(b) && n != y ==> h'[n] == h[n])
             && x in h && z in h
             && h'[x] == h[x].SetChild(!dir, Root(b)).(parent := z)
             && h'[z] == h[z].SetChild(dir, x).(parent := y)
             && (b.Fork? ==> b.node in h && h'[b.node] == h[b.node].(parent := x))
             && (c.In? ==> c.node in h && h'[c.node] == h[c.node].SetChild(c.dir, z))
    ensures Focus(h', TopRoot(c, t.Child(!dir).node), c, Rotated(t, dir))
  {
    RotationParts(h, root, c, t, dir);
    var x, zt := t.node, t.Child(!dir);
    var a, b, d := t.Child(dir), zt.Child(dir), zt.Child(!dir);
    var z := zt.node;
    RotateFrames(h, h', c, a, b, d, x, z);
    RotatedIds(t, dir);
  }

  /** The frame part of the rotation: the three subtrees and the context. */
  lemma RotateFrames(h: Store, h': Store, c: Ctx, a: Tree, b: Tree, d: Tree, x: Node, z: Node)
    requires h'.Keys == h.Keys
    requires forall n :: n in h && n != x && n != z && n != Root(b) && n != CtxNode(c) ==> h'[n] == h[n]
    requires Shaped(h, a, x) && Shaped(h, b, z) && Shaped(h, d, z) && Distinct(b)
    requires {x, z} !! Ids(a) && {x, z} !! Ids(b) && {x, z} !! Ids(d) && {x, z} !! CtxIds(c)
    requires Ids(a) !! Ids(b) && Ids(a) !! Ids(d) && Ids(b) !! Ids(d)
    requires Ids(a) !! CtxIds(c) && Ids(b) !! CtxIds(c) && Ids(d) !! CtxIds(c)
    requires b.Fork? ==> b.node in h && b.node in Ids(b) && h'[b.node] == h[b.node].(parent := x)
    requires c.In? ==> c.node in h && c.node in CtxIds(c) && h'[c.node] == h[c.node].SetChild(c.dir, z)
    requires CtxShaped(h, c, x) && CtxDistinct(c)
    ensures Shaped(h', a, x) && Shaped(h', b, x) && Shaped(h', d, z) && CtxShaped(h', c, z)
  {
    hide *;
    assert Root(b) == if b.Fork? then b.node else null by { RootIs(b); }
    assert CtxNode(c) == if c.In? then c.node else null by { CtxNodeIs(c); }
    AgreeSimple(h, h', Ids(a));
    AgreeSimple(h, h', Ids(d));
    ShapedFrame(h, h', a, x);
    ShapedFrame(h, h', d, z);
    AgreeSimple(h, h', Ids(b) - (if b.Fork? then {b.node} else {}));
    Reparent(h, h', b, z, x);
    AgreeSimple(h, h', CtxIds(c) - {CtxNode(c)});
    Rehole(h, h', c, x, z);
  }

  lemma AgreeSimple(h: Store, h': Store, s: set<Node>)
    requires h'.Keys == h.Keys && forall n :: n in s && n in h ==> h'[n] == h[n]
    ensures Agree(h, h', s)
  {}

  lemma RootIs(t: Tree)
    ensures Root(t) == if t.Fork? then t.node else null
  {}

  lemma CtxNodeIs(c: Ctx)
    ensures CtxNode(c) == if c.In? then c.node else null
  {}

  /** The assignments of a rotation to the two rotated nodes and the subtree between them. */
  ghost function RotInner(h: Store, x: Node, z: Node, b: Node?, y: Node?, dir: bool): (h': Store)
    requires x in h && z in h && (b != null ==> b in h)
    ensures h'.Keys == h.Keys
  {
    var h1 := h[x := h[x].SetChild(!dir, b)];
    var h2 := if b != null then h1[b := h1[b].(parent := x)] else h1;
    var h3 := h2[z := h2[z].SetChild(dir, x)];
    var h4 := h3[x := h3[x].(parent := z)];
    h4[z := h4[z].(parent := y)]
  }

  /** All assignments of a rotation, in order. */
  ghost function RotStore(h: Store, x: Node, z: Node, b: Node?, y: Node?, dir: bool, side: bool): Store
    requires x in h && z in h && (b != null ==> b in h) && (y != null ==> y in h)
  {
    var h5 := RotInner(h, x, z, b, y, dir);
    if y != null then h5[y := h5[y].SetChild(side, z)] else h5
  }

  lemma RotStoreIs(h: Store, x: Node, z: Node, b: Node?, y: Node?, dir: bool, side: bool)
    requires x in h && z in h && (b != null ==> b in h) && (y != null ==> y in h)
    ensures var h5 := RotInner(h, x, z, b, y, dir);
            RotStore(h, x, z, b, y, dir, side) == if y != null then h5[y := h5[y].SetChild(side, z)] else h5
    ensures y != null && y != x && y != z && y != b ==> RotInner(h, x, z, b, y, dir)[y] == h[y]
  {}

  /** What the rotation reads. */
  lemma RotationReads(h: Store, root: Node?, c: Ctx, t: Tree, dir: bool)
    requires Focus(h, root, c, t) && t.Fork? && t.Child(!dir).Fork?
    ensures var x, z, b, y := t.node, t.Child(!dir).node, Root(t.Child(!dir).Child(dir)), CtxNode(c);
            && x in h && z in h && x != z && h[x].parent == y && h[x].Child(!dir) == z && h[z].Child(dir) == b
            && (b != null ==> b in h) && b != x && b != z && (b != null ==> b != y)
            && (y != null ==> y in h && y != x && y != z && (x == h[y].right <==> c.dir))
            && (y == null <==> c.Top?)
            && (c.In? ==> TopRoot(c, z) == root) && (c.Top? ==> TopRoot(c, z) == z)
  {
    RotationParts(h, root, c, t, dir);
  }

  lemma RotateDone(h: Store, root: Node?, c: Ctx, t: Tree, dir: bool, side: bool)
    requires Focus(h, root, c, t) && t.Fork? && t.Child(!dir).Fork?
    requires c.In? ==> side == c.dir
    ensures var x, z, b, y := t.node, t.Child(!dir).node, Root(t.Child(!dir).Child(dir)), CtxNode(c);
            && x in h && z in h && (b != null ==> b in h) && (y != null ==> y in h)
            && RotStore(h, x, z, b, y, dir, side).Keys == h.Keys
            && Focus(RotStore(h, x, z, b, y, dir, side), TopRoot(c, z), c, Rotated(t, dir))
  {
    RotationReads(h, root, c, t, dir);
    var x, z, b, y := t.node, t.Child(!dir).node, Root(t.Child(!dir).Child(dir)), CtxNode(c);
    RotateShape(h, RotStore(h, x, z, b, y, dir, side), root, c, t, dir);
  }

  /** The focused fork with its child on side dir replaced. */
  ghost function WithChild(t: Tree, dir: bool, s: Tree): Tree
    requires t.Fork?
  {
    Mk(t.node, t.key, t.red, dir, s, t.Child(!dir))
  }

  ghost function Paint(t: Tree, red: bool): Tree
    requires t.Fork?
  {
    t.(red := red)
  }

  /** Recolouring the root of the focused fork. */
  lemma PaintFocus(h: Store, root: Node?, c: Ctx, t: Tree, red: bool)
    requires Focus(h, root, c, t) && t.Fork?
    ensures t.node in h && h[t.node := h[t.node].(red := red)].Keys == h.Keys
    ensures Focus(h[t.node := h[t.node].(red := red)], root, c, Paint(t, red))
  {
    FocusRoot(h, root, c, t);
    ForkParts(h, t, CtxNode(c));
    var h' := h[t.node := h[t.node].(red := red)];
    AgreeSimple(h, h', Ids(t.left));
    AgreeSimple(h, h', Ids(t.right));
    AgreeSimple(h, h', CtxIds(c));
    ShapedFrame(h, h', t.left, t.node);
    ShapedFrame(h, h', t.right, t.node);
    CtxFrame(h, h', c, t.node);
  }

  lemma BelowUp(c: Ctx, t: Tree, dir: bool, s: Tree)
    requires t.Fork?
    ensures var b := Below(c, t, dir); b.In? && b.up == c && UpTree(b, s) == WithChild(t, dir, s)
  {}

  /** What can be read around a focused fork below a parent. */
  lemma ParentReads(h: Store, root: Node?, c: Ctx, t: Tree)
    requires Focus(h, root, c, t) && t.Fork? && c.In?
    ensures c.node in h && h[c.node].red == c.red && h[c.node].parent == CtxNode(c.up) && h[c.node].key == c.key
    ensures h[c.node].Child(c.dir) == t.node && h[c.node].Child(!c.dir) == Root(c.sib) && Root(c.sib) != t.node
    ensures t.node == h[c.node].right <==> c.dir
    ensures c.sib.Fork? ==> c.sib.node in h && h[c.sib.node].red == c.sib.red
  {
    FocusRoot(h, root, c, t);
  }

  lemma NodeReads(h: Store, root: Node?, c: Ctx, t: Tree)
    requires Focus(h, root, c, t) && t.Fork?
    ensures t.node in h && h[t.node].red == t.red && h[t.node].parent == CtxNode(c) && h[t.node].key == t.key
    ensures h[t.node].left == Root(t.left) && h[t.node].right == Root(t.right)
    ensures forall d :: h[t.node].Child(d) == Root(t.Child(d))
    ensures t.left.Fork? ==> t.left.node in h && h[t.left.node].red == t.left.red
    ensures t.right.Fork? ==> t.right.node in h && h[t.right.node].red == t.right.red
  {
    FocusRoot(h, root, c, t);
    ForkParts(h, t, CtxNode(c));
  }

  /** A new red leaf in an empty hole. */
  lemma AttachFocus(h: Store, root: Node?, c: Ctx, x: Node, k: nat)
    requires Focus(h, root, c, Nil) && c.In? && x !in h
    ensures c.node in h && c.node != x
    ensures var h1 := h[x := Rec(k, null, null, c.node, true)];
            var h2 := h1[c.node := h1[c.node].SetChild(c.dir, x)];
            h2.Keys == h.Keys + {x} && Focus(h2, root, c, Fork(x, k, true, Nil, Nil))
  {
    var h1 := h[x := Rec(k, null, null, c.node, true)];
    var h2 := h1[c.node := h1[c.node].SetChild(c.dir, x)];
    assert Agree(h, h2, CtxIds(c) - {CtxNode(c)});
    Rehole(h, h2, c, null, x);
  }

}
