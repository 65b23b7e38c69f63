/**
 * Exchanging the positions of two nodes. Removing a node with two children first swaps it with
 * its successor by relinking; the effect on the store is a renaming of the two nodes.
 */
module RbExchange {
  import opened RbShape
  import opened RbColour

  /** The two nodes to exchange, with their keys, which stay with the nodes. */
  datatype Pair = Pair(x: Node, kx: nat, z: Node, kz: nat)

  ghost function Sw(p: Pair, n: Node?): Node?
  {
    if n == p.x then p.z else if n == p.z then p.x else n
  }

  ghost function SwNode(p: Pair, n: Node): Node
  {
    if n == p.x then p.z else if n == p.z then p.x else n
  }

  ghost function SwKey(p: Pair, n: Node, k: nat): nat
  {
    if n == p.x then p.kz else if n == p.z then p.kx else k
  }

  ghost function SwTree(p: Pair, t: Tree): Tree
  {
    match t
    case Nil => Nil
    case Fork(n, k, r, l, rt) => Fork(SwNode(p, n), SwKey(p, n, k), r, SwTree(p, l), SwTree(p, rt))
  }

  ghost function SwCtx(p: Pair, c: Ctx): Ctx
  {
    match c
    case Top => Top
    case In(up, n, k, r, dir, sib) => In(SwCtx(p, up), SwNode(p, n), SwKey(p, n, k), r, dir, SwTree(p, sib))
  }

  /** The record a node has after the exchange. */
  ghost function SwRec(p: Pair, h: Store, n: Node): Rec
    requires n in h && SwNode(p, n) in h
  {
    var m := h[SwNode(p, n)];
    Rec(h[n].key, Sw(p, m.left), Sw(p, m.right), Sw(p, m.parent), m.red)
  }

  /** h' is h with the two nodes exchanged. */
  ghost predicate Exchanged(p: Pair, h: Store, h': Store)
  {
    && p.x in h && p.z in h && p.x != p.z && h[p.x].key == p.kx && h[p.z].key == p.kz
    && h'.Keys == h.Keys
    && forall n :: n in h ==> SwNode(p, n) in h && h'[n] == SwRec(p, h, n)
  }

  lemma {:induction false} SwShaped(p: Pair, h: Store, h': Store, t: Tree, q: Node?)
    requires Exchanged(p, h, h') && Shaped(h, t, q)
    ensures Shaped(h', SwTree(p, t), Sw(p, q)) && Root(SwTree(p, t)) == Sw(p, Root(t))
  {
    if t.Fork? {
      SwShaped(p, h, h', t.left, t.node);
      SwShaped(p, h, h', t.right, t.node);
      assert t.node in h;
      assert SwNode(p, SwNode(p, t.node)) == t.node;
    }
  }

  lemma {:induction false} SwCtxShaped(p: Pair, h: Store, h': Store, c: Ctx, hole: Node?)
    requires Exchanged(p, h, h') && CtxShaped(h, c, hole)
    ensures CtxShaped(h', SwCtx(p, c), Sw(p, hole)) && CtxNode(SwCtx(p, c)) == Sw(p, CtxNode(c))
    ensures forall r :: TopRoot(SwCtx(p, c), Sw(p, r)) == Sw(p, TopRoot(c, r))
  {
    if c.In? {
      SwShaped(p, h, h', c.sib, c.node);
      SwCtxShaped(p, h, h', c.up, c.node);
      assert c.node in h;
      assert SwNode(p, SwNode(p, c.node)) == c.node;
    }
  }

  ghost function SwSet(p: Pair, s: set<Node>): set<Node>
  {
    set n | n in s :: SwNode(p, n)
  }

  lemma {:induction false} SwIds(p: Pair, t: Tree)
    ensures Ids(SwTree(p, t)) == SwSet(p, Ids(t))
  {
    if t.Fork? {
      SwIds(p, t.left);
      SwIds(p, t.right);
      SwUnion(p, {t.node} + Ids(t.left), Ids(t.right));
      SwUnion(p, {t.node}, Ids(t.left));
    }
  }

  lemma SwUnion(p: Pair, a: set<Node>, b: set<Node>)
    ensures SwSet(p, a + b) == SwSet(p, a) + SwSet(p, b)
  {
    forall m | m in SwSet(p, a) + SwSet(p, b) ensures m in SwSet(p, a + b) {
      if m in SwSet(p, a) {
        var n :| n in a && m == SwNode(p, n);
        assert n in a + b;
      } else {
        var n :| n in b && m == SwNode(p, n);
        assert n in a + b;
      }
    }
  }

  lemma SwMember(p: Pair, s: set<Node>, n: Node)
    requires p.x != p.z
    ensures n in SwSet(p, s) <==> SwNode(p, n) in s
  {
    if SwNode(p, n) in s {
      assert SwNode(p, SwNode(p, n)) == n;
    }
  }

  lemma SwDisjoint(p: Pair, a: set<Node>, b: set<Node>)
    requires p.x != p.z && a !! b
    ensures SwSet(p, a) !! SwSet(p, b)
  {
    forall n | n in SwSet(p, a) ensures n !in SwSet(p, b) {
      SwMember(p, a, n);
      SwMember(p, b, n);
    }
  }

  lemma {:induction false} SwDistinct(p: Pair, t: Tree)
    requires p.x != p.z && Distinct(t)
    ensures Distinct(SwTree(p, t))
  {
    if t.Fork? {
      SwDistinct(p, t.left);
      SwDistinct(p, t.right);
      SwIds(p, t.left);
      SwIds(p, t.right);
      SwDisjoint(p, Ids(t.left), Ids(t.right));
      SwMember(p, Ids(t.left), SwNode(p, t.node));
      SwMember(p, Ids(t.right), SwNode(p, t.node));
    }
  }

  lemma {:induction false} SwCtxIds(p: Pair, c: Ctx)
    requires p.x != p.z && CtxDistinct(c)
    ensures CtxIds(SwCtx(p, c)) == SwSet(p, CtxIds(c)) && CtxDistinct(SwCtx(p, c))
  {
    if c.In? {
      SwCtxIds(p, c.up);
      SwIds(p, c.sib);
      SwDistinct(p, c.sib);
      SwUnion(p, {c.node} + Ids(c.sib), CtxIds(c.up));
      SwUnion(p, {c.node}, Ids(c.sib));
      SwDisjoint(p, Ids(c.sib), CtxIds(c.up));
      SwMember(p, Ids(c.sib), SwNode(p, c.node));
      SwMember(p, CtxIds(c.up), SwNode(p, c.node));
    }
  }

  /** The exchange of two nodes of the store turns a realised tree into the renamed one. */
  lemma SwFocus(p: Pair, h: Store, h': Store, root: Node?, c: Ctx, t: Tree)
    requires Exchanged(p, h, h') && Focus(h, root, c, t)
    ensures Focus(h', Sw(p, root), SwCtx(p, c), SwTree(p, t))
  {
    SwShaped(p, h, h', t, CtxNode(c));
    SwCtxShaped(p, h, h', c, Root(t));
    SwIds(p, t);
    SwDistinct(p, t);
    SwCtxIds(p, c);
    SwDisjoint(p, Ids(t), CtxIds(c));
    SwUnion(p, Ids(t), CtxIds(c));
    SwWhole(p, h.Keys);
  }

  lemma SwWhole(p: Pair, s: set<Node>)
    requires p.x in s && p.z in s && p.x != p.z
    ensures SwSet(p, s) == s
  {
    forall n ensures n in SwSet(p, s) <==> n in s {
      SwMember(p, s, n);
    }
  }

  // ---------------------------------------------------------------------------
  // Colours and contents
  // ---------------------------------------------------------------------------

  lemma {:induction false} SwGood(p: Pair, t: Tree)
    ensures Good(SwTree(p, t)) == Good(t) && Height(SwTree(p, t)) == Height(t) && IsRed(SwTree(p, t)) == IsRed(t)
  {
    if t.Fork? {
      SwGood(p, t.left);
      SwGood(p, t.right);
    }
  }

  lemma {:induction false} SwPlug(p: Pair, c: Ctx, t: Tree)
    ensures SwTree(p, Plug(c, t)) == Plug(SwCtx(p, c), SwTree(p, t))
    decreases c
  {
    if c.In? {
      SwPlug(p, c.up, Mk(c.node, c.key, c.red, c.dir, t, c.sib));
    }
  }

  ghost function SwItems(p: Pair, s: seq<Item>): seq<Item>
  {
    seq(|s|, i requires 0 <= i < |s| => Item(SwNode(p, s[i].node), SwKey(p, s[i].node, s[i].key)))
  }

  lemma SwItemsConcat(p: Pair, a: seq<Item>, b: seq<Item>)
    ensures SwItems(p, a + b) == SwItems(p, a) + SwItems(p, b)
  {}

  lemma {:induction false} SwTreeItems(p: Pair, t: Tree)
    ensures Items(SwTree(p, t)) == SwItems(p, Items(t))
  {
    if t.Fork? {
      var m := [Item(t.node, t.key)];
      SwTreeItems(p, t.left);
      SwTreeItems(p, t.right);
      SwItemsConcat(p, Items(t.left), m);
      SwItemsConcat(p, Items(t.left) + m, Items(t.right));
    }
  }

  lemma {:induction false} SwCtxItems(p: Pair, c: Ctx)
    ensures Before(SwCtx(p, c)) == SwItems(p, Before(c)) && After(SwCtx(p, c)) == SwItems(p, After(c))
  {
    if c.In? {
      var m := [Item(c.node, c.key)];
      SwCtxItems(p, c.up);
      SwTreeItems(p, c.sib);
      SwItemsConcat(p, Before(c.up), Items(c.sib));
      SwItemsConcat(p, Before(c.up) + Items(c.sib), m);
      SwItemsConcat(p, m, Items(c.sib));
      SwItemsConcat(p, m + Items(c.sib), After(c.up));
    }
  }

  /** Neither node occurs in the sequence. */
  ghost predicate Avoids(p: Pair, s: seq<Item>)
  {
    forall i :: i in s ==> i.node != p.x && i.node != p.z
  }

  lemma SwAvoids(p: Pair, s: seq<Item>)
    requires Avoids(p, s)
    ensures SwItems(p, s) == s
  {
    assert forall i :: 0 <= i < |s| ==> s[i] in s;
  }

  // ---------------------------------------------------------------------------
  // The assignments that perform the exchange
  // ---------------------------------------------------------------------------

  /** Parent and child links agree. */
  ghost predicate Linked(h: Store)
  {
    forall n :: n in h ==>
      && (h[n].left != null ==> h[n].left in h && h[h[n].left].parent == n)
      && (h[n].right != null ==> h[n].right in h && h[h[n].right].parent == n)
      && (h[n].parent != null ==> h[n].parent in h && (h[h[n].parent].left == n || h[h[n].parent].right == n))
  }

  /** Links agree for one node. */
  ghost predicate LinkedAt(h: Store, n: Node)
    requires n in h
  {
    && (h[n].left != null ==> h[n].left in h && h[h[n].left].parent == n)
    && (h[n].right != null ==> h[n].right in h && h[h[n].right].parent == n)
    && (h[n].parent != null ==> h[n].parent in h && (h[h[n].parent].left == n || h[h[n].parent].right == n))
  }

  lemma {:induction false} ShapedLinked(h: Store, t: Tree, p: Node?, n: Node)
    requires Shaped(h, t, p) && n in Ids(t)
    requires p != null ==> p in h && (h[p].left == Root(t) || h[p].right == Root(t))
    ensures n in h && LinkedAt(h, n)
  {
    if n == t.node {
    } else if n in Ids(t.left) {
      ShapedLinked(h, t.left, t.node, n);
    } else {
      ShapedLinked(h, t.right, t.node, n);
    }
  }

  lemma FocusLinked(h: Store, root: Node?, t: Tree)
    requires Focus(h, root, Top, t)
    ensures Linked(h)
  {
    forall n | n in h ensures LinkedAt(h, n) {
      ShapedLinked(h, t, null, n);
    }
  }

  /** The nodes around x and its successor z: x's parent, children, z's parent and right child. */
  datatype Around = Around(y: Node?, l: Node, r: Node, w: Node, zr: Node?)

  /** x has children l and r below y; z, below w, is the leftmost node of r's subtree. */
  ghost predicate Situation(h: Store, p: Pair, a: Around)
  {
    && Linked(h) && p.x in h && p.z in h && p.x != p.z && h[p.x].key == p.kx && h[p.z].key == p.kz
    && a.l in h && a.r in h && a.w in h
    && h[p.x].left == a.l && h[p.x].right == a.r && h[p.x].parent == a.y
    && h[p.z].left == null && h[p.z].right == a.zr && h[p.z].parent == a.w
    && (a.y != null ==> a.y in h && a.y !in {p.x, p.z, a.l, a.r, a.w, a.zr} && h[a.y].left != h[a.y].right)
    && a.l !in {p.x, p.z, a.r, a.w, a.zr}
    && (a.zr != null ==> a.zr in h && a.zr !in {p.x, p.z, a.r, a.w})
    && (a.r == p.z <==> a.w == p.x)
    && a.r != p.x && a.w != p.z
    && (a.w != p.x ==> h[a.w].left == p.z && h[a.w].right != p.z)
  }

  /** The store after the assignments. */
  ghost predicate Relinked(h: Store, h': Store, p: Pair, a: Around)
    requires Situation(h, p, a)
  {
    && h'.Keys == h.Keys
    && h'[p.x] == Rec(p.kx, null, a.zr, if a.r == p.z then p.z else a.w, h[p.z].red)
    && h'[p.z] == Rec(p.kz, a.l, if a.r == p.z then p.x else a.r, a.y, h[p.x].red)
    && (a.y != null ==> h'[a.y] == h[a.y].SetChild(p.x == h[a.y].right, p.z))
    && h'[a.l] == h[a.l].(parent := p.z)
    && (a.zr != null ==> h'[a.zr] == h[a.zr].(parent := p.x))
    && (a.r != p.z ==> && h'[a.w] == (if a.w == a.r then h[a.w].(left := p.x, parent := p.z) else h[a.w].(left := p.x))
                       && (a.w != a.r ==> h'[a.r] == h[a.r].(parent := p.z)))
    && forall n :: n in h && n !in {p.x, p.z, a.l, a.r, a.w} && n != a.y && n != a.zr ==> h'[n] == h[n]
  }

  /** One record after the exchange, case by case. */
  lemma RelinkedRecord(h: Store, h': Store, p: Pair, a: Around, n: Node)
    requires Situation(h, p, a) && Relinked(h, h', p, a) && n in h
    ensures SwNode(p, n) in h && h'[n] == SwRec(p, h, n)
  {
    assert LinkedAt(h, n);
    assert LinkedAt(h, p.x) && LinkedAt(h, p.z);
    if n == p.x || n == p.z {
    } else {
      assert h[n].left == p.x || h[n].right == p.x ==> n == a.y;
      assert h[n].left == p.z || h[n].right == p.z ==> n == a.w;
      assert h[n].parent == p.x ==> n == a.l || n == a.r;
      assert h[n].parent == p.z ==> n == a.zr;
      if n == a.y {
      } else if n == a.l {
      } else if n == a.zr {
      } else if n == a.w {
      } else if n == a.r {
      }
    }
  }

  lemma RelinkedExchanges(h: Store, h': Store, p: Pair, a: Around)
    requires Situation(h, p, a) && Relinked(h, h', p, a)
    ensures Exchanged(p, h, h')
  {
    forall n | n in h ensures SwNode(p, n) in h && h'[n] == SwRec(p, h, n) {
      RelinkedRecord(h, h', p, a, n);
    }
  }

  /** What the search for the successor establishes. */
  ghost predicate IsSuccessor(c: Ctx, t: Tree, cz: Ctx, tz: Tree)
  {
    && t.Fork? && t.left.Fork? && t.right.Fork? && tz.Fork? && tz.left.Nil? && Ids(tz) <= Ids(t.right)
    && Plug(cz, tz) == Plug(c, t) && Before(cz) == Before(Below(c, t, true))
    && (if tz.node == t.right.node then cz == Below(c, t, true) else cz.In? && !cz.dir && cz.node in Ids(t.right))
  }

  ghost function PairOf(t: Tree, tz: Tree): Pair
    requires t.Fork? && tz.Fork?
  {
    Pair(t.node, t.key, tz.node, tz.key)
  }

  ghost function AroundOf(c: Ctx, t: Tree, cz: Ctx, tz: Tree): Around
    requires t.Fork? && t.left.Fork? && t.right.Fork? && tz.Fork? && cz.In?
  {
    Around(CtxNode(c), t.left.node, t.right.node, cz.node, Root(tz.right))
  }

  lemma SuccessorSituation(h: Store, root: Node?, c: Ctx, t: Tree, cz: Ctx, tz: Tree)
    requires Focus(h, root, c, t) && Focus(h, root, cz, tz) && IsSuccessor(c, t, cz, tz)
    ensures cz.In? && Situation(h, PairOf(t, tz), AroundOf(c, t, cz, tz))
  {
    FocusAll(h, root, c, t);
    FocusLinked(h, root, Plug(c, t));
    FocusRoot(h, root, c, t);
    FocusRoot(h, root, cz, tz);
    ForkParts(h, t, CtxNode(c));
    ForkParts(h, t.right, t.node);
    ForkParts(h, tz, CtxNode(cz));
    if tz.right.Fork? { assert tz.right.node in Ids(tz); }
    assert tz.node in Ids(t.right);
    if c.In? && c.sib.Fork? { assert c.sib.node in Ids(c.sib); }
  }

  /** The assignments around x's parent and left child. */
  ghost function ExHead(h: Store, p: Pair, a: Around): (h': Store)
    requires p.x in h && p.z in h && a.l in h && (a.y != null ==> a.y in h)
    ensures h'.Keys == h.Keys
  {
    var h1 := if a.y != null then h[a.y := h[a.y].SetChild(p.x == h[a.y].right, p.z)] else h;
    var h2 := h1[p.z := h1[p.z].SetChild(false, a.l)];
    var h3 := h2[p.x := h2[p.x].SetChild(false, null)];
    h3[a.l := h3[a.l].(parent := p.z)]
  }

  /** The assignments when z is x's right child. */
  ghost function ExNear(h: Store, p: Pair, a: Around): (h': Store)
    requires p.x in h && p.z in h
    ensures h'.Keys == h.Keys
  {
    var h1 := h[p.x := h[p.x].SetChild(true, a.zr)];
    var h2 := h1[p.z := h1[p.z].SetChild(true, p.x)];
    h2[p.x := h2[p.x].(parent := p.z)]
  }

  /** The assignments when z lies deeper. */
  ghost function ExFar(h: Store, p: Pair, a: Around): (h': Store)
    requires p.x in h && p.z in h && a.r in h && a.w in h
    ensures h'.Keys == h.Keys
  {
    var h1 := h[p.x := h[p.x].SetChild(true, a.zr)];
    var h2 := h1[p.z := h1[p.z].SetChild(true, a.r)];
    var h3 := h2[a.r := h2[a.r].(parent := p.z)];
    var h4 := h3[a.w := h3[a.w].SetChild(p.z == h3[a.w].right, p.x)];
    h4[p.x := h4[p.x].(parent := a.w)]
  }

  /** The remaining parents and the colours. */
  ghost function ExTail(h: Store, p: Pair, a: Around): (h': Store)
    requires p.x in h && p.z in h && (a.zr != null ==> a.zr in h)
    ensures h'.Keys == h.Keys
  {
    var h1 := if a.zr != null then h[a.zr := h[a.zr].(parent := p.x)] else h;
    var h2 := h1[p.z := h1[p.z].(parent := a.y)];
    var h3 := h2[p.z := h2[p.z].(red := h2[p.x].red)];
    h3[p.x := h3[p.x].(red := h2[p.z].red)]
  }

}
