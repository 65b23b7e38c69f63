/** Colour and contents arguments for removal: splicing a node out and the upward pass. */
module RbRemoval {
  import opened RbShape
  import opened RbColour
  import opened RbExchange

  // ---------------------------------------------------------------------------
  // Contents
  // ---------------------------------------------------------------------------

  /** u is s without the item m, still in order. */
  ghost predicate IsRemoval(s: seq<Item>, u: seq<Item>, m: Item)
  {
    Sorted(u) && m in s && ItemSet(u) == ItemSet(s) - {m}
  }

  lemma RemovalOf(b: seq<Item>, m: Item, a: seq<Item>)
    requires Sorted(b + [m] + a)
    ensures IsRemoval(b + [m] + a, b + a, m)
  {
    SortedRemove(b, a, m);
    SortedAround(b, m, a);
  }

  /** The whole contents without the root of the focused fork. */
  ghost function RestItems(c: Ctx, t: Tree): seq<Item>
    requires t.Fork?
  {
    (Before(c) + Items(t.left)) + (Items(t.right) + After(c))
  }

  lemma RestRemoves(c: Ctx, t: Tree)
    requires t.Fork? && Sorted(Items(Plug(c, t)))
    ensures IsRemoval(Items(Plug(c, t)), RestItems(c, t), Item(t.node, t.key))
  {
    ItemsAround(c, t);
    RemovalOf(Before(c) + Items(t.left), Item(t.node, t.key), Items(t.right) + After(c));
  }

  /** Every item's node carries the item's key. */
  ghost predicate Recorded(h: Store, s: seq<Item>)
  {
    forall i :: i in s ==> i.node in h && h[i.node].key == i.key
  }

  lemma {:induction false} ShapedRecorded(h: Store, t: Tree, p: Node?)
    requires Shaped(h, t, p)
    ensures Recorded(h, Items(t))
  {
    if t.Fork? {
      ShapedRecorded(h, t.left, t.node);
      ShapedRecorded(h, t.right, t.node);
    }
  }

  /** Once x and its successor z have changed places, removing x leaves the original contents without x. */
  lemma ExchangedRest(h: Store, b: seq<Item>, q: seq<Item>, p: Pair)
    requires var s := b + [Item(p.x, p.kx)] + ([Item(p.z, p.kz)] + q); Sorted(s) && Recorded(h, s)
    requires p.x in h && p.z in h && h[p.x].key == p.kx && h[p.z].key == p.kz && p.x != p.z
    ensures SwItems(p, b + [Item(p.x, p.kx)]) == b + [Item(p.z, p.kz)] && SwItems(p, q) == q
  {
    var mx, mz := Item(p.x, p.kx), Item(p.z, p.kz);
    var s := b + [mx] + ([mz] + q);
    SortedAround(b, mx, [mz] + q);
    assert s == (b + [mx]) + [mz] + q;
    SortedAround(b + [mx], mz, q);
    assert mz in [mz] + q;
    SwAvoids(p, b);
    SwAvoids(p, q);
    SwItemsConcat(p, b, [mx]);
    assert SwItems(p, [mx]) == [mz];
  }

  lemma SuccessorItems(c: Ctx, t: Tree, cz: Ctx, tz: Tree)
    requires IsSuccessor(c, t, cz, tz)
    ensures Before(cz) == (Before(c) + Items(t.left)) + [Item(t.node, t.key)]
    ensures Items(Plug(c, t)) == (Before(c) + Items(t.left)) + [Item(t.node, t.key)]
                                 + ([Item(tz.node, tz.key)] + (Items(tz.right) + After(cz)))
  {
    hide *;
    SuccessorForks(c, t, cz, tz);
    ItemsAround(cz, tz);
    BeforeBelow(c, t);
  }

  lemma BeforeBelow(c: Ctx, t: Tree)
    requires t.Fork?
    ensures Before(Below(c, t, true)) == (Before(c) + Items(t.left)) + [Item(t.node, t.key)]
    ensures Items(Nil) == []
  {}

  /** The exchange, as a statement about the focus: x is where z was, and only x is in excess. */
  lemma ExchangeSteps(h: Store, h': Store, root: Node?, c: Ctx, t: Tree, cz: Ctx, tz: Tree)
    requires Focus(h, root, c, t) && Focus(h, root, cz, tz) && IsSuccessor(c, t, cz, tz)
    requires Exchanged(PairOf(t, tz), h, h') && Good(Plug(c, t)) && Sorted(Items(Plug(c, t)))
    ensures var p := PairOf(t, tz); var c2, t2 := SwCtx(p, cz), SwTree(p, tz);
            && Focus(h', Sw(p, root), c2, t2) && t2.Fork? && t2.node == t.node && t2.left.Nil? && Good(Plug(c2, t2))
            && IsRemoval(Items(Plug(c, t)), RestItems(c2, t2), Item(t.node, t.key))
  {
    var p := PairOf(t, tz);
    SwFocus(p, h, h', root, cz, tz);
    SwPlug(p, cz, tz);
    SwGood(p, Plug(cz, tz));
    ExchangeContents(h, root, c, t, cz, tz);
  }

  lemma ExchangeContents(h: Store, root: Node?, c: Ctx, t: Tree, cz: Ctx, tz: Tree)
    requires Focus(h, root, c, t) && IsSuccessor(c, t, cz, tz) && Sorted(Items(Plug(c, t)))
    requires tz.node in h && h[tz.node].key == tz.key && tz.node != t.node
    ensures var p := PairOf(t, tz);
            && SwTree(p, tz).Fork?
            && IsRemoval(Items(Plug(c, t)), RestItems(SwCtx(p, cz), SwTree(p, tz)), Item(t.node, t.key))
  {
    hide *;
    SuccessorForks(c, t, cz, tz);
    var p := PairOf(t, tz);
    var b, q := Before(c) + Items(t.left), Items(tz.right) + After(cz);
    var mx, mz := Item(t.node, t.key), Item(tz.node, tz.key);
    FocusAll(h, root, c, t);
    WholeRecorded(h, root, Plug(c, t));
    FocusRoot(h, root, c, t);
    SuccessorItems(c, t, cz, tz);
    ExchangedRest(h, b, q, p);
    ExchangedRestItems(p, cz, tz, b, mx);
    assert (b + [mz]) + q == b + ([mz] + q);
    RemovalOf(b, mx, [mz] + q);
  }

  lemma SuccessorForks(c: Ctx, t: Tree, cz: Ctx, tz: Tree)
    requires IsSuccessor(c, t, cz, tz)
    ensures Plug(cz, tz) == Plug(c, t) && Before(cz) == Before(Below(c, t, true))
    ensures t.Fork? && tz.Fork? && tz.left.Nil? && PairOf(t, tz) == Pair(t.node, t.key, tz.node, tz.key)
  {}

  lemma WholeRecorded(h: Store, root: Node?, t: Tree)
    requires Focus(h, root, Top, t)
    ensures Recorded(h, Items(t))
  {
    ShapedRecorded(h, t, null);
  }

  lemma ExchangedRestItems(p: Pair, cz: Ctx, tz: Tree, b: seq<Item>, mx: Item)
    requires tz.Fork? && tz.left.Nil?
    requires Before(cz) == b + [mx]
    ensures SwTree(p, tz).Fork?
    ensures RestItems(SwCtx(p, cz), SwTree(p, tz)) == SwItems(p, b + [mx]) + SwItems(p, Items(tz.right) + After(cz))
  {
    hide Items, Before, After, SwItems, SwCtx;
    assert Items(Nil) == [] by { BeforeBelow(Top, tz); }
    SwCtxItems(p, cz);
    SwTreeItems(p, tz.right);
    SwItemsConcat(p, Items(tz.right), After(cz));
  }

  // ---------------------------------------------------------------------------
  // Splicing
  // ---------------------------------------------------------------------------

  /** The only child of the focused fork, painted black, or nothing. */
  ghost function Spliced(t: Tree): Tree
    requires t.Fork?
  {
    var s := if t.left.Fork? then t.left else t.right;
    if s.Fork? then Paint(s, false) else Nil
  }

  /** A node with one child is black and its child is red, so the painted child takes its place. */
  lemma SpliceChild(c: Ctx, t: Tree)
    requires t.Fork? && (t.left.Nil? || t.right.Nil?) && (t.left.Fork? || t.right.Fork?) && Good(Plug(c, t))
    ensures Good(Plug(c, Spliced(t))) && Items(Plug(c, Spliced(t))) == RestItems(c, t)
  {
    GoodSplit(c, t);
    GoodPlug(c, Spliced(t));
    SpliceItems(c, t);
  }

  lemma SpliceItems(c: Ctx, t: Tree)
    requires t.Fork? && (t.left.Nil? || t.right.Nil?)
    ensures Items(Plug(c, Spliced(t))) == RestItems(c, t)
  {
    ItemsPlug(c, Spliced(t));
    if t.left.Fork? { } else if t.right.Fork? { }
  }

  /** A red leaf can simply go; so can a lone root. */
  lemma SpliceLeaf(c: Ctx, t: Tree)
    requires t.Fork? && t.left.Nil? && t.right.Nil? && Good(Plug(c, t)) && (t.red || c.Top?)
    ensures Good(Plug(c, Nil))
  {
    GoodSplit(c, t);
    GoodPlug(c, Nil);
  }

  /** A black leaf leaves a hole that is one black node short. */
  lemma SpliceBlackLeaf(c: Ctx, t: Tree)
    requires t.Fork? && t.left.Nil? && t.right.Nil? && Good(Plug(c, t)) && !t.red
    ensures Deficit(c, Nil)
  {
    GoodSplit(c, t);
  }

  // ---------------------------------------------------------------------------
  // The upward pass
  // ---------------------------------------------------------------------------

  /** The subtree is one black node short for its context. */
  ghost predicate Deficit(c: Ctx, s: Tree)
  {
    Good(s) && CtxOk(c, Height(s) + 1)
  }

  lemma DeficitAtTop(c: Ctx, s: Tree)
    requires Deficit(c, s) && c.Top?
    ensures Good(s) && Plug(c, s) == s
  {}

  /** The short side always has a sibling, and a red sibling has black children. */
  lemma SiblingExists(c: Ctx, s: Tree)
    requires Deficit(c, s) && c.In?
    ensures c.sib.Fork?
    ensures c.sib.red ==> !c.red && c.sib.left.Fork? && c.sib.right.Fork? && !c.sib.left.red && !c.sib.right.red
  {}

  /** Repainting and rotation keep the contents. */
  lemma KeepsItems(c: Ctx, s: Tree, u: Tree)
    requires c.In? && Items(u) == Items(UpTree(c, s))
    ensures Items(Plug(c.up, u)) == Items(Plug(c, s))
  {
    UpTreeParts(c, s);
    SameItems(c.up, UpTree(c, s), u);
  }

  /** A red sibling: after the rotation the short side has a black sibling and a red parent. */
  lemma RedSibling(c: Ctx, s: Tree)
    requires Deficit(c, s) && c.In? && c.sib.Fork? && c.sib.red
    ensures var dir, y := c.dir, UpTree(c, s);
            && y.Fork? && y.node == c.node && y.Child(!dir) == c.sib && y.Child(!dir).Fork?
            && var r := Rotated(y, dir);
               && r.Fork? && r.node == c.sib.node && r.Child(dir).Fork? && r.Child(dir).node == c.node
               && var r1 := WithChild(r, dir, Paint(r.Child(dir), true));
                  var r2 := Paint(r1, false);
                  && r1.Fork? && r1.node == c.sib.node && r2.Fork? && r2.Child(dir).Fork?
                  && r2.Child(dir).Child(dir) == s
                  && var c1 := Below(Below(c.up, r2, dir), r2.Child(dir), dir);
                     && c1.In? && c1.node == c.node && c1.dir == dir && c1.red && c1.sib == c.sib.Child(dir)
                     && c1.sib.Fork? && !c1.sib.red && c1.up.In?
                     && Deficit(c1, s) && Items(Plug(c1, s)) == Items(Plug(c, s))
  {
    var dir, y := c.dir, UpTree(c, s);
    var r := Rotated(y, dir);
    var r1 := WithChild(r, dir, Paint(r.Child(dir), true));
    var r2 := Paint(r1, false);
    WithChildItems(r, dir, Paint(r.Child(dir), true));
    KeepsItems(c, s, r2);
  }

  /** A red outer nephew: one rotation settles the deficit. */
  lemma OuterNephew(c: Ctx, s: Tree)
    requires Deficit(c, s) && c.In? && c.sib.Fork? && !c.sib.red && IsRed(c.sib.Child(!c.dir))
    ensures var dir, y := c.dir, UpTree(c, s);
            && y.Fork? && y.node == c.node && y.Child(!dir) == c.sib && y.Child(!dir).Fork?
            && var r := Rotated(y, dir);
               && r.Fork? && r.node == c.sib.node
               && var r1 := Paint(r, c.red);
                  && r1.Fork? && r1.Child(dir).Fork? && r1.Child(dir).node == c.node
                  && var r2 := WithChild(r1, dir, Paint(r1.Child(dir), false));
                     && r2.Fork? && r2.Child(!dir) == c.sib.Child(!dir) && r2.Child(!dir).Fork?
                     && var r3 := WithChild(r2, !dir, Paint(r2.Child(!dir), false));
                        Good(Plug(c.up, r3)) && Items(Plug(c.up, r3)) == Items(Plug(c, s))
  {
    var dir, y := c.dir, UpTree(c, s);
    var r := Rotated(y, dir);
    var r1 := Paint(r, c.red);
    var r2 := WithChild(r1, dir, Paint(r1.Child(dir), false));
    var r3 := WithChild(r2, !dir, Paint(r2.Child(!dir), false));
    WithChildItems(r1, dir, Paint(r1.Child(dir), false));
    WithChildItems(r2, !dir, Paint(r2.Child(!dir), false));
    KeepsItems(c, s, r3);
    var v, u := c.sib.Child(dir), c.sib.Child(!dir);
    ForkGood(c.sib, dir);
    ForkGood(u, dir);
    assert r3 == Mk(c.sib.node, c.sib.key, c.red, dir, Mk(c.node, c.key, false, dir, s, v), Paint(u, false));
    GoodPlug(c.up, r3);
  }

  lemma ForkGood(t: Tree, dir: bool)
    requires Good(t) && t.Fork?
    ensures Good(t.Child(dir)) && Good(t.Child(!dir)) && Height(t.Child(dir)) == Height(t.Child(!dir))
    ensures Height(t) == Height(t.Child(dir)) + if t.red then 0 else 1
    ensures t.red ==> !IsRed(t.Child(dir)) && !IsRed(t.Child(!dir))
    ensures Mk(t.node, t.key, t.red, dir, t.Child(dir), t.Child(!dir)) == t
    ensures forall r :: Mk(t.node, t.key, r, dir, t.Child(dir), t.Child(!dir)) == Paint(t, r)
  {}

  /** A red inner nephew: two rotations settle the deficit. */
  lemma InnerNephew(c: Ctx, s: Tree)
    requires Deficit(c, s) && c.In? && c.sib.Fork? && !c.sib.red
    requires IsRed(c.sib.Child(c.dir)) && !IsRed(c.sib.Child(!c.dir))
    ensures var dir := c.dir; var v := c.sib.Child(dir); var y := UpTree(c, s);
            && v.Fork? && Rotated(c.sib, !dir).Fork?
            && y.Fork? && y.node == c.node && y.Child(!dir) == c.sib
            && var y' := WithChild(y, !dir, Rotated(c.sib, !dir));
               && y'.Fork? && y'.node == c.node && y'.Child(!dir) == Rotated(c.sib, !dir)
               && var r := Rotated(y', dir);
                  && r.Fork? && r.node == v.node
                  && var r1 := Paint(r, c.red);
                     && r1.Fork? && r1.Child(dir).Fork? && r1.Child(dir).node == c.node
                     && var r2 := WithChild(r1, dir, Paint(r1.Child(dir), false));
                        && r2.Fork? && r2.Child(!dir).Fork? && r2.Child(!dir).node == c.sib.node
                        && var r3 := WithChild(r2, !dir, Paint(r2.Child(!dir), false));
                           Good(Plug(c.up, r3)) && Items(Plug(c.up, r3)) == Items(Plug(c, s))
  {
    var dir := c.dir;
    var y := UpTree(c, s);
    var y' := WithChild(y, !dir, Rotated(c.sib, !dir));
    var r := Rotated(y', dir);
    var r1 := Paint(r, c.red);
    var r2 := WithChild(r1, dir, Paint(r1.Child(dir), false));
    var r3 := WithChild(r2, !dir, Paint(r2.Child(!dir), false));
    InnerNephewItems(c, s);
    KeepsItems(c, s, r3);
    InnerNephewGood(c, s);
    GoodPlug(c.up, r3);
  }

  lemma InnerNephewItems(c: Ctx, s: Tree)
    requires c.In? && c.sib.Fork? && c.sib.Child(c.dir).Fork?
    ensures var dir := c.dir; var y := UpTree(c, s);
            && y.Fork? && y.Child(!dir) == c.sib
            && var r := Rotated(WithChild(y, !dir, Rotated(c.sib, !dir)), dir);
               var r1 := Paint(r, c.red);
               && r1.Fork? && r1.Child(dir).Fork?
               && var r2 := WithChild(r1, dir, Paint(r1.Child(dir), false));
                  && r2.Fork? && r2.Child(!dir).Fork?
                  && Items(WithChild(r2, !dir, Paint(r2.Child(!dir), false))) == Items(y)
  {
    var dir, y := c.dir, UpTree(c, s);
    var y' := WithChild(y, !dir, Rotated(c.sib, !dir));
    var r := Rotated(y', dir);
    var r1 := Paint(r, c.red);
    var r2 := WithChild(r1, dir, Paint(r1.Child(dir), false));
    hide Items;
    WithChildItems(y, !dir, Rotated(c.sib, !dir));
    WithChildItems(r1, dir, Paint(r1.Child(dir), false));
    WithChildItems(r2, !dir, Paint(r2.Child(!dir), false));
  }

  lemma InnerNephewGood(c: Ctx, s: Tree)
    requires Deficit(c, s) && c.In? && c.sib.Fork? && !c.sib.red
    requires IsRed(c.sib.Child(c.dir)) && !IsRed(c.sib.Child(!c.dir))
    ensures var dir := c.dir; var y := UpTree(c, s);
            && y.Fork? && y.Child(!dir) == c.sib
            && var r := Rotated(WithChild(y, !dir, Rotated(c.sib, !dir)), dir);
               var r1 := Paint(r, c.red);
               && r1.Fork? && r1.Child(dir).Fork?
               && var r2 := WithChild(r1, dir, Paint(r1.Child(dir), false));
                  && r2.Fork? && r2.Child(!dir).Fork?
                  && var r3 := WithChild(r2, !dir, Paint(r2.Child(!dir), false));
                     Good(r3) && CtxOk(c.up, Height(r3)) && !(IsRed(r3) && CtxRed(c.up))
  {
    var dir, z := c.dir, c.sib;
    var v, u := z.Child(dir), z.Child(!dir);
    ForkGood(z, dir);
    ForkGood(v, dir);
  }

  /** Two black nephews: the sibling turns red; a red parent settles it, a black one is now short itself. */
  lemma BlackNephews(c: Ctx, s: Tree)
    requires Deficit(c, s) && c.In? && c.sib.Fork? && !c.sib.red
    requires !IsRed(c.sib.left) && !IsRed(c.sib.right)
    ensures var y := UpTree(c, s);
            && y.Fork? && y.node == c.node && y.Child(!c.dir) == c.sib
            && var y1 := WithChild(y, !c.dir, Paint(c.sib, true));
               && y1.Fork? && y1.node == c.node && y1.red == c.red
               && Items(Plug(c.up, y1)) == Items(Plug(c, s))
               && (!c.red ==> Deficit(c.up, y1))
               && (c.red ==>
                  Good(Plug(c.up, Paint(y1, false))) && Items(Plug(c.up, Paint(y1, false))) == Items(Plug(c, s)))
  {
    var y := UpTree(c, s);
    var y1 := WithChild(y, !c.dir, Paint(c.sib, true));
    WithChildItems(y, !c.dir, Paint(c.sib, true));
    KeepsItems(c, s, y1);
    if c.red {
      KeepsItems(c, s, Paint(y1, false));
      GoodPlug(c.up, Paint(y1, false));
    }
  }

  // ---------------------------------------------------------------------------
  // Stores
  // ---------------------------------------------------------------------------

  /** The assignments that put the only child s of the focused root in its place. */
  ghost function SpliceStore(h: Store, c: Ctx, s: Node?): (h': Store)
    requires (c.In? ==> c.node in h) && (s != null ==> s in h)
    ensures h'.Keys == h.Keys
  {
    var h1 := if c.In? then h[c.node := h[c.node].SetChild(c.dir, s)] else h;
    if s == null then h1 else
      var h2 := h1[s := h1[s].(red := false)];
      h2[s := h2[s].(parent := CtxNode(c))]
  }

  lemma SpliceFocus(h: Store, root: Node?, c: Ctx, t: Tree)
    requires Focus(h, root, c, t) && t.Fork? && (t.left.Nil? || t.right.Nil?)
    ensures var s := Root(Spliced(t));
            && (c.In? ==> c.node in h) && (s != null ==> s in h)
            && (SpliceStore(h, c, s) - {t.node}).Keys == h.Keys - {t.node}
            && Focus(SpliceStore(h, c, s) - {t.node}, TopRoot(c, s), c, Spliced(t))
  {
    FocusRoot(h, root, c, t);
    ForkParts(h, t, CtxNode(c));
    SpliceShape(h, SpliceStore(h, c, Root(Spliced(t))) - {t.node}, c, t, if t.left.Fork? then t.left else t.right);
  }

  /** Any store without x that differs from h as the splice does realises the spliced tree. */
  lemma SpliceShape(h: Store, h': Store, c: Ctx, t: Tree, st: Tree)
    requires t.Fork? && h.Keys == Ids(t) + CtxIds(c) && Ids(t) !! CtxIds(c)
    requires CtxShaped(h, c, t.node) && CtxDistinct(c) && Shaped(h, st, t.node) && Distinct(st)
    requires Ids(t) == {t.node} + Ids(st) && t.node !in Ids(st)
             && Spliced(t) == (if st.Fork? then Paint(st, false) else Nil)
    requires h'.Keys == h.Keys - {t.node}
    requires forall n :: n in h' && n != Root(st) && n != CtxNode(c) ==> h'[n] == h[n]
    requires c.In? ==> c.node in h && c.node in h' && h'[c.node] == h[c.node].SetChild(c.dir, Root(st))
    requires st.Fork? ==>
             st.node in h' && st.node in h && h'[st.node] == h[st.node].(red := false, parent := CtxNode(c))
    ensures Focus(h', TopRoot(c, Root(st)), c, Spliced(t))
  {
    if st.Fork? { assert st.node in Ids(st); }
    AgreeMinus(h, h', CtxIds(c) - {CtxNode(c)});
    Rehole(h, h', c, t.node, Root(st));
    if st.Fork? {
      ForkParts(h, st, t.node);
      AgreeMinus(h, h', Ids(st.left));
      AgreeMinus(h, h', Ids(st.right));
      ShapedFrame(h, h', st.left, st.node);
      ShapedFrame(h, h', st.right, st.node);
    }
  }

  lemma AgreeMinus(h: Store, h': Store, s: set<Node>)
    requires forall n :: n in s && n in h ==> n in h' && h'[n] == h[n]
    ensures Agree(h, h', s)
  {}

  lemma SplicedIs(t: Tree)
    requires t.Fork?
    ensures Root(Spliced(t)) == if t.left.Fork? then t.left.node else if t.right.Fork? then t.right.node else null
    ensures t.left.Nil? && t.right.Nil? ==> Spliced(t) == Nil
  {}

  lemma SpliceStoreIs(h: Store, c: Ctx, s: Node?)
    requires (c.In? ==> c.node in h) && (s != null ==> s in h)
    ensures var h1 := if c.In? then h[c.node := h[c.node].SetChild(c.dir, s)] else h;
            SpliceStore(h, c, s) == if s == null then h1 else
              var h2 := h1[s := h1[s].(red := false)]; h2[s := h2[s].(parent := CtxNode(c))]
  {}

  /** What can be read next to a hole. */
  lemma SiblingReads(h: Store, root: Node?, c: Ctx, s: Tree)
    requires Focus(h, root, c, s) && c.In? && c.sib.Fork?
    ensures c.node in h && h[c.node].red == c.red && h[c.node].parent == CtxNode(c.up)
    ensures h[c.node].Child(!c.dir) == c.sib.node && c.sib.node in h && h[c.sib.node].red == c.sib.red
    ensures forall d :: h[c.sib.node].Child(d) == Root(c.sib.Child(d))
    ensures forall d :: c.sib.Child(d).Fork? ==>
            c.sib.Child(d).node in h && h[c.sib.Child(d).node].red == c.sib.Child(d).red
  {
    ForkParts(h, c.sib, c.node);
  }

}
