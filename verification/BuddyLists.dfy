/**
 * The concrete side of the page allocator: page descriptors, bucket lists threaded through them, and their agreement
 * with the tiling.
 */
module BuddyLists {
  import opened Bits
  import opened BuddyBlocks
  import opened Sequences

  /** The index of a page that does not start a free block. */
  const USED := 31
  const REGION_SHIFT := 16

  /**
   * A page descriptor: list links by page number (0 is none), the class of the block that ends here, the class of the
   * free block that starts here.
   */
  datatype Desc = Desc(prev: nat, tag: nat, idx: nat, next: nat)

  function At(d: map<nat, Desc>, p: nat): Desc
  {
    if p in d then d[p] else Desc(0, 0, USED, 0)
  }

  /** The bucket that lists free blocks of class i in the region of page a; each region has its own buckets. */
  function Bucket(a: nat, i: nat): nat
  {
    Slot(Shift(a, REGION_SHIFT), i)
  }

  function Slot(r: nat, i: nat): nat
  {
    BUCKETS * r + i
  }

  datatype State = State(desc: map<nat, Desc>, head: seq<nat>, tail: seq<nat>, bits: set<nat>, lists: seq<seq<nat>>,
    heap: Heap)

  ghost function Elem(l: seq<nat>, k: int): nat
  {
    if 0 <= k < |l| then l[k] else 0
  }

  /** The links of the listed pages spell out the list in both directions. */
  ghost predicate Chain(d: map<nat, Desc>, l: seq<nat>)
  {
    forall k: nat :: k < |l| ==> LinkAt(d, l, k)
  }

  ghost predicate LinkAt(d: map<nat, Desc>, l: seq<nat>, k: nat)
    requires k < |l|
  {
    l[k] > 0 && At(d, l[k]).next == Elem(l, k + 1) && At(d, l[k]).prev == Elem(l, k - 1)
  }

  /** List q holds free blocks of its own bucket only, none twice. */
  ghost predicate Members(h: Heap, l: seq<nat>, q: nat)
  {
    Once(l) && forall k :: 0 <= k < |l| ==> l[k] in h.free && l[k] in h.blocks && Bucket(l[k], h.blocks[l[k]]) == q
  }

  ghost predicate Ends(l: seq<nat>, head: nat, tail: nat, bit: bool)
  {
    head == Elem(l, 0) && tail == Elem(l, |l| - 1) && (bit <==> l != [])
  }

  ghost predicate ListOk(s: State, q: nat)
    requires q < |s.lists| == |s.head| == |s.tail|
  {
    Chain(s.desc, s.lists[q]) && Members(s.heap, s.lists[q], q) && Ends(s.lists[q], s.head[q], s.tail[q], q in s.bits)
  }

  /** Every bucket's list is intact, and every free block is in its bucket's list. */
  ghost predicate Threaded(s: State)
  {
    && |s.lists| == |s.head| == |s.tail| && |s.lists| % BUCKETS == 0
    && (forall q: nat :: q < |s.lists| ==> ListOk(s, q))
    && (forall a :: a in s.heap.blocks ==> Bucket(a, s.heap.blocks[a]) < |s.lists|)
    && forall a :: a in s.heap.free && a in s.heap.blocks ==> a in s.lists[Bucket(a, s.heap.blocks[a])]
  }

  /** The class index is set exactly on the first pages of free blocks. */
  ghost predicate Marked(d: map<nat, Desc>, h: Heap)
  {
    forall p: nat :: At(d, p).idx == if p in h.free && p in h.blocks then h.blocks[p] else USED
  }

  /** The page after each block carries the block's class, except after the open ones. */
  ghost predicate Tagged(d: map<nat, Desc>, h: Heap, open: set<nat>)
  {
    forall a :: a in h.blocks && a !in open ==> At(d, End(h, a)).tag == h.blocks[a]
  }

  ghost predicate Inv(s: State, pages: set<nat>, open: set<nat>)
  {
    Tiling(s.heap, pages) && Marked(s.desc, s.heap) && Tagged(s.desc, s.heap, open) && Threaded(s)
  }

  // ---------------------------------------------------------------------------
  // Taking a block off its list
  // ---------------------------------------------------------------------------

  /** d is c after page a, between prev and next, is unlinked and marked used. */
  ghost predicate Unlinked(c: map<nat, Desc>, d: map<nat, Desc>, a: nat, prev: nat, next: nat)
  {
    forall p: nat ::
      && At(d, p).tag == At(c, p).tag
      && At(d, p).idx == (if p == a then USED else At(c, p).idx)
      && At(d, p).prev == (if p == next && next > 0 then prev else At(c, p).prev)
      && At(d, p).next == (if p == prev && prev > 0 then next else At(c, p).next)
  }

  ghost function Without(l: seq<nat>, k: nat): (r: seq<nat>)
    requires k < |l|
    ensures |r| == |l| - 1
    ensures forall j: int :: 0 <= j < k ==> r[j] == l[j]
    ensures forall j: int :: k <= j < |r| ==> r[j] == l[j + 1]
  {
    l[..k] + l[k + 1..]
  }

  lemma UnlinkChain(c: map<nat, Desc>, d: map<nat, Desc>, l: seq<nat>, k: nat)
    requires Chain(c, l) && Once(l) && k < |l| && Unlinked(c, d, l[k], Elem(l, k - 1), Elem(l, k + 1))
    ensures Chain(d, Without(l, k)) && Once(Without(l, k)) && l[k] !in Without(l, k)
    ensures forall a :: a in l && a != l[k] ==> a in Without(l, k)
  {
    hide At, Unlinked, LinkAt, Without;
    var r := Without(l, k);
    forall j: nat | j < |r| ensures LinkAt(d, r, j) {
      UnlinkAt(c, d, l, k, j);
    }
    UnlinkMembers(l, k);
  }

  /** One position of the shortened list. */
  lemma UnlinkAt(c: map<nat, Desc>, d: map<nat, Desc>, l: seq<nat>, k: nat, j: nat)
    requires Chain(c, l) && Once(l) && k < |l| && j < |l| - 1 && Unlinked(c, d, l[k], Elem(l, k - 1), Elem(l, k + 1))
    ensures LinkAt(d, Without(l, k), j)
  {
    hide At, Once, Without, Unlinked, Chain;
    var r := Without(l, k);
    var i := if j < k then j else j + 1;
    assert r[j] == l[i];
    assert LinkAt(c, l, i) by { LinkOf(c, l, i); }
    if k > 0 { LinkOf(c, l, k - 1); OnceAt(l, i, k - 1); }
    if k + 1 < |l| { LinkOf(c, l, k + 1); OnceAt(l, i, k + 1); }
    UnlinkedAt(c, d, l[k], Elem(l, k - 1), Elem(l, k + 1), l[i]);
  }

  lemma LinkOf(d: map<nat, Desc>, l: seq<nat>, k: nat)
    requires Chain(d, l) && k < |l|
    ensures LinkAt(d, l, k) && l[k] > 0
  {}

  lemma OnceAt(l: seq<nat>, i: nat, j: nat)
    requires Once(l) && i < |l| && j < |l|
    ensures l[i] == l[j] <==> i == j
  {}

  lemma UnlinkedAt(c: map<nat, Desc>, d: map<nat, Desc>, a: nat, prev: nat, next: nat, p: nat)
    requires Unlinked(c, d, a, prev, next)
    ensures At(d, p).prev == (if p == next && next > 0 then prev else At(c, p).prev)
    ensures At(d, p).next == (if p == prev && prev > 0 then next else At(c, p).next)
  {
    hide At;
  }

  /** Lists that do not hold the touched pages keep their links. */
  lemma ChainFrame(c: map<nat, Desc>, d: map<nat, Desc>, l: seq<nat>)
    requires Chain(c, l)
             && forall k :: 0 <= k < |l| ==>
             At(d, l[k]).next == At(c, l[k]).next && At(d, l[k]).prev == At(c, l[k]).prev
    ensures Chain(d, l)
  {
    hide At;
    forall k: nat | k < |l| ensures LinkAt(d, l, k) {
      assert LinkAt(c, l, k);
    }
  }

  /** The state after block a, at position k of bucket q, is taken off. */
  ghost function Removed(s: State, d: map<nat, Desc>, q: nat, k: nat): State
    requires q < |s.lists| == |s.head| == |s.tail| && k < |s.lists[q]|
  {
    var l := s.lists[q];
    var prev, next := Elem(l, k - 1), Elem(l, k + 1);
    State(d,
          if prev == 0 then s.head[q := next] else s.head,
          if next == 0 then s.tail[q := prev] else s.tail,
          if prev == 0 && next == 0 then s.bits - {q} else s.bits,
          s.lists[q := Without(l, k)],
          s.heap.(free := s.heap.free - {l[k]}))
  }

  /** Neighbours in a list belong to its bucket. */
  lemma ElemBucket(s: State, q: nat, k: int)
    requires Threaded(s) && q < |s.lists| && Elem(s.lists[q], k) > 0
    ensures var e := Elem(s.lists[q], k); e in s.heap.blocks && e in s.heap.free && Bucket(e, s.heap.blocks[e]) == q
  {
    assert ListOk(s, q);
  }

  lemma RemovedList(s: State, d: map<nat, Desc>, q: nat, k: nat)
    requires Threaded(s) && q < |s.lists| && k < |s.lists[q]|
    requires Unlinked(s.desc, d, s.lists[q][k], Elem(s.lists[q], k - 1), Elem(s.lists[q], k + 1))
    ensures ListOk(Removed(s, d, q, k), q)
  {
    hide Bucket, At, Unlinked, Without, Chain, Once;
    assert ListOk(s, q);
    var l := s.lists[q];
    UnlinkChain(s.desc, d, l, k);
    WithoutEnds(s.desc, l, k, s.head[q], s.tail[q], q in s.bits);
    forall j: int | 0 <= j < |l| - 1 ensures Without(l, k)[j] in l && Without(l, k)[j] != l[k] {
      assert Without(l, k)[j] in Without(l, k);
    }
  }

  lemma WithoutEnds(d: map<nat, Desc>, l: seq<nat>, k: nat, head: nat, tail: nat, bit: bool)
    requires Chain(d, l) && k < |l| && Ends(l, head, tail, bit)
    ensures var prev, next := Elem(l, k - 1), Elem(l, k + 1);
            Ends(Without(l, k), if prev == 0 then next else head, if next == 0 then prev else tail,
              bit && !(prev == 0 && next == 0))
  {
    hide At, Chain, Without;
    if k > 0 { LinkOf(d, l, k - 1); }
    if k + 1 < |l| { LinkOf(d, l, k + 1); }
  }

  lemma RemovedOther(s: State, d: map<nat, Desc>, q: nat, k: nat, o: nat)
    requires Threaded(s) && q < |s.lists| && k < |s.lists[q]| && o < |s.lists| && o != q
    requires Unlinked(s.desc, d, s.lists[q][k], Elem(s.lists[q], k - 1), Elem(s.lists[q], k + 1))
    ensures ListOk(Removed(s, d, q, k), o)
  {
    hide Bucket, Without, At, Chain, Once, Unlinked;
    assert ListOk(s, o) && ListOk(s, q);
    RemovedChain(s, d, q, k, o);
  }

  lemma RemovedChain(s: State, d: map<nat, Desc>, q: nat, k: nat, o: nat)
    requires Threaded(s) && q < |s.lists| && k < |s.lists[q]| && o < |s.lists| && o != q
    requires Unlinked(s.desc, d, s.lists[q][k], Elem(s.lists[q], k - 1), Elem(s.lists[q], k + 1))
    ensures Chain(d, s.lists[o])
  {
    hide Bucket, Without, At, Chain, Once, Unlinked, Threaded;
    OtherList(s, o);
    var l, m := s.lists[q], s.lists[o];
    if Elem(l, k - 1) > 0 { ElemBucket(s, q, k - 1); }
    if Elem(l, k + 1) > 0 { ElemBucket(s, q, k + 1); }
    forall j | 0 <= j < |m|
      ensures At(d, m[j]).next == At(s.desc, m[j]).next && At(d, m[j]).prev == At(s.desc, m[j]).prev {
      UnlinkedAt(s.desc, d, l[k], Elem(l, k - 1), Elem(l, k + 1), m[j]);
    }
    ChainFrame(s.desc, d, m);
  }

  lemma OtherList(s: State, q: nat)
    requires Threaded(s) && q < |s.lists|
    ensures Chain(s.desc, s.lists[q]) && Members(s.heap, s.lists[q], q)
  {
    assert ListOk(s, q);
  }

  /** Unlinking a free block leaves everything else in place. */
  lemma RemovedInv(s: State, pages: set<nat>, open: set<nat>, d: map<nat, Desc>, q: nat, k: nat)
    requires Inv(s, pages, open) && q < |s.lists| && k < |s.lists[q]|
    requires Unlinked(s.desc, d, s.lists[q][k], Elem(s.lists[q], k - 1), Elem(s.lists[q], k + 1))
    ensures Inv(Removed(s, d, q, k), pages, open)
  {
    hide Bucket, Without, Tiling, ListOk, Marked, Tagged, Unlinked;
    var t := Removed(s, d, q, k);
    RemovedHeap(s, pages, open, d, q, k);
    forall o: nat | o < |t.lists| ensures ListOk(t, o) {
      if o == q {
        RemovedList(s, d, q, k);
      } else {
        RemovedOther(s, d, q, k, o);
      }
    }
    RemovedMembers(s, d, q, k);
  }

  lemma RemovedHeap(s: State, pages: set<nat>, open: set<nat>, d: map<nat, Desc>, q: nat, k: nat)
    requires Inv(s, pages, open) && q < |s.lists| && k < |s.lists[q]|
    requires Unlinked(s.desc, d, s.lists[q][k], Elem(s.lists[q], k - 1), Elem(s.lists[q], k + 1))
    ensures var t := Removed(s, d, q, k); Tiling(t.heap, pages) && Marked(d, t.heap) && Tagged(d, t.heap, open)
  {
    hide Bucket, Without, Covered, BlocksApart, ListOk, At;
    var t, a := Removed(s, d, q, k), s.lists[q][k];
    SetFree(s.heap, pages, s.heap.free - {a});
    assert forall b :: b in s.heap.blocks ==> End(t.heap, b) == End(s.heap, b);
  }

  lemma RemovedMembers(s: State, d: map<nat, Desc>, q: nat, k: nat)
    requires Threaded(s) && q < |s.lists| && k < |s.lists[q]|
    requires Unlinked(s.desc, d, s.lists[q][k], Elem(s.lists[q], k - 1), Elem(s.lists[q], k + 1))
    ensures var t := Removed(s, d, q, k);
            forall a :: a in t.heap.free && a in t.heap.blocks ==> a in t.lists[Bucket(a, t.heap.blocks[a])]
  {
    hide Bucket, Without, Chain, Unlinked;
    assert ListOk(s, q);
    UnlinkMembers(s.lists[q], k);
  }

  lemma UnlinkMembers(l: seq<nat>, k: nat)
    requires k < |l|
    ensures forall a :: a in l && a != l[k] ==> a in Without(l, k)
  {
    forall a | a in l && a != l[k] ensures a in Without(l, k) {
      var i :| 0 <= i < |l| && l[i] == a;
      assert Without(l, k)[if i < k then i else i - 1] == a;
    }
  }

  // ---------------------------------------------------------------------------
  // Putting a block on its list
  // ---------------------------------------------------------------------------

  /** d is c after the free block a of class i, which ends at page e, is linked behind page t. */
  ghost predicate Linked(c: map<nat, Desc>, d: map<nat, Desc>, a: nat, i: nat, e: nat, t: nat)
  {
    forall p: nat ::
      && At(d, p).tag == (if p == e then i else At(c, p).tag)
      && At(d, p).idx == (if p == a then i else At(c, p).idx)
      && At(d, p).prev == (if p == a then t else At(c, p).prev)
      && At(d, p).next == (if p == a then 0 else if p == t && t > 0 then a else At(c, p).next)
  }

  ghost function Added(s: State, d: map<nat, Desc>, q: nat, a: nat): State
    requires q < |s.lists| == |s.head| == |s.tail|
  {
    State(d,
          if s.lists[q] == [] then s.head[q := a] else s.head,
          s.tail[q := a],
          s.bits + {q},
          s.lists[q := s.lists[q] + [a]],
          s.heap.(free := s.heap.free + {a}))
  }

  lemma LinkChain(c: map<nat, Desc>, d: map<nat, Desc>, l: seq<nat>, a: nat, i: nat, e: nat)
    requires Chain(c, l) && Once(l) && a > 0 && a !in l && Linked(c, d, a, i, e, Elem(l, |l| - 1))
    ensures Chain(d, l + [a]) && Once(l + [a])
  {
    hide At;
    var r := l + [a];
    forall j: nat | j < |r| ensures LinkAt(d, r, j) {
      if j < |l| {
        assert r[j] == l[j] && LinkAt(c, l, j);
      }
    }
  }

  lemma AddedList(s: State, d: map<nat, Desc>, q: nat, a: nat, e: nat)
    requires Threaded(s) && a > 0 && a in s.heap.blocks && a !in s.heap.free
             && q == Bucket(a, s.heap.blocks[a]) < |s.lists|
    requires Linked(s.desc, d, a, s.heap.blocks[a], e, s.tail[q])
    ensures ListOk(Added(s, d, q, a), q)
  {
    hide Bucket, At, Chain, Once, Linked;
    assert ListOk(s, q);
    LinkChain(s.desc, d, s.lists[q], a, s.heap.blocks[a], e);
  }

  lemma AddedOther(s: State, d: map<nat, Desc>, q: nat, a: nat, e: nat, o: nat)
    requires Threaded(s) && a > 0 && a in s.heap.blocks && a !in s.heap.free
             && q == Bucket(a, s.heap.blocks[a]) < |s.lists|
    requires Linked(s.desc, d, a, s.heap.blocks[a], e, s.tail[q]) && o < |s.lists| && o != q
    ensures ListOk(Added(s, d, q, a), o)
  {
    hide Bucket, At, Chain, Once, Linked;
    assert ListOk(s, o) && ListOk(s, q);
    AddedChain(s, d, q, a, e, o);
  }

  lemma AddedChain(s: State, d: map<nat, Desc>, q: nat, a: nat, e: nat, o: nat)
    requires Threaded(s) && a > 0 && a in s.heap.blocks && a !in s.heap.free
             && q == Bucket(a, s.heap.blocks[a]) < |s.lists|
    requires Linked(s.desc, d, a, s.heap.blocks[a], e, s.tail[q]) && o < |s.lists| && o != q
    ensures Chain(d, s.lists[o])
  {
    hide Bucket, At, Chain, Once, Threaded;
    OtherList(s, o);
    TailBucket(s, q);
    ChainFrame(s.desc, d, s.lists[o]);
  }

  lemma TailBucket(s: State, q: nat)
    requires Threaded(s) && q < |s.lists|
    ensures s.tail[q] > 0 ==> s.tail[q] in s.heap.blocks && Bucket(s.tail[q], s.heap.blocks[s.tail[q]]) == q
  {
    hide Bucket, At, Chain, Once;
    assert ListOk(s, q);
  }

  /** Linking a block that is in use makes it free and closes it. */
  lemma AddedInv(s: State, pages: set<nat>, open: set<nat>, d: map<nat, Desc>, q: nat, a: nat)
    requires Inv(s, pages, open) && a > 0 && a in s.heap.blocks && a !in s.heap.free
             && q == Bucket(a, s.heap.blocks[a]) < |s.lists|
    requires Linked(s.desc, d, a, s.heap.blocks[a], End(s.heap, a), s.tail[q])
    ensures Inv(Added(s, d, q, a), pages, open - {a})
  {
    hide Bucket, Tiling, ListOk, Marked, Tagged, Linked;
    var t := Added(s, d, q, a);
    AddedHeap(s, pages, open, d, q, a);
    forall o: nat | o < |t.lists| ensures ListOk(t, o) {
      if o == q {
        AddedList(s, d, q, a, End(s.heap, a));
      } else {
        AddedOther(s, d, q, a, End(s.heap, a), o);
      }
    }
  }

  lemma AddedHeap(s: State, pages: set<nat>, open: set<nat>, d: map<nat, Desc>, q: nat, a: nat)
    requires Inv(s, pages, open) && a in s.heap.blocks && q < |s.lists|
    requires Linked(s.desc, d, a, s.heap.blocks[a], End(s.heap, a), s.tail[q])
    ensures var t := Added(s, d, q, a); Tiling(t.heap, pages) && Marked(d, t.heap) && Tagged(d, t.heap, open - {a})
  {
    hide Bucket, Covered, ListOk, Size, At;
    var t := Added(s, d, q, a);
    SetFree(s.heap, pages, t.heap.free);
    assert forall b :: b in s.heap.blocks ==> End(t.heap, b) == End(s.heap, b);
    EndsDiffer(s.heap, a);
  }

  lemma EndsDiffer(h: Heap, a: nat)
    requires BlocksApart(h) && a in h.blocks
    ensures forall b :: b in h.blocks && b != a ==> End(h, b) != End(h, a)
  {
    hide Size;
  }

  // ---------------------------------------------------------------------------
  // Changing blocks that are in use
  // ---------------------------------------------------------------------------

  lemma BucketSame(a: nat, i: nat, b: nat, j: nat, n: nat)
    requires Aligned(a, i) && i < BUCKETS && j < BUCKETS && a <= b < a + Size(i) && Bucket(a, i) < n && n % BUCKETS == 0
    ensures Bucket(b, j) == Bucket(a, j) < n
  {
    SameArea(a, i, b, REGION_SHIFT);
  }

  /** The heap after block a is halved while both halves are in use. */
  ghost function Halved(h: Heap, a: nat): Heap
    requires a in h.blocks && h.blocks[a] > 0
  {
    Split(h, a).(free := h.free)
  }

  /** Halving a block in use disturbs nothing but the tags of the halves. */
  lemma HalvedInv(s: State, pages: set<nat>, open: set<nat>, a: nat)
    requires Inv(s, pages, open) && a in s.heap.blocks && a !in s.heap.free && a in open && s.heap.blocks[a] > 0
    ensures var i := s.heap.blocks[a] - 1;
            && Inv(s.(heap := Halved(s.heap, a)), pages, open + {a + Size(i)})
            && a + Size(i) !in s.heap.free && a + Size(i) !in s.heap.blocks
            && Bucket(a + Size(i), i) == Bucket(a, i) < |s.lists|
  {
    hide Tiling, Threaded, Marked, Tagged, Bucket, Split, Size;
    var h := s.heap;
    BlockAligned(h, pages, a);
    SplitTiling(h, pages, a);
    HalvedBlocks(h, a);
    SetFree(Split(h, a), pages, h.free);
    HalvedMarks(s, pages, open, a);
    HalvedBuckets(s, pages, open, a);
  }

  lemma HalvedBlocks(h: Heap, a: nat)
    requires a in h.blocks && h.blocks[a] > 0 && a !in h.free && h.free <= h.blocks.Keys
             && a + Size(h.blocks[a] - 1) !in h.blocks
    ensures var t, i := Halved(h, a), h.blocks[a] - 1;
            && t.free == h.free && h.free <= Split(h, a).blocks.Keys && a + Size(i) !in h.free
            && (forall c :: c in t.blocks <==> c in h.blocks || c == a + Size(i))
            && forall c :: c in t.blocks ==> t.blocks[c] == if c == a || c == a + Size(i) then i else h.blocks[c]
  {
    hide Size;
  }

  lemma HalvedMarks(s: State, pages: set<nat>, open: set<nat>, a: nat)
    requires Inv(s, pages, open) && a in s.heap.blocks && a !in s.heap.free && a in open && s.heap.blocks[a] > 0
    requires a + Size(s.heap.blocks[a] - 1) !in s.heap.blocks && s.heap.free <= s.heap.blocks.Keys
    ensures Marked(s.desc, Halved(s.heap, a))
            && Tagged(s.desc, Halved(s.heap, a), open + {a + Size(s.heap.blocks[a] - 1)})
  {
    hide Tiling, Threaded, At, Size, Split;
    HalvedBlocks(s.heap, a);
    var t := Halved(s.heap, a);
    assert forall c :: c in t.blocks && c != a && c != a + Size(s.heap.blocks[a] - 1) ==> End(t, c) == End(s.heap, c);
  }

  lemma HalvedBuckets(s: State, pages: set<nat>, open: set<nat>, a: nat)
    requires Inv(s, pages, open) && a in s.heap.blocks && a !in s.heap.free && s.heap.blocks[a] > 0
    requires a + Size(s.heap.blocks[a] - 1) !in s.heap.blocks && s.heap.free <= s.heap.blocks.Keys
    ensures Threaded(s.(heap := Halved(s.heap, a)))
    ensures var i := s.heap.blocks[a] - 1; Bucket(a + Size(i), i) == Bucket(a, i) < |s.lists|
  {
    hide Tiling, Marked, Tagged, ListOk, Bucket, Split, Size;
    var i := s.heap.blocks[a] - 1;
    BlockAligned(s.heap, pages, a);
    HalvedBlocks(s.heap, a);
    SizeStep(i);
    BucketSame(a, i + 1, a + Size(i), i, |s.lists|);
    BucketSame(a, i + 1, a, i, |s.lists|);
    SameFreeThreaded(s, Halved(s.heap, a));
  }

  /** The lists only depend on the free blocks. */
  lemma SameFreeThreaded(s: State, h: Heap)
    requires Threaded(s) && h.free == s.heap.free && h.free <= h.blocks.Keys && h.free <= s.heap.blocks.Keys
    requires forall a :: a in h.free ==> h.blocks[a] == s.heap.blocks[a]
    requires forall a :: a in h.blocks ==> Bucket(a, h.blocks[a]) < |s.lists|
    ensures Threaded(s.(heap := h))
  {
    hide Bucket, Chain, Once, At, Ends;
    var t := s.(heap := h);
    forall q: nat | q < |t.lists| ensures ListOk(t, q) {
      assert ListOk(s, q);
    }
  }

  /** Joining a block in use with its buddy, when neither is on a list. */
  lemma JoinedInv(s: State, pages: set<nat>, a: nat, h: Heap)
    requires Inv(s, pages, {a}) && Tiling(h, pages) && CanMerge(h, a) && a !in h.free
    requires s.heap == h.(free := h.free - {Buddy(a, h.blocks[a])})
    ensures Inv(s.(heap := Merge(h, a)), pages, {Lower(h, a)})
    ensures Lower(h, a) in Merge(h, a).blocks && Lower(h, a) !in Merge(h, a).free
            && Merge(h, a).blocks[Lower(h, a)] == h.blocks[a] + 1
  {
    hide Tiling, Threaded, Marked, Tagged, Merge, Lower, Aligned, Bit, Size;
    JoinedBlocks(h, pages, a);
    MergeTiling(h, pages, a);
    JoinedMarks(s.desc, s.heap, Merge(h, a), a, Lower(h, a), s, pages);
    JoinedBuckets(s, pages, a, h);
  }

  /** Which blocks joining changes. */
  lemma JoinedBlocks(h: Heap, pages: set<nat>, a: nat)
    requires Tiling(h, pages) && CanMerge(h, a) && a !in h.free
    ensures var t, lo := Merge(h, a), Lower(h, a);
            && lo in t.blocks && lo !in t.free && t.blocks[lo] == h.blocks[a] + 1
            && t.free == h.free - {Buddy(a, h.blocks[a])}
            && (forall c :: c in t.blocks && c != lo ==> c in h.blocks && t.blocks[c] == h.blocks[c] && c != a)
            && forall c :: c in t.free ==> c in t.blocks && c in h.blocks && t.blocks[c] == h.blocks[c]
  {
    hide Covered, BlocksApart, Size, Aligned, Bit;
    SplitMerge(h, a);
    BuddyTwice(a, h.blocks[a]);
  }

  lemma JoinedMarks(d: map<nat, Desc>, h: Heap, t: Heap, a: nat, lo: nat, s: State, pages: set<nat>)
    requires Inv(s, pages, {a}) && s.desc == d && s.heap == h && t.free == h.free
    requires forall c :: c in t.blocks && c != lo ==> c in h.blocks && t.blocks[c] == h.blocks[c] && c != a
    requires forall c :: c in t.free ==> c in t.blocks && c in h.blocks && t.blocks[c] == h.blocks[c]
    ensures Marked(d, t) && Tagged(d, t, {lo})
  {
    hide Tiling, Threaded, At, Size;
    assert forall c :: c in t.blocks && c != lo ==> End(t, c) == End(h, c);
  }

  lemma JoinedBuckets(s: State, pages: set<nat>, a: nat, h: Heap)
    requires Inv(s, pages, {a}) && Tiling(h, pages) && CanMerge(h, a) && a !in h.free
    requires s.heap == h.(free := h.free - {Buddy(a, h.blocks[a])})
    ensures Threaded(s.(heap := Merge(h, a)))
  {
    hide Covered, BlocksApart, Bucket, Chain, Once, At, Size, Aligned, Bit, ListOk, Merge;
    var t, i, lo := Merge(h, a), h.blocks[a], Lower(h, a);
    JoinedBlocks(h, pages, a);
    BuddyTwice(a, i);
    assert lo in h.blocks && h.blocks[lo] == i;
    SizeStep(i);
    BucketSame(lo, i, lo, i + 1, |s.lists|);
    SameFreeThreaded(s, t);
  }

  /** Only the tag of page e differs, and e is the end of no closed block. */
  lemma RetaggedInv(s: State, pages: set<nat>, a: nat, e: nat, i: nat, d: map<nat, Desc>)
    requires Inv(s, pages, {a}) && a in s.heap.blocks && a < e <= End(s.heap, a)
             && d == s.desc[e := At(s.desc, e).(tag := i)]
    ensures Inv(s.(desc := d), pages, {a})
  {
    hide Covered, Bucket, Once, Size;
    RetaggedThreaded(s, e, i, d);
    assert forall c :: c in s.heap.blocks && c != a ==> End(s.heap, c) != e;
  }

  lemma RetaggedThreaded(s: State, e: nat, i: nat, d: map<nat, Desc>)
    requires Threaded(s) && d == s.desc[e := At(s.desc, e).(tag := i)]
    ensures Threaded(s.(desc := d))
  {
    hide Bucket, Chain, Once, Ends;
    var t := s.(desc := d);
    forall q: nat | q < |t.lists| ensures ListOk(t, q) {
      assert ListOk(s, q);
      ChainFrame(s.desc, d, s.lists[q]);
    }
  }

  /** Closing the last open block. */
  lemma ClosedInv(s: State, pages: set<nat>, a: nat)
    requires Inv(s, pages, {a}) && a in s.heap.blocks && At(s.desc, End(s.heap, a)).tag == s.heap.blocks[a]
    ensures Inv(s, pages, {})
  {
    hide Tiling, Threaded, Marked, At;
  }

  /** What a free block's descriptor and list say. */
  lemma FreeBlock(s: State, pages: set<nat>, open: set<nat>, a: nat)
    requires Inv(s, pages, open) && a in s.heap.free
    ensures a in s.heap.blocks && At(s.desc, a).idx == s.heap.blocks[a] < BUCKETS
    ensures Bucket(a, s.heap.blocks[a]) < |s.lists| == |s.head| == |s.tail| && a in s.lists[Bucket(a, s.heap.blocks[a])]
  {
    hide Covered, BlocksApart, Bucket, ListOk, At;
  }

  /** The first block of a bucket whose bit is set. */
  lemma HeadBlock(s: State, pages: set<nat>, open: set<nat>, q: nat)
    requires Inv(s, pages, open) && q < |s.lists|
    ensures |s.lists| == |s.head| == |s.tail| && (q in s.bits <==> s.lists[q] != [])
    ensures q in s.bits ==>
              && s.head[q] == s.lists[q][0] > 0 && s.head[q] in s.heap.free && s.head[q] in s.heap.blocks
              && Bucket(s.head[q], s.heap.blocks[s.head[q]]) == q
              && At(s.desc, s.head[q]).next == Elem(s.lists[q], 1)
  {
    hide Covered, BlocksApart, Bucket, At, Once;
    assert ListOk(s, q);
    if s.lists[q] != [] {
      LinkOf(s.desc, s.lists[q], 0);
    }
  }

  /** Where a free block stands in its list. */
  lemma Position(s: State, pages: set<nat>, open: set<nat>, a: nat) returns (k: nat)
    requires Inv(s, pages, open) && a in s.heap.free
    ensures a in s.heap.blocks
    ensures var q := Bucket(a, s.heap.blocks[a]);
            && q < |s.lists| == |s.head| == |s.tail| && k < |s.lists[q]| && s.lists[q][k] == a
            && At(s.desc, a).prev == Elem(s.lists[q], k - 1) && At(s.desc, a).next == Elem(s.lists[q], k + 1)
            && Elem(s.lists[q], k - 1) != a && Elem(s.lists[q], k + 1) != a
            && (Elem(s.lists[q], k - 1) == Elem(s.lists[q], k + 1) ==> Elem(s.lists[q], k - 1) == 0)
  {
    hide Bucket, At, Inv;
    FreeBlock(s, pages, open, a);
    var q := Bucket(a, s.heap.blocks[a]);
    HeapThreaded(s, pages, open);
    OtherList(s, q);
    k :| k < |s.lists[q]| && s.lists[q][k] == a;
    LinkOf(s.desc, s.lists[q], k);
  }

  lemma HeapThreaded(s: State, pages: set<nat>, open: set<nat>)
    requires Inv(s, pages, open)
    ensures Threaded(s) && Tiling(s.heap, pages)
  {
    hide Threaded, Tiling;
  }
}
