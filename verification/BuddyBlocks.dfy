/**
 * Page numbers and the abstract view of the page allocator: naturally aligned blocks that tile the registered pages.
 */
module BuddyBlocks {
  import opened Bits

  const BUCKETS := 16

  /** The smallest class that holds the pages. */
  function ClassOf(count: nat): (i: nat)
    requires count > 0
    ensures count <= Size(i) && forall k: nat :: count <= Size(k) ==> i <= k
  {
    var r := FloorLog(count);
    var i := r + if count == Size(r) then 0 else 1;
    assert forall k: nat :: count <= Size(k) ==> i <= k by {
      forall k: nat | count <= Size(k) ensures i <= k {
        if k < i {
          SizeMonotone(k, i - 1);
        }
      }
    }
    i
  }

  /** The block a block of class i merges with: the page number with bit i flipped. */
  function Buddy(a: nat, i: nat): nat
    requires Aligned(a, i)
  {
    if Bit(a, i) then LowerHalf(a, i); a - Size(i) else a + Size(i)
  }

  lemma BuddyTwice(a: nat, i: nat)
    requires Aligned(a, i)
    ensures Aligned(Buddy(a, i), i) && Buddy(Buddy(a, i), i) == a && Bit(Buddy(a, i), i) == !Bit(a, i)
    ensures Aligned(if Bit(a, i) then Buddy(a, i) else a, i + 1)
  {
    if Bit(a, i) {
      LowerHalf(a, i);
      AlignedNext(a - Size(i), i);
    } else {
      UpperHalf(a, i);
      AlignedNext(a, i);
    }
  }

  // ---------------------------------------------------------------------------
  // Tilings
  // ---------------------------------------------------------------------------

  /** The class of every block by its first page, and which of the blocks are free. */
  datatype Heap = Heap(blocks: map<nat, nat>, free: set<nat>)

  ghost function Interval(lo: nat, hi: nat): (r: set<nat>)
    ensures forall p: nat :: p in r <==> lo <= p < hi
    decreases hi
  {
    if hi <= lo then {} else Interval(lo, hi - 1) + {hi - 1}
  }

  ghost function End(h: Heap, a: nat): nat
    requires a in h.blocks
  {
    a + Size(h.blocks[a])
  }

  ghost predicate Covered(h: Heap, p: nat)
  {
    exists a :: a in h.blocks && a <= p < End(h, a)
  }

  ghost predicate BlocksAligned(h: Heap)
  {
    h.free <= h.blocks.Keys && forall a :: a in h.blocks ==> a > 0 && h.blocks[a] < BUCKETS && Aligned(a, h.blocks[a])
  }

  ghost predicate BlocksApart(h: Heap)
  {
    forall a, b :: a in h.blocks && b in h.blocks && a < b ==> End(h, a) <= b
  }

  /** The blocks are naturally aligned, do not overlap, and cover exactly the registered pages. */
  ghost predicate Tiling(h: Heap, pages: set<nat>)
  {
    BlocksAligned(h) && BlocksApart(h) && forall p :: p in pages <==> Covered(h, p)
  }

  // ---------------------------------------------------------------------------
  // Splitting and merging
  // ---------------------------------------------------------------------------

  /** Halves block a; the upper half becomes free. */
  ghost function Split(h: Heap, a: nat): Heap
    requires a in h.blocks && h.blocks[a] > 0
  {
    var i := h.blocks[a] - 1;
    Heap(h.blocks[a := i][a + Size(i) := i], h.free + {a + Size(i)})
  }

  ghost predicate CanMerge(h: Heap, a: nat)
  {
    && a in h.blocks && h.blocks[a] < BUCKETS - 1 && Aligned(a, h.blocks[a])
    && var b := Buddy(a, h.blocks[a]);
       b in h.free && b in h.blocks && h.blocks[b] == h.blocks[a]
  }

  /** The lower half of the pair that block a and its buddy form. */
  ghost function Lower(h: Heap, a: nat): nat
    requires a in h.blocks && Aligned(a, h.blocks[a])
  {
    if Bit(a, h.blocks[a]) then Buddy(a, h.blocks[a]) else a
  }

  ghost function Upper(h: Heap, a: nat): nat
    requires a in h.blocks && Aligned(a, h.blocks[a])
  {
    if Bit(a, h.blocks[a]) then a else Buddy(a, h.blocks[a])
  }

  ghost function Merge(h: Heap, a: nat): Heap
    requires CanMerge(h, a)
  {
    Heap((h.blocks - {Upper(h, a)})[Lower(h, a) := h.blocks[a] + 1], h.free - {Buddy(a, h.blocks[a])})
  }

  lemma SplitTiling(h: Heap, pages: set<nat>, a: nat)
    requires Tiling(h, pages) && a in h.blocks && h.blocks[a] > 0 && a !in h.free
    ensures Tiling(Split(h, a), pages) && a !in Split(h, a).free
    ensures a + Size(h.blocks[a] - 1) !in h.blocks
  {
    hide Covered, Size, Aligned, Bit;
    var i := h.blocks[a] - 1;
    var b := a + Size(i);
    var t := Split(h, a);
    AlignedNext(a, i);
    UpperHalf(a, i);
    SizeStep(i);
    assert End(h, a) == b + Size(i);
    assert End(t, a) == b && End(t, b) == End(h, a);
    assert b !in h.blocks;
    assert forall c :: c in h.blocks && c != a ==> c in t.blocks && End(t, c) == End(h, c);
    SplitCovers(h, a);
  }

  lemma BlockAligned(h: Heap, pages: set<nat>, a: nat)
    requires Tiling(h, pages) && a in h.blocks
    ensures a > 0 && h.blocks[a] < BUCKETS && Aligned(a, h.blocks[a]) && h.free <= h.blocks.Keys
  {}

  lemma SplitCovers(h: Heap, a: nat)
    requires a in h.blocks && h.blocks[a] > 0 && a + Size(h.blocks[a] - 1) !in h.blocks
    ensures forall p :: Covered(h, p) <==> Covered(Split(h, a), p)
  {
    var t, b := Split(h, a), a + Size(h.blocks[a] - 1);
    assert End(t, a) == b && End(t, b) == End(h, a);
    forall p: nat ensures Covered(h, p) <==> Covered(t, p) {
      if Covered(h, p) {
        var c :| c in h.blocks && c <= p < End(h, c);
        var d := if c == a && p >= b then b else c;
        assert d in t.blocks && d <= p < End(t, d);
      }
      if Covered(t, p) {
        var c :| c in t.blocks && c <= p < End(t, c);
        var d := if c == b then a else c;
        assert d in h.blocks && d <= p < End(h, d);
      }
    }
  }

  /** Merging undoes splitting. */
  lemma MergeSplit(h: Heap, a: nat)
    requires a in h.blocks && h.blocks[a] > 0 && h.blocks[a] < BUCKETS && Aligned(a, h.blocks[a])
    requires a + Size(h.blocks[a] - 1) !in h.blocks && a + Size(h.blocks[a] - 1) !in h.free
    ensures CanMerge(Split(h, a), a) && Merge(Split(h, a), a) == h && Lower(Split(h, a), a) == a
  {
    AlignedNext(a, h.blocks[a] - 1);
    assert Merge(Split(h, a), a).blocks == h.blocks;
  }

  /** Splitting undoes merging, up to which half is free. */
  lemma SplitMerge(h: Heap, a: nat)
    requires CanMerge(h, a)
    ensures Lower(h, a) in Merge(h, a).blocks && Merge(h, a).blocks[Lower(h, a)] == h.blocks[a] + 1
    ensures Split(Merge(h, a), Lower(h, a)).blocks == h.blocks
    ensures Upper(h, a) == Lower(h, a) + Size(h.blocks[a]) && Aligned(Lower(h, a), h.blocks[a] + 1)
  {
    BuddyTwice(a, h.blocks[a]);
  }

  lemma MergeTiling(h: Heap, pages: set<nat>, a: nat)
    requires Tiling(h, pages) && CanMerge(h, a) && a !in h.free
    ensures Tiling(Merge(h, a), pages) && Lower(h, a) in Merge(h, a).blocks && Lower(h, a) !in Merge(h, a).free
  {
    hide Covered, Size, Aligned, Bit, Split;
    SplitMerge(h, a);
    SizeStep(h.blocks[a]);
    var t, lo, hi, i := Merge(h, a), Lower(h, a), Upper(h, a), h.blocks[a];
    BuddyTwice(a, i);
    assert End(t, lo) == hi + Size(i) == End(h, hi);
    assert forall c :: c in t.blocks && c != lo ==> c in h.blocks && End(t, c) == End(h, c);
    assert lo in h.blocks && hi in h.blocks && End(h, lo) == hi;
    SplitCovers(t, lo);
    assert forall p :: Covered(h, p) <==> Covered(Split(t, lo), p) by {
      SameCover(h, Split(t, lo));
    }
  }

  lemma SameCover(h: Heap, t: Heap)
    requires h.blocks == t.blocks
    ensures forall p :: Covered(h, p) <==> Covered(t, p)
  {
    forall p: nat ensures Covered(h, p) <==> Covered(t, p) {
      if Covered(h, p) {
        var c :| c in h.blocks && c <= p < End(h, c);
        assert c in t.blocks && c <= p < End(t, c);
      }
      if Covered(t, p) {
        var c :| c in t.blocks && c <= p < End(t, c);
        assert c in h.blocks && c <= p < End(h, c);
      }
    }
  }

  /** Freeing or taking a block does not move any block. */
  lemma SetFree(h: Heap, pages: set<nat>, free: set<nat>)
    requires Tiling(h, pages) && free <= h.blocks.Keys
    ensures Tiling(h.(free := free), pages)
  {
    var t := h.(free := free);
    assert forall a :: a in h.blocks ==> End(t, a) == End(h, a);
    SameCover(h, t);
  }

  // ---------------------------------------------------------------------------
  // Taking and giving back
  // ---------------------------------------------------------------------------

  /** Halves block a until it has class i. */
  ghost function Carve(h: Heap, a: nat, i: nat): Heap
    requires a in h.blocks
    decreases h.blocks[a]
  {
    if h.blocks[a] <= i then h else Carve(Split(h, a), a, i)
  }

  /** The heap after an allocation of class i out of the free block a. */
  ghost function Taken(h: Heap, a: nat, i: nat): Heap
    requires a in h.blocks
  {
    Carve(h.(free := h.free - {a}), a, i)
  }

  /** The heap after block a is given back: it merges with its buddy as long as that is free and of equal size. */
  ghost function Freed(h: Heap, a: nat): Heap
    requires a in h.blocks
    decreases if a in h.blocks then BUCKETS - h.blocks[a] else 0
  {
    if CanMerge(h, a) then SplitMerge(h, a); Freed(Merge(h, a), Lower(h, a))
    else h.(free := h.free + {a})
  }

  /** Giving back what was carved merges all the way up to the original block. */
  lemma {:induction false} FreedCarve(h: Heap, pages: set<nat>, a: nat, i: nat)
    requires Tiling(h, pages) && a in h.blocks && a !in h.free && i <= h.blocks[a]
    ensures a in Carve(h, a, i).blocks && Freed(Carve(h, a, i), a) == Freed(h, a)
    decreases h.blocks[a]
  {
    if h.blocks[a] > i {
      SplitTiling(h, pages, a);
      FreedCarve(Split(h, a), pages, a, i);
      MergeSplit(h, a);
    }
  }

  /** Merging never adds a block. */
  lemma {:induction false} FreedKeys(h: Heap, a: nat)
    requires a in h.blocks
    ensures Freed(h, a).blocks.Keys <= h.blocks.Keys
    ensures CanMerge(h, a) ==> Upper(h, a) in h.blocks && Upper(h, a) !in Freed(h, a).blocks
    decreases BUCKETS - h.blocks[a]
  {
    if CanMerge(h, a) {
      SplitMerge(h, a);
      FreedKeys(Merge(h, a), Lower(h, a));
    }
  }

  /**
    * An allocation followed by its free restores exactly the previous blocks, if and only if the block that
    * was taken had no free buddy of its own size.
    */
  lemma TakenThenFreed(h: Heap, pages: set<nat>, a: nat, i: nat)
    requires Tiling(h, pages) && a in h.free && i <= h.blocks[a]
    ensures a in Taken(h, a, i).blocks
    ensures Freed(Taken(h, a, i), a) == h <==> !CanMerge(h, a)
  {
    var t := h.(free := h.free - {a});
    SetFree(h, pages, t.free);
    FreedCarve(t, pages, a, i);
    assert CanMerge(t, a) <==> CanMerge(h, a);
    FreedKeys(t, a);
    assert t.free + {a} == h.free;
  }

  // ---------------------------------------------------------------------------
  // Complete coalescing
  // ---------------------------------------------------------------------------

  /** No two free blocks below the top class are buddies. */
  ghost predicate Coalesced(h: Heap)
  {
    forall a :: a in h.free ==> !CanMerge(h, a)
  }

  lemma SplitCoalesced(h: Heap, pages: set<nat>, a: nat)
    requires Tiling(h, pages) && a in h.blocks && h.blocks[a] > 0 && a !in h.free && Coalesced(h)
    ensures Coalesced(Split(h, a))
  {
    hide Tiling, BlocksApart, Size, Aligned, Bit;
    var t, i := Split(h, a), h.blocks[a] - 1;
    var b := a + Size(i);
    BlockAligned(h, pages, a);
    SplitTiling(h, pages, a);
    AlignedNext(a, i);
    UpperHalf(a, i);
    BuddyTwice(a, i);
    forall c | c in t.free ensures !CanMerge(t, c) {
      assert c != b ==> c in h.free && !CanMerge(h, c);
      if CanMerge(t, c) {
        BuddyTwice(c, t.blocks[c]);
      }
    }
  }

  lemma {:induction false} CarveCoalesced(h: Heap, pages: set<nat>, a: nat, i: nat)
    requires Tiling(h, pages) && a in h.blocks && a !in h.free && i <= h.blocks[a] && Coalesced(h)
    ensures Coalesced(Carve(h, a, i))
    decreases h.blocks[a]
  {
    if h.blocks[a] > i {
      SplitTiling(h, pages, a);
      SplitCoalesced(h, pages, a);
      CarveCoalesced(Split(h, a), pages, a, i);
    }
  }

  /** Allocation keeps the heap coalesced. */
  lemma TakenCoalesced(h: Heap, pages: set<nat>, a: nat, i: nat)
    requires Tiling(h, pages) && a in h.free && i <= h.blocks[a] && Coalesced(h)
    ensures Coalesced(Taken(h, a, i))
  {
    var t := h.(free := h.free - {a});
    SetFree(h, pages, t.free);
    forall c | c in t.free ensures !CanMerge(t, c) {
      assert !CanMerge(h, c);
    }
    CarveCoalesced(t, pages, a, i);
  }

  lemma MergeCoalesced(h: Heap, a: nat)
    requires CanMerge(h, a) && a !in h.free && Coalesced(h)
    ensures Coalesced(Merge(h, a))
  {
    var t := Merge(h, a);
    BuddyTwice(a, h.blocks[a]);
    forall c | c in t.free ensures !CanMerge(t, c) {
      assert !CanMerge(h, c);
    }
  }

  /** Freeing keeps the heap coalesced, and tiled. */
  lemma {:induction false} FreedCoalesced(h: Heap, pages: set<nat>, a: nat)
    requires Tiling(h, pages) && a in h.blocks && a !in h.free
    ensures Tiling(Freed(h, a), pages)
    ensures Coalesced(h) ==> Coalesced(Freed(h, a))
    decreases BUCKETS - h.blocks[a]
  {
    if CanMerge(h, a) {
      SplitMerge(h, a);
      MergeTiling(h, pages, a);
      if Coalesced(h) {
        MergeCoalesced(h, a);
      }
      FreedCoalesced(Merge(h, a), pages, Lower(h, a));
    } else {
      SetFree(h, pages, h.free + {a});
      if Coalesced(h) {
        LastCoalesced(h, a);
      }
    }
  }

  lemma LastCoalesced(h: Heap, a: nat)
    requires BlocksAligned(h) && a in h.blocks && !CanMerge(h, a) && Coalesced(h)
    ensures Coalesced(h.(free := h.free + {a}))
  {
    var t := h.(free := h.free + {a});
    forall c | c in t.free ensures !CanMerge(t, c) {
      assert c != a ==> !CanMerge(h, c);
      if CanMerge(t, c) {
        BuddyTwice(c, t.blocks[c]);
      }
    }
  }

  // ---------------------------------------------------------------------------
  // Registering a range
  // ---------------------------------------------------------------------------

  /** The class of the next block of a range: as large as alignment, the rest of the range and the top class allow. */
  function RangeClass(a: nat, length: nat): (i: nat)
    requires a > 0 && length > 0
    ensures i < BUCKETS && Aligned(a, i) && Size(i) <= length
    ensures i < BUCKETS - 1 && Aligned(a, i + 1) ==> length < 2 * Size(i)
  {
    var z := TrailingZeros(a);
    var i := if z >= BUCKETS then BUCKETS - 1 else z;
    if Size(i) <= length then i
    else
      var l := FloorLog(length);
      assert l < i by {
        if i <= l {
          SizeMonotone(i, l);
        }
      }
      SizeStep(l);
      l
  }

  /** A new block, in use. */
  ghost function Placed(h: Heap, a: nat, i: nat): Heap
  {
    h.(blocks := h.blocks[a := i])
  }

  lemma PlacedTiling(h: Heap, pages: set<nat>, a: nat, i: nat)
    requires Tiling(h, pages) && a > 0 && i < BUCKETS && Aligned(a, i) && pages !! Interval(a, a + Size(i))
    ensures a !in h.blocks && Tiling(Placed(h, a, i), pages + Interval(a, a + Size(i)))
  {
    hide Size, Aligned, Covered, Interval, BlocksApart;
    NotPlaced(h, pages, a, i);
    PlacedApart(h, pages, a, i);
    PlacedCovers(h, a, i);
  }

  lemma NotPlaced(h: Heap, pages: set<nat>, a: nat, i: nat)
    requires Tiling(h, pages) && pages !! Interval(a, a + Size(i))
    ensures a !in h.blocks
  {
    hide Interval, Size, Tiling, Covered;
    FirstPage(h, pages, a);
    assert a in Interval(a, a + Size(i));
  }

  lemma PlacedApart(h: Heap, pages: set<nat>, a: nat, i: nat)
    requires Tiling(h, pages) && pages !! Interval(a, a + Size(i)) && a !in h.blocks
    ensures BlocksApart(Placed(h, a, i))
  {
    hide Size, Aligned, Covered, Interval;
    var t := Placed(h, a, i);
    assert End(t, a) == a + Size(i);
    forall c, d | c in t.blocks && d in t.blocks && c < d ensures End(t, c) <= d {
      if c == a {
        OutsideBlock(h, pages, a, i, d);
      } else if d == a {
        OutsideBlock(h, pages, a, i, c);
      } else {
        assert End(h, c) <= d;
      }
    }
  }

  /** A block's own pages are registered. */
  lemma FirstPage(h: Heap, pages: set<nat>, a: nat)
    requires Tiling(h, pages)
    ensures a in h.blocks ==> forall p: nat :: a <= p < End(h, a) ==> p in pages
  {
    if a in h.blocks {
      forall p: nat | a <= p < End(h, a) ensures p in pages {
        assert Covered(h, p);
      }
    }
  }

  lemma OutsideBlock(h: Heap, pages: set<nat>, a: nat, i: nat, c: nat)
    requires Tiling(h, pages) && pages !! Interval(a, a + Size(i)) && c in h.blocks
    ensures End(h, c) <= a || a + Size(i) <= c
  {
    hide Interval, Aligned;
    FirstPage(h, pages, c);
    var p := if a < c then c else a;
    assert p in Interval(a, a + Size(i)) <==> p < a + Size(i);
    assert p < End(h, c) ==> p in pages;
  }

  lemma PlacedCovers(h: Heap, a: nat, i: nat)
    requires a !in h.blocks
    ensures forall p: nat :: Covered(Placed(h, a, i), p) <==> Covered(h, p) || a <= p < a + Size(i)
  {
    hide Size;
    var t := Placed(h, a, i);
    forall p: nat ensures Covered(t, p) <==> Covered(h, p) || a <= p < a + Size(i) {
      if Covered(t, p) {
        var c :| c in t.blocks && c <= p < End(t, c);
        assert c == a || (c in h.blocks && c <= p < End(h, c));
      }
      if Covered(h, p) {
        var c :| c in h.blocks && c <= p < End(h, c);
        assert c in t.blocks && c <= p < End(t, c);
      }
      if a <= p < a + Size(i) {
        assert a in t.blocks && a <= p < End(t, a);
      }
    }
  }

  /** A range meets other registered pages only at multiples of the largest block. */
  ghost predicate EdgesClear(pages: set<nat>, lo: nat, hi: nat)
  {
    && (lo > 0 && lo - 1 in pages ==> Aligned(lo, BUCKETS - 1))
    && (hi in pages ==> Aligned(hi, BUCKETS - 1))
  }

  /** What the last block of a range in progress, which ends at a, means for the next one. */
  ghost predicate LastOfRange(h: Heap, b: nat, a: nat, hi: nat)
  {
    b in h.blocks && End(h, b) == a <= hi
      && (h.blocks[b] < BUCKETS - 1 && Aligned(b, h.blocks[b] + 1) ==> hi - a < Size(h.blocks[b]))
  }

  /** Old blocks are untouched, new ones are free and lie between lo and a. */
  ghost predicate Kept(g: Heap, h: Heap, lo: nat, a: nat)
  {
    && (forall c :: c in g.blocks ==> c in h.blocks && h.blocks[c] == g.blocks[c] && (c in h.free <==> c in g.free))
    && forall c :: c in h.blocks && c !in g.blocks ==> c in h.free && lo <= c && End(h, c) <= a
  }

  /** A block of class i at page a would have a free buddy among the blocks. */
  ghost predicate ClashAt(h: Heap, a: nat, i: nat)
  {
    && i < BUCKETS - 1 && Aligned(a, i)
    && var b := Buddy(a, i);
       b in h.free && b in h.blocks && h.blocks[b] == i
  }

  /** The first page of the last block that a range from a to hi is cut into. */
  ghost function LastStart(a: nat, hi: nat): (r: nat)
    requires 0 < a < hi
    ensures a <= r < hi
    decreases hi - a
  {
    var n := a + Size(RangeClass(a, hi - a));
    if n >= hi then a else LastStart(n, hi)
  }

  /** The first or the last block of the range meets a free buddy outside it. */
  ghost predicate Clash(h: Heap, lo: nat, hi: nat)
    requires 0 < lo < hi
  {
    var l := LastStart(lo, hi);
    ClashAt(h, lo, RangeClass(lo, hi - lo)) || ClashAt(h, l, RangeClass(l, hi - l))
  }

  /** The next block of a range has a free buddy exactly when one was there before the range. */
  lemma NextOfRange(g: Heap, h: Heap, pages: set<nat>, lo: nat, a: nat, hi: nat, b: nat)
    requires Tiling(h, pages) && 0 < lo <= a < hi && Kept(g, h, lo, a) && (a > lo ==> LastOfRange(h, b, a, hi))
    requires a !in h.blocks
    ensures var i := RangeClass(a, hi - a); CanMerge(Placed(h, a, i), a) <==> ClashAt(g, a, i)
  {
    hide RangeClass, Covered, Size, Aligned, Bit;
    var i := RangeClass(a, hi - a);
    var t, c := Placed(h, a, i), Buddy(a, i);
    BuddyTwice(a, i);
    AlignedNext(c, i);
    if CanMerge(t, a) && c !in g.blocks {
      assert c in h.blocks && End(h, c) == c + Size(i) <= a;
      SameEnd(h, b, c);
    }
  }

  /** A block inside the range meets nothing outside it. */
  lemma MiddleOfRange(g: Heap, before: set<nat>, lo: nat, a: nat, hi: nat, i: nat)
    requires Tiling(g, before) && before !! Interval(lo, hi) && lo < a && a + Size(i) < hi
    ensures !ClashAt(g, a, i)
  {
    hide Covered, Size, Aligned, Bit, Interval, BlocksApart;
    if ClashAt(g, a, i) {
      var c := Buddy(a, i);
      BuddyTwice(a, i);
      FirstPage(g, before, c);
      Outside(before, lo, hi, if c < a then a - 1 else c);
    }
  }

  /** If the range meets registered pages only at multiples of the largest block, nothing clashes. */
  lemma ClearEdges(g: Heap, before: set<nat>, lo: nat, hi: nat)
    requires Tiling(g, before) && 0 < lo < hi && before !! Interval(lo, hi) && EdgesClear(before, lo, hi)
    ensures !Clash(g, lo, hi)
  {
    hide RangeClass, Covered, Interval, Size, Aligned, Bit, ClashAt, LastStart;
    ClearBlock(g, before, lo, lo, hi);
    ClearBlock(g, before, lo, LastStart(lo, hi), hi);
  }

  lemma ClearBlock(g: Heap, before: set<nat>, lo: nat, a: nat, hi: nat)
    requires Tiling(g, before) && 0 < lo <= a < hi && before !! Interval(lo, hi) && EdgesClear(before, lo, hi)
    ensures !ClashAt(g, a, RangeClass(a, hi - a))
  {
    hide RangeClass, Covered, Interval, Size, Aligned, Bit, BlocksApart;
    var i := RangeClass(a, hi - a);
    if ClashAt(g, a, i) {
      var c := Buddy(a, i);
      AlignedNext(a, i);
      BuddyTwice(a, i);
      AlignedNext(c, i);
      FirstPage(g, before, c);
      if Bit(a, i) {
        Outside(before, lo, hi, a - 1);
        AlignedLess(a, i + 1, BUCKETS - 1);
      } else {
        Outside(before, lo, hi, c);
        AlignedLess(c, i + 1, BUCKETS - 1);
      }
    }
  }

  lemma Outside(before: set<nat>, lo: nat, hi: nat, p: nat)
    requires before !! Interval(lo, hi)
    ensures p in before ==> p < lo || p >= hi
  {
    hide Interval;
    assert p in Interval(lo, hi) <==> lo <= p < hi;
  }

  lemma SameEnd(h: Heap, a: nat, b: nat)
    requires BlocksApart(h) && a in h.blocks && b in h.blocks && End(h, a) == End(h, b)
    ensures a == b
  {
    hide Size;
  }

  /** Placing a free block keeps the heap coalesced exactly when no free buddy waits for it. */
  lemma PlacedCoalesced(h: Heap, pages: set<nat>, a: nat, i: nat)
    requires Tiling(h, pages) && a !in h.blocks && a > 0 && i < BUCKETS && Aligned(a, i)
    ensures Coalesced(Placed(h, a, i).(free := h.free + {a})) <==> Coalesced(h) && !CanMerge(Placed(h, a, i), a)
  {
    hide Covered, BlocksApart, Size, Aligned, Bit;
    var t := Placed(h, a, i);
    var u := t.(free := h.free + {a});
    BuddyTwice(a, i);
    if Coalesced(h) && !CanMerge(t, a) {
      forall c | c in t.free ensures !CanMerge(t, c) {
        assert !CanMerge(h, c);
      }
      LastCoalesced(t, a);
    }
    if Coalesced(u) {
      assert !CanMerge(u, a);
      forall c | c in h.free ensures !CanMerge(h, c) {
        assert !CanMerge(u, c);
      }
    }
  }

  /**
   * Two ranges that touch off a multiple of the largest block can leave free buddies, and then allocating and freeing
   * merges them.
   */
  lemma TouchingRanges()
    ensures var h := Heap(map[2 := RangeClass(2, 1), 3 := RangeClass(3, 1)], {2, 3});
            && Tiling(h, {2, 3}) && Clash(Heap(map[2 := RangeClass(2, 1)], {2}), 3, 4) && !Coalesced(h)
            && Freed(Taken(h, 2, 0), 2) != h
  {
    assert RangeClass(2, 1) == 0 && RangeClass(3, 1) == 0;
    var h := Heap(map[2 := 0, 3 := 0], {2, 3});
    assert End(h, 2) == 3 && End(h, 3) == 4;
    forall p: nat ensures p in {2, 3} <==> Covered(h, p) {
      if p == 2 || p == 3 {
        assert p in h.blocks && p <= p < End(h, p);
      }
    }
    assert !Bit(2, 0) && Buddy(2, 0) == 3 && Bit(3, 0) && Buddy(3, 0) == 2;
    assert ClashAt(Heap(map[2 := 0], {2}), 3, 0);
    assert CanMerge(h, 2);
    TakenThenFreed(h, {2, 3}, 2, 0);
  }

  lemma {:induction false} ShiftMonotone(a: nat, b: nat, n: nat)
    requires a <= b
    ensures Shift(a, n) <= Shift(b, n)
  {
    if n > 0 {
      ShiftMonotone(a / 2, b / 2, n - 1);
    }
  }
}
