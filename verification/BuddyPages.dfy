/** What allocating and freeing do to single pages and to the blocks in use. */
module BuddyPages {
  import opened Bits
  import opened BuddyBlocks

  /** Page p lies in a free block. */
  ghost predicate FreePage(h: Heap, p: nat)
  {
    exists b :: b in h.free && b in h.blocks && b <= p < End(h, b)
  }

  /** A block of class j at page c is in use. */
  ghost predicate InUse(h: Heap, c: nat, j: nat)
  {
    c in h.blocks && c !in h.free && h.blocks[c] == j
  }

  lemma SplitPages(h: Heap, pages: set<nat>, a: nat, p: nat)
    requires Tiling(h, pages) && a in h.blocks && h.blocks[a] > 0 && a !in h.free
    ensures var b := a + Size(h.blocks[a] - 1);
            FreePage(Split(h, a), p) <==> FreePage(h, p) || b <= p < End(h, a)
  {
    hide Tiling, Size, Aligned, Covered;
    var i, t := h.blocks[a] - 1, Split(h, a);
    SplitTiling(h, pages, a);
    SizeStep(i);
    assert End(t, a + Size(i)) == End(h, a);
    if FreePage(h, p) {
      var c :| c in h.free && c in h.blocks && c <= p < End(h, c);
      assert c in t.free && c in t.blocks && End(t, c) == End(h, c);
    }
    if FreePage(t, p) {
      var c :| c in t.free && c in t.blocks && c <= p < End(t, c);
      if c != a + Size(i) {
        assert c in h.free && c in h.blocks && End(t, c) == End(h, c) by { BlockAligned(h, pages, a); }
      }
    }
  }

  lemma {:induction false} CarvePages(h: Heap, pages: set<nat>, a: nat, i: nat, p: nat)
    requires Tiling(h, pages) && a in h.blocks && a !in h.free && i <= h.blocks[a]
    ensures FreePage(Carve(h, a, i), p) <==> FreePage(h, p) || a + Size(i) <= p < End(h, a)
    decreases h.blocks[a]
  {
    hide Tiling, FreePage, Size;
    if h.blocks[a] > i {
      var t := Split(h, a);
      SplitTiling(h, pages, a);
      SplitPages(h, pages, a, p);
      CarvePages(t, pages, a, i, p);
      SizeMonotone(i, h.blocks[a] - 1);
      SizeStep(h.blocks[a] - 1);
    }
  }

  lemma {:induction false} CarveUse(h: Heap, pages: set<nat>, a: nat, i: nat, c: nat, j: nat)
    requires Tiling(h, pages) && a in h.blocks && a !in h.free && i <= h.blocks[a]
    ensures InUse(Carve(h, a, i), c, j) <==> if c == a then j == i else InUse(h, c, j)
    decreases h.blocks[a]
  {
    hide Tiling, Size;
    if h.blocks[a] > i {
      SplitTiling(h, pages, a);
      CarveUse(Split(h, a), pages, a, i, c, j);
    }
  }

  /** An allocation takes exactly its own pages from the free ones, and exactly its block joins those in use. */
  lemma TakenPages(h: Heap, pages: set<nat>, a: nat, i: nat)
    requires Tiling(h, pages) && a in h.free && a in h.blocks && i <= h.blocks[a]
    ensures forall p: nat :: FreePage(Taken(h, a, i), p) <==> FreePage(h, p) && !(a <= p < a + Size(i))
    ensures forall c: nat, j: nat :: InUse(Taken(h, a, i), c, j) <==> InUse(h, c, j) || (c == a && j == i)
  {
    hide Tiling, FreePage, Size;
    var t := h.(free := h.free - {a});
    BlockAligned(h, pages, a);
    SetFree(h, pages, t.free);
    SizeMonotone(i, h.blocks[a]);
    forall p: nat ensures FreePage(Taken(h, a, i), p) <==> FreePage(h, p) && !(a <= p < a + Size(i)) {
      CarvePages(t, pages, a, i, p);
      WithoutPages(h, pages, a, p);
    }
    forall c: nat, j: nat ensures InUse(Taken(h, a, i), c, j) <==> InUse(h, c, j) || (c == a && j == i) {
      CarveUse(t, pages, a, i, c, j);
    }
  }

  lemma WithoutPages(h: Heap, pages: set<nat>, a: nat, p: nat)
    requires Tiling(h, pages) && a in h.free && a in h.blocks
    ensures FreePage(h.(free := h.free - {a}), p) <==> FreePage(h, p) && !(a <= p < End(h, a))
    ensures a <= p < End(h, a) ==> FreePage(h, p)
  {
    hide Size, Aligned, Covered;
    var t := h.(free := h.free - {a});
    if FreePage(h, p) {
      var c :| c in h.free && c in h.blocks && c <= p < End(h, c);
      if c != a {
        assert c in t.free && c in t.blocks && c <= p < End(t, c);
      }
    }
    if FreePage(t, p) {
      var c :| c in t.free && c in t.blocks && c <= p < End(t, c);
      assert c in h.free && End(h, c) == End(t, c);
    }
  }

  /** Merging moves the buddy's pages into the block that is being freed. */
  lemma MergePages(h: Heap, pages: set<nat>, a: nat, p: nat)
    requires Tiling(h, pages) && CanMerge(h, a) && a !in h.free
    ensures var b, i := Buddy(a, h.blocks[a]), h.blocks[a];
            && (FreePage(Merge(h, a), p) <==> FreePage(h, p) && !(b <= p < b + Size(i)))
            && (b <= p < b + Size(i) ==> FreePage(h, p))
  {
    hide Size, Aligned, Covered, Bit, Tiling, FreePage;
    var b, m := Buddy(a, h.blocks[a]), Merge(h, a);
    WithoutPages(h, pages, b, p);
    BuddyTwice(a, h.blocks[a]);
    SameFreePages(h.(free := h.free - {b}), m, p);
  }

  lemma SameFreePages(h: Heap, t: Heap, p: nat)
    requires t.free == h.free
    requires forall c :: c in h.free ==> (c in h.blocks <==> c in t.blocks)
    requires forall c :: c in h.free && c in h.blocks && c in t.blocks ==> h.blocks[c] == t.blocks[c]
    ensures FreePage(h, p) <==> FreePage(t, p)
  {
    hide Size;
    if FreePage(h, p) {
      var c :| c in h.free && c in h.blocks && c <= p < End(h, c);
      assert c in t.free && c in t.blocks && End(h, c) == End(t, c);
    }
    if FreePage(t, p) {
      var c :| c in t.free && c in t.blocks && c <= p < End(t, c);
      assert c in h.free && c in h.blocks && End(h, c) == End(t, c);
    }
  }

  /** A free gives back exactly the pages of its block. */
  lemma {:induction false} FreedPages(h: Heap, pages: set<nat>, a: nat, p: nat)
    requires Tiling(h, pages) && a in h.blocks && a !in h.free
    ensures FreePage(Freed(h, a), p) <==> FreePage(h, p) || a <= p < End(h, a)
    decreases BUCKETS - h.blocks[a]
  {
    hide Size, Aligned, Bit, Tiling, FreePage, Merge, Buddy;
    BlockAligned(h, pages, a);
    if CanMerge(h, a) {
      SplitMerge(h, a);
      MergeTiling(h, pages, a);
      MergePages(h, pages, a, p);
      FreedPages(Merge(h, a), pages, Lower(h, a), p);
      SizeStep(h.blocks[a]);
    } else {
      AddedPages(h, a, p);
    }
  }

  lemma AddedPages(h: Heap, a: nat, p: nat)
    requires a in h.blocks
    ensures FreePage(h.(free := h.free + {a}), p) <==> FreePage(h, p) || a <= p < End(h, a)
  {
    hide Size;
    var t := h.(free := h.free + {a});
    if FreePage(h, p) {
      var c :| c in h.free && c in h.blocks && c <= p < End(h, c);
      assert c in t.free && c in t.blocks && End(h, c) == End(t, c);
    }
    if FreePage(t, p) {
      var c :| c in t.free && c in t.blocks && c <= p < End(t, c);
      assert End(h, c) == End(t, c);
    }
    if a <= p < End(h, a) {
      assert a in t.free && End(t, a) == End(h, a);
    }
  }

  /** A free takes exactly its block from those in use. */
  lemma {:induction false} FreedUse(h: Heap, pages: set<nat>, a: nat, c: nat, j: nat)
    requires Tiling(h, pages) && a in h.blocks && a !in h.free
    ensures InUse(Freed(h, a), c, j) <==> InUse(h, c, j) && c != a
    decreases BUCKETS - h.blocks[a]
  {
    hide Size, Aligned, Bit, Tiling, Buddy;
    BlockAligned(h, pages, a);
    if CanMerge(h, a) {
      SplitMerge(h, a);
      MergeTiling(h, pages, a);
      FreedUse(Merge(h, a), pages, Lower(h, a), c, j);
    }
  }

  /** Giving back a block frees exactly its pages, and exactly that block is no longer in use. */
  lemma FreedAll(h: Heap, pages: set<nat>, a: nat)
    requires Tiling(h, pages) && a in h.blocks && a !in h.free
    ensures forall p: nat :: FreePage(Freed(h, a), p) <==> FreePage(h, p) || a <= p < End(h, a)
    ensures forall c: nat, j: nat :: InUse(Freed(h, a), c, j) <==> InUse(h, c, j) && c != a
  {
    hide Tiling, FreePage, Size, Freed, InUse;
    forall p: nat ensures FreePage(Freed(h, a), p) <==> FreePage(h, p) || a <= p < End(h, a) {
      FreedPages(h, pages, a, p);
    }
    forall c: nat, j: nat ensures InUse(Freed(h, a), c, j) <==> InUse(h, c, j) && c != a {
      FreedUse(h, pages, a, c, j);
    }
  }

  /** Registering a range adds exactly its pages to the free ones. */
  lemma KeptPages(g: Heap, h: Heap, before: set<nat>, lo: nat, hi: nat)
    requires Tiling(g, before) && Tiling(h, before + Interval(lo, hi)) && before !! Interval(lo, hi)
    requires Kept(g, h, lo, hi)
    ensures forall p: nat :: FreePage(h, p) <==> FreePage(g, p) || lo <= p < hi
  {
    hide Size, Interval;
    forall p: nat ensures FreePage(h, p) <==> FreePage(g, p) || lo <= p < hi {
      if FreePage(h, p) {
        var b :| b in h.free && b in h.blocks && b <= p < End(h, b);
        assert b in g.blocks ==> b in g.free && End(g, b) == End(h, b);
      }
      if FreePage(g, p) {
        var b :| b in g.free && b in g.blocks && b <= p < End(g, b);
        assert b in h.free && b in h.blocks && End(h, b) == End(g, b);
      }
      if lo <= p < hi {
        assert p in before + Interval(lo, hi);
        var b :| b in h.blocks && b <= p < End(h, b);
        if b in g.blocks {
          OldBlock(g, h, lo, hi, b, p);
        }
      }
    }
  }

  lemma OldBlock(g: Heap, h: Heap, lo: nat, hi: nat, b: nat, p: nat)
    requires Kept(g, h, lo, hi) && b in g.blocks && b in h.blocks && b <= p < End(h, b)
    ensures Covered(g, p)
  {
    hide Size;
    assert End(g, b) == End(h, b);
  }

  /** A free block that holds count pages; with the hint it also ends below 1 GiB. */
  ghost predicate Suits(h: Heap, a: nat, count: nat, low: bool)
  {
    && a in h.free && a in h.blocks && count <= Size(h.blocks[a])
    && (low ==> (a + Size(h.blocks[a])) * 4096 <= 0x4000_0000)
  }

  /** The blocks of the first four regions of 2^16 pages are those that end below 1 GiB. */
  lemma LowIff(a: nat, i: nat)
    requires Aligned(a, i) && i <= 16
    ensures Shift(a, 16) < 4 <==> (a + Size(i)) * 4096 <= 0x4000_0000
  {
    var p := a + Size(i) - 1;
    SameArea(a, i, p, 16);
    SizeOf16();
    hide Size, Shift, Aligned;
    ShiftDivides(a, 16);
    ShiftDivides(p, 16);
  }

  lemma SizeOf16()
    ensures Size(16) == 0x1_0000 && Size(15) == 0x8000
  {
    assert Size(8) == 0x100;
  }
}
