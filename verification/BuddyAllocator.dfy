/** The buddy page allocator: registration, allocation with splitting, freeing with coalescing. */
module BuddyAllocator {
  import opened Bits
  import opened BuddyBlocks
  import opened BuddyLists
  import opened BuddyPages

  /** Regions below the low-memory limit. */
  const LOW_REGIONS := 4

  /** Some bucket of region r holds blocks of class i or more. */
  predicate CanServe(bits: set<nat>, r: nat, i: nat)
  {
    exists k | i <= k < BUCKETS :: Slot(r, k) in bits
  }

  /** The regions an allocation may use. */
  function Limit(regions: nat, low: bool): nat
  {
    if low && LOW_REGIONS < regions then LOW_REGIONS else regions
  }

  /** r is the first region from base on, going around below the limit, that can serve class i. */
  ghost predicate FirstFrom(bits: set<nat>, base: nat, limit: nat, r: nat, i: nat)
  {
    && r < limit && CanServe(bits, r, i)
    && forall k: nat :: k < limit && (if base <= r then base <= k < r else k < r || base <= k) ==> !CanServe(bits, k, i)
  }

  lemma UnlinkedByParts(c: map<nat, Desc>, a: nat, prev: nat, next: nat)
    requires prev != a && next != a && (prev == next ==> prev == 0)
    ensures var d := c[a := At(c, a).(idx := USED)];
            var e := if prev > 0 then d[prev := At(d, prev).(next := next)] else d;
            Unlinked(c, if next > 0 then e[next := At(e, next).(prev := prev)] else e, a, prev, next)
  {}

  lemma UnlinkedHead(c: map<nat, Desc>, a: nat, next: nat)
    requires next != a
    ensures var d := if next > 0 then c[next := At(c, next).(prev := 0)] else c;
            Unlinked(c, d[a := At(d, a).(idx := USED)], a, 0, next)
  {}

  lemma LinkedByParts(c: map<nat, Desc>, a: nat, i: nat, e: nat, t: nat)
    requires t != a && e != a
    ensures var d := c[e := At(c, e).(tag := i)];
            var f := d[a := At(d, a).(prev := t, idx := i, next := 0)];
            Linked(c, if t > 0 then f[t := At(f, t).(next := a)] else f, a, i, e, t)
  {}

  class Pmm {
    const regions: nat
    var desc: map<nat, Desc>
    var head: seq<nat>
    var tail: seq<nat>
    var bits: set<nat>
    var index: nat
    ghost var lists: seq<seq<nat>>
    ghost var heap: Heap
    ghost var pages: set<nat>

    ghost function St(): State
      reads this
    {
      State(desc, head, tail, bits, lists, heap)
    }

    /** Descriptors, bitmap, lists and tags agree with a tiling of the registered pages. */
    ghost predicate Valid()
      reads this
    {
      Inv(St(), pages, {}) && |head| == BUCKETS * regions && (regions > 0 ==> index < regions)
    }

    /** No memory registered. */
    constructor (regions: nat)
      ensures Valid() && this.regions == regions && pages == {} && heap == Heap(map[], {})
    {
      this.regions := regions;
      desc := map[];
      head := seq(BUCKETS * regions, _ => 0);
      tail := seq(BUCKETS * regions, _ => 0);
      bits := {};
      index := 0;
      lists := seq(BUCKETS * regions, _ => []);
      heap := Heap(map[], {});
      pages := {};
    }

    /** Sets the boundary tag of a page. */
    method SetTag(p: nat, i: nat)
      modifies this`desc
      ensures desc == old(desc)[p := At(old(desc), p).(tag := i)]
    {
      desc := desc[p := At(desc, p).(tag := i)];
    }

    /** Takes the first block of a bucket off its list. */
    method PopHead(q: nat, ghost open: set<nat>) returns (out: nat)
      requires Inv(St(), pages, open) && q < |lists| && q in bits
      modifies this`desc, this`head, this`tail, this`bits, this`lists, this`heap
      ensures Inv(St(), pages, open) && out == old(head[q]) && out in old(heap).free
      ensures heap == old(heap).(free := old(heap).free - {out}) && bits <= old(bits) && |head| == |old(head)|
    {
      hide Inv, At, Bucket, Without, Unlinked;
      ghost var s := St();
      HeadBlock(s, pages, open, q);
      out := head[q];
      ghost var k := Position(s, pages, open, out);
      HeadPosition(s, pages, open, q, k);
      var next := At(desc, out).next;
      UnlinkedHead(desc, out, next);
      head := head[q := next];
      if next == 0 {
        tail := tail[q := 0];
        bits := bits - {q};
      } else {
        desc := desc[next := At(desc, next).(prev := 0)];
      }
      desc := desc[out := At(desc, out).(idx := USED)];
      RemovedInv(s, pages, open, desc, q, 0);
      lists := lists[q := Without(lists[q], 0)];
      heap := heap.(free := heap.free - {out});
    }

    /** Takes any free block off its list. */
    method Unlink(a: nat, i: nat, ghost open: set<nat>)
      requires Inv(St(), pages, open) && a in heap.free && a in heap.blocks && heap.blocks[a] == i
      modifies this`desc, this`head, this`tail, this`bits, this`lists, this`heap
      ensures Inv(St(), pages, open)
      ensures heap == old(heap).(free := old(heap).free - {a}) && |head| == |old(head)|
    {
      hide Inv, At, Bucket, Without, Unlinked;
      ghost var s := St();
      ghost var k := Position(s, pages, open, a);
      var q := Bucket(a, i);
      var prev, next := At(desc, a).prev, At(desc, a).next;
      UnlinkedByParts(desc, a, prev, next);
      desc := desc[a := At(desc, a).(idx := USED)];
      if prev > 0 {
        desc := desc[prev := At(desc, prev).(next := next)];
      } else {
        head := head[q := next];
        if next == 0 {
          bits := bits - {q};
        }
      }
      if next > 0 {
        desc := desc[next := At(desc, next).(prev := prev)];
      } else {
        tail := tail[q := prev];
      }
      RemovedInv(s, pages, open, desc, q, k);
      lists := lists[q := Without(lists[q], k)];
      heap := heap.(free := heap.free - {a});
    }

    /** Tags and initialises a block that is in use and appends it to its bucket. */
    method Append(a: nat, i: nat, ghost open: set<nat>)
      requires Inv(St(), pages, open) && a in heap.blocks && a !in heap.free && heap.blocks[a] == i
      modifies this`desc, this`head, this`tail, this`bits, this`lists, this`heap
      ensures Inv(St(), pages, open - {a})
      ensures heap == old(heap).(free := old(heap).free + {a}) && |head| == |old(head)|
    {
      hide Inv, At, Bucket, Linked;
      ghost var s := St();
      UsedBlock(s, pages, open, a);
      var q := Bucket(a, i);
      var t := tail[q];
      LinkedByParts(desc, a, i, a + Size(i), t);
      SetTag(a + Size(i), i);
      desc := desc[a := At(desc, a).(prev := t, idx := i, next := 0)];
      if t > 0 {
        desc := desc[t := At(desc, t).(next := a)];
      } else {
        head := head[q := a];
      }
      tail := tail[q := a];
      bits := bits + {q};
      AddedInv(s, pages, open, desc, q, a);
      lists := lists[q := lists[q] + [a]];
      heap := heap.(free := heap.free + {a});
    }

    /** The lowest set bit of region r's bitmap from class i on. */
    method LowestBit(r: nat, i: nat) returns (j: nat)
      requires CanServe(bits, r, i)
      ensures i <= j < BUCKETS && Slot(r, j) in bits && forall k :: i <= k < j ==> Slot(r, k) !in bits
    {
      hide Slot;
      ghost var m :| i <= m < BUCKETS && Slot(r, m) in bits;
      j := i;
      while Slot(r, j) !in bits
        invariant i <= j <= m && forall k :: i <= k < j ==> Slot(r, k) !in bits
        decreases m - j
      {
        j := j + 1;
      }
    }

    /**
      * The load balancer's choice: the next region in turn that can serve the class; with the low-memory hint, the
      * choice is folded into the low regions and the search goes once around those.
      */
    method Select(i: nat, low: bool) returns (found: bool, r: nat, ghost turn: nat)
      requires index < regions && exists r: nat :: r < regions && CanServe(bits, r, i)
      modifies this`index
      ensures FirstFrom(bits, old(index), regions, turn, i) && index == if turn + 1 == regions then 0 else turn + 1
      ensures found ==> FirstFrom(bits, if low then turn % 4 else turn, Limit(regions, low), r, i)
      ensures !found ==> low && forall k: nat :: k < Limit(regions, low) ==> !CanServe(bits, k, i)
    {
      hide CanServe;
      ghost var m: nat :| m < regions && CanServe(bits, m, i);
      ghost var base, wrapped := index, false;
      r := index;
      index := if index + 1 >= regions then index + 1 - regions else index + 1;
      while !CanServe(bits, r, i)
        invariant r < regions && index == if r + 1 >= regions then 0 else r + 1
        invariant if wrapped then r < base else r >= base
        invariant forall k: nat :: k < regions && (if wrapped then k < r || base <= k else base <= k < r) ==>
                  !CanServe(bits, k, i)
        decreases if wrapped then base - r else base + regions - r
      {
        if index == 0 {
          wrapped := true;
        }
        if index == base {
          assert false;
        }
        r := index;
        index := if index + 1 >= regions then index + 1 - regions else index + 1;
      }
      turn := r;
      found, r := SearchFrom(if low then r % LOW_REGIONS else r, i, low);
    }

    /** Goes once around the permitted regions, starting at base. */
    method SearchFrom(base: nat, i: nat, low: bool) returns (found: bool, r: nat)
      requires base < Limit(regions, low)
      ensures found ==> FirstFrom(bits, base, Limit(regions, low), r, i)
      ensures !found ==> forall k: nat :: k < Limit(regions, low) ==> !CanServe(bits, k, i)
    {
      hide CanServe;
      r := base;
      ghost var wrapped := false;
      while !CanServe(bits, r, i)
        invariant r < Limit(regions, low) && (if wrapped then r < base else r >= base)
        invariant forall k: nat :: (if wrapped then k < r || base <= k < Limit(regions, low) else base <= k < r) ==>
                  !CanServe(bits, k, i)
        decreases if wrapped then base - r else base + Limit(regions, low) - r
      {
        r := if low then (r + 1) % LOW_REGIONS else r + 1;
        if r == regions {
          r := 0;
        }
        if r == 0 {
          wrapped := true;
        }
        if r == base {
          return false, r;
        }
      }
      found := true;
    }

    /** Puts the upper half of the block in use on its list, which is empty. */
    method SplitOff(out: nat, j: nat)
      requires Inv(St(), pages, {out}) && out in heap.blocks && out !in heap.free && heap.blocks[out] == j + 1
      requires Bucket(out, j) !in bits
      modifies this`desc, this`head, this`tail, this`bits, this`lists, this`heap
      ensures Inv(St(), pages, {out}) && heap == Split(old(heap), out) && bits == old(bits) + {Bucket(out, j)}
              && |head| == |old(head)|
      ensures forall p: nat :: p != out + Size(j + 1) ==> At(desc, p).tag == At(old(desc), p).tag
    {
      hide Inv, At, Bucket, Linked, Size;
      ghost var s := St();
      var split := out + Size(j);
      SizeStep(j);
      HalvedInv(s, pages, {out}, out);
      heap := Halved(heap, out);
      ghost var h := St();
      assert {out} + {split} == {out, split};
      UsedBlock(h, pages, {out, split}, split);
      HeadBlock(h, pages, {out, split}, Bucket(split, j));
      LinkedByParts(desc, split, j, split + Size(j), 0);
      SetTag(split + Size(j), j);
      desc := desc[split := At(desc, split).(prev := 0, idx := j, next := 0)];
      var q := Bucket(split, j);
      head := head[q := split];
      tail := tail[q := split];
      bits := bits + {q};
      LinkedTags(s.desc, desc, split, j, split + Size(j), 0);
      AddedInv(h, pages, {out, split}, desc, q, split);
      lists := lists[q := lists[q] + [split]];
      heap := heap.(free := heap.free + {split});
      assert {out, split} - {split} == {out};
      assert St() == Added(h, desc, q, split);
    }

    /** The locked part of an allocation from a region that can serve it. */
    method Take(r: nat, i: nat) returns (out: nat)
      requires Inv(St(), pages, {}) && r < regions && |head| == BUCKETS * regions && CanServe(bits, r, i)
      modifies this`desc, this`head, this`tail, this`bits, this`lists, this`heap
      ensures Inv(St(), pages, {}) && |head| == |old(head)|
      ensures out in old(heap).free && out in old(heap).blocks && i <= old(heap).blocks[out] < BUCKETS
      ensures Bucket(out, old(heap).blocks[out]) == Slot(r, old(heap).blocks[out])
      ensures forall k :: i <= k < old(heap).blocks[out] ==> Slot(r, k) !in old(bits)
      ensures heap == Taken(old(heap), out, i)
      ensures out in heap.blocks && out !in heap.free && heap.blocks[out] == i
    {
      hide Inv, At, Bucket, Size, CanServe, Split, Slot, Shift;
      var j := LowestBit(r, i);
      var q := Slot(r, j);
      ghost var s := St();
      SlotBound(s, pages, r, j, regions);
      HeadBlock(s, pages, {}, q);
      FreeBlock(s, pages, {}, head[q]);
      BucketClass(head[q], heap.blocks[head[q]], r, j);
      out := PopHead(q, {});
      OpenMore(St(), pages, out);
      TagWithin(St(), pages, out, i);
      SetTag(out + Size(i), i);
      while j > i
        invariant i <= j < BUCKETS && Inv(St(), pages, {out}) && |head| == |old(head)|
        invariant out in heap.blocks && out !in heap.free && heap.blocks[out] == j
        invariant Carve(heap, out, i) == Taken(old(heap), out, i)
        invariant forall k :: i <= k < j ==> Slot(r, k) !in bits
        invariant At(desc, out + Size(i)).tag == i
      {
        j := j - 1;
        SlotOf(out, r, j);
        SizeDiffer(i, j + 1);
        SplitBlock(heap, out, i);
        SplitOff(out, j);
        SlotsDiffer(r, j);
      }
      ClosedInv(St(), pages, out);
    }

    /**
      * Allocates pages. The block comes from the smallest sufficient bucket of a region that can serve the request and
      * is halved down to the smallest sufficient class. With the low-memory hint it lies below 1 GiB. Fails (a panic)
      * for no pages, for more than 2^15, and when no free block suits.
      */
    method Alloc(count: nat, low: bool) returns (ok: bool, out: nat, ghost r: nat, ghost turn: nat)
      requires Valid() && index < regions
      requires 0 < count <= 0x8000 ==> exists a :: Suits(heap, a, count, false)
      modifies this
      ensures Valid() && pages == old(pages)
      ensures !ok ==> heap == old(heap)
      ensures ok <==> 0 < count <= 0x8000 && exists a :: Suits(old(heap), a, count, low)
      ensures ok ==>
                && Suits(old(heap), out, count, low) && (low ==> (out + Size(ClassOf(count))) * 4096 <= 0x4000_0000)
                && FirstFrom(old(bits), old(index), regions, turn, ClassOf(count))
                && FirstFrom(old(bits), if low then turn % 4 else turn, if low && regions > 4 then 4 else regions, r,
                   ClassOf(count))
                && index == (if turn + 1 == regions then 0 else turn + 1)
                && Bucket(out, old(heap).blocks[out]) == Slot(r, old(heap).blocks[out])
                && (forall k :: ClassOf(count) <= k < old(heap).blocks[out] ==> Slot(r, k) !in old(bits))
      ensures ok ==>
                && heap == Taken(old(heap), out, ClassOf(count)) && (Coalesced(old(heap)) ==> Coalesced(heap))
                && (forall p: nat :: FreePage(heap, p) <==>
                     FreePage(old(heap), p) && !(out <= p < out + Size(ClassOf(count))))
                && (forall c: nat, j: nat :: InUse(heap, c, j) <==>
                     InUse(old(heap), c, j) || (c == out && j == ClassOf(count)))
    {
      hide Inv, At, Bucket, Size, CanServe, Coalesced, Taken, Tiling, FirstFrom, FreePage, InUse, Suits, Limit, Slot,
        ClassOf;
      r, turn := 0, 0;
      if count == 0 {
        return false, 0, 0, 0;
      }
      var i := ClassOf(count);
      ClassBound(count);
      if i >= BUCKETS {
        return false, 0, 0, 0;
      }
      ghost var s := St();
      SuitsIff(s, pages, regions, count, false);
      SuitsIff(s, pages, regions, count, low);
      LimitBound(regions, low);
      AnyRegion(bits, regions, i);
      var region;
      ok, region, turn := Select(i, low);
      FirstServes(bits, old(index), regions, turn, i);
      if !ok {
        NoRegion(bits, Limit(regions, low), i);
        return false, 0, 0, 0;
      }
      r := region;
      FirstServes(bits, if low then turn % 4 else turn, Limit(regions, low), r, i);
      HeapThreaded(s, pages, {});
      out := Take(region, i);
      TakenSuits(s, pages, regions, count, low, out, r);
      TakenPages(s.heap, pages, out, i);
      if Coalesced(old(heap)) {
        TakenCoalesced(old(heap), pages, out, i);
      }
    }

    /**
      * Gives back a block. It merges with its buddy as long as that is free and of the same class, and then goes to
      * the end of its bucket. Fails (a panic) for no pages and for too many.
      */
    method Dealloc(a: nat, count: nat) returns (ok: bool)
      requires Valid()
      requires 0 < count <= 0x8000 ==>
               a in heap.blocks && a !in heap.free && heap.blocks[a] == ClassOf(count)
      modifies this
      ensures Valid() && pages == old(pages) && index == old(index)
      ensures ok <==> 0 < count <= 0x8000
      ensures ok ==>
                && heap == Freed(old(heap), a) && (Coalesced(old(heap)) ==> Coalesced(heap))
                && (forall p: nat :: FreePage(heap, p) <==>
                     FreePage(old(heap), p) || a <= p < a + Size(ClassOf(count)))
                && (forall c: nat, j: nat :: InUse(heap, c, j) <==> InUse(old(heap), c, j) && c != a)
      ensures !ok ==> heap == old(heap)
    {
      hide Inv, At, Bucket, Size, Freed, Coalesced, FreePage, InUse, Tiling, ClassOf;
      if count == 0 {
        return false;
      }
      var i := ClassOf(count);
      ClassBound(count);
      if i >= BUCKETS {
        return false;
      }
      HeapThreaded(St(), pages, {});
      FreedCoalesced(heap, pages, a);
      FreedAll(heap, pages, a);
      Release(a, i);
      ok := true;
    }

    /** The locked part of a free. */
    method Release(block: nat, order: nat)
      requires Inv(St(), pages, {}) && block in heap.blocks && block !in heap.free
               && heap.blocks[block] == order < BUCKETS
      modifies this`desc, this`head, this`tail, this`bits, this`lists, this`heap
      ensures Inv(St(), pages, {}) && heap == Freed(old(heap), block) && |head| == |old(head)|
    {
      hide Inv, At, Bucket, Size, Freed, Aligned, Bit, Merge, CanMerge, Lower, Buddy;
      var a, i := block, order;
      OpenMore(St(), pages, a);
      while i < BUCKETS - 1
        invariant i < BUCKETS && Inv(St(), pages, {a}) && |head| == |old(head)|
        invariant a in heap.blocks && a !in heap.free && heap.blocks[a] == i
        invariant Freed(heap, a) == Freed(old(heap), block)
      {
        TagTells(St(), pages, a);
        if Bit(a, i) && At(desc, a).tag != i {
          break;
        }
        var buddy := Buddy(a, i);
        if At(desc, buddy).idx != i {
          break;
        }
        ghost var h := heap;
        HeapThreaded(St(), pages, {a});
        FreedStep(h, pages, a);
        Unlink(buddy, i, {a});
        JoinedInv(St(), pages, a, h);
        heap := Merge(h, a);
        a := if Bit(a, i) then buddy else a;
        i := i + 1;
      }
      FreedLast(heap, a);
      Append(a, i, {a});
      assert {a} - {a} == {};
    }

    /**
      * Registers the pages from lo up to hi as free memory. Blocks that were there stay as they are; the new ones are
      * free. The heap stays coalesced exactly when neither the first nor the last new block meets a free buddy outside
      * the range.
      */
    method AddRange(lo: nat, hi: nat)
      requires Valid() && lo > 0 && pages !! Interval(lo, hi) && (lo < hi ==> Shift(hi - 1, REGION_SHIFT) < regions)
      modifies this
      ensures Valid() && pages == old(pages) + Interval(lo, hi) && index == old(index)
      ensures forall a :: a in old(heap).blocks ==>
              a in heap.blocks && heap.blocks[a] == old(heap).blocks[a] && (a in heap.free <==> a in old(heap).free)
      ensures forall a :: a in heap.blocks && a !in old(heap).blocks ==> a in heap.free && lo <= a && End(heap, a) <= hi
      ensures lo < hi ==> (Coalesced(heap) <==> Coalesced(old(heap)) && !Clash(old(heap), lo, hi))
      ensures lo < hi && EdgesClear(old(pages), lo, hi) ==> !Clash(old(heap), lo, hi)
      ensures lo >= hi ==> heap == old(heap)
      ensures forall p: nat :: FreePage(heap, p) <==> FreePage(old(heap), p) || lo <= p < hi
      ensures forall c: nat, j: nat :: InUse(heap, c, j) <==> InUse(old(heap), c, j)
    {
      hide Inv, At, Bucket, Size, Aligned, Coalesced, EdgesClear, Shift, Interval, RangeClass, LastOfRange, Kept,
        LastStart, ClashAt, CoalescedTo, Tiling, Clash, FreePage;
      if lo >= hi {
        assert Interval(lo, hi) == {};
        return;
      }
      assert Interval(lo, lo) == {};
      KeptMeans(heap, heap, lo, lo);
      ghost var s := St();
      HeapThreaded(s, pages, {});
      RangeEnds(heap, heap, lo, lo, hi);
      if EdgesClear(pages, lo, hi) {
        ClearEdges(heap, pages, lo, hi);
      }
      var a := lo;
      ghost var b: nat := 0;
      while a < hi
        invariant lo <= a <= hi && Inv(St(), pages, {}) && |head| == BUCKETS * regions && index == old(index)
        invariant pages == old(pages) + Interval(lo, a)
        invariant Kept(old(heap), heap, lo, a)
        invariant a > lo ==> LastOfRange(heap, b, a, hi)
        invariant CoalescedTo(old(heap), heap, lo, a, hi) && (a < hi ==> LastStart(a, hi) == LastStart(lo, hi))
      {
        var i := RangeClass(a, hi - a);
        HeapThreaded(St(), pages, {});
        RangeStep(old(heap), heap, old(pages), pages, lo, a, hi, b);
        AddBlock(a, i, hi - 1);
        b := a;
        a := a + Size(i);
      }
      KeptMeans(old(heap), heap, lo, hi);
      RangeEnds(old(heap), heap, lo, hi, hi);
      HeapThreaded(St(), pages, {});
      KeptPages(old(heap), heap, old(pages), lo, hi);
    }

    /** One block of a range, appended to its bucket. */
    method AddBlock(a: nat, i: nat, ghost last: nat)
      requires Inv(St(), pages, {}) && |head| == BUCKETS * regions && pages !! Interval(a, a + Size(i))
      requires a > 0 && i < BUCKETS && Aligned(a, i) && a <= last && Shift(last, REGION_SHIFT) < regions
      modifies this`desc, this`head, this`tail, this`bits, this`lists, this`heap, this`pages
      ensures Inv(St(), pages, {}) && |head| == |old(head)|
      ensures heap == Placed(old(heap), a, i).(free := old(heap).free + {a})
              && pages == old(pages) + Interval(a, a + Size(i))
    {
      hide Inv, At, Bucket, Size, Aligned, Shift, Interval;
      PlacedInv(St(), pages, a, i, last, regions);
      heap := Placed(heap, a, i);
      pages := pages + Interval(a, a + Size(i));
      Append(a, i, {a});
      assert {a} - {a} == {};
    }
  }

  /** Some region below the limit can serve class i. */
  ghost predicate Serves(bits: set<nat>, limit: nat, i: nat)
  {
    exists r: nat :: r < limit && CanServe(bits, r, i)
  }

  lemma AnyRegion(bits: set<nat>, limit: nat, i: nat)
    ensures Serves(bits, limit, i) <==> exists r: nat :: r < limit && CanServe(bits, r, i)
  {
    hide CanServe;
  }

  lemma NoRegion(bits: set<nat>, limit: nat, i: nat)
    requires forall k: nat :: k < limit ==> !CanServe(bits, k, i)
    ensures !Serves(bits, limit, i)
  {
    hide CanServe;
  }

  lemma FirstServes(bits: set<nat>, base: nat, limit: nat, r: nat, i: nat)
    requires FirstFrom(bits, base, limit, r, i)
    ensures r < limit && CanServe(bits, r, i) && Serves(bits, limit, i)
  {
    hide CanServe;
  }

  lemma LimitBound(regions: nat, low: bool)
    ensures Limit(regions, low) == (if low && regions > 4 then 4 else regions) && Limit(regions, false) == regions
  {}

  /** A permitted region can serve a request exactly when some free block suits it. */
  lemma SuitsIff(s: State, pages: set<nat>, regions: nat, count: nat, low: bool)
    requires Inv(s, pages, {}) && |s.head| == BUCKETS * regions && count > 0
    ensures Serves(s.bits, Limit(regions, low), ClassOf(count)) <==> exists a :: Suits(s.heap, a, count, low)
  {
    hide Inv, CanServe, Suits, Slot, Shift, ClassOf;
    var i := ClassOf(count);
    if Serves(s.bits, Limit(regions, low), i) {
      var r: nat :| r < Limit(regions, low) && CanServe(s.bits, r, i);
      SlotBound(s, pages, r, BUCKETS - 1, regions);
      ServeIff(s, pages, r, i);
      var a :| a in s.heap.free && a in s.heap.blocks && Shift(a, REGION_SHIFT) == r && i <= s.heap.blocks[a];
      BlockSuits(s, pages, regions, count, low, a);
    }
    if a :| Suits(s.heap, a, count, low) {
      SuitsFree(s.heap, a, count, low);
      BlockSuits(s, pages, regions, count, low, a);
      SlotBound(s, pages, Shift(a, REGION_SHIFT), BUCKETS - 1, regions);
      ServeIff(s, pages, Shift(a, REGION_SHIFT), i);
    }
  }

  lemma SuitsFree(h: Heap, a: nat, count: nat, low: bool)
    requires Suits(h, a, count, low)
    ensures a in h.free && a in h.blocks
  {}

  /** A free block suits a request exactly when its class is sufficient and its region is permitted. */
  lemma BlockSuits(s: State, pages: set<nat>, regions: nat, count: nat, low: bool, a: nat)
    requires Inv(s, pages, {}) && |s.head| == BUCKETS * regions && count > 0 && a in s.heap.free && a in s.heap.blocks
    ensures Shift(a, REGION_SHIFT) < regions
    ensures Suits(s.heap, a, count, low) <==>
            ClassOf(count) <= s.heap.blocks[a] && Shift(a, REGION_SHIFT) < Limit(regions, low)
  {
    hide Inv, Size, Shift, Aligned;
    HeapThreaded(s, pages, {});
    BlockAligned(s.heap, pages, a);
    FreeBlock(s, pages, {}, a);
    RegionOf(a, s.heap.blocks[a], regions);
    LowIff(a, s.heap.blocks[a]);
    if ClassOf(count) <= s.heap.blocks[a] {
      SizeMonotone(ClassOf(count), s.heap.blocks[a]);
    }
  }

  lemma RegionOf(a: nat, i: nat, regions: nat)
    requires Bucket(a, i) < BUCKETS * regions
    ensures Shift(a, REGION_SHIFT) < regions
  {
    hide Shift;
  }

  /** The block that was taken suits the request, and so does the part of it that is used. */
  lemma TakenSuits(s: State, pages: set<nat>, regions: nat, count: nat, low: bool, a: nat, r: nat)
    requires Inv(s, pages, {}) && |s.head| == BUCKETS * regions && count > 0 && r < Limit(regions, low)
    requires a in s.heap.free && a in s.heap.blocks && ClassOf(count) <= s.heap.blocks[a] < BUCKETS
    requires Bucket(a, s.heap.blocks[a]) == Slot(r, s.heap.blocks[a])
    ensures Suits(s.heap, a, count, low) && (low ==> (a + Size(ClassOf(count))) * 4096 <= 0x4000_0000)
  {
    hide Inv, Size, Bucket, Slot, ClassOf;
    BucketClass(a, s.heap.blocks[a], r, s.heap.blocks[a]);
    BlockSuits(s, pages, regions, count, low, a);
    SizeMonotone(ClassOf(count), s.heap.blocks[a]);
  }

  lemma HeadPosition(s: State, pages: set<nat>, open: set<nat>, q: nat, k: nat)
    requires Inv(s, pages, open) && q < |s.lists| && k < |s.lists[q]| && s.lists[q][k] == s.lists[q][0]
    ensures k == 0
  {
    assert ListOk(s, q);
  }

  lemma UsedBlock(s: State, pages: set<nat>, open: set<nat>, a: nat)
    requires Inv(s, pages, open) && a in s.heap.blocks && a !in s.heap.free
    ensures var q := Bucket(a, s.heap.blocks[a]);
            && q < |s.lists| == |s.head| == |s.tail| && s.tail[q] != a && (s.lists[q] == [] <==> s.tail[q] == 0)
            && a > 0 && s.heap.blocks[a] < BUCKETS
  {
    hide Bucket, Covered, BlocksApart, At;
    var q := Bucket(a, s.heap.blocks[a]);
    assert ListOk(s, q);
    if s.lists[q] != [] {
      LinkOf(s.desc, s.lists[q], |s.lists[q]| - 1);
    }
  }

  lemma LinkedTags(c: map<nat, Desc>, d: map<nat, Desc>, a: nat, i: nat, e: nat, t: nat)
    requires Linked(c, d, a, i, e, t)
    ensures forall p: nat :: p != e ==> At(d, p).tag == At(c, p).tag
  {
    hide At;
  }

  lemma ClassBound(count: nat)
    requires count > 0
    ensures ClassOf(count) < BUCKETS <==> count <= 0x8000
  {
    SizeOf16();
    hide Size;
    if count <= Size(BUCKETS - 1) {
    } else if ClassOf(count) < BUCKETS {
      SizeMonotone(ClassOf(count), BUCKETS - 1);
    }
  }

  lemma SlotBound(s: State, pages: set<nat>, r: nat, j: nat, regions: nat)
    requires Inv(s, pages, {}) && |s.head| == BUCKETS * regions && r < regions && j < BUCKETS
    ensures Slot(r, j) < |s.lists| == |s.head|
  {
    hide Tiling, ListOk, Marked, Tagged, Bucket;
  }

  /** A bucket determines the region and the class. */
  lemma BucketClass(a: nat, i: nat, r: nat, j: nat)
    requires Bucket(a, i) == Slot(r, j) && i < BUCKETS && j < BUCKETS
    ensures i == j && Shift(a, REGION_SHIFT) == r
  {
    hide Shift;
  }

  lemma SlotOf(a: nat, r: nat, j: nat)
    requires Shift(a, REGION_SHIFT) == r
    ensures Bucket(a, j) == Slot(r, j)
  {
    hide Shift, Slot;
  }

  lemma SlotsDiffer(r: nat, j: nat)
    ensures forall k: nat :: k != j ==> Slot(r, k) != Slot(r, j)
  {}

  lemma OpenMore(s: State, pages: set<nat>, a: nat)
    requires Inv(s, pages, {})
    ensures Inv(s, pages, {a})
  {
    hide Tiling, Marked, Threaded;
  }

  lemma TagWithin(s: State, pages: set<nat>, a: nat, i: nat)
    requires Inv(s, pages, {a}) && a in s.heap.blocks && i <= s.heap.blocks[a]
    ensures Inv(s.(desc := s.desc[a + Size(i) := At(s.desc, a + Size(i)).(tag := i)]), pages, {a})
    ensures At(s.desc[a + Size(i) := At(s.desc, a + Size(i)).(tag := i)], a + Size(i)).tag == i
  {
    hide Inv, Size;
    SizeMonotone(i, s.heap.blocks[a]);
    RetaggedInv(s, pages, a, a + Size(i), i, s.desc[a + Size(i) := At(s.desc, a + Size(i)).(tag := i)]);
  }

  lemma SizeDiffer(i: nat, j: nat)
    requires i < j
    ensures Size(i) < Size(j)
  {
    SizeMonotone(i, j);
  }

  lemma SplitBlock(h: Heap, a: nat, i: nat)
    requires a in h.blocks && h.blocks[a] > i && a !in h.free
    ensures var t := Split(h, a);
            a in t.blocks && a !in t.free && t.blocks[a] == h.blocks[a] - 1 && Carve(h, a, i) == Carve(t, a, i)
  {}

  /** What the descriptors tell about merging: the buddy's index decides, and the boundary tag never forbids a merge. */
  lemma TagTells(s: State, pages: set<nat>, a: nat)
    requires Inv(s, pages, {a}) && a in s.heap.blocks && a !in s.heap.free && s.heap.blocks[a] < BUCKETS - 1
    ensures var i := s.heap.blocks[a];
            && Aligned(a, i)
            && (At(s.desc, Buddy(a, i)).idx == i <==> CanMerge(s.heap, a))
            && (CanMerge(s.heap, a) && Bit(a, i) ==> At(s.desc, a).tag == i)
            && Lower(s.heap, a) == if Bit(a, i) then Buddy(a, i) else a
  {
    hide Covered, BlocksApart, Threaded, At, Size, Aligned, Bit;
    var i := s.heap.blocks[a];
    var b := Buddy(a, i);
    BuddyTwice(a, i);
    if CanMerge(s.heap, a) && Bit(a, i) {
      assert End(s.heap, b) == a;
    }
  }

  lemma FreedStep(h: Heap, pages: set<nat>, a: nat)
    requires Tiling(h, pages) && CanMerge(h, a)
    ensures Aligned(a, h.blocks[a]) && var b := Buddy(a, h.blocks[a]);
            b in h.free && b in h.blocks && h.blocks[b] == h.blocks[a]
    ensures Lower(h, a) in Merge(h, a).blocks && Freed(h, a) == Freed(Merge(h, a), Lower(h, a))
  {
    hide Tiling, Merge, Lower, Aligned, Bit, Size, Buddy;
    SplitMerge(h, a);
  }

  lemma FreedLast(h: Heap, a: nat)
    requires a in h.blocks && (h.blocks[a] == BUCKETS - 1 || !CanMerge(h, a))
    ensures Freed(h, a) == h.(free := h.free + {a})
  {}

  /** Which region can serve a request: exactly one with a free block of sufficient class. */
  lemma ServeIff(s: State, pages: set<nat>, r: nat, i: nat)
    requires Inv(s, pages, {}) && Slot(r, BUCKETS - 1) < |s.lists|
    ensures CanServe(s.bits, r, i) <==>
              exists a :: a in s.heap.free && a in s.heap.blocks && Shift(a, REGION_SHIFT) == r && i <= s.heap.blocks[a]
  {
    hide Inv, At, Shift, Bucket;
    if CanServe(s.bits, r, i) {
      var k :| i <= k < BUCKETS && Slot(r, k) in s.bits;
      var q := Slot(r, k);
      HeadBlock(s, pages, {}, q);
      FreeBlock(s, pages, {}, s.head[q]);
      BucketClass(s.head[q], s.heap.blocks[s.head[q]], r, k);
    }
    if a :| a in s.heap.free && a in s.heap.blocks && Shift(a, REGION_SHIFT) == r && i <= s.heap.blocks[a] {
      FreeBlock(s, pages, {}, a);
      SlotOf(a, r, s.heap.blocks[a]);
      HeadBlock(s, pages, {}, Slot(r, s.heap.blocks[a]));
    }
  }

  // ---------------------------------------------------------------------------
  // Registering ranges
  // ---------------------------------------------------------------------------

  lemma RangeEnds(g: Heap, h: Heap, lo: nat, a: nat, hi: nat)
    requires 0 < lo < hi
    ensures g == h && a == lo ==> CoalescedTo(g, h, lo, a, hi)
    ensures a == hi && CoalescedTo(g, h, lo, a, hi) ==> (Coalesced(h) <==> Coalesced(g) && !Clash(g, lo, hi))
  {
    hide Coalesced, ClashAt, LastStart, RangeClass;
  }

  lemma KeptMeans(g: Heap, h: Heap, lo: nat, a: nat)
    ensures g == h ==> Kept(g, h, lo, a)
    ensures Kept(g, h, lo, a) ==>
              && (forall c :: c in g.blocks ==>
                 c in h.blocks && h.blocks[c] == g.blocks[c] && (c in h.free <==> c in g.free))
              && forall c :: c in h.blocks && c !in g.blocks ==> c in h.free && lo <= c && End(h, c) <= a
  {
    hide Size;
  }

  lemma PlacedInv(s: State, pages: set<nat>, a: nat, i: nat, last: nat, regions: nat)
    requires Inv(s, pages, {}) && |s.head| == BUCKETS * regions && pages !! Interval(a, a + Size(i))
    requires a > 0 && i < BUCKETS && Aligned(a, i) && a <= last && Shift(last, REGION_SHIFT) < regions
    ensures Inv(s.(heap := Placed(s.heap, a, i)), pages + Interval(a, a + Size(i)), {a})
    ensures a !in s.heap.blocks && a !in s.heap.free
  {
    hide Tiling, Interval, Size, Aligned, Shift, Threaded, Marked, Tagged;
    PlacedTiling(s.heap, pages, a, i);
    PlacedMarks(s, pages, a, i);
    PlacedThreaded(s, a, i, last, regions);
  }

  lemma PlacedMarks(s: State, pages: set<nat>, a: nat, i: nat)
    requires Inv(s, pages, {}) && a !in s.heap.blocks
    ensures a !in s.heap.free && s.heap.free <= s.heap.blocks.Keys
    ensures Marked(s.desc, Placed(s.heap, a, i)) && Tagged(s.desc, Placed(s.heap, a, i), {a})
  {
    hide Covered, BlocksApart, At, Size, Aligned, Threaded;
    var t := Placed(s.heap, a, i);
    assert forall c :: c in s.heap.blocks ==> End(t, c) == End(s.heap, c);
  }

  lemma PlacedThreaded(s: State, a: nat, i: nat, last: nat, regions: nat)
    requires Threaded(s) && s.heap.free <= s.heap.blocks.Keys && a !in s.heap.blocks
    requires |s.head| == BUCKETS * regions && i < BUCKETS && a <= last && Shift(last, REGION_SHIFT) < regions
    ensures Threaded(s.(heap := Placed(s.heap, a, i)))
  {
    hide ListOk, Shift;
    ShiftMonotone(a, last, REGION_SHIFT);
    SameFreeThreaded(s, Placed(s.heap, a, i));
  }

  /** The heap is coalesced up to page a of the range exactly when no block so far clashes. */
  ghost predicate CoalescedTo(g: Heap, h: Heap, lo: nat, a: nat, hi: nat)
    requires 0 < lo < hi
  {
    var l := LastStart(lo, hi);
    Coalesced(h) <==>
      Coalesced(g) && !(a > lo && ClashAt(g, lo, RangeClass(lo, hi - lo)))
        && !(a == hi && ClashAt(g, l, RangeClass(l, hi - l)))
  }

  /** One block of a range. */
  lemma RangeStep(g: Heap, h: Heap, before: set<nat>, pages: set<nat>, lo: nat, a: nat, hi: nat, b: nat)
    requires Tiling(g, before) && Tiling(h, pages) && 0 < lo <= a < hi && pages == before + Interval(lo, a)
             && before !! Interval(lo, hi)
    requires (a > lo ==> LastOfRange(h, b, a, hi)) && Kept(g, h, lo, a) && LastStart(a, hi) == LastStart(lo, hi)
             && CoalescedTo(g, h, lo, a, hi)
    ensures var i := RangeClass(a, hi - a);
            var t := Placed(h, a, i).(free := h.free + {a});
            && a + Size(i) <= hi && pages !! Interval(a, a + Size(i))
            && pages + Interval(a, a + Size(i)) == before + Interval(lo, a + Size(i))
            && Kept(g, t, lo, a + Size(i)) && LastOfRange(t, a, a + Size(i), hi)
            && (a + Size(i) < hi ==> LastStart(a + Size(i), hi) == LastStart(lo, hi))
            && CoalescedTo(g, t, lo, a + Size(i), hi)
  {
    hide Tiling, Interval, RangeClass, Size, Aligned, Coalesced, CanMerge, ClashAt, LastStart, Kept, CoalescedTo,
      LastOfRange;
    var i := RangeClass(a, hi - a);
    assert pages !! Interval(a, a + Size(i));
    NotPlaced(h, pages, a, i);
    NextOfRange(g, h, pages, lo, a, hi, b);
    PlacedCoalesced(h, pages, a, i);
    if lo < a && a + Size(i) < hi {
      MiddleOfRange(g, before, lo, a, hi, i);
    }
    LastStep(a, hi);
    KeptStep(g, h, lo, a, i);
    LastStepOfRange(h, a, hi);
    ClashStep(g, h, Placed(h, a, i).(free := h.free + {a}), lo, a, hi, i);
  }

  lemma LastStep(a: nat, hi: nat)
    requires 0 < a < hi
    ensures var n := a + Size(RangeClass(a, hi - a));
            if n >= hi then LastStart(a, hi) == a else LastStart(a, hi) == LastStart(n, hi)
  {
    hide Size, RangeClass;
  }

  lemma KeptStep(g: Heap, h: Heap, lo: nat, a: nat, i: nat)
    requires Kept(g, h, lo, a) && a !in h.blocks && lo <= a
    ensures Kept(g, Placed(h, a, i).(free := h.free + {a}), lo, a + Size(i))
  {
    hide Size;
    var t := Placed(h, a, i).(free := h.free + {a});
    forall c | c in t.blocks && c !in g.blocks ensures c in t.free && lo <= c && End(t, c) <= a + Size(i) {
      if c != a {
        assert End(t, c) == End(h, c);
      }
    }
  }

  lemma LastStepOfRange(h: Heap, a: nat, hi: nat)
    requires 0 < a < hi
    ensures var i := RangeClass(a, hi - a); LastOfRange(Placed(h, a, i).(free := h.free + {a}), a, a + Size(i), hi)
  {
    hide Size, RangeClass, Aligned;
  }

  /** The coalescing condition after one more block. */
  lemma ClashStep(g: Heap, h: Heap, t: Heap, lo: nat, a: nat, hi: nat, i: nat)
    requires 0 < lo <= a < hi && i == RangeClass(a, hi - a) && CoalescedTo(g, h, lo, a, hi)
             && (Coalesced(t) <==> Coalesced(h) && !ClashAt(g, a, i))
    requires lo < a && a + Size(i) < hi ==> !ClashAt(g, a, i)
    requires a + Size(i) == hi ==> LastStart(lo, hi) == a
    ensures CoalescedTo(g, t, lo, a + Size(i), hi)
  {
    hide Size, RangeClass, ClashAt, Coalesced, LastStart;
  }
}
