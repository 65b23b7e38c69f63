/** Mapping, unmapping and translating through four-level page tables. */
module PageMap {
  import opened PageTables

  const PAGE := 4096
  /** Frames that the 36 address bits of an entry can name. */
  const FRAMES := 0x10_0000_0000

  /** A virtual address as its four table indices; the byte offset plays no part in the tables. */
  ghost predicate IsPath(v: seq<nat>)
  {
    |v| == LEVELS && forall i :: 0 <= i < LEVELS ==> v[i] < ENTRIES
  }

  /** The address starts a page that spans n levels. */
  predicate StartsPage(v: seq<nat>, n: nat)
    requires |v| == LEVELS && 1 <= n <= LEVELS
  {
    forall i :: LEVELS - n < i < LEVELS ==> v[i] == 0
  }

  /** Pages of 4 KiB that a page of n levels holds. */
  function Span(n: nat): (r: nat)
    ensures r >= 1
  {
    if n <= 1 then 1 else ENTRIES * Span(n - 1)
  }

  /** Counters are right, no table but the top one is empty. */
  ghost predicate Good(s: State)
  {
    Inv(s, s.top, {})
  }

  class Pagemap {
    const top: nat
    var mem: map<nat, seq<Entry>>
    ghost var level: map<nat, nat>
    ghost var owner: map<nat, Slot>

    ghost function St(): State
      reads this
    {
      State(top, mem, level, owner)
    }

    ghost predicate Valid()
      reads this
    {
      Good(St())
    }

    /** A page map with an empty top table. */
    constructor (page: nat)
      ensures Valid() && mem.Keys == {page} && top == page
              && forall v: seq<nat> :: |v| == LEVELS ==> Walk(St(), top, v) == Nothing
    {
      top := page;
      mem := map[page := Blank()];
      level := map[page := LEVELS];
      owner := map[];
    }

    /** Adds one to the counter of table p; the top table has none. */
    method Increase(p: nat, o: Slot, ghost thin: set<nat>)
      requires Inv(St(), top, thin) && p in mem && (p != top ==> o == owner[p])
      modifies this`mem
      ensures Inv(St(), p, thin) && SameView(old(St()), St()) && mem.Keys == old(mem).Keys
      ensures mem[p] == old(mem)[p] && forall q :: PathTo(St(), q) == PathTo(old(St()), q)
    {
      hide Inv, NonEmpty, SameView, PathTo;
      if p != top {
        ghost var s := St();
        ShapeOf(s, top, thin);
        OwnerCount(s, top, thin, p);
        IncreasedInv(s, thin, p);
        CountedWalk(s, top, thin, p, CountOf(s, p) + 1);
        mem := mem[o.page := mem[o.page][o.index := Node(p, mem[o.page][o.index].count + 1)]];
      } else {
        SameViewSelf(St());
      }
    }

    /** The child table behind slot x of table p, which is created if there is none. */
    method Child(p: nat, o: Slot, x: nat) returns (q: nat)
      requires Inv(St(), top, {p}) && p in mem && p in level && level[p] > 1
               && (p != top ==> p in owner && o == owner[p])
      requires x < ENTRIES && x < |mem[p]| && !mem[p][x].Leaf?
      modifies this
      ensures Inv(St(), top, {q}) && SameView(old(St()), St()) && Extends(old(St()), St())
      ensures q in mem && q in level && q in owner && owner[q] == Slot(p, x) && q != top
              && level[q] + 1 == old(level)[p]
      ensures PathTo(St(), q) == PathTo(old(St()), p) + [x]
    {
      hide Inv, NonEmpty, SameView, PathTo, EntryOk, OwnerOk;
      ghost var s := St();
      if mem[p][x].Node? {
        ThinFull(s, p, x);
        q := mem[p][x].page;
        ChildOf(s, p, x);
        SameViewSelf(s);
        ExtendsSelf(s, top, {p});
        return;
      }
      ShapeKeys(s, top, {p});
      Increase(p, o, {p});
      q := NewPage(mem.Keys);
      ghost var t := St();
      ShapeOf(t, p, {p});
      HookedInv(t, {p}, p, x, q);
      HookedWalk(t, {p}, p, x, q);
      SameViewTwice(s, t, Hooked(t, p, x, q));
      mem := mem[q := Blank()][p := mem[p][x := Node(q, 0)]];
      level := level[q := level[p] - 1];
      owner := owner[q := Slot(p, x)];
      assert {p} - {p} + {q} == {q};
    }

    /** Takes one from the counter of table p; an empty table is given back and its slot cleared. */
    method Decrease(p: nat, o: Slot) returns (dropped: bool)
      requires Inv(St(), p, {}) && p in owner && o == owner[p]
      modifies this
      ensures SameView(old(St()), St())
      ensures dropped ==> Inv(St(), o.page, {}) && mem.Keys == old(mem).Keys - {p}
      ensures dropped ==> owner == old(owner) - {p} && level == old(level) - {p}
      ensures !dropped ==> Inv(St(), top, {}) && mem.Keys == old(mem).Keys && owner == old(owner) && level == old(level)
    {
      hide Inv, NonEmpty, SameView, PathTo, EntryOk;
      ghost var s := St();
      ShapeOf(s, p, {});
      OwnerCount(s, p, {}, p);
      var c := mem[o.page][o.index].count - 1;
      DecreasedInv(s, p);
      CountedWalk(s, p, {}, p, c);
      mem := mem[o.page := mem[o.page][o.index := Node(p, c)]];
      if c != 0 {
        ThinCounted(St(), p);
        return false;
      }
      ghost var t := St();
      ShapeOf(t, top, {p});
      OwnerCount(t, top, {p}, p);
      DroppedInv(t, p);
      DroppedWalk(t, p);
      SameViewTwice(s, t, Dropped(t, p));
      mem := mem[o.page := mem[o.page][o.index := Empty]] - {p};
      level := level - {p};
      owner := owner - {p};
      dropped := true;
    }

    /**
      * Writes an entry into slot x of table p, unless something present is there. The counter follows what was in the
      * slot, not what is written, so an entry of zero leaves it one too many.
      */
    method MapAt(p: nat, o: Slot, x: nat, e: Entry) returns (ok: bool)
      requires Inv(St(), top, {p}) && p in mem && p in level && p in owner && o == owner[p] && p != top && x < ENTRIES
      requires e.Empty? || (e.Leaf? && level[p] < LEVELS && (e.large <==> level[p] > 1))
      modifies this
      ensures ok <==> Clear(old(St()), PathTo(old(St()), p) + [x], old(level)[p])
      ensures ok ==> (Valid() <==> e.Leaf?)
      ensures ok ==> ViewPut(old(St()), St(), PathTo(old(St()), p) + [x], FoundAs(e, old(level)[p]))
      ensures !ok ==> SameView(old(St()), St())
      ensures Extends(old(St()), St())
    {
      hide Inv, NonEmpty, SameView, PathTo, EntryOk, OwnerOk, ViewPut, Clear;
      ghost var s := St();
      ExtendsSelf(s, top, {p});
      ShapeOf(s, top, {p});
      BusyIff(s, p, x);
      if mem[p][x].Node? || (mem[p][x].Leaf? && mem[p][x].present) {
        SameViewSelf(s);
        return false;
      }
      if mem[p][x].Empty? {
        Increase(p, o, {p});
        if e.Leaf? {
          FilledInv(St(), p, x, e);
        }
        PutWalk(St(), p, {p}, p, x, e);
        ViewAfter(s, St(), Put(St(), p, x, e), PathTo(s, p) + [x], FoundAs(e, level[p]));
      } else {
        ThinFull(s, p, x);
        if e.Leaf? {
          ReplacedInv(s, p, x, e);
        }
        PutWalk(s, top, {}, p, x, e);
      }
      ghost var t := St();
      mem := mem[p := mem[p][x := e]];
      if e.Empty? {
        ZeroOver(s, t, St(), p, x);
      }
      ok := true;
    }

    /**
      * Maps the page of n levels (1 for 4 KiB, 2 for 2 MiB, 3 for 1 GiB) that starts at v to a frame. Refuses (a panic)
      * a misaligned address or frame and a place where something present is mapped. The counters stay right exactly if
      * the entry written is not zero. The place must not lie inside a larger page.
      */
    method Map(frame: nat, flags: nat, present: bool, v: seq<nat>, n: nat) returns (ok: bool)
      requires Valid() && IsPath(v) && 1 <= n <= 3
      requires Walk(St(), top, v) == Nothing || Walk(St(), top, v).level <= n
      modifies this
      ensures ok <==> StartsPage(v, n) && frame % Span(n) == 0 && Clear(old(St()), v[..LEVELS + 1 - n], n)
      ensures var zero := n == 1 && frame % 0x10_0000_0000 == 0 && flags == 0 && !present;
              var found := if zero then Nothing else Page(Leaf(frame % 0x10_0000_0000, flags, present, n > 1), n);
              ok ==> (Valid() <==> !zero) && ViewPut(old(St()), St(), v[..LEVELS + 1 - n], found)
      ensures !ok ==> SameView(old(St()), St())
      ensures Extends(old(St()), St())
    {
      hide Inv, ViewPut, Clear, Walk, Span, StartsPage, Extends, EntryFor;
      EntryFits(frame, flags, present, n);
      ok := MapEntry(EntryFor(frame, flags, present, n), frame, v, n);
    }

    /** Goes down to the table for a page of n levels, creating tables on the way, and writes the entry. */
    method MapEntry(leaf: Entry, frame: nat, v: seq<nat>, n: nat) returns (ok: bool)
      requires Valid() && IsPath(v) && 1 <= n <= 3 && (leaf.Empty? || (leaf.Leaf? && (leaf.large <==> n > 1)))
      requires Walk(St(), top, v) == Nothing || Walk(St(), top, v).level <= n
      modifies this
      ensures ok <==> StartsPage(v, n) && frame % Span(n) == 0 && Clear(old(St()), v[..LEVELS + 1 - n], n)
      ensures ok ==> (Valid() <==> leaf.Leaf?)
      ensures ok ==> ViewPut(old(St()), St(), v[..LEVELS + 1 - n], FoundAs(leaf, n))
      ensures !ok ==> SameView(old(St()), St())
      ensures Extends(old(St()), St())
    {
      hide Inv, NonEmpty, SameView, PathTo, EntryOk, OwnerOk, ViewPut, Clear, Walk, Span, StartsPage, Extends, FoundAs;
      ghost var s := St();
      TopFacts(s);
      SlotWalk(s, {}, top, v);
      ThinMore(s, top);
      var p3 := Child(top, Slot(top, 0), v[0]);
      ghost var s3 := St();
      assert v[..1] == [] + [v[0]];
      ViewAt(s, s3, v);
      if n == 3 {
        if frame % Span(3) != 0 || !StartsPage(v, 3) {
          return false;
        }
        ClearSame(s, s3, v[..2], 3);
        assert v[..2] == v[..1] + [v[1]];
        ok := MapAt(p3, Slot(top, v[0]), v[1], leaf);
        Combine(s, s3, St(), v[..2], FoundAs(leaf, 3), ok);
        ExtendsTwice(s, s3, St());
        return;
      }
      ShapeOf(s3, top, {p3});
      SlotWalk(s3, {p3}, p3, v);
      var p2 := Child(p3, Slot(top, v[0]), v[1]);
      ghost var s2 := St();
      assert v[..2] == v[..1] + [v[1]];
      SameViewTwice(s, s3, s2);
      ExtendsTwice(s, s3, s2);
      ViewAt(s, s2, v);
      if n == 2 {
        if frame % Span(2) != 0 || !StartsPage(v, 2) {
          return false;
        }
        ClearSame(s, s2, v[..3], 2);
        assert v[..3] == v[..2] + [v[2]];
        ok := MapAt(p2, Slot(p3, v[1]), v[2], leaf);
        Combine(s, s2, St(), v[..3], FoundAs(leaf, 2), ok);
        ExtendsTwice(s, s2, St());
        return;
      }
      if frame % Span(1) != 0 || !StartsPage(v, 1) {
        return false;
      }
      ShapeOf(s2, top, {p2});
      SlotWalk(s2, {p2}, p2, v);
      var p1 := Child(p2, Slot(p3, v[1]), v[2]);
      ghost var s1 := St();
      assert v[..3] == v[..2] + [v[2]];
      SameViewTwice(s, s2, s1);
      ExtendsTwice(s, s2, s1);
      ClearSame(s, s1, v[..4], 1);
      assert v[..4] == v[..3] + [v[3]];
      ok := MapAt(p1, Slot(p2, v[2]), v[3], leaf);
      Combine(s, s1, St(), v[..4], FoundAs(leaf, 1), ok);
      ExtendsTwice(s, s1, St());
    }

    /** Clears a leaf. */
    method ClearLeaf(p: nat, x: nat)
      requires Valid() && p in mem && p in owner && x < ENTRIES && x < |mem[p]| && mem[p][x].Leaf?
      modifies this`mem
      ensures Inv(St(), p, {}) && mem.Keys == old(mem).Keys
              && ViewPut(old(St()), St(), PathTo(old(St()), p) + [x], Nothing)
    {
      hide Inv, NonEmpty, PathTo, EntryOk, OwnerOk, ViewPut;
      ClearedInv(St(), p, x);
      PutWalk(St(), top, {}, p, x, Empty);
      mem := mem[p := mem[p][x := Empty]];
    }

    /**
      * Unmaps the page that starts at v and returns its entry; tables that become empty are given back. Nothing
      * happens if v is not mapped or does not start its page.
      */
    method Unmap(v: seq<nat>) returns (e: Entry)
      requires Valid() && IsPath(v)
      modifies this
      ensures Valid() && mem.Keys <= old(mem).Keys && Extends(St(), old(St()))
      ensures var f := Walk(old(St()), top, v);
              if f != Nothing && 1 <= f.level <= LEVELS && StartsPage(v, f.level)
              then e == f.leaf && e.Leaf? && ViewPut(old(St()), St(), v[..LEVELS + 1 - f.level], Nothing)
              else e == Empty && St() == old(St())
    {
      hide Inv, NonEmpty, SameView, PathTo, EntryOk, OwnerOk, ViewPut, Walk, StartsPage;
      ghost var s := St();
      TopFacts(s);
      ExtendsSelf(s, top, {});
      SlotWalk(s, {}, top, v);
      if mem[top][v[0]].Empty? {
        return Empty;
      }
      var p3, o3 := mem[top][v[0]].page, Slot(top, v[0]);
      ChildOf(s, top, v[0]);
      assert v[..1] == [] + [v[0]] && v[..2] == v[..1] + [v[1]] && v[..3] == v[..2] + [v[2]]
        && v[..4] == v[..3] + [v[3]];
      SlotWalk(s, {}, p3, v);
      e := mem[p3][v[1]];
      if e.Leaf? {
        if !StartsPage(v, 3) {
          return Empty;
        }
        ClearLeaf(p3, v[1]);
        ghost var t := St();
        var _ := Decrease(p3, o3);
        ViewBefore(s, t, St(), v[..2], Nothing);
        return;
      }
      if e.Empty? {
        return;
      }
      var p2, o2 := mem[p3][v[1]].page, Slot(p3, v[1]);
      ChildOf(s, p3, v[1]);
      SlotWalk(s, {}, p2, v);
      e := mem[p2][v[2]];
      if e.Leaf? {
        if !StartsPage(v, 2) {
          return Empty;
        }
        ClearLeaf(p2, v[2]);
        ghost var t := St();
        Release(p2, o2, p3, o3);
        ViewBefore(s, t, St(), v[..3], Nothing);
        return;
      }
      if e.Empty? {
        return;
      }
      var p1, o1 := mem[p2][v[2]].page, Slot(p2, v[2]);
      ChildOf(s, p2, v[2]);
      SlotWalk(s, {}, p1, v);
      BottomEntry(s, p1, v[3]);
      AlwaysStarts(v);
      e := mem[p1][v[3]];
      if e.Empty? {
        return;
      }
      ClearLeaf(p1, v[3]);
      ghost var t := St();
      var dropped := Decrease(p1, o1);
      if dropped {
        ghost var u := St();
        Release(p2, o2, p3, o3);
        SameViewTwice(t, u, St());
      }
      ViewBefore(s, t, St(), v[..4], Nothing);
    }

    /** Takes one from the counter of a second-level table and, if that one goes, from its parent's. */
    method Release(p2: nat, o2: Slot, p3: nat, o3: Slot)
      requires Inv(St(), p2, {}) && p2 in owner && p3 in owner && p2 != p3 && o2 == owner[p2] && o3 == owner[p3]
               && o2.page == p3 && o3.page == top
      modifies this
      ensures Valid() && SameView(old(St()), St()) && mem.Keys <= old(mem).Keys
      ensures forall q :: q in owner ==> q in old(owner) && owner[q] == old(owner)[q]
      ensures forall q :: q in level ==> q in old(level) && level[q] == old(level)[q]
      ensures forall q :: q in owner && q in old(level) ==> q in level
    {
      hide Inv, NonEmpty, SameView, PathTo, EntryOk, OwnerOk;
      ghost var s := St();
      var dropped := Decrease(p2, o2);
      if dropped {
        ghost var t := St();
        var _ := Decrease(p3, o3);
        SameViewTwice(s, t, St());
      }
    }

    /**
      * Translates an address, given by its indices and its offset in a 4 KiB page. The result 0 stands for no mapping
      * and for the first byte of frame 0 alike.
      */
    method Translate(v: seq<nat>, offset: nat) returns (address: nat)
      requires Valid() && IsPath(v) && offset < PAGE
      ensures address == Physical(Walk(St(), top, v), v, offset)
      ensures address == 0 <==> Walk(St(), top, v) == Nothing || (PageOf(Walk(St(), top, v), v) == 0 && offset == 0)
    {
      hide Inv, NonEmpty, PathTo, EntryOk, OwnerOk, Walk, Offset;
      ghost var s := St();
      TopFacts(s);
      SlotWalk(s, {}, top, v);
      if mem[top][v[0]].Empty? {
        return 0;
      }
      var p3 := mem[top][v[0]].page;
      ChildOf(s, top, v[0]);
      assert v[..1] == [] + [v[0]] && v[..2] == v[..1] + [v[1]] && v[..3] == v[..2] + [v[2]];
      SlotWalk(s, {}, p3, v);
      var e := mem[p3][v[1]];
      if e.Leaf? {
        return (e.frame + Offset(v[2..])) * PAGE + offset;
      }
      if e.Empty? {
        return 0;
      }
      var p2 := e.page;
      ChildOf(s, p3, v[1]);
      SlotWalk(s, {}, p2, v);
      e := mem[p2][v[2]];
      if e.Leaf? {
        return (e.frame + Offset(v[3..])) * PAGE + offset;
      }
      if e.Empty? {
        return 0;
      }
      var p1 := e.page;
      ChildOf(s, p2, v[2]);
      SlotWalk(s, {}, p1, v);
      BottomEntry(s, p1, v[3]);
      e := mem[p1][v[3]];
      if e.Empty? {
        return 0;
      }
      return (e.frame + Offset(v[4..])) * PAGE + offset;
    }

    /**
      * Mapping a page and unmapping it again. Every table, counter and translation is as before exactly when nothing
      * was mapped there, not even a page that is not present.
      */
    method MapThenUnmap(frame: nat, flags: nat, present: bool, v: seq<nat>, n: nat) returns (ok: bool, e: Entry)
      requires Valid() && IsPath(v) && 1 <= n <= 3
      requires n > 1 || frame % 0x10_0000_0000 != 0 || flags != 0 || present
      requires Walk(St(), top, v) == Nothing || Walk(St(), top, v).level <= n
      modifies this
      ensures ok ==> Valid() && e == Leaf(frame % 0x10_0000_0000, flags, present, n > 1)
      ensures ok ==> (St() == old(St()) <==> Walk(old(St()), top, v) == Nothing)
    {
      hide Inv, NonEmpty, SameView, PathTo, EntryOk, OwnerOk, ViewPut, Clear, Walk, Extends;
      ghost var s, u := St(), v[..LEVELS + 1 - n];
      e := Empty;
      ok := Map(frame, flags, present, v, n);
      if ok {
        ghost var t := St();
        ViewPutAt(s, t, u, Page(Leaf(frame % FRAMES, flags, present, n > 1), n), v);
        e := Unmap(v);
        ViewPutAt(t, St(), u, Nothing, v);
        PutThenCleared(s, t, St(), u, Page(Leaf(frame % FRAMES, flags, present, n > 1), n));
        ClearAt(s, v, n);
        if Walk(s, top, v) == Nothing {
          Restored(s, t, St());
        }
      }
    }
  }

  /** The frame, in 4 KiB units, that a found page gives for the address. */
  ghost function PageOf(f: Found, v: seq<nat>): nat
    requires |v| == LEVELS
  {
    if f == Nothing || !f.leaf.Leaf? || !(1 <= f.level <= LEVELS) then 0
      else f.leaf.frame + Offset(v[LEVELS + 1 - f.level..])
  }

  /** The byte address, or 0. */
  ghost function Physical(f: Found, v: seq<nat>, offset: nat): nat
    requires |v| == LEVELS
  {
    if f == Nothing then 0 else PageOf(f, v) * PAGE + offset
  }

  /** The entry for a page of n levels: the frame is cut to its address bits, and that of a 4 KiB page can be zero. */
  function EntryFor(frame: nat, flags: nat, present: bool, n: nat): Entry
  {
    if n <= 1 && frame % FRAMES == 0 && flags == 0 && !present then Empty
      else Leaf(frame % FRAMES, flags, present, n > 1)
  }

  lemma EntryFits(frame: nat, flags: nat, present: bool, n: nat)
    ensures var e := EntryFor(frame, flags, present, n);
            var zero := n <= 1 && frame % 0x10_0000_0000 == 0 && flags == 0 && !present;
            e == if zero then Empty else Leaf(frame % 0x10_0000_0000, flags, present, n > 1)
  {}

  /** What a walk finds at an entry that is no table. */
  ghost function FoundAs(e: Entry, n: nat): Found
  {
    if e.Empty? then Nothing else Page(e, n)
  }

  lemma ViewPutAt(s: State, t: State, u: seq<nat>, f: Found, v: seq<nat>)
    requires ViewPut(s, t, u, f) && |v| == LEVELS && |u| <= LEVELS && v[..|u|] == u
    ensures Walk(t, t.top, v) == f
  {
    hide Walk;
  }

  /** A clear place is unmapped as a whole or holds one page that is not present. */
  lemma ClearAt(s: State, v: seq<nat>, n: nat)
    requires |v| == LEVELS && 1 <= n <= 3 && Clear(s, v[..LEVELS + 1 - n], n)
    ensures Walk(s, s.top, v) == Nothing <==>
            forall w: seq<nat> :: |w| == LEVELS && Prefix(v[..LEVELS + 1 - n], w) ==> Walk(s, s.top, w) == Nothing
  {
    hide Walk;
    var u := v[..LEVELS + 1 - n];
    assert Prefix(u, v);
    if Walk(s, s.top, v) == Nothing {
      forall w: seq<nat> | |w| == LEVELS && Prefix(u, w) ensures Walk(s, s.top, w) == Nothing {
        assert Available(Walk(s, s.top, w), n);
        if Walk(s, s.top, w) != Nothing {
          WalkPrefix(s, s.top, v, w, LEVELS + 1 - n);
        }
      }
    }
  }

  // ---------------------------------------------------------------------------
  // What the conditions of mapping keep out
  // ---------------------------------------------------------------------------

  /**
    * Writing a zero entry over nothing or over a page that is not present: the counter of the table is then one too
    * many, so the table will not be given back when its last mapping goes.
    */
  lemma ZeroOver(s: State, t: State, w: State, p: nat, x: nat)
    requires Inv(s, s.top, {p}) && p in s.owner && p in s.mem && x < ENTRIES && x < |s.mem[p]| && !s.mem[p][x].Node?
    requires if s.mem[p][x].Empty?
             then Inv(t, p, {p}) && p in t.mem && t.mem[p] == s.mem[p] && p in t.owner && t.top == s.top else t == s
    requires x < |t.mem[p]| && w == Put(t, p, x, Empty)
    ensures !Inv(w, w.top, {})
  {
    hide Inv, NonEmpty;
    ghost var over := if s.mem[p][x].Empty? then p else s.top;
    CounterRight(t, over, {p}, p);
    NonEmptyPut(t.mem[p], x, Empty);
    if Inv(w, w.top, {}) {
      CounterRight(w, w.top, {}, p);
    }
  }

  /** The zero entry for the first page of an empty map: accepted, and the counters are wrong afterwards. */
  method ZeroEntryMiscounts() returns (m: Pagemap, ok: bool)
    ensures ok && !m.Valid()
  {
    hide Inv, Walk;
    m := new Pagemap(1);
    ghost var s, v := m.St(), [0, 0, 0, 0];
    assert Clear(s, v[..4], 1) by {
      assert forall w: seq<nat> :: |w| == LEVELS ==> Walk(s, s.top, w) == Nothing;
    }
    ok := m.Map(0, 0, false, [0, 0, 0, 0], 1);
  }

  lemma CounterRight(s: State, over: nat, thin: set<nat>, p: nat)
    requires Inv(s, over, thin) && p in s.owner
    ensures Shape(s) && OwnerOk(s, p) && p != s.top && s.owner[p].page != p
    ensures CountOf(s, p) == NonEmpty(s.mem[p]) + if p == over then 1 else 0
  {
    hide NonEmpty, Inv;
    ShapeOf(s, over, thin);
    OwnerCount(s, over, thin, p);
  }

  /**
    * A place inside a larger page: the slot that mapping would follow to a table holds the larger page itself, and no
    * table is hooked there. The frame it would write its entry to belongs to whoever the page is mapped for.
    */
  lemma LargerPageIsNoTable(s: State, v: seq<nat>) returns (p: nat)
    requires Inv(s, s.top, {}) && IsPath(v) && Walk(s, s.top, v) != Nothing && Walk(s, s.top, v).level > 1
    ensures var f := Walk(s, s.top, v);
            && f.level <= LEVELS && p in s.mem && |s.mem[p]| == ENTRIES && PathTo(s, p) == v[..LEVELS - f.level]
            && s.mem[p][v[LEVELS - f.level]] == f.leaf && f.leaf.Leaf?
            && forall q :: q in s.owner ==> s.owner[q] != Slot(p, v[LEVELS - f.level])
  {
    hide NonEmpty, PathTo, Walk;
    var f := Walk(s, s.top, v);
    WalkLevel(s, s.top, v);
    PathTop(s);
    var k := LEVELS - f.level;
    p := WalkTable(s, s.top, v, k);
    assert [] + v[..k] == v[..k] && v[..k + 1] == v[..k] + [v[k]];
    PathLength(s, s.top, {}, p);
    SlotView(s, p, v[k], v);
    forall q | q in s.owner ensures s.owner[q] != Slot(p, v[k]) {
      assert OwnerOk(s, q);
    }
  }

  /** The number that a row of indices spells. */
  function Offset(v: seq<nat>): nat
  {
    if v == [] then 0 else ENTRIES * Offset(v[..|v| - 1]) + v[|v| - 1]
  }

  /** A page the page allocator hands out: any one that is not in use. */
  method NewPage(used: set<nat>) returns (q: nat)
    ensures q !in used
  {
    ghost var _ := Bound(used);
    q :| q !in used;
  }

  lemma {:induction false} Bound(s: set<nat>) returns (b: nat)
    ensures b !in s && forall x :: x in s ==> x < b
  {
    if s == {} {
      return 0;
    }
    var x :| x in s;
    b := Bound(s - {x});
    assert forall y :: y in s ==> y == x || y in s - {x};
    b := if x >= b then x + 1 else b;
  }

  lemma ExtendsSelf(s: State, over: nat, thin: set<nat>)
    requires Inv(s, over, thin)
    ensures Extends(s, s) && forall q :: q in s.owner ==> q in s.level
  {
    hide EntryOk, OwnerOk;
  }

  lemma ExtendsTwice(s: State, t: State, u: State)
    requires Extends(s, t) && Extends(t, u)
    ensures Extends(s, u)
  {}

  lemma ShapeKeys(s: State, over: nat, thin: set<nat>)
    requires Inv(s, over, thin)
    ensures s.level.Keys == s.mem.Keys && s.owner.Keys <= s.mem.Keys
  {
    hide EntryOk, OwnerOk;
  }

  lemma ShapeOf(s: State, over: nat, thin: set<nat>)
    requires Inv(s, over, thin)
    ensures Shape(s)
  {
    hide Shape;
  }

  lemma SameViewSelf(s: State)
    ensures SameView(s, s)
  {
    hide Walk;
  }

  lemma IncreasedInv(s: State, thin: set<nat>, p: nat)
    requires Inv(s, s.top, thin) && p in s.owner && OwnerOk(s, p)
    ensures Inv(Counted(s, p, CountOf(s, p) + 1), p, thin)
  {
    hide Inv, NonEmpty;
    ShapeOf(s, s.top, thin);
    OwnerCount(s, s.top, thin, p);
    CountedInv(s, s.top, thin, p, CountOf(s, p) + 1, p, thin);
  }

  lemma DecreasedInv(s: State, p: nat)
    requires Inv(s, p, {}) && p in s.owner && OwnerOk(s, p) && CountOf(s, p) >= 1
    ensures Inv(Counted(s, p, CountOf(s, p) - 1), s.top, {p})
  {
    hide Inv, NonEmpty;
    ShapeOf(s, p, {});
    OwnerCount(s, p, {}, p);
    CountedInv(s, p, {}, p, CountOf(s, p) - 1, s.top, {p});
  }

  lemma SameViewTwice(s: State, t: State, u: State)
    requires SameView(s, t) && SameView(t, u)
    ensures SameView(s, u)
  {
    hide Walk;
    forall v: seq<nat> | |v| == LEVELS ensures Walk(u, u.top, v) == Walk(s, s.top, v) {
      assert Walk(t, t.top, v) == Walk(s, s.top, v);
    }
  }

  /** A table with an entry is not empty. */
  lemma ThinFull(s: State, p: nat, x: nat)
    requires Inv(s, s.top, {p}) && p in s.mem && x < ENTRIES && x < |s.mem[p]| && !s.mem[p][x].Empty?
    ensures Inv(s, s.top, {})
  {
    hide NonEmpty;
    NonEmptyZero(s.mem[p]);
    forall r: nat, y: nat | r in s.mem && y < ENTRIES ensures EntryOk(s, r, y, s.top, {}) {
      assert EntryOk(s, r, y, s.top, {p});
    }
  }

  lemma ThinCounted(s: State, p: nat)
    requires Inv(s, s.top, {p}) && p in s.owner && OwnerOk(s, p) && Shape(s) && CountOf(s, p) >= 1
    ensures Inv(s, s.top, {})
  {
    hide NonEmpty;
    forall r: nat, y: nat | r in s.mem && y < ENTRIES ensures EntryOk(s, r, y, s.top, {}) {
      assert EntryOk(s, r, y, s.top, {p});
    }
  }

  lemma ThinMore(s: State, p: nat)
    requires Inv(s, s.top, {})
    ensures Inv(s, s.top, {p})
  {
    hide NonEmpty;
    forall r: nat, y: nat | r in s.mem && y < ENTRIES ensures EntryOk(s, r, y, s.top, {p}) {
      assert EntryOk(s, r, y, s.top, {});
    }
  }

  /** The child behind a slot. */
  lemma ChildOf(s: State, p: nat, x: nat)
    requires Inv(s, s.top, {}) && p in s.mem && p in s.level && x < ENTRIES && x < |s.mem[p]| && s.mem[p][x].Node?
    ensures var q := s.mem[p][x].page;
            && q in s.mem && q in s.level && q in s.owner && q != s.top && s.owner[q] == Slot(p, x)
            && s.level[q] + 1 == s.level[p]
            && PathTo(s, q) == PathTo(s, p) + [x] && Inv(s, s.top, {q}) && |s.mem[q]| == ENTRIES
  {
    hide NonEmpty, PathTo;
    assert EntryOk(s, p, x, s.top, {});
    PathStep(s, s.top, {}, p, x);
    ThinMore(s, s.mem[p][x].page);
  }

  /** No address with prefix u is mapped, except by an n-level page that is not present. */
  ghost predicate Clear(s: State, u: seq<nat>, n: nat)
  {
    forall w: seq<nat> :: |w| == LEVELS && Prefix(u, w) ==> Available(Walk(s, s.top, w), n)
  }

  ghost predicate Available(f: Found, n: nat)
  {
    f == Nothing || (f.level == n && f.leaf.Leaf? && !f.leaf.present)
  }

  lemma ClearSame(s: State, t: State, u: seq<nat>, n: nat)
    requires SameView(s, t)
    ensures Clear(s, u, n) <==> Clear(t, u, n)
  {
    hide Walk;
    if Clear(s, u, n) {
      forall w: seq<nat> | |w| == LEVELS && Prefix(u, w) ensures Available(Walk(t, t.top, w), n) {
        assert Walk(t, t.top, w) == Walk(s, s.top, w);
      }
    }
    if Clear(t, u, n) {
      forall w: seq<nat> | |w| == LEVELS && Prefix(u, w) ensures Available(Walk(s, s.top, w), n) {
        assert Walk(t, t.top, w) == Walk(s, s.top, w);
      }
    }
  }

  lemma ViewAt(s: State, t: State, v: seq<nat>)
    requires SameView(s, t) && |v| == LEVELS
    ensures Walk(t, t.top, v) == Walk(s, s.top, v)
  {
    hide Walk;
  }

  lemma ViewAfter(s: State, t: State, w: State, u: seq<nat>, f: Found)
    requires SameView(s, t) && ViewPut(t, w, u, f)
    ensures ViewPut(s, w, u, f)
  {
    hide Walk, Prefix;
    forall v: seq<nat> | |v| == LEVELS ensures Walk(w, w.top, v) == if Prefix(u, v) then f else Walk(s, s.top, v) {
      assert Walk(t, t.top, v) == Walk(s, s.top, v);
    }
  }

  lemma ViewBefore(s: State, t: State, w: State, u: seq<nat>, f: Found)
    requires ViewPut(s, t, u, f) && SameView(t, w)
    ensures ViewPut(s, w, u, f)
  {
    hide Walk, Prefix;
    forall v: seq<nat> | |v| == LEVELS ensures Walk(w, w.top, v) == if Prefix(u, v) then f else Walk(s, s.top, v) {
      assert Walk(w, w.top, v) == Walk(t, t.top, v);
    }
  }

  lemma Combine(s: State, t: State, w: State, u: seq<nat>, f: Found, ok: bool)
    requires SameView(s, t) && (if ok then ViewPut(t, w, u, f) else SameView(t, w))
    ensures if ok then ViewPut(s, w, u, f) else SameView(s, w)
  {
    hide SameView, ViewPut;
    if ok {
      ViewAfter(s, t, w, u, f);
    } else {
      SameViewTwice(s, t, w);
    }
  }

  lemma TopFacts(s: State)
    requires Inv(s, s.top, {})
    ensures s.top in s.mem && s.top in s.level && s.level[s.top] == LEVELS && |s.mem[s.top]| == ENTRIES
            && PathTo(s, s.top) == []
    ensures forall x :: 0 <= x < ENTRIES ==> !s.mem[s.top][x].Leaf?
  {
    hide NonEmpty;
    forall x: nat | x < ENTRIES ensures !s.mem[s.top][x].Leaf? {
      assert EntryOk(s, s.top, x, s.top, {});
    }
  }

  /** What the entry of table p on the way along v says about the translation of v. */
  lemma SlotWalk(s: State, thin: set<nat>, p: nat, v: seq<nat>)
    requires Inv(s, s.top, thin) && p in s.mem && p in s.level && IsPath(v) && Prefix(PathTo(s, p), v)
    ensures 1 <= s.level[p] <= LEVELS && |PathTo(s, p)| == LEVELS - s.level[p] && |s.mem[p]| == ENTRIES
    ensures var e := s.mem[p][v[LEVELS - s.level[p]]];
            && (e.Empty? ==> Walk(s, s.top, v) == Nothing)
            && (e.Leaf? ==>
               Walk(s, s.top, v) == Page(e, s.level[p]) && s.level[p] < LEVELS && (e.large <==> s.level[p] > 1))
  {
    hide NonEmpty, PathTo;
    PathLength(s, s.top, thin, p);
    WalkTo(s, s.top, thin, p, v);
    var k := LEVELS - s.level[p];
    assert EntryOk(s, p, v[k], s.top, thin);
    assert v[k..][0] == v[k];
  }

  lemma FilledInv(s: State, p: nat, x: nat, e: Entry)
    requires Inv(s, p, {p}) && p in s.owner && p in s.mem && p in s.level && x < ENTRIES && x < |s.mem[p]|
             && s.mem[p][x].Empty?
    requires e.Leaf? && s.level[p] < LEVELS && (e.large <==> s.level[p] > 1)
    ensures Inv(Put(s, p, x, e), s.top, {})
  {
    hide Inv, NonEmpty;
    ShapeOf(s, p, {p});
    NonEmptyPut(s.mem[p], x, e);
    OwnerCount(s, p, {p}, p);
    LeafInv(s, p, {p}, p, x, e, s.top, {});
  }

  lemma ReplacedInv(s: State, p: nat, x: nat, e: Entry)
    requires Inv(s, s.top, {}) && p in s.owner && p in s.mem && p in s.level && x < ENTRIES && x < |s.mem[p]|
             && s.mem[p][x].Leaf?
    requires e.Leaf? && s.level[p] < LEVELS && (e.large <==> s.level[p] > 1)
    ensures Inv(Put(s, p, x, e), s.top, {})
  {
    hide Inv, NonEmpty;
    ShapeOf(s, s.top, {});
    NonEmptyPut(s.mem[p], x, e);
    OwnerCount(s, s.top, {}, p);
    LeafInv(s, s.top, {}, p, x, e, s.top, {});
  }

  lemma ClearedInv(s: State, p: nat, x: nat)
    requires Inv(s, s.top, {}) && p in s.owner && p in s.mem && x < ENTRIES && x < |s.mem[p]| && s.mem[p][x].Leaf?
    ensures Inv(Put(s, p, x, Empty), p, {})
  {
    hide Inv, NonEmpty;
    ShapeOf(s, s.top, {});
    NonEmptyPut(s.mem[p], x, Empty);
    OwnerCount(s, s.top, {}, p);
    LeafInv(s, s.top, {}, p, x, Empty, p, {});
  }

  /** A slot is free for a new page exactly when nothing present is mapped behind it. */
  lemma BusyIff(s: State, p: nat, x: nat)
    requires Inv(s, s.top, {p}) && p in s.mem && p in s.level && p != s.top && x < ENTRIES && |s.mem[p]| == ENTRIES
    ensures Clear(s, PathTo(s, p) + [x], s.level[p]) <==>
            !(s.mem[p][x].Node? || (s.mem[p][x].Leaf? && s.mem[p][x].present))
  {
    hide Inv, NonEmpty, PathTo, Walk;
    var u, e := PathTo(s, p) + [x], s.mem[p][x];
    PathLength(s, s.top, {p}, p);
    ShapeOf(s, s.top, {p});
    if e.Node? {
      BusyNode(s, p, x);
    } else {
      forall w: seq<nat> | |w| == LEVELS && Prefix(u, w)
        ensures Walk(s, s.top, w) == if e.Empty? then Nothing else Page(e, s.level[p]) {
        SlotReached(s, p, x, w);
      }
      var z := u + seq(s.level[p] - 1, _ => 0);
      assert z[..|u|] == u;
    }
  }

  lemma SlotReached(s: State, p: nat, x: nat, w: seq<nat>)
    requires Inv(s, s.top, {p}) && p in s.mem && p in s.level && x < ENTRIES && x < |s.mem[p]| && !s.mem[p][x].Node?
             && |w| == LEVELS && Prefix(PathTo(s, p) + [x], w)
    ensures Walk(s, s.top, w) == if s.mem[p][x].Empty? then Nothing else Page(s.mem[p][x], s.level[p])
  {
    hide NonEmpty, PathTo;
    var u := PathTo(s, p);
    PathLength(s, s.top, {p}, p);
    assert w[..|u|] == (u + [x])[..|u|] == u;
    assert w[|u|] == (u + [x])[|u|] == x;
    WalkTo(s, s.top, {p}, p, w);
    assert w[|u|..][0] == x;
  }

  lemma BusyNode(s: State, p: nat, x: nat)
    requires Inv(s, s.top, {p}) && p in s.mem && p in s.level && x < ENTRIES && x < |s.mem[p]| && s.mem[p][x].Node?
    ensures !Clear(s, PathTo(s, p) + [x], s.level[p])
  {
    hide Inv, NonEmpty, PathTo, Walk;
    ThinFull(s, p, x);
    ChildOf(s, p, x);
    var q := s.mem[p][x].page;
    ShapeOf(s, s.top, {});
    OwnerCount(s, s.top, {}, q);
    var w := LeafBelow(s, q);
    PathLength(s, s.top, {}, q);
    var u := PathTo(s, q);
    assert (u + w)[..|u|] == u && (u + w)[|u|..] == w;
    WalkTo(s, s.top, {}, q, u + w);
  }

  /** The last level holds no tables. */
  lemma BottomEntry(s: State, p: nat, x: nat)
    requires Inv(s, s.top, {}) && p in s.mem && p in s.level && s.level[p] == 1 && x < ENTRIES && x < |s.mem[p]|
    ensures !s.mem[p][x].Node?
  {
    hide NonEmpty;
    assert EntryOk(s, p, x, s.top, {});
  }

  lemma AlwaysStarts(v: seq<nat>)
    requires |v| == LEVELS
    ensures StartsPage(v, 1)
  {}
}
