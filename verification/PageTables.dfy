/** Four-level page tables as pages of entries: ownership, child counters and the walk that translates. */
module PageTables {

  const ENTRIES := 512
  const LEVELS := 4

  /** A table entry: nothing, a mapped page, or a child table with the counter of its non-empty entries. */
  datatype Entry = Empty | Leaf(frame: nat, flags: nat, present: bool, large: bool) | Node(page: nat, count: nat)

  datatype Slot = Slot(page: nat, index: nat)

  /** The tables by page, and for the proof each table's level (1 maps 4 KiB pages) and the slot that refers to it. */
  datatype State = State(top: nat, mem: map<nat, seq<Entry>>, level: map<nat, nat>, owner: map<nat, Slot>)

  // ---------------------------------------------------------------------------
  // Counting entries
  // ---------------------------------------------------------------------------

  ghost function NonEmpty(t: seq<Entry>): nat
  {
    if t == [] then 0 else NonEmpty(t[..|t| - 1]) + if t[|t| - 1].Empty? then 0 else 1
  }

  lemma {:induction false} NonEmptyPut(t: seq<Entry>, x: nat, e: Entry)
    requires x < |t|
    ensures NonEmpty(t[x := e]) + (if t[x].Empty? then 0 else 1) == NonEmpty(t) + if e.Empty? then 0 else 1
  {
    var n := |t| - 1;
    if x == n {
      assert t[x := e][..n] == t[..n];
    } else {
      assert t[x := e][..n] == t[..n][x := e];
      NonEmptyPut(t[..n], x, e);
    }
  }

  lemma {:induction false} NonEmptyZero(t: seq<Entry>)
    ensures NonEmpty(t) == 0 <==> forall x :: 0 <= x < |t| ==> t[x].Empty?
  {
    if t != [] {
      NonEmptyZero(t[..|t| - 1]);
      assert NonEmpty(t) == 0 ==> forall x :: 0 <= x < |t| ==> x == |t| - 1 || t[x] == t[..|t| - 1][x];
    }
  }

  lemma {:induction false} NonEmptyBound(t: seq<Entry>)
    ensures NonEmpty(t) <= |t|
  {
    if t != [] {
      NonEmptyBound(t[..|t| - 1]);
    }
  }

  // ---------------------------------------------------------------------------
  // The invariant
  // ---------------------------------------------------------------------------

  ghost predicate Shape(s: State)
  {
    && s.top in s.mem && s.level.Keys == s.mem.Keys && s.owner.Keys == s.mem.Keys - {s.top} && s.level[s.top] == LEVELS
    && forall p :: p in s.mem ==> |s.mem[p]| == ENTRIES && 1 <= s.level[p] <= LEVELS
  }

  /** A child's counter: one too many for the table `over`, zero only for those in `thin`. */
  ghost predicate CountOk(t: seq<Entry>, q: nat, c: nat, over: nat, thin: set<nat>)
  {
    c == NonEmpty(t) + (if q == over then 1 else 0) && (q !in thin ==> c >= 1)
  }

  ghost predicate EntryOk(s: State, p: nat, x: nat, over: nat, thin: set<nat>)
    requires Shape(s) && p in s.mem && x < ENTRIES
  {
    match s.mem[p][x]
    case Empty => true
    case Leaf(_, _, _, large) => s.level[p] < LEVELS && (large <==> s.level[p] > 1)
    case Node(q, c) =>
      && q in s.mem && q != s.top && s.level[q] + 1 == s.level[p] && s.owner[q] == Slot(p, x)
      && CountOk(s.mem[q], q, c, over, thin)
  }

  ghost predicate OwnerOk(s: State, q: nat)
    requires Shape(s) && q in s.owner
  {
    var o := s.owner[q];
    o.page in s.mem && o.index < ENTRIES && s.mem[o.page][o.index].Node? && s.mem[o.page][o.index].page == q
  }

  /** Tables form a tree, and every counter is right up to the named exceptions. */
  ghost predicate Inv(s: State, over: nat, thin: set<nat>)
  {
    && Shape(s)
    && (forall p: nat, x: nat :: p in s.mem && x < ENTRIES ==> EntryOk(s, p, x, over, thin))
    && forall q :: q in s.owner ==> OwnerOk(s, q)
  }

  ghost function Put(s: State, p: nat, x: nat, e: Entry): State
    requires p in s.mem && x < |s.mem[p]|
  {
    s.(mem := s.mem[p := s.mem[p][x := e]])
  }

  // ---------------------------------------------------------------------------
  // Walking
  // ---------------------------------------------------------------------------

  /** What a walk finds: a leaf, with the number of levels its page spans. */
  datatype Found = Nothing | Page(leaf: Entry, level: nat)

  ghost function Walk(s: State, p: nat, v: seq<nat>): Found
    decreases |v|
  {
    if v == [] || p !in s.mem || |s.mem[p]| <= v[0] then Nothing
    else
      match s.mem[p][v[0]]
      case Empty => Nothing
      case Leaf(_, _, _, _) => Page(s.mem[p][v[0]], |v|)
      case Node(q, _) => Walk(s, q, v[1..])
  }

  /** The indices that lead from the top table to table p. */
  ghost function PathTo(s: State, p: nat): seq<nat>
    decreases if p in s.level then LEVELS - s.level[p] else 0
  {
    if p == s.top || p !in s.owner || p !in s.level then []
    else
      var o := s.owner[p];
      if o.page in s.level && s.level[o.page] > s.level[p] && s.level[o.page] <= LEVELS
        then PathTo(s, o.page) + [o.index] else []
  }

  ghost predicate Prefix(u: seq<nat>, v: seq<nat>)
  {
    |u| <= |v| && v[..|u|] == u
  }

  lemma PrefixHere(u: seq<nat>, v: seq<nat>)
    requires v != []
    ensures Prefix(u + [v[0]], u + v)
  {
    assert (u + v)[..|u| + 1] == u + [v[0]];
  }

  /** The tables of the two states are the same except at slot (p, x), counters aside. */
  ghost predicate SameEntry(a: Entry, b: Entry)
  {
    if a.Node? then b.Node? && b.page == a.page else a == b
  }

  ghost predicate SameBut(s: State, t: State, p: nat, x: nat)
  {
    && t.mem.Keys == s.mem.Keys
    && (forall q :: q in s.mem ==> |t.mem[q]| == |s.mem[q]|)
    && forall q: nat, y: nat :: q in s.mem && y < |s.mem[q]| && (q != p || y != x) ==>
       SameEntry(s.mem[q][y], t.mem[q][y])
  }

  /** Table p lies where its owners say. */
  lemma PathStep(s: State, over: nat, thin: set<nat>, p: nat, x: nat)
    requires Inv(s, over, thin) && p in s.mem && x < ENTRIES && s.mem[p][x].Node?
    ensures var q := s.mem[p][x].page; q in s.mem && PathTo(s, q) == PathTo(s, p) + [x] && s.level[q] + 1 == s.level[p]
  {
    assert EntryOk(s, p, x, over, thin);
  }

  lemma {:induction false} PathLength(s: State, over: nat, thin: set<nat>, p: nat)
    requires Inv(s, over, thin) && p in s.mem
    ensures |PathTo(s, p)| == LEVELS - s.level[p] && (p == s.top <==> s.level[p] == LEVELS)
    ensures forall i :: 0 <= i < |PathTo(s, p)| ==> PathTo(s, p)[i] < ENTRIES
    decreases LEVELS - s.level[p]
  {
    if p != s.top {
      assert OwnerOk(s, p);
      var o := s.owner[p];
      assert EntryOk(s, o.page, o.index, over, thin);
      PathLength(s, over, thin, o.page);
    }
  }

  /** A walk that does not pass slot (p, x) does not see what is there. */
  lemma {:induction false} WalkFrame(s: State, t: State, over: nat, thin: set<nat>, p: nat, x: nat, r: nat, v: seq<nat>)
    requires Inv(s, over, thin) && SameBut(s, t, p, x) && r in s.mem && x < ENTRIES
             && !Prefix(PathTo(s, p) + [x], PathTo(s, r) + v)
    ensures Walk(t, r, v) == Walk(s, r, v)
    decreases |v|
  {
    if v != [] && v[0] < |s.mem[r]| {
      assert v == [v[0]] + v[1..];
      PrefixHere(PathTo(s, r), v);
      assert SameEntry(s.mem[r][v[0]], t.mem[r][v[0]]);
      if s.mem[r][v[0]].Node? {
        PathStep(s, over, thin, r, v[0]);
        var q := s.mem[r][v[0]].page;
        assert PathTo(s, q) + v[1..] == PathTo(s, r) + v;
        WalkFrame(s, t, over, thin, p, x, q, v[1..]);
      }
    }
  }

  /** A walk along the path to a table gets there. */
  lemma {:induction false} WalkTo(s: State, over: nat, thin: set<nat>, p: nat, v: seq<nat>)
    requires Inv(s, over, thin) && p in s.mem && Prefix(PathTo(s, p), v)
    ensures Walk(s, s.top, v) == Walk(s, p, v[|PathTo(s, p)|..])
    decreases LEVELS - s.level[p]
  {
    var u := PathTo(s, p);
    if p == s.top {
      assert v[0..] == v;
    } else {
      assert OwnerOk(s, p);
      var o := s.owner[p];
      assert EntryOk(s, o.page, o.index, over, thin);
      var w := PathTo(s, o.page);
      assert u == w + [o.index];
      assert v[..|w|] == u[..|w|] == w;
      WalkTo(s, over, thin, o.page, v);
      assert v[|w|] == u[|w|] == o.index;
      assert v[|w|..][1..] == v[|u|..];
    }
  }

  // ---------------------------------------------------------------------------
  // Single steps
  // ---------------------------------------------------------------------------

  /** Adding one to (or taking one from) a table's counter. */
  ghost function Counted(s: State, p: nat, c: nat): State
    requires Shape(s) && p in s.owner && OwnerOk(s, p)
  {
    Put(s, s.owner[p].page, s.owner[p].index, Node(p, c))
  }

  ghost function CountOf(s: State, p: nat): nat
    requires Shape(s) && p in s.owner && OwnerOk(s, p)
  {
    s.mem[s.owner[p].page][s.owner[p].index].count
  }

  lemma OwnerCount(s: State, over: nat, thin: set<nat>, p: nat)
    requires Inv(s, over, thin) && p in s.owner
    ensures OwnerOk(s, p) && p in s.mem && p != s.top && s.owner[p].page in s.mem && s.owner[p].index < ENTRIES
            && s.owner[p].page != p
    ensures s.mem[s.owner[p].page][s.owner[p].index] == Node(p, CountOf(s, p))
            && CountOk(s.mem[p], p, CountOf(s, p), over, thin)
    ensures s.level[p] + 1 == s.level[s.owner[p].page]
  {
    hide CountOk;
    assert OwnerOk(s, p) && EntryOk(s, s.owner[p].page, s.owner[p].index, over, thin);
  }

  /** Changing the counter of p, and the exceptions to match, keeps the rest. */
  lemma CountedInv(s: State, over: nat, thin: set<nat>, p: nat, c: nat, over': nat, thin': set<nat>)
    requires Inv(s, over, thin) && p in s.owner && OwnerOk(s, p) && CountOk(s.mem[p], p, c, over', thin')
    requires forall q :: q in s.mem && q != p && q != s.top ==>
             (q == over <==> q == over') && (q in thin <==> q in thin')
    ensures Inv(Counted(s, p, c), over', thin')
  {
    hide NonEmpty;
    var t, o := Counted(s, p, c), s.owner[p];
    OwnerCount(s, over, thin, p);
    ghost var was := s.mem[o.page];
    CountedTable(was, o.index, p, c);
    assert Shape(t);
    forall r: nat, x: nat | r in t.mem && x < ENTRIES ensures EntryOk(t, r, x, over', thin') {
      assert EntryOk(s, r, x, over, thin);
      if r == o.page && x == o.index {
      } else {
        assert t.mem[r][x] == s.mem[r][x];
      }
    }
    forall q | q in t.owner ensures OwnerOk(t, q) {
      assert OwnerOk(s, q);
    }
  }

  lemma CountedTable(t: seq<Entry>, x: nat, p: nat, c: nat)
    requires x < |t| && t[x].Node?
    ensures NonEmpty(t[x := Node(p, c)]) == NonEmpty(t)
  {
    NonEmptyPut(t, x, Node(p, c));
  }

  /** Whether an entry may stand in table p. */
  ghost predicate LeafFits(s: State, p: nat, e: Entry)
    requires Shape(s) && p in s.mem
  {
    e.Leaf? && s.level[p] < LEVELS && (e.large <==> s.level[p] > 1)
  }

  /** Writing or clearing a leaf in table p shifts the balance of p's counter. */
  lemma LeafInv(s: State, over: nat, thin: set<nat>, p: nat, x: nat, e: Entry, over': nat, thin': set<nat>)
    requires Inv(s, over, thin) && p in s.owner && x < ENTRIES && !s.mem[p][x].Node? && (e.Empty? || LeafFits(s, p, e))
    requires CountOk(s.mem[p][x := e], p, NonEmpty(s.mem[p]) + (if p == over then 1 else 0), over', thin')
    requires forall q :: q in s.mem && q != p && q != s.top ==>
             (q == over <==> q == over') && (q in thin <==> q in thin')
    ensures Inv(Put(s, p, x, e), over', thin')
  {
    hide NonEmpty;
    var t := Put(s, p, x, e);
    assert Shape(t);
    forall r: nat, y: nat | r in t.mem && y < ENTRIES ensures EntryOk(t, r, y, over', thin') {
      assert EntryOk(s, r, y, over, thin);
    }
    forall q | q in t.owner ensures OwnerOk(t, q) {
      assert OwnerOk(s, q);
    }
  }

  /** Hooking up a fresh empty table. */
  ghost function Hooked(s: State, p: nat, x: nat, q: nat): State
    requires p in s.mem && x < |s.mem[p]| && p in s.level && s.level[p] > 1 && q != p
  {
    State(s.top, s.mem[q := Blank()][p := s.mem[p][x := Node(q, 0)]], s.level[q := s.level[p] - 1],
      s.owner[q := Slot(p, x)])
  }

  function Blank(): (t: seq<Entry>)
    ensures |t| == ENTRIES && forall x :: 0 <= x < ENTRIES ==> t[x] == Empty
  {
    seq(ENTRIES, _ => Empty)
  }

  lemma HookedInv(s: State, thin: set<nat>, p: nat, x: nat, q: nat)
    requires Inv(s, p, thin) && p in s.mem && x < ENTRIES && s.mem[p][x].Empty? && s.level[p] > 1 && q !in s.mem
             && q !in thin
    ensures Inv(Hooked(s, p, x, q), s.top, thin - {p} + {q})
  {
    hide NonEmpty;
    var t := Hooked(s, p, x, q);
    NonEmptyPut(s.mem[p], x, Node(q, 0));
    NonEmptyZero(Blank());
    assert Shape(t);
    forall r: nat, y: nat | r in t.mem && y < ENTRIES ensures EntryOk(t, r, y, s.top, thin - {p} + {q}) {
      HookedSlot(s, thin, p, x, q, r, y);
    }
    forall o | o in t.owner ensures OwnerOk(t, o) {
      if o != q {
        assert OwnerOk(s, o);
      }
    }
  }

  lemma HookedSlot(s: State, thin: set<nat>, p: nat, x: nat, q: nat, r: nat, y: nat)
    requires Inv(s, p, thin) && p in s.mem && x < ENTRIES && s.mem[p][x].Empty? && s.level[p] > 1 && q !in s.mem
             && q !in thin
    requires var t := Hooked(s, p, x, q);
             Shape(t) && r in t.mem && y < ENTRIES && NonEmpty(t.mem[p]) == NonEmpty(s.mem[p]) + 1
             && NonEmpty(t.mem[q]) == 0
    ensures EntryOk(Hooked(s, p, x, q), r, y, s.top, thin - {p} + {q})
  {
    hide NonEmpty, OwnerOk;
    if r != q {
      assert EntryOk(s, r, y, p, thin);
    }
  }

  /** Taking an empty table out. */
  ghost function Dropped(s: State, p: nat): State
    requires Shape(s) && p in s.owner && OwnerOk(s, p)
  {
    var t := Put(s, s.owner[p].page, s.owner[p].index, Empty);
    State(s.top, t.mem - {p}, s.level - {p}, s.owner - {p})
  }

  lemma DroppedInv(s: State, p: nat)
    requires Inv(s, s.top, {p}) && p in s.owner && OwnerOk(s, p) && NonEmpty(s.mem[p]) == 0
    ensures Inv(Dropped(s, p), s.owner[p].page, {})
  {
    hide NonEmpty;
    var t, o := Dropped(s, p), s.owner[p];
    OwnerCount(s, s.top, {p}, p);
    NonEmptyZero(s.mem[p]);
    NonEmptyPut(s.mem[o.page], o.index, Empty);
    assert Shape(t);
    forall r: nat, y: nat | r in t.mem && y < ENTRIES ensures EntryOk(t, r, y, o.page, {}) {
      assert EntryOk(s, r, y, s.top, {p});
    }
    forall q | q in t.owner ensures OwnerOk(t, q) {
      assert OwnerOk(s, q);
    }
  }

  // ---------------------------------------------------------------------------
  // What the steps do to walks
  // ---------------------------------------------------------------------------

  /** The two states translate every address alike. */
  ghost predicate SameView(s: State, t: State)
  {
    forall v: seq<nat> :: |v| == LEVELS ==> Walk(t, t.top, v) == Walk(s, s.top, v)
  }

  /** The two states translate alike, except that addresses with prefix u now give w. */
  ghost predicate ViewPut(s: State, t: State, u: seq<nat>, w: Found)
  {
    forall v: seq<nat> :: |v| == LEVELS ==> Walk(t, t.top, v) == if Prefix(u, v) then w else Walk(s, s.top, v)
  }

  lemma {:induction false} SameWalk(s: State, t: State, r: nat, v: seq<nat>)
    requires t.mem.Keys == s.mem.Keys && (forall q :: q in s.mem ==> |t.mem[q]| == |s.mem[q]|)
    requires forall q: nat, y: nat :: q in s.mem && y < |s.mem[q]| ==> SameEntry(s.mem[q][y], t.mem[q][y])
    ensures Walk(t, r, v) == Walk(s, r, v)
    decreases |v|
  {
    if v != [] && r in s.mem && v[0] < |s.mem[r]| {
      assert SameEntry(s.mem[r][v[0]], t.mem[r][v[0]]);
      if s.mem[r][v[0]].Node? {
        SameWalk(s, t, s.mem[r][v[0]].page, v[1..]);
      }
    }
  }

  lemma {:induction false} SamePath(s: State, t: State, p: nat)
    requires t.top == s.top && t.level == s.level && t.owner == s.owner
    ensures PathTo(t, p) == PathTo(s, p)
    decreases if p in s.level then LEVELS - s.level[p] else 0
  {
    if p != s.top && p in s.owner && p in s.level {
      var o := s.owner[p];
      if o.page in s.level && s.level[o.page] > s.level[p] && s.level[o.page] <= LEVELS {
        SamePath(s, t, o.page);
      }
    }
  }

  /** Counters do not matter to walks. */
  lemma CountedWalk(s: State, over: nat, thin: set<nat>, p: nat, c: nat)
    requires Inv(s, over, thin) && p in s.owner && OwnerOk(s, p)
    ensures SameView(s, Counted(s, p, c)) && forall q :: PathTo(Counted(s, p, c), q) == PathTo(s, q)
  {
    hide NonEmpty, Walk, PathTo;
    var t := Counted(s, p, c);
    OwnerCount(s, over, thin, p);
    assert forall q: nat, y: nat :: q in s.mem && y < |s.mem[q]| ==> SameEntry(s.mem[q][y], t.mem[q][y]);
    forall v: seq<nat> | |v| == LEVELS ensures Walk(t, t.top, v) == Walk(s, s.top, v) {
      SameWalk(s, t, s.top, v);
    }
    forall q ensures PathTo(t, q) == PathTo(s, q) {
      SamePath(s, t, q);
    }
  }

  /** Writing slot (p, x) changes exactly the walks that pass it. */
  lemma PutWalk(s: State, over: nat, thin: set<nat>, p: nat, x: nat, e: Entry)
    requires Inv(s, over, thin) && p in s.mem && x < ENTRIES && !e.Node?
    ensures ViewPut(s, Put(s, p, x, e), PathTo(s, p) + [x], if e.Empty? then Nothing else Page(e, s.level[p]))
  {
    hide NonEmpty, Walk, PathTo, Inv, SameBut;
    PutSame(s, over, thin, p, x, e);
    TopIn(s, over, thin);
    var t, u := Put(s, p, x, e), PathTo(s, p) + [x];
    PathTop(s);
    forall v: seq<nat> | |v| == LEVELS
      ensures Walk(t, t.top, v) == if Prefix(u, v) then (if e.Empty? then Nothing else Page(e, s.level[p]))
        else Walk(s, s.top, v) {
      if Prefix(u, v) {
        PutPassed(s, over, thin, p, x, e, v);
      } else {
        assert [] + v == v;
        WalkFrame(s, t, over, thin, p, x, s.top, v);
      }
    }
  }

  lemma TopIn(s: State, over: nat, thin: set<nat>)
    requires Inv(s, over, thin)
    ensures s.top in s.mem
  {
    hide EntryOk, OwnerOk;
  }

  lemma PathTop(s: State)
    ensures PathTo(s, s.top) == []
  {}

  lemma PutPassed(s: State, over: nat, thin: set<nat>, p: nat, x: nat, e: Entry, v: seq<nat>)
    requires Inv(s, over, thin) && p in s.mem && x < ENTRIES && !e.Node? && |v| == LEVELS
             && Prefix(PathTo(s, p) + [x], v)
    ensures Walk(Put(s, p, x, e), s.top, v) == if e.Empty? then Nothing else Page(e, s.level[p])
  {
    hide NonEmpty, PathTo, Inv, Walk;
    PutSame(s, over, thin, p, x, e);
    var t, w := Put(s, p, x, e), PathTo(s, p);
    PathLength(s, over, thin, p);
    assert v[..|w|] == (w + [x])[..|w|] == w;
    assert v[|w|] == (w + [x])[|w|] == x;
    AlongTo(s, t, over, thin, p, x, p, v);
    WalkHere(t, p, v[|w|..], e);
  }

  lemma PutSame(s: State, over: nat, thin: set<nat>, p: nat, x: nat, e: Entry)
    requires Inv(s, over, thin) && p in s.mem && x < ENTRIES
    ensures SameBut(s, Put(s, p, x, e), p, x) && |s.mem[p]| == ENTRIES && p in s.level
  {
    hide NonEmpty, EntryOk, OwnerOk;
  }

  lemma WalkHere(t: State, p: nat, v: seq<nat>, e: Entry)
    requires p in t.mem && v != [] && v[0] < |t.mem[p]| && t.mem[p][v[0]] == e && !e.Node?
    ensures Walk(t, p, v) == if e.Empty? then Nothing else Page(e, |v|)
  {}

  /** Also after the change, a walk along the path to a table at or above p gets there. */
  lemma {:induction false} AlongTo(s: State, t: State, over: nat, thin: set<nat>, p: nat, x: nat, r: nat, v: seq<nat>)
    requires Inv(s, over, thin) && p in s.mem && SameBut(s, t, p, x) && t.top == s.top
    requires r in s.mem && s.level[r] >= s.level[p] && Prefix(PathTo(s, r), v)
    ensures Walk(t, s.top, v) == Walk(t, r, v[|PathTo(s, r)|..])
    decreases LEVELS - s.level[r]
  {
    hide NonEmpty;
    var u := PathTo(s, r);
    if r == s.top {
      assert v[0..] == v;
    } else {
      assert OwnerOk(s, r);
      var o := s.owner[r];
      assert EntryOk(s, o.page, o.index, over, thin);
      var w := PathTo(s, o.page);
      assert u == w + [o.index];
      assert v[..|w|] == u[..|w|] == w;
      AlongTo(s, t, over, thin, p, x, o.page, v);
      assert v[|w|] == u[|w|] == o.index;
      assert v[|w|..][1..] == v[|u|..];
      assert SameEntry(s.mem[o.page][o.index], t.mem[o.page][o.index]);
    }
  }

  /** A page that no entry refers to does not matter to walks. */
  lemma {:induction false} WalkWithout(s: State, t: State, p: nat, r: nat, v: seq<nat>)
    requires t.mem.Keys == s.mem.Keys - {p} && (forall q :: q in t.mem ==> t.mem[q] == s.mem[q]) && r != p
    requires forall q: nat, y: nat :: q in t.mem && y < |t.mem[q]| && t.mem[q][y].Node? ==> t.mem[q][y].page != p
    ensures Walk(t, r, v) == Walk(s, r, v)
    decreases |v|
  {
    if v != [] && r in t.mem && v[0] < |t.mem[r]| && t.mem[r][v[0]].Node? {
      WalkWithout(s, t, p, t.mem[r][v[0]].page, v[1..]);
    }
  }

  /** Taking out an empty table changes no translation. */
  lemma DroppedWalk(s: State, p: nat)
    requires Inv(s, s.top, {p}) && p in s.owner && OwnerOk(s, p) && NonEmpty(s.mem[p]) == 0
    ensures SameView(s, Dropped(s, p))
  {
    hide NonEmpty, Walk, PathTo;
    var t, o := Dropped(s, p), s.owner[p];
    var m := Put(s, o.page, o.index, Empty);
    OwnerCount(s, s.top, {p}, p);
    PutWalk(s, s.top, {p}, o.page, o.index, Empty);
    DroppedNodes(s, p);
    PathOwner(s, s.top, {p}, p);
    forall v: seq<nat> | |v| == LEVELS ensures Walk(t, t.top, v) == Walk(s, s.top, v) {
      WalkWithout(m, t, p, s.top, v);
      if Prefix(PathTo(s, p), v) {
        WalkTo(s, s.top, {p}, p, v);
        BlankWalk(s, p, v[|PathTo(s, p)|..]);
      }
    }
  }

  lemma PathOwner(s: State, over: nat, thin: set<nat>, p: nat)
    requires Inv(s, over, thin) && p in s.owner && OwnerOk(s, p)
    ensures PathTo(s, p) == PathTo(s, s.owner[p].page) + [s.owner[p].index]
  {
    PathStep(s, over, thin, s.owner[p].page, s.owner[p].index);
  }

  lemma DroppedNodes(s: State, p: nat)
    requires Inv(s, s.top, {p}) && p in s.owner && OwnerOk(s, p)
    ensures var t := Dropped(s, p);
            forall q: nat, y: nat :: q in t.mem && y < |t.mem[q]| && t.mem[q][y].Node? ==> t.mem[q][y].page != p
  {
    hide NonEmpty;
    var t := Dropped(s, p);
    OwnerCount(s, s.top, {p}, p);
    forall q: nat, y: nat | q in t.mem && y < |t.mem[q]| && t.mem[q][y].Node? ensures t.mem[q][y].page != p {
      assert EntryOk(s, q, y, s.top, {p});
    }
  }

  lemma BlankWalk(s: State, p: nat, v: seq<nat>)
    requires p in s.mem && NonEmpty(s.mem[p]) == 0
    ensures Walk(s, p, v) == Nothing
  {
    NonEmptyZero(s.mem[p]);
  }

  /** Hooking up an empty table changes no translation. */
  lemma HookedWalk(s: State, thin: set<nat>, p: nat, x: nat, q: nat)
    requires Inv(s, p, thin) && p in s.mem && x < ENTRIES && s.mem[p][x].Empty? && s.level[p] > 1 && q !in s.mem
             && q !in thin
    ensures SameView(s, Hooked(s, p, x, q)) && PathTo(Hooked(s, p, x, q), q) == PathTo(s, p) + [x]
    ensures forall r :: r in s.mem ==> PathTo(Hooked(s, p, x, q), r) == PathTo(s, r)
  {
    hide NonEmpty, Walk;
    var t := Hooked(s, p, x, q);
    HookedInv(s, thin, p, x, q);
    forall r | r in s.mem ensures PathTo(t, r) == PathTo(s, r) {
      HookedPath(s, thin, p, x, q, r);
    }
    PathStep(t, s.top, thin - {p} + {q}, p, x);
    forall v: seq<nat> | |v| == LEVELS ensures Walk(t, t.top, v) == Walk(s, s.top, v) {
      HookedWalkAt(s, thin, p, x, q, v);
    }
  }

  lemma {:induction false} HookedPath(s: State, thin: set<nat>, p: nat, x: nat, q: nat, r: nat)
    requires Inv(s, p, thin) && p in s.mem && x < ENTRIES && s.mem[p][x].Empty? && s.level[p] > 1 && q !in s.mem
             && r in s.mem
    ensures PathTo(Hooked(s, p, x, q), r) == PathTo(s, r)
    decreases LEVELS - s.level[r]
  {
    hide NonEmpty;
    if r != s.top {
      assert OwnerOk(s, r);
      assert EntryOk(s, s.owner[r].page, s.owner[r].index, p, thin);
      HookedPath(s, thin, p, x, q, s.owner[r].page);
    }
  }

  lemma HookedWalkAt(s: State, thin: set<nat>, p: nat, x: nat, q: nat, v: seq<nat>)
    requires Inv(s, p, thin) && p in s.mem && x < ENTRIES && s.mem[p][x].Empty? && s.level[p] > 1 && q !in s.mem
             && q !in thin && |v| == LEVELS
    ensures Walk(Hooked(s, p, x, q), s.top, v) == Walk(s, s.top, v)
  {
    HookedFrom(s, Hooked(s, p, x, q), p, thin, x, q, s.top, v);
  }

  lemma {:induction false} HookedFrom(s: State, t: State, p: nat, thin: set<nat>, x: nat, q: nat, r: nat, v: seq<nat>)
    requires Inv(s, p, thin) && p in s.mem && x < ENTRIES && s.mem[p][x].Empty? && s.level[p] > 1 && q !in s.mem
             && t == Hooked(s, p, x, q) && r in s.mem
    ensures Walk(t, r, v) == Walk(s, r, v)
    decreases |v|
  {
    hide NonEmpty, PathTo;
    if v != [] && v[0] < ENTRIES {
      if r == p && v[0] == x {
        assert v[1..] != [] && v[1] < ENTRIES ==> t.mem[q][v[1]].Empty?;
      } else if s.mem[r][v[0]].Node? {
        assert EntryOk(s, r, v[0], p, thin);
        HookedFrom(s, t, p, thin, x, q, s.mem[r][v[0]].page, v[1..]);
      }
    }
  }

  // ---------------------------------------------------------------------------
  // Tables and mappings
  // ---------------------------------------------------------------------------

  /** Below every table that is not empty there is a mapped page. */
  lemma {:induction false} LeafBelow(s: State, p: nat) returns (v: seq<nat>)
    requires Inv(s, s.top, {}) && p in s.mem && NonEmpty(s.mem[p]) >= 1
    ensures |v| == s.level[p] && Walk(s, p, v) != Nothing && Walk(s, p, v).level <= s.level[p] && v[0] < ENTRIES
    decreases s.level[p]
  {
    hide PathTo;
    NonEmptyZero(s.mem[p]);
    var x :| 0 <= x < ENTRIES && !s.mem[p][x].Empty?;
    assert EntryOk(s, p, x, s.top, {});
    if s.mem[p][x].Leaf? {
      v := [x] + seq(s.level[p] - 1, _ => 0);
      assert v[0] == x;
    } else {
      var q := s.mem[p][x].page;
      var w := LeafBelow(s, q);
      v := [x] + w;
      assert v[0] == x && v[1..] == w;
    }
  }

  /** When nothing is mapped, no table but the top one is left. */
  lemma AllReturned(s: State)
    requires Inv(s, s.top, {}) && forall v: seq<nat> :: |v| == LEVELS ==> Walk(s, s.top, v) == Nothing
    ensures s.mem.Keys == {s.top}
  {
    hide PathTo, Walk, NonEmpty;
    forall p | p in s.mem ensures p == s.top {
      if p != s.top {
        OwnerCount(s, s.top, {}, p);
        var w := LeafBelow(s, p);
        PathLength(s, s.top, {}, p);
        var u := PathTo(s, p);
        assert (u + w)[..|u|] == u && (u + w)[|u|..] == w;
        WalkTo(s, s.top, {}, p, u + w);
      }
    }
  }

  /** Counters fit their 11 bits. */
  lemma CounterFits(s: State, over: nat, thin: set<nat>, p: nat)
    requires Inv(s, over, thin) && p in s.owner
    ensures OwnerOk(s, p) && CountOf(s, p) < 0x800
  {
    hide NonEmpty, Inv;
    OwnerCount(s, over, thin, p);
    TableSize(s, over, thin, p);
    NonEmptyBound(s.mem[p]);
  }

  lemma TableSize(s: State, over: nat, thin: set<nat>, p: nat)
    requires Inv(s, over, thin) && p in s.mem
    ensures |s.mem[p]| == ENTRIES && Shape(s)
  {
    hide EntryOk, OwnerOk;
  }

  // ---------------------------------------------------------------------------
  // Restoring tables
  // ---------------------------------------------------------------------------

  /** The tables of s are tables of t, in the same places. */
  ghost predicate Extends(s: State, t: State)
  {
    && t.top == s.top
    && forall q :: q in s.owner ==>
       q in t.owner && t.owner[q] == s.owner[q] && q in s.level && q in t.level && t.level[q] == s.level[q]
  }

  lemma {:induction false} ExtendsPath(s: State, t: State, p: nat)
    requires Inv(s, s.top, {}) && Inv(t, t.top, {}) && Extends(s, t) && p in s.mem
    ensures p in t.mem && PathTo(t, p) == PathTo(s, p)
    decreases LEVELS - s.level[p]
  {
    hide NonEmpty;
    if p != s.top {
      assert OwnerOk(s, p);
      var o := s.owner[p];
      assert EntryOk(s, o.page, o.index, s.top, {});
      ExtendsPath(s, t, o.page);
      assert OwnerOk(t, p) && EntryOk(t, o.page, o.index, t.top, {});
    }
  }

  /** A path leads to one table only. */
  lemma {:induction false} PathUnique(s: State, p: nat, q: nat)
    requires Inv(s, s.top, {}) && p in s.mem && q in s.mem && PathTo(s, p) == PathTo(s, q)
    ensures p == q
    decreases LEVELS - s.level[p]
  {
    hide NonEmpty, PathTo;
    PathLength(s, s.top, {}, p);
    PathLength(s, s.top, {}, q);
    if p != s.top {
      OwnerCount(s, s.top, {}, p);
      OwnerCount(s, s.top, {}, q);
      PathOwner(s, s.top, {}, p);
      PathOwner(s, s.top, {}, q);
      var u, w := PathTo(s, s.owner[p].page), PathTo(s, s.owner[q].page);
      assert u == PathTo(s, p)[..|PathTo(s, p)| - 1] == w;
      PathUnique(s, s.owner[p].page, s.owner[q].page);
    }
  }

  /** A walk that finds its page k levels down passes a table there. */
  lemma {:induction false} WalkTable(s: State, p: nat, v: seq<nat>, k: nat) returns (q: nat)
    requires Inv(s, s.top, {}) && p in s.mem && k <= |v| && Walk(s, p, v) != Nothing && Walk(s, p, v).level <= |v| - k
    ensures q in s.mem && PathTo(s, q) == PathTo(s, p) + v[..k]
    decreases k
  {
    hide NonEmpty, PathTo;
    if k == 0 {
      return p;
    }
    PathStep(s, s.top, {}, p, v[0]);
    var r := s.mem[p][v[0]].page;
    q := WalkTable(s, r, v[1..], k - 1);
    assert v[..k] == [v[0]] + v[1..][..k - 1];
  }

  /** Every table of s is one of w, if both translate alike and lie within t. */
  lemma TableKept(s: State, t: State, w: State, q: nat)
    requires Inv(s, s.top, {}) && Inv(t, t.top, {}) && Inv(w, w.top, {}) && Extends(s, t) && Extends(w, t)
             && SameView(s, w) && q in s.mem
    ensures q in w.mem
  {
    hide NonEmpty, PathTo, Walk, Inv, SameView;
    TopIn(w, w.top, {});
    if q != s.top {
      ShapeParts(s, q);
      OwnerCount(s, s.top, {}, q);
      var leaf := LeafBelow(s, q);
      var u := PathTo(s, q);
      PathLength(s, s.top, {}, q);
      var v := u + leaf;
      assert v[..|u|] == u && v[|u|..] == leaf;
      WalkTo(s, s.top, {}, q, v);
      SameViewAt(s, w, v);
      var p := WalkTable(w, w.top, v, |u|);
      PathTop(w);
      assert [] + v[..|u|] == u;
      ExtendsPath(s, t, q);
      ExtendsPath(w, t, p);
      PathUnique(t, p, q);
    }
  }

  lemma ShapeParts(s: State, q: nat)
    requires Inv(s, s.top, {}) && q in s.mem
    ensures Shape(s) && q in s.level && |s.mem[q]| == ENTRIES && (q != s.top ==> q in s.owner)
  {
    hide EntryOk, OwnerOk;
  }

  lemma SameViewAt(s: State, t: State, v: seq<nat>)
    requires SameView(s, t) && |v| == LEVELS
    ensures Walk(t, t.top, v) == Walk(s, s.top, v)
  {
    hide Walk;
  }

  lemma SameViewBack(s: State, t: State)
    requires SameView(s, t)
    ensures SameView(t, s)
  {
    hide Walk;
    forall v: seq<nat> | |v| == LEVELS ensures Walk(s, s.top, v) == Walk(t, t.top, v) {
      SameViewAt(s, t, v);
    }
  }

  /** A walk finds pages no larger than what is left of the address. */
  lemma {:induction false} WalkLevel(s: State, p: nat, v: seq<nat>)
    ensures Walk(s, p, v) != Nothing ==> 1 <= Walk(s, p, v).level <= |v| && Walk(s, p, v).leaf.Leaf?
    decreases |v|
  {
    if v != [] && p in s.mem && v[0] < |s.mem[p]| && s.mem[p][v[0]].Node? {
      WalkLevel(s, s.mem[p][v[0]].page, v[1..]);
    }
  }

  /** What a slot holds shows in the translation of an address that passes it. */
  lemma SlotView(s: State, p: nat, x: nat, v: seq<nat>)
    requires Inv(s, s.top, {}) && p in s.mem && x < ENTRIES && |v| == LEVELS && Prefix(PathTo(s, p) + [x], v)
    ensures p in s.level && |s.mem[p]| == ENTRIES
    ensures var e, f := s.mem[p][x], Walk(s, s.top, v);
            && (e.Empty? ==> f == Nothing) && (e.Leaf? ==> f == Page(e, s.level[p]))
            && (e.Node? ==> f == Nothing || f.level < s.level[p])
  {
    hide NonEmpty, PathTo;
    var u := PathTo(s, p);
    PathLength(s, s.top, {}, p);
    assert v[..|u|] == (u + [x])[..|u|] == u;
    assert v[|u|] == (u + [x])[|u|] == x;
    WalkTo(s, s.top, {}, p, v);
    assert v[|u|..][0] == x;
    if s.mem[p][x].Node? {
      WalkLevel(s, s.mem[p][x].page, v[|u|..][1..]);
    }
  }

  /** Slots of tables that both states have agree, counters aside. */
  lemma SlotKept(s: State, t: State, w: State, p: nat, x: nat)
    requires Inv(s, s.top, {}) && Inv(t, t.top, {}) && Inv(w, w.top, {}) && Extends(s, t) && Extends(w, t)
             && SameView(s, w)
    requires p in s.mem && p in w.mem && x < ENTRIES
    ensures |s.mem[p]| == |w.mem[p]| == ENTRIES && SameEntry(s.mem[p][x], w.mem[p][x])
  {
    hide NonEmpty, PathTo, Walk, SameView;
    ExtendsPath(s, t, p);
    ExtendsPath(w, t, p);
    PathLength(s, s.top, {}, p);
    PathLength(w, w.top, {}, p);
    var v := PathTo(s, p) + [x] + seq(s.level[p] - 1, _ => 0);
    assert v[..|PathTo(s, p)| + 1] == PathTo(s, p) + [x];
    SlotView(s, p, x, v);
    SlotView(w, p, x, v);
    SameViewAt(s, w, v);
    assert EntryOk(s, p, x, s.top, {}) && EntryOk(w, p, x, w.top, {});
    if s.mem[p][x].Node? {
      NodeKept(s, t, w, p, x);
    } else if w.mem[p][x].Node? {
      SameViewBack(s, w);
      NodeKept(w, t, s, p, x);
    }
  }

  lemma NodeKept(s: State, t: State, w: State, p: nat, x: nat)
    requires Inv(s, s.top, {}) && Inv(t, t.top, {}) && Inv(w, w.top, {}) && Extends(s, t) && Extends(w, t)
             && SameView(s, w)
    requires p in s.mem && p in w.mem && x < ENTRIES && s.mem[p][x].Node?
    ensures |w.mem[p]| == ENTRIES && w.mem[p][x].Node? && w.mem[p][x].page == s.mem[p][x].page
  {
    hide NonEmpty, PathTo, Walk, SameView;
    var q := s.mem[p][x].page;
    assert EntryOk(s, p, x, s.top, {});
    TableKept(s, t, w, q);
    assert OwnerOk(w, q);
  }

  lemma {:induction false} SameCount(a: seq<Entry>, b: seq<Entry>)
    requires |a| == |b| && forall i :: 0 <= i < |a| ==> SameEntry(a[i], b[i])
    ensures NonEmpty(a) == NonEmpty(b)
  {
    if a != [] {
      SameCount(a[..|a| - 1], b[..|b| - 1]);
    }
  }

  /** Two states within a third that translate alike are the same. */
  lemma Restored(s: State, t: State, w: State)
    requires Inv(s, s.top, {}) && Inv(t, t.top, {}) && Inv(w, w.top, {}) && Extends(s, t) && Extends(w, t)
             && SameView(s, w)
    ensures s == w
  {
    hide NonEmpty, PathTo, Walk, SameView;
    SameViewBack(s, w);
    forall q | q in s.mem ensures q in w.mem { TableKept(s, t, w, q); }
    forall q | q in w.mem ensures q in s.mem { TableKept(w, t, s, q); }
    assert s.mem.Keys == w.mem.Keys;
    assert s.owner == w.owner && s.level == w.level;
    forall p | p in s.mem ensures s.mem[p] == w.mem[p] {
      forall x: nat | x < ENTRIES ensures s.mem[p][x] == w.mem[p][x] {
        EntryRestored(s, t, w, p, x);
      }
    }
    assert s.mem == w.mem;
  }

  lemma EntryRestored(s: State, t: State, w: State, p: nat, x: nat)
    requires Inv(s, s.top, {}) && Inv(t, t.top, {}) && Inv(w, w.top, {}) && Extends(s, t) && Extends(w, t)
             && SameView(s, w)
    requires s.mem.Keys == w.mem.Keys && p in s.mem && x < ENTRIES
    ensures |s.mem[p]| == |w.mem[p]| == ENTRIES && s.mem[p][x] == w.mem[p][x]
  {
    hide NonEmpty, PathTo, Walk, SameView, Extends;
    SlotKept(s, t, w, p, x);
    if s.mem[p][x].Node? {
      assert EntryOk(s, p, x, s.top, {}) && EntryOk(w, p, x, w.top, {});
      var q := s.mem[p][x].page;
      forall i | 0 <= i < ENTRIES ensures SameEntry(s.mem[q][i], w.mem[q][i]) {
        SlotKept(s, t, w, q, i);
      }
      SameCount(s.mem[q], w.mem[q]);
    }
  }

  /** Writing a place and clearing it again restores every translation exactly when nothing was there. */
  lemma PutThenCleared(s: State, t: State, w: State, u: seq<nat>, f: Found)
    requires ViewPut(s, t, u, f) && ViewPut(t, w, u, Nothing)
    ensures SameView(s, w) <==> forall v: seq<nat> :: |v| == LEVELS && Prefix(u, v) ==> Walk(s, s.top, v) == Nothing
  {
    hide Walk, Prefix;
    assert forall v: seq<nat> :: |v| == LEVELS ==> Walk(w, w.top, v) == if Prefix(u, v) then Nothing
      else Walk(t, t.top, v);
    assert forall v: seq<nat> :: |v| == LEVELS && !Prefix(u, v) ==> Walk(t, t.top, v) == Walk(s, s.top, v);
  }

  /** Addresses that agree up to where the page is found translate alike. */
  lemma {:induction false} WalkPrefix(s: State, p: nat, v: seq<nat>, w: seq<nat>, k: nat)
    requires |v| == |w| && k <= |v| && v[..k] == w[..k] && Walk(s, p, w) != Nothing && Walk(s, p, w).level > |v| - k
    ensures Walk(s, p, v) == Walk(s, p, w)
    decreases |v|
  {
    if k == 0 {
      WalkLevel(s, p, w);
    } else {
      assert v[0] == v[..k][0] == w[..k][0] == w[0];
      if s.mem[p][w[0]].Node? {
        assert v[1..][..k - 1] == v[..k][1..] == w[1..][..k - 1];
        WalkPrefix(s, s.mem[p][w[0]].page, v[1..], w[1..], k - 1);
      }
    }
  }
}
