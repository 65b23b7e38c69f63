/** The worklist solver that recovers all counts of a function from the counters off the spanning tree. */
module CoverageSolver {
  import opened CoverageGraph
  import opened CoverageForest

  const MANY := 0xffff_ffff

  /** The solver's tables: arc counts, block counts, remaining arcs per block, and the two worklists. */
  datatype State = State(arc: seq<int>, count: seq<int>, next: seq<int>, prev: seq<int>, unsolved: set<nat>,
    solved: set<nat>)

  /** The remaining-arc count a block should have; the exit's and the entry's open side never run out. */
  ghost function NextCount(g: Graph, a: seq<int>, b: nat): int
    requires ValidGraph(g) && |a| == |g.arcs| && b < g.blocks
  {
    Unknown(a, g.next[b]) + if b == 1 then MANY - |g.next[b]| else 0
  }

  ghost function PrevCount(g: Graph, a: seq<int>, b: nat): int
    requires ValidGraph(g) && |a| == |g.arcs| && b < g.blocks
  {
    Unknown(a, g.prev[b]) + if b == 0 then MANY - |g.prev[b]| else 0
  }

  ghost predicate Sized(g: Graph, s: State)
  {
    |s.arc| == |g.arcs| && |s.count| == g.blocks && |s.next| == g.blocks && |s.prev| == g.blocks
  }

  /** The remaining-arc counts are right. */
  ghost predicate Counted(g: Graph, s: State)
    requires ValidGraph(g) && Sized(g, s)
  {
    forall b :: 0 <= b < g.blocks ==> s.next[b] == NextCount(g, s.arc, b) && s.prev[b] == PrevCount(g, s.arc, b)
  }

  /** A solved block has the flow's count, and one of its sides is complete. */
  ghost predicate Sound(g: Graph, f: seq<int>, s: State)
    requires ValidGraph(g) && IsFlow(g, f) && Sized(g, s)
  {
    && Agree(s.arc, f)
    && forall b :: 0 <= b < g.blocks ==>
       s.count[b] == -1 || (s.count[b] == BlockFlow(g, f, b) && (s.next[b] == 0 || s.prev[b] == 0))
  }

  /** The worklists hold every block that can make progress. */
  ghost predicate Listed(g: Graph, s: State)
    requires Sized(g, s)
  {
    && (forall b :: b in s.unsolved ==> b < g.blocks && s.count[b] == -1)
    && (forall b :: b in s.solved ==> b < g.blocks && s.count[b] != -1)
    && (forall b: nat :: b < g.blocks && s.count[b] == -1 && (s.next[b] == 0 || s.prev[b] == 0) ==> b in s.unsolved)
    && (forall b: nat :: b < g.blocks && s.count[b] != -1 && (s.next[b] == 1 || s.prev[b] == 1) ==> b in s.solved)
  }

  ghost function UnknownIn(a: seq<int>): set<nat>
  {
    set k: nat | k < |a| && a[k] == -1
  }

  /** No core of the uncounted arcs is ever broken, and only uncounted arcs are unknown. */
  ghost predicate KeepsCores(g: Graph, a: seq<int>)
  {
    && UnknownIn(a) <= TreeArcs(g)
    && forall c: set<nat> :: Core(g, c) && c <= TreeArcs(g) ==> c <= UnknownIn(a)
  }

  ghost predicate Inv(g: Graph, f: seq<int>, s: State)
  {
    ValidGraph(g) && IsFlow(g, f) && Sized(g, s) && Counted(g, s) && Sound(g, f, s) && Listed(g, s)
      && KeepsCores(g, s.arc)
  }

  lemma InvParts(g: Graph, f: seq<int>, s: State)
    requires Inv(g, f, s)
    ensures ValidGraph(g) && IsFlow(g, f) && Sized(g, s) && Agree(s.arc, f)
    ensures |s.arc| == |g.arcs| && |s.count| == g.blocks && |s.next| == g.blocks && |s.prev| == g.blocks
    ensures |g.next| == g.blocks && |g.prev| == g.blocks
    ensures forall b :: b in s.unsolved ==> b < g.blocks && s.count[b] == -1
    ensures forall b :: b in s.solved ==> b < g.blocks && s.count[b] != -1
    ensures forall k :: 0 <= k < |g.arcs| ==> g.arcs[k].src < g.blocks && g.arcs[k].dst < g.blocks
  {}

  // ---------------------------------------------------------------------------
  // First phase: blocks
  // ---------------------------------------------------------------------------

  /** Taking an unsolved block whose one side is complete. */
  ghost function SolveBlock(s: State, b: nat, total: int): State
    requires b < |s.count|
  {
    s.(count := s.count[b := total], unsolved := s.unsolved - {b}, solved := s.solved + {b})
  }

  lemma SolveBlockInv(g: Graph, f: seq<int>, s: State, b: nat, total: int)
    requires Inv(g, f, s) && b in s.unsolved && b < g.blocks
    requires (s.next[b] == 0 && total == Sum(s.arc, g.next[b]))
             || (s.next[b] != 0 && s.prev[b] == 0 && total == Sum(s.arc, g.prev[b]))
    ensures Inv(g, f, SolveBlock(s, b, total))
  {
    if s.next[b] == 0 {
      AllKnown(s.arc, f, g.next[b]);
    } else {
      AllKnown(s.arc, f, g.prev[b]);
    }
    BlockFlowNonNegative(g, f, b);
  }

  lemma {:induction false} SumNonNegative(f: seq<int>, l: seq<nat>)
    requires Within(l, |f|) && forall k :: 0 <= k < |f| ==> f[k] >= 0
    ensures Sum(f, l) >= 0
  {
    if l != [] {
      SumNonNegative(f, l[..|l| - 1]);
    }
  }

  lemma BlockFlowNonNegative(g: Graph, f: seq<int>, b: nat)
    requires ValidGraph(g) && IsFlow(g, f) && b < g.blocks
    ensures BlockFlow(g, f, b) >= 0
  {
    SumNonNegative(f, g.next[b]);
    SumNonNegative(f, g.prev[b]);
  }

  /** Dropping a block that cannot be solved yet. */
  lemma DropBlockInv(g: Graph, f: seq<int>, s: State, b: nat)
    requires Inv(g, f, s) && b < g.blocks && s.next[b] != 0 && s.prev[b] != 0
    ensures Inv(g, f, s.(unsolved := s.unsolved - {b}))
  {}

  // ---------------------------------------------------------------------------
  // Second phase: arcs
  // ---------------------------------------------------------------------------

  /** Dropping a solved block that has no single unknown arc. */
  lemma DropSolvedInv(g: Graph, f: seq<int>, s: State, b: nat)
    requires Inv(g, f, s) && b < g.blocks && s.next[b] != 1 && s.prev[b] != 1
    ensures Inv(g, f, s.(solved := s.solved - {b}))
  {}

  /** A block on the other end of a newly solved arc joins the worklist it now belongs to. */
  ghost function Notify(s: State, b: nat, left: int): State
    requires b < |s.count|
  {
    if s.count[b] != -1 && left == 1 then s.(solved := s.solved + {b})
    else if s.count[b] == -1 && left == 0 then s.(unsolved := s.unsolved + {b})
    else s
  }

  /** Solving the last unknown arc out of b. */
  ghost function SolveNext(g: Graph, s: State, b: nat, k: nat, v: int): State
    requires Sized(g, s) && b < g.blocks && k < |g.arcs| && g.arcs[k].dst < g.blocks
  {
    var d := g.arcs[k].dst;
    var prev := s.prev[d := s.prev[d] - 1];
    Notify(s.(arc := s.arc[k := v], next := s.next[b := 0], prev := prev, solved := s.solved - {b}), d, prev[d])
  }

  /** Solving the last unknown arc into b. */
  ghost function SolvePrev(g: Graph, s: State, b: nat, k: nat, v: int): State
    requires Sized(g, s) && b < g.blocks && k < |g.arcs| && g.arcs[k].src < g.blocks
  {
    var d := g.arcs[k].src;
    var next := s.next[d := s.next[d] - 1];
    Notify(s.(arc := s.arc[k := v], prev := s.prev[b := 0], next := next, solved := s.solved - {b}), d, next[d])
  }

  /** The counts after solving arc k. */
  lemma ArcCounts(g: Graph, a: seq<int>, k: nat, v: int, b: nat)
    requires ValidGraph(g) && |a| == |g.arcs| && k < |a| && a[k] == -1 && v != -1 && b < g.blocks
    ensures NextCount(g, a[k := v], b) == NextCount(g, a, b) - if g.arcs[k].src == b then 1 else 0
    ensures PrevCount(g, a[k := v], b) == PrevCount(g, a, b) - if g.arcs[k].dst == b then 1 else 0
  {
    UnknownSolved(a, g.next[b], k, v);
    UnknownSolved(a, g.prev[b], k, v);
  }

  /** What one solved arc changes. */
  lemma SolveNextParts(g: Graph, f: seq<int>, s: State, b: nat, k: nat, v: int)
    requires ValidGraph(g) && Sized(g, s) && Counted(g, s) && Agree(s.arc, f) && |f| == |g.arcs|
             && (forall k :: 0 <= k < |f| ==> f[k] >= 0)
    requires b < g.blocks && k < |g.arcs| && g.arcs[k].src == b && s.arc[k] == -1 && v == f[k] && s.next[b] == 1
    ensures g.arcs[k].src < g.blocks && g.arcs[k].dst < g.blocks
    ensures var t := SolveNext(g, s, b, k, v);
            && Sized(g, t) && Counted(g, t) && Agree(t.arc, f) && t.count == s.count
            && (forall c: nat :: c < g.blocks ==> t.next[c] == if c == b then 0 else s.next[c])
            && (forall c: nat :: c < g.blocks ==> t.prev[c] == s.prev[c] - if c == g.arcs[k].dst then 1 else 0)
  {
    hide NextCount, PrevCount, Unknown;
    var t := SolveNext(g, s, b, k, v);
    forall c: nat | c < g.blocks
      ensures t.next[c] == NextCount(g, t.arc, c) && t.prev[c] == PrevCount(g, t.arc, c)
    {
      ArcCounts(g, s.arc, k, v, c);
    }
  }

  lemma SolvePrevParts(g: Graph, f: seq<int>, s: State, b: nat, k: nat, v: int)
    requires ValidGraph(g) && Sized(g, s) && Counted(g, s) && Agree(s.arc, f) && |f| == |g.arcs|
             && (forall k :: 0 <= k < |f| ==> f[k] >= 0)
    requires b < g.blocks && k < |g.arcs| && g.arcs[k].dst == b && s.arc[k] == -1 && v == f[k] && s.prev[b] == 1
    ensures g.arcs[k].src < g.blocks && g.arcs[k].dst < g.blocks
    ensures var t := SolvePrev(g, s, b, k, v);
            && Sized(g, t) && Counted(g, t) && Agree(t.arc, f) && t.count == s.count
            && (forall c: nat :: c < g.blocks ==> t.prev[c] == if c == b then 0 else s.prev[c])
            && (forall c: nat :: c < g.blocks ==> t.next[c] == s.next[c] - if c == g.arcs[k].src then 1 else 0)
  {
    hide NextCount, PrevCount, Unknown;
    var t := SolvePrev(g, s, b, k, v);
    forall c: nat | c < g.blocks
      ensures t.next[c] == NextCount(g, t.arc, c) && t.prev[c] == PrevCount(g, t.arc, c)
    {
      ArcCounts(g, s.arc, k, v, c);
    }
  }

  /** The difference is the flow of the missing arc. */
  lemma NextArcValue(g: Graph, f: seq<int>, s: State, b: nat, k: nat)
    requires Inv(g, f, s) && b < g.blocks && s.count[b] != -1 && s.next[b] == 1 && k in g.next[b] && s.arc[k] == -1
    ensures k < |g.arcs| && g.arcs[k].src == b && s.count[b] - KnownSum(s.arc, g.next[b]) == f[k]
  {
    OneUnknown(s.arc, f, g.next[b], k);
  }

  lemma PrevArcValue(g: Graph, f: seq<int>, s: State, b: nat, k: nat)
    requires Inv(g, f, s) && b < g.blocks && s.count[b] != -1 && s.next[b] != 1 && s.prev[b] == 1 && k in g.prev[b]
             && s.arc[k] == -1
    ensures k < |g.arcs| && g.arcs[k].dst == b && s.count[b] - KnownSum(s.arc, g.prev[b]) == f[k]
  {
    OneUnknown(s.arc, f, g.prev[b], k);
  }

  /** An arc that is the last unknown one on its side of a solved block lies in no core. */
  lemma SolvedArcOutside(g: Graph, f: seq<int>, s: State, b: nat, k: nat, c: set<nat>)
    requires Inv(g, f, s) && b < g.blocks && s.count[b] != -1 && k < |g.arcs| && s.arc[k] == -1
    requires (g.arcs[k].src == b && s.next[b] == 1) || (g.arcs[k].dst == b && s.prev[b] == 1)
    requires Core(g, c) && c <= UnknownIn(s.arc)
    ensures k !in c
  {
    hide Sum, KnownSum, Unknown, IsFlow, KeepsCores, Listed;
    if k in c {
      assert Touches(g, k, b);
      if g.arcs[k].src == g.arcs[k].dst {
        UnknownMember(s.arc, g.next[b], k);
        UnknownMember(s.arc, g.prev[b], k);
      } else {
        assert MetAt(g, c, k, b);
        var j :| j in c && j != k && Touches(g, j, b);
        MetCount(g, s.arc, b, j, k);
      }
    }
  }

  lemma MetCount(g: Graph, a: seq<int>, b: nat, j: nat, k: nat)
    requires ValidGraph(g) && |a| == |g.arcs| && b < g.blocks && j != k && Touches(g, j, b) && Touches(g, k, b)
             && a[j] == -1 && a[k] == -1
    ensures Unknown(a, g.next[b]) >= 2 || Unknown(a, g.prev[b]) >= 2
            || (Unknown(a, g.next[b]) >= 1 && Unknown(a, g.prev[b]) >= 1)
  {
    hide Unknown;
    if g.arcs[j].src == b {
      UnknownMember(a, g.next[b], j);
    } else {
      UnknownMember(a, g.prev[b], j);
    }
    if g.arcs[k].src == b {
      UnknownMember(a, g.next[b], k);
    } else {
      UnknownMember(a, g.prev[b], k);
    }
    if g.arcs[j].src == b == g.arcs[k].src {
      UnknownTwo(a, g.next[b], j, k);
    } else if g.arcs[j].dst == b == g.arcs[k].dst {
      UnknownTwo(a, g.prev[b], j, k);
    }
  }

  lemma SolvedArcKeeps(g: Graph, f: seq<int>, s: State, b: nat, k: nat, v: int)
    requires Inv(g, f, s) && b < g.blocks && s.count[b] != -1 && k < |g.arcs| && s.arc[k] == -1 && v != -1
    requires (g.arcs[k].src == b && s.next[b] == 1) || (g.arcs[k].dst == b && s.prev[b] == 1)
    ensures KeepsCores(g, s.arc[k := v])
  {
    hide Sum, KnownSum, Unknown, IsFlow, Listed, Counted, Sound, ValidGraph, Core;
    forall c: set<nat> | Core(g, c) && c <= TreeArcs(g) ensures c <= UnknownIn(s.arc[k := v]) {
      SolvedArcOutside(g, f, s, b, k, c);
    }
  }

  lemma SolveNextInv(g: Graph, f: seq<int>, s: State, b: nat, k: nat, v: int)
    requires Inv(g, f, s) && b in s.solved && b < g.blocks
    requires k < |g.arcs| && g.arcs[k].src == b && s.arc[k] == -1 && v == f[k] && s.next[b] == 1
    ensures Inv(g, f, SolveNext(g, s, b, k, v))
  {
    hide KeepsCores;
    SolvedArcKeeps(g, f, s, b, k, v);
    SolveNextParts(g, f, s, b, k, v);
  }

  lemma SolvePrevInv(g: Graph, f: seq<int>, s: State, b: nat, k: nat, v: int)
    requires Inv(g, f, s) && b in s.solved && b < g.blocks
    requires k < |g.arcs| && g.arcs[k].dst == b && s.arc[k] == -1 && v == f[k] && s.prev[b] == 1
    ensures Inv(g, f, SolvePrev(g, s, b, k, v))
  {
    hide KeepsCores;
    SolvedArcKeeps(g, f, s, b, k, v);
    SolvePrevParts(g, f, s, b, k, v);
  }

  // ---------------------------------------------------------------------------
  // Termination
  // ---------------------------------------------------------------------------

  ghost function UnknownArcs(s: State): set<nat>
  {
    UnknownIn(s.arc)
  }

  ghost function OpenBlocks(s: State): set<nat>
  {
    set b: nat | b < |s.count| && s.count[b] == -1
  }

  /** Fewer unknown arcs, or as many and fewer open blocks, or as many of both and shorter worklists. */
  ghost predicate Less(s: State, t: State)
  {
    || UnknownArcs(s) < UnknownArcs(t)
    || (UnknownArcs(s) == UnknownArcs(t) && OpenBlocks(s) < OpenBlocks(t))
    || (UnknownArcs(s) == UnknownArcs(t) && OpenBlocks(s) == OpenBlocks(t)
       && |s.unsolved| + |s.solved| < |t.unsolved| + |t.solved|)
  }

  lemma LessTransitive(s: State, t: State, u: State)
    requires Less(s, t) && (Less(t, u) || t == u)
    ensures Less(s, u)
  {}

  lemma SolveBlockLess(s: State, b: nat, total: int)
    requires b < |s.count| && s.count[b] == -1 && total != -1
    ensures Less(SolveBlock(s, b, total), s)
  {
    var t := SolveBlock(s, b, total);
    assert b in OpenBlocks(s) && b !in OpenBlocks(t);
  }

  lemma DropLess(s: State, b: nat)
    requires b in s.unsolved
    ensures Less(s.(unsolved := s.unsolved - {b}), s)
  {}

  lemma DropSolvedLess(s: State, b: nat)
    requires b in s.solved
    ensures Less(s.(solved := s.solved - {b}), s)
  {}

  lemma SolveArcLess(s: State, t: State, k: nat, v: int)
    requires k < |s.arc| && s.arc[k] == -1 && v != -1 && t.arc == s.arc[k := v]
    ensures Less(t, s) && UnknownArcs(t) < UnknownArcs(s)
  {
    assert k in UnknownArcs(s) && k !in UnknownArcs(t);
  }

  // ---------------------------------------------------------------------------
  // Seeding
  // ---------------------------------------------------------------------------

  /** The counters of the listed arcs, in order: the flow of every arc off the tree. */
  ghost function CountersOf(g: Graph, f: seq<int>, l: seq<nat>): seq<int>
    requires |f| == |g.arcs| && Within(l, |f|)
  {
    if l == [] then []
    else
      var k := l[|l| - 1];
      CountersOf(g, f, l[..|l| - 1]) + if g.arcs[k].onTree then [] else [f[k]]
  }

  /** The counters of the first b blocks. */
  ghost function Counters(g: Graph, f: seq<int>, b: nat): seq<int>
    requires ValidGraph(g) && |f| == |g.arcs| && b <= g.blocks
  {
    if b == 0 then [] else Counters(g, f, b - 1) + CountersOf(g, f, g.next[b - 1])
  }

  lemma {:induction false} CountersPrefix(g: Graph, f: seq<int>, b: nat, c: nat)
    requires ValidGraph(g) && |f| == |g.arcs| && b <= c <= g.blocks
    ensures Counters(g, f, b) <= Counters(g, f, c)
  {
    if b < c {
      CountersPrefix(g, f, b, c - 1);
    }
  }

  lemma {:induction false} CountersOfPrefix(g: Graph, f: seq<int>, l: seq<nat>, i: nat)
    requires |f| == |g.arcs| && Within(l, |f|) && i <= |l|
    ensures CountersOf(g, f, l[..i]) <= CountersOf(g, f, l)
    decreases |l|
  {
    if i < |l| {
      CountersOfPrefix(g, f, l[..|l| - 1], i);
      assert l[..|l| - 1][..i] == l[..i];
    } else {
      assert l[..i] == l;
    }
  }

  /** Block src has been seeded up to its arc i, the blocks before it completely. */
  ghost predicate Seeded(g: Graph, f: seq<int>, s: State, src: nat, i: nat)
  {
    && ValidGraph(g) && IsFlow(g, f) && Sized(g, s) && Counted(g, s)
    && src <= g.blocks && (src < g.blocks ==> i <= |g.next[src]|) && (src == g.blocks ==> i == 0)
    && forall k :: 0 <= k < |g.arcs| ==>
         s.arc[k] == (if !g.arcs[k].onTree && (g.arcs[k].src < src || (g.arcs[k].src == src && k in g.next[src][..i]))
           then f[k] else -1)
  }

  lemma {:induction false} NothingKnown(a: seq<int>, l: seq<nat>)
    requires Within(l, |a|) && forall k :: 0 <= k < |a| ==> a[k] == -1
    ensures Unknown(a, l) == |l|
  {
    if l != [] {
      NothingKnown(a, l[..|l| - 1]);
    }
  }

  lemma SeedStart(g: Graph, f: seq<int>, s: State)
    requires ValidGraph(g) && IsFlow(g, f) && Sized(g, s)
    requires forall k :: 0 <= k < |s.arc| ==> s.arc[k] == -1
    requires forall b :: 0 <= b < g.blocks ==> s.next[b] == |g.next[b]| && s.prev[b] == |g.prev[b]|
    ensures g.blocks >= 2 && Seeded(g, f, s.(prev := s.prev[0 := MANY], next := s.next[1 := MANY]), 0, 0)
    ensures |g.next| == g.blocks && |g.arcs| == |f| && Counters(g, f, 0) == []
    ensures forall b :: 0 <= b < g.blocks ==> Within(g.next[b], |f|)
  {
    var t := s.(prev := s.prev[0 := MANY], next := s.next[1 := MANY]);
    forall b | 0 <= b < g.blocks ensures t.next[b] == NextCount(g, t.arc, b) && t.prev[b] == PrevCount(g, t.arc, b) {
      NothingKnown(t.arc, g.next[b]);
      NothingKnown(t.arc, g.prev[b]);
    }
  }

  lemma SeedBlock(g: Graph, f: seq<int>, s: State, src: nat, u: set<nat>)
    requires Seeded(g, f, s, src, 0) && src < g.blocks
    ensures Seeded(g, f, s.(unsolved := u), src, 0) && |f| == |g.arcs|
    ensures |g.next| == g.blocks && Within(g.next[src], |f|) && CountersOf(g, f, g.next[src][..0]) == []
  {}

  /** One arc of the seeding loop. */
  lemma SeedArc(g: Graph, f: seq<int>, s: State, src: nat, i: nat)
    requires Seeded(g, f, s, src, i) && src < g.blocks && i < |g.next[src]|
    ensures var k := g.next[src][i];
            && k < |g.arcs| && g.arcs[k].src == src && g.arcs[k].dst < g.blocks
            && |s.arc| == |g.arcs| == |f| && |s.next| == g.blocks == |s.prev|
            && Within(g.next[src][..i], |f|) && Within(g.next[src][..i + 1], |f|)
            && var index := |Counters(g, f, src)| + |CountersOf(g, f, g.next[src][..i])|;
               && index <= |Counters(g, f, g.blocks)|
               && |CountersOf(g, f, g.next[src][..i + 1])| ==
                  |CountersOf(g, f, g.next[src][..i])| + (if g.arcs[k].onTree then 0 else 1)
               && (g.arcs[k].onTree ==> Seeded(g, f, s, src, i + 1))
               && (!g.arcs[k].onTree ==>
                    && index < |Counters(g, f, g.blocks)| && Counters(g, f, g.blocks)[index] == f[k]
                    && var d := g.arcs[k].dst;
                       Seeded(g, f, s.(arc := s.arc[k := f[k]], next := s.next[src := s.next[src] - 1],
                         prev := s.prev[d := s.prev[d] - 1]), src, i + 1))
  {
    SeedCounter(g, f, src, i);
    SeedArcState(g, f, s, src, i);
  }

  lemma SeedCounter(g: Graph, f: seq<int>, src: nat, i: nat)
    requires ValidGraph(g) && |f| == |g.arcs| && src < g.blocks && i < |g.next[src]|
    ensures var l, k := g.next[src], g.next[src][i];
            && k < |g.arcs| && Within(l[..i], |f|) && Within(l[..i + 1], |f|)
            && |CountersOf(g, f, l[..i + 1])| == |CountersOf(g, f, l[..i])| + (if g.arcs[k].onTree then 0 else 1)
            && var index := |Counters(g, f, src)| + |CountersOf(g, f, l[..i])|;
               && index <= |Counters(g, f, g.blocks)|
               && (!g.arcs[k].onTree ==> index < |Counters(g, f, g.blocks)| && Counters(g, f, g.blocks)[index] == f[k])
  {
    hide *;
    RowCounters(g, f, src);
    var l := g.next[src];
    CountersPrefix(g, f, src + 1, g.blocks);
    CountersOfPrefix(g, f, l, i + 1);
    CountersOfStep(g, f, l, i);
    PrefixAt(CountersOf(g, f, l[..i]), g.arcs[l[i]].onTree, f[l[i]], CountersOf(g, f, l), Counters(g, f, src),
      Counters(g, f, g.blocks));
  }

  lemma RowCounters(g: Graph, f: seq<int>, src: nat)
    requires ValidGraph(g) && |f| == |g.arcs| && src < g.blocks
    ensures |g.next| == g.blocks && Within(g.next[src], |f|)
    ensures Counters(g, f, src + 1) == Counters(g, f, src) + CountersOf(g, f, g.next[src])
  {
    hide CountersOf;
  }

  lemma CountersOfStep(g: Graph, f: seq<int>, l: seq<nat>, i: nat)
    requires |f| == |g.arcs| && Within(l, |f|) && i < |l|
    ensures l[i] < |f| && Within(l[..i], |f|) && Within(l[..i + 1], |f|)
    ensures CountersOf(g, f, l[..i + 1]) == CountersOf(g, f, l[..i]) + if g.arcs[l[i]].onTree then [] else [f[l[i]]]
  {
    assert l[..i + 1][..i] == l[..i];
  }

  lemma PrefixAt(start: seq<int>, skip: bool, v: int, row: seq<int>, rows: seq<int>, whole: seq<int>)
    requires start + (if skip then [] else [v]) <= row && rows + row <= whole
    ensures |rows| + |start| <= |whole|
    ensures !skip ==> |rows| + |start| < |whole| && whole[|rows| + |start|] == v
  {
    if !skip {
      assert (start + [v])[|start|] == v;
      assert (rows + row)[|rows| + |start|] == row[|start|];
    }
  }

  lemma SeedArcState(g: Graph, f: seq<int>, s: State, src: nat, i: nat)
    requires Seeded(g, f, s, src, i) && src < g.blocks && i < |g.next[src]|
    ensures var k := g.next[src][i];
            && k < |g.arcs| && g.arcs[k].src == src && g.arcs[k].dst < g.blocks
            && |s.arc| == |g.arcs| == |f| && |s.next| == g.blocks == |s.prev|
            && (g.arcs[k].onTree ==> Seeded(g, f, s, src, i + 1))
            && (!g.arcs[k].onTree ==>
                  var d := g.arcs[k].dst;
                  Seeded(g, f, s.(arc := s.arc[k := f[k]], next := s.next[src := s.next[src] - 1],
                    prev := s.prev[d := s.prev[d] - 1]), src, i + 1))
  {
    hide Sum, Unknown, NextCount, PrevCount;
    var l, k := g.next[src], g.next[src][i];
    assert k in l;
    assert l[..i + 1] == l[..i] + [k];
    assert forall j :: j in l[..i + 1] <==> j in l[..i] || j == k;
    assert k !in l[..i];
    if !g.arcs[k].onTree {
      var d := g.arcs[k].dst;
      var t := s.(arc := s.arc[k := f[k]], next := s.next[src := s.next[src] - 1], prev := s.prev[d := s.prev[d] - 1]);
      forall b | 0 <= b < g.blocks ensures t.next[b] == NextCount(g, t.arc, b) && t.prev[b] == PrevCount(g, t.arc, b) {
        ArcCounts(g, s.arc, k, f[k], b);
      }
    }
  }

  /** A finished row is the start of the next. */
  lemma SeedRow(g: Graph, f: seq<int>, s: State, src: nat)
    requires src < g.blocks && |g.next| == g.blocks && Seeded(g, f, s, src, |g.next[src]|)
    ensures Seeded(g, f, s, src + 1, 0) && Within(g.next[src], |f|)
    ensures |Counters(g, f, src + 1)| == |Counters(g, f, src)| + |CountersOf(g, f, g.next[src][..|g.next[src]|])|
  {
    assert g.next[src][..|g.next[src]|] == g.next[src];
  }

  lemma SeedDone(g: Graph, f: seq<int>, s: State)
    requires Seeded(g, f, s, g.blocks, 0) && s.solved == {} && forall b: nat :: b in s.unsolved <==> b < g.blocks
    requires forall b :: 0 <= b < |s.count| ==> s.count[b] == -1
    ensures Inv(g, f, s) && UnknownArcs(s) == TreeArcs(g)
  {}

  // ---------------------------------------------------------------------------
  // The fixpoint
  // ---------------------------------------------------------------------------

  /** The largest core of the uncounted arcs. */
  ghost predicate GreatestCore(g: Graph, u: set<nat>)
  {
    Core(g, u) && u <= TreeArcs(g) && forall c: set<nat> :: Core(g, c) && c <= TreeArcs(g) ==> c <= u
  }

  /** No arc of u leaves the block, or none enters it; the entry is known by what leaves, the exit by what enters. */
  ghost predicate SideFree(g: Graph, u: set<nat>, b: nat)
  {
    || (b != 1 && forall k :: k in u && k < |g.arcs| ==> g.arcs[k].src != b)
    || (b != 0 && forall k :: k in u && k < |g.arcs| ==> g.arcs[k].dst != b)
  }

  /** With both worklists empty, an unknown arc meets another at each inner end. */
  lemma FixpointMeets(g: Graph, f: seq<int>, s: State, k: nat, b: nat)
    requires Inv(g, f, s) && s.unsolved == {} && s.solved == {} && k in UnknownArcs(s) && 2 <= b && Touches(g, k, b)
    ensures g.arcs[k].src == g.arcs[k].dst || MetAt(g, UnknownArcs(s), k, b)
  {
    hide Sum, KnownSum, Unknown, IsFlow, KeepsCores, Agree;
    var leaves := g.arcs[k].src == b;
    UnknownMember(s.arc, if leaves then g.next[b] else g.prev[b], k);
    var j;
    if s.count[b] == -1 {
      j := UnknownExists(s.arc, if leaves then g.prev[b] else g.next[b]);
    } else {
      j := UnknownOther(s.arc, if leaves then g.next[b] else g.prev[b], k);
    }
    assert Touches(g, j, b) && j in UnknownArcs(s);
  }

  lemma FixpointGreatestCore(g: Graph, f: seq<int>, s: State)
    requires Inv(g, f, s) && s.unsolved == {} && s.solved == {}
    ensures GreatestCore(g, UnknownArcs(s))
  {
    hide ValidGraph, IsFlow, Counted, Sound, Listed, MetAt, Touches;
    var u := UnknownArcs(s);
    forall k, b | k in u && b >= 2 && Touches(g, k, b) ensures g.arcs[k].src == g.arcs[k].dst || MetAt(g, u, k, b) {
      FixpointMeets(g, f, s, k, b);
    }
  }

  /** With both worklists empty, exactly the blocks with a side free of unknown arcs are solved. */
  lemma FixpointSolved(g: Graph, f: seq<int>, s: State, b: nat)
    requires Inv(g, f, s) && s.unsolved == {} && s.solved == {} && b < g.blocks
    ensures s.count[b] != -1 <==> SideFree(g, UnknownArcs(s), b)
  {
    hide Sum, KnownSum, IsFlow, KeepsCores, Agree, Unknown;
    UnknownBound(s.arc, g.next[b]);
    UnknownBound(s.arc, g.prev[b]);
    SideUnknown(g, s.arc, b);
  }

  lemma SideUnknown(g: Graph, a: seq<int>, b: nat)
    requires ValidGraph(g) && |a| == |g.arcs| && b < g.blocks
    ensures Unknown(a, g.next[b]) == 0 <==> forall k :: k in UnknownIn(a) && k < |g.arcs| ==> g.arcs[k].src != b
    ensures Unknown(a, g.prev[b]) == 0 <==> forall k :: k in UnknownIn(a) && k < |g.arcs| ==> g.arcs[k].dst != b
  {
    hide Unknown;
    if Unknown(a, g.next[b]) != 0 {
      var k := UnknownExists(a, g.next[b]);
      assert k in UnknownIn(a);
    } else {
      forall k | k in UnknownIn(a) && k < |g.arcs| ensures g.arcs[k].src != b {
        if g.arcs[k].src == b {
          UnknownMember(a, g.next[b], k);
        }
      }
    }
    if Unknown(a, g.prev[b]) != 0 {
      var k := UnknownExists(a, g.prev[b]);
      assert k in UnknownIn(a);
    } else {
      forall k | k in UnknownIn(a) && k < |g.arcs| ensures g.arcs[k].dst != b {
        if g.arcs[k].dst == b {
          UnknownMember(a, g.prev[b], k);
        }
      }
    }
  }

  /** All that the two empty worklists mean for the counts. */
  lemma FixpointCounts(g: Graph, f: seq<int>, s: State)
    requires Inv(g, f, s) && s.unsolved == {} && s.solved == {}
    ensures GreatestCore(g, UnknownArcs(s))
    ensures forall b: nat :: b < g.blocks ==> (s.count[b] != -1 <==> SideFree(g, UnknownArcs(s), b))
    ensures s.arc == f <==> Forest(g)
  {
    hide *;
    InvParts(g, f, s);
    FixpointGreatestCore(g, f, s);
    forall b: nat | b < g.blocks ensures s.count[b] != -1 <==> SideFree(g, UnknownArcs(s), b) {
      FixpointSolved(g, f, s, b);
    }
    ForestIff(g);
    CoreEmpty(g, UnknownArcs(s));
    NoneUnknown(g, f, s);
  }

  lemma CoreEmpty(g: Graph, u: set<nat>)
    requires GreatestCore(g, u)
    ensures u == {} <==> forall c: set<nat> :: Core(g, c) && c <= TreeArcs(g) ==> c == {}
  {
    hide Core, TreeArcs;
  }

  lemma NoneUnknown(g: Graph, f: seq<int>, s: State)
    requires ValidGraph(g) && IsFlow(g, f) && Agree(s.arc, f)
    ensures s.arc == f <==> UnknownArcs(s) == {}
  {
    if s.arc != f {
      var k: nat :| k < |f| && s.arc[k] != f[k];
      assert k in UnknownArcs(s);
    }
  }

  // ---------------------------------------------------------------------------
  // The solver
  // ---------------------------------------------------------------------------

  class Solver {
    const g: Graph
    var arc: seq<int>
    var count: seq<int>
    var next: seq<int>
    var prev: seq<int>
    var unsolved: set<nat>
    var solved: set<nat>

    ghost function St(): State
      reads this
    {
      State(arc, count, next, prev, unsolved, solved)
    }

    /** A parsed function: no count known, every arc still to be solved. */
    constructor (g: Graph)
      requires ValidGraph(g)
      ensures this.g == g && Sized(g, St()) && unsolved == {} && solved == {}
      ensures (forall k :: 0 <= k < |arc| ==> arc[k] == -1) && (forall b :: 0 <= b < |count| ==> count[b] == -1)
      ensures forall b :: 0 <= b < g.blocks ==> next[b] == |g.next[b]| && prev[b] == |g.prev[b]|
    {
      this.g := g;
      arc := seq(|g.arcs|, _ => -1);
      count := seq(g.blocks, _ => -1);
      next := seq(g.blocks, b requires 0 <= b < g.blocks => |g.next[b]|);
      prev := seq(g.blocks, b requires 0 <= b < g.blocks => |g.prev[b]|);
      unsolved, solved := {}, {};
    }

    /** Fills in the counters, in the order of the blocks and their arcs, and puts every block on the worklist. */
    method Seed(counters: seq<int>, ghost f: seq<int>)
      requires ValidGraph(g) && IsFlow(g, f) && Sized(g, St()) && unsolved == {} && solved == {}
      requires forall k :: 0 <= k < |arc| ==> arc[k] == -1
      requires forall b :: 0 <= b < |count| ==> count[b] == -1
      requires forall b :: 0 <= b < g.blocks ==> next[b] == |g.next[b]| && prev[b] == |g.prev[b]|
      requires counters == Counters(g, f, g.blocks)
      modifies this
      ensures Inv(g, f, St())
      ensures UnknownArcs(St()) == TreeArcs(g)
    {
      hide Sum, Unknown, IsFlow, ValidGraph, Counters, CountersOf, Seeded, Counted, Inv;
      SeedStart(g, f, St());
      prev := prev[0 := MANY];
      next := next[1 := MANY];
      var index := 0;
      for src := 0 to g.blocks
        invariant Seeded(g, f, St(), src, 0) && index == |Counters(g, f, src)|
        invariant forall b: nat :: b in unsolved <==> b < src
        invariant solved == {}
        invariant forall b :: 0 <= b < |count| ==> count[b] == -1
      {
        SeedBlock(g, f, St(), src, unsolved + {src});
        unsolved := unsolved + {src};
        for i := 0 to |g.next[src]|
          invariant Seeded(g, f, St(), src, i) && index == |Counters(g, f, src)| + |CountersOf(g, f, g.next[src][..i])|
          invariant forall b: nat :: b in unsolved <==> b < src + 1
          invariant solved == {}
          invariant forall b :: 0 <= b < |count| ==> count[b] == -1
        {
          ghost var s := St();
          SeedArc(g, f, s, src, i);
          var k := g.next[src][i];
          if !g.arcs[k].onTree {
            var d := g.arcs[k].dst;
            arc := arc[k := counters[index]];
            index := index + 1;
            next := next[src := next[src] - 1];
            prev := prev[d := prev[d] - 1];
          }
        }
        SeedRow(g, f, St(), src);
      }
      SeedDone(g, f, St());
    }

    /** The lowest member of the worklist in 64-bit word i. */
    static method Lowest(s: set<nat>, i: nat) returns (j: nat)
      requires exists m :: m in s && m / 64 == i
      ensures j in s && j / 64 == i && forall m :: m in s && m / 64 == i ==> j <= m
    {
      ghost var m :| m in s && m / 64 == i;
      j := 64 * i;
      while j !in s
        invariant 64 * i <= j <= m
        invariant forall x :: x in s && x / 64 == i ==> j <= x
        decreases m - j
      {
        j := j + 1;
      }
    }

    /** The sum of the counts of the listed arcs. */
    method Total(l: seq<nat>) returns (total: int)
      requires Within(l, |arc|)
      ensures total == Sum(arc, l)
    {
      total := 0;
      for i := 0 to |l|
        invariant total == Sum(arc, l[..i])
      {
        assert l[..i + 1][..i] == l[..i];
        total := total + arc[l[i]];
      }
      assert l[..|l|] == l;
    }

    /** The unknown one of the listed arcs, and what is left of the given total. */
    method Missing(l: seq<nat>, given: int) returns (k: nat, total: int)
      requires Within(l, |arc|) && Unknown(arc, l) >= 1
      ensures k in l && k < |arc| && arc[k] == -1 && total == given - KnownSum(arc, l)
    {
      total := given;
      var found := false;
      k := 0;
      for i := 0 to |l|
        invariant total == given - KnownSum(arc, l[..i])
        invariant found ==> k in l && k < |arc| && arc[k] == -1
        invariant !found ==> Unknown(arc, l[..i]) == 0
      {
        assert l[..i + 1][..i] == l[..i];
        if arc[l[i]] == -1 {
          k := l[i];
          found := true;
        } else {
          total := total - arc[l[i]];
        }
      }
      assert l[..|l|] == l;
    }

    /**
      * Recovers the counts of a whole function from the counters of any flow. A count that is filled in is the
      * flow's. The arcs left unknown are the largest core of the uncounted arcs, so every arc is recovered exactly
      * when those form a forest with entry and exit apart; the graph is reported unsolved exactly when that core
      * touches both sides of some block.
      */
    method Solve(counters: seq<int>, ghost f: seq<int>) returns (ok: bool)
      requires ValidGraph(g) && IsFlow(g, f) && Sized(g, St()) && unsolved == {} && solved == {}
      requires forall k :: 0 <= k < |arc| ==> arc[k] == -1
      requires forall b :: 0 <= b < |count| ==> count[b] == -1
      requires forall b :: 0 <= b < g.blocks ==> next[b] == |g.next[b]| && prev[b] == |g.prev[b]|
      requires counters == Counters(g, f, g.blocks)
      modifies this
      ensures |arc| == |g.arcs| == |f| && |count| == g.blocks
      ensures forall k :: 0 <= k < |arc| ==> arc[k] == -1 || arc[k] == f[k]
      ensures forall b :: 0 <= b < g.blocks ==> count[b] == -1 || count[b] == BlockFlow(g, f, b)
      ensures ok <==> forall b :: 0 <= b < g.blocks ==> count[b] == BlockFlow(g, f, b)
      ensures GreatestCore(g, UnknownIn(arc)) && (arc == f <==> Forest(g))
      ensures ok <==> forall b: nat :: b < g.blocks ==> SideFree(g, UnknownIn(arc), b)
      ensures Forest(g) ==> ok
    {
      hide ValidGraph, IsFlow, Inv, Less, Sized, Counters, GreatestCore, SideFree, UnknownIn, Agree, BlockFlow, Forest;
      Seed(counters, f);
      var processed := true;
      while processed
        invariant Inv(g, f, St())
        invariant !processed ==> unsolved == {} && solved == {}
        decreases UnknownArcs(St()), OpenBlocks(St()), |unsolved| + |solved|, processed
      {
        ghost var s := St();
        var first := SolveBlocks(f);
        ghost var t := St();
        var second := SolveArcs(f);
        processed := first || second;
        RoundLess(s, t, St(), first, second);
      }
      InvParts(g, f, St());
      FixpointCounts(g, f, St());
      FixpointValues(g, f, St());
      ok := forall b :: 0 <= b < |count| ==> count[b] != -1;
    }

    /** First phase: empties the worklist of unsolved blocks. */
    method SolveBlocks(ghost f: seq<int>) returns (processed: bool)
      requires Inv(g, f, St())
      modifies this`count, this`unsolved, this`solved
      ensures Inv(g, f, St()) && unsolved == {}
      ensures if processed then Less(St(), old(St())) else St() == old(St())
    {
      hide Inv, Sum, Less, ValidGraph, IsFlow, Agree;
      processed := false;
      var words := (g.blocks + 63) / 64;
      var i: nat := 0;
      while i < words
        invariant i <= words && Inv(g, f, St())
        invariant if processed then Less(St(), old(St())) else St() == old(St())
        invariant forall j :: j in unsolved ==> j / 64 >= i
        decreases |unsolved|, words - i
      {
        InvParts(g, f, St());
        if forall j :: j in unsolved ==> j / 64 != i {
          i := i + 1;
          continue;
        }
        var j := Lowest(unsolved, i);
        ghost var s := St();
        SolveUnsolved(j, f);
        LessTransitive(St(), s, old(St()));
        processed := true;
      }
      InvParts(g, f, St());
    }

    /** One unsolved block leaves the worklist, with its count if one side is complete. */
    method SolveUnsolved(j: nat, ghost f: seq<int>)
      requires Inv(g, f, St()) && j in unsolved
      modifies this`count, this`unsolved, this`solved
      ensures Inv(g, f, St()) && Less(St(), old(St())) && unsolved == old(unsolved) - {j}
    {
      hide Inv, Sum, Less, ValidGraph, IsFlow, Agree;
      InvParts(g, f, St());
      ghost var s := St();
      CountLists(g, s, j);
      if next[j] == 0 {
        var total := Total(g.next[j]);
        SolveBlockInv(g, f, s, j, total);
        SolvedValue(g, f, SolveBlock(s, j, total), j);
        SolveBlockLess(s, j, total);
        unsolved := unsolved - {j};
        count := count[j := total];
        solved := solved + {j};
      } else if prev[j] == 0 {
        var total := Total(g.prev[j]);
        SolveBlockInv(g, f, s, j, total);
        SolvedValue(g, f, SolveBlock(s, j, total), j);
        SolveBlockLess(s, j, total);
        unsolved := unsolved - {j};
        count := count[j := total];
        solved := solved + {j};
      } else {
        DropBlockInv(g, f, s, j);
        DropLess(s, j);
        unsolved := unsolved - {j};
      }
    }

    /** Second phase: solved blocks with a single unknown arc pass the difference on. */
    method SolveArcs(ghost f: seq<int>) returns (processed: bool)
      requires Inv(g, f, St())
      modifies this`arc, this`next, this`prev, this`unsolved, this`solved
      ensures Inv(g, f, St())
      ensures if processed then Less(St(), old(St())) else St() == old(St()) && solved == {}
    {
      hide Inv, Sum, KnownSum, Less, ValidGraph, IsFlow, Agree;
      processed := false;
      var words := (g.blocks + 63) / 64;
      var i: nat := 0;
      while i < words
        invariant i <= words && Inv(g, f, St())
        invariant if processed then Less(St(), old(St()))
                  else St() == old(St()) && forall j :: j in solved ==> j / 64 >= i
        decreases UnknownArcs(St()), |solved|, words - i
      {
        InvParts(g, f, St());
        if forall j :: j in solved ==> j / 64 != i {
          i := i + 1;
          continue;
        }
        var j := Lowest(solved, i);
        ghost var s := St();
        SolveArc(f, j);
        LessTransitive(St(), s, old(St()));
        processed := true;
      }
      InvParts(g, f, St());
    }

    /** One solved block of the second phase. */
    method SolveArc(ghost f: seq<int>, j: nat)
      requires Inv(g, f, St()) && j in solved
      modifies this`arc, this`next, this`prev, this`unsolved, this`solved
      ensures Inv(g, f, St()) && Less(St(), old(St()))
      ensures UnknownArcs(St()) < UnknownArcs(old(St())) || (arc == old(arc) && |solved| < |old(solved)|)
    {
      hide Inv, Sum, KnownSum, Less, Unknown, ValidGraph, IsFlow, Agree, UnknownArcs, OpenBlocks;
      ghost var s := St();
      InvParts(g, f, s);
      CountLists(g, s, j);
      InvCounts(g, f, s, j);
      if next[j] == 1 {
        SolveNextArc(f, j);
      } else if prev[j] == 1 {
        SolvePrevArc(f, j);
      } else {
        DropSolvedInv(g, f, s, j);
        DropSolvedLess(s, j);
        solved := solved - {j};
      }
    }

    /** The last unknown arc out of a solved block takes what is left of the block's count. */
    method SolveNextArc(ghost f: seq<int>, j: nat)
      requires Inv(g, f, St()) && j in solved && j < |next| && next[j] == 1
      modifies this`arc, this`next, this`prev, this`unsolved, this`solved
      ensures Inv(g, f, St()) && Less(St(), old(St())) && UnknownArcs(St()) < UnknownArcs(old(St()))
    {
      hide Inv, Sum, KnownSum, Less, Unknown, ValidGraph, IsFlow, Agree, UnknownArcs, OpenBlocks;
      ghost var s := St();
      InvParts(g, f, s);
      InvCounts(g, f, s, j);
      solved := solved - {j};
      var k, total := Missing(g.next[j], count[j]);
      NextArcValue(g, f, s, j, k);
      SolveNextInv(g, f, s, j, k, total);
      arc := arc[k := total];
      next := next[j := 0];
      var d := g.arcs[k].dst;
      prev := prev[d := prev[d] - 1];
      NotifyBlock(d, prev[d]);
      SolveArcLess(s, St(), k, total);
    }

    /** The last unknown arc into a solved block takes what is left of the block's count. */
    method SolvePrevArc(ghost f: seq<int>, j: nat)
      requires Inv(g, f, St()) && j in solved && j < |prev| && j < |next| && next[j] != 1 && prev[j] == 1
      modifies this`arc, this`next, this`prev, this`unsolved, this`solved
      ensures Inv(g, f, St()) && Less(St(), old(St())) && UnknownArcs(St()) < UnknownArcs(old(St()))
    {
      hide Inv, Sum, KnownSum, Less, Unknown, ValidGraph, IsFlow, Agree, UnknownArcs, OpenBlocks;
      ghost var s := St();
      InvParts(g, f, s);
      InvCounts(g, f, s, j);
      solved := solved - {j};
      var k, total := Missing(g.prev[j], count[j]);
      PrevArcValue(g, f, s, j, k);
      SolvePrevInv(g, f, s, j, k, total);
      arc := arc[k := total];
      prev := prev[j := 0];
      var d := g.arcs[k].src;
      next := next[d := next[d] - 1];
      NotifyBlock(d, next[d]);
      SolveArcLess(s, St(), k, total);
    }

    method NotifyBlock(d: nat, left: int)
      requires d < |count|
      modifies this`unsolved, this`solved
      ensures St() == Notify(old(St()), d, left)
    {
      if count[d] != -1 && left == 1 {
        solved := solved + {d};
      } else if count[d] == -1 && left == 0 {
        unsolved := unsolved + {d};
      }
    }
  }

  /** One round of both phases makes progress unless neither did anything. */
  lemma RoundLess(s: State, t: State, u: State, first: bool, second: bool)
    requires (if first then Less(t, s) else t == s) && (if second then Less(u, t) else u == t)
    ensures first || second ==>
              || UnknownArcs(u) < UnknownArcs(s)
              || (UnknownArcs(u) == UnknownArcs(s) && OpenBlocks(u) < OpenBlocks(s))
              || (UnknownArcs(u) == UnknownArcs(s) && OpenBlocks(u) == OpenBlocks(s)
                 && |u.unsolved| + |u.solved| < |s.unsolved| + |s.solved|)
    ensures !first && !second ==> u == s
  {
    hide UnknownArcs, OpenBlocks;
    if second {
      LessTransitive(u, t, s);
    }
  }

  /** What the known counts are. */
  lemma FixpointValues(g: Graph, f: seq<int>, s: State)
    requires Inv(g, f, s)
    ensures |s.arc| == |g.arcs| == |f| && |s.count| == g.blocks
    ensures forall k :: 0 <= k < |s.arc| ==> s.arc[k] == -1 || s.arc[k] == f[k]
    ensures forall b :: 0 <= b < g.blocks ==> s.count[b] == -1 || s.count[b] == BlockFlow(g, f, b)
    ensures forall b :: 0 <= b < g.blocks ==> BlockFlow(g, f, b) >= 0
    ensures Forest(g) && s.arc == f ==> forall b: nat :: b < g.blocks ==> SideFree(g, UnknownIn(s.arc), b)
  {
    hide Sum, KnownSum, Unknown, ValidGraph, Counted, Listed, KeepsCores, BlockFlow;
    forall b | 0 <= b < g.blocks ensures BlockFlow(g, f, b) >= 0 {
      BlockFlowNonNegative(g, f, b);
    }
  }

  lemma CountLists(g: Graph, s: State, b: nat)
    requires ValidGraph(g) && Sized(g, s) && b < g.blocks
    ensures Within(g.next[b], |s.arc|) && Within(g.prev[b], |s.arc|)
  {}

  lemma InvCounts(g: Graph, f: seq<int>, s: State, b: nat)
    requires Inv(g, f, s) && b < g.blocks
    ensures Within(g.next[b], |s.arc|) && Within(g.prev[b], |s.arc|)
    ensures s.next[b] == 1 ==> Unknown(s.arc, g.next[b]) >= 1
    ensures s.prev[b] == 1 ==> Unknown(s.arc, g.prev[b]) >= 1
    ensures forall k :: 0 <= k < |f| ==> f[k] >= 0
    ensures |f| == |s.arc|
  {
  }

  lemma SolvedValue(g: Graph, f: seq<int>, s: State, b: nat)
    requires Inv(g, f, s) && b < g.blocks && b in s.solved
    ensures s.count[b] != -1
  {}
}
