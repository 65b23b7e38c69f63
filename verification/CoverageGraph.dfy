/** Control-flow graphs with execution counts: arcs, flows, and sums over arc lists. */
module CoverageGraph {
  import opened Sequences

  /** An arc between blocks; arcs on the spanning tree have no counter. */
  datatype Arc = Arc(src: nat, dst: nat, onTree: bool)

  /** Blocks 0 (entry), 1 (exit) and up; `next` and `prev` list the arcs leaving and entering each block. */
  datatype Graph = Graph(blocks: nat, arcs: seq<Arc>, next: seq<seq<nat>>, prev: seq<seq<nat>>)

  /** Every listed arc exists. */
  ghost predicate Within(l: seq<nat>, n: nat)
  {
    forall i :: 0 <= i < |l| ==> l[i] < n
  }

  ghost predicate Lists(g: Graph, l: seq<nat>)
  {
    Once(l) && Within(l, |g.arcs|)
  }

  /** The arc lists are exactly the arcs by source and by destination. */
  ghost predicate ValidGraph(g: Graph)
  {
    && g.blocks >= 2 && |g.next| == g.blocks && |g.prev| == g.blocks
    && (forall k :: 0 <= k < |g.arcs| ==> g.arcs[k].src < g.blocks && g.arcs[k].dst < g.blocks)
    && (forall b :: 0 <= b < g.blocks ==>
          Lists(g, g.next[b]) && Lists(g, g.prev[b]) && |g.next[b]| < 0xffff_fff0 && |g.prev[b]| < 0xffff_fff0)
    && (forall b, k :: 0 <= b < g.blocks && 0 <= k < |g.arcs| ==> (k in g.next[b] <==> g.arcs[k].src == b))
    && (forall b, k :: 0 <= b < g.blocks && 0 <= k < |g.arcs| ==> (k in g.prev[b] <==> g.arcs[k].dst == b))
  }

  /** The sum of the counts of the listed arcs. */
  ghost function Sum(f: seq<int>, l: seq<nat>): int
    requires Within(l, |f|)
  {
    if l == [] then 0 else Sum(f, l[..|l| - 1]) + f[l[|l| - 1]]
  }

  /** The sum of the known counts; -1 marks an unknown one. */
  ghost function KnownSum(a: seq<int>, l: seq<nat>): int
    requires Within(l, |a|)
  {
    if l == [] then 0
    else
      var k := l[|l| - 1];
      KnownSum(a, l[..|l| - 1]) + if a[k] == -1 then 0 else a[k]
  }

  /** How many of the listed arcs are unknown. */
  ghost function Unknown(a: seq<int>, l: seq<nat>): nat
    requires Within(l, |a|)
  {
    if l == [] then 0
    else Unknown(a, l[..|l| - 1]) + if a[l[|l| - 1]] == -1 then 1 else 0
  }

  /** A non-negative flow that is conserved at every inner block. */
  ghost predicate IsFlow(g: Graph, f: seq<int>)
    requires ValidGraph(g)
  {
    && |f| == |g.arcs| && (forall k :: 0 <= k < |f| ==> f[k] >= 0)
    && forall b :: 2 <= b < g.blocks ==> Sum(f, g.next[b]) == Sum(f, g.prev[b])
  }

  /** How often a block runs: what leaves it, or what enters the exit. */
  ghost function BlockFlow(g: Graph, f: seq<int>, b: nat): int
    requires ValidGraph(g) && IsFlow(g, f) && b < g.blocks
  {
    if b == 1 then Sum(f, g.prev[b]) else Sum(f, g.next[b])
  }

  /** Every known count is the flow's. */
  ghost predicate Agree(a: seq<int>, f: seq<int>)
  {
    |a| == |f| && forall k :: 0 <= k < |a| ==> a[k] == -1 || a[k] == f[k]
  }

  lemma {:induction false} AllKnown(a: seq<int>, f: seq<int>, l: seq<nat>)
    requires Agree(a, f) && Within(l, |a|) && Unknown(a, l) == 0
    ensures KnownSum(a, l) == Sum(f, l) && Sum(a, l) == Sum(f, l)
  {
    if l != [] {
      AllKnown(a, f, l[..|l| - 1]);
    }
  }

  /** With a single unknown arc, its flow is the difference. */
  lemma {:induction false} OneUnknown(a: seq<int>, f: seq<int>, l: seq<nat>, k: nat)
    requires Agree(a, f) && Within(l, |a|) && Unknown(a, l) == 1 && k in l && a[k] == -1
    ensures KnownSum(a, l) + f[k] == Sum(f, l)
  {
    var m := |l| - 1;
    if l[m] == k {
      AllKnown(a, f, l[..m]);
    } else {
      assert k in l[..m];
      UnknownMember(a, l[..m], k);
      OneUnknown(a, f, l[..m], k);
    }
  }

  lemma {:induction false} UnknownMember(a: seq<int>, l: seq<nat>, k: nat)
    requires Within(l, |a|) && k in l && a[k] == -1
    ensures Unknown(a, l) >= 1
  {
    var m := |l| - 1;
    if l[m] != k {
      assert k in l[..m];
      UnknownMember(a, l[..m], k);
    }
  }

  lemma {:induction false} UnknownExists(a: seq<int>, l: seq<nat>) returns (k: nat)
    requires Within(l, |a|) && Unknown(a, l) >= 1
    ensures k in l && a[k] == -1
  {
    var m := |l| - 1;
    if a[l[m]] == -1 {
      return l[m];
    }
    k := UnknownExists(a, l[..m]);
  }

  /** Two unknown arcs count as two. */
  lemma {:induction false} UnknownTwo(a: seq<int>, l: seq<nat>, j: nat, k: nat)
    requires Within(l, |a|) && j in l && k in l && j != k && a[j] == -1 && a[k] == -1
    ensures Unknown(a, l) >= 2
  {
    var m := |l| - 1;
    assert forall x :: x in l ==> x in l[..m] || x == l[m];
    if l[m] == j {
      UnknownMember(a, l[..m], k);
    } else if l[m] == k {
      UnknownMember(a, l[..m], j);
    } else {
      UnknownTwo(a, l[..m], j, k);
    }
  }

  lemma {:induction false} UnknownOther(a: seq<int>, l: seq<nat>, k: nat) returns (j: nat)
    requires Within(l, |a|) && Once(l) && Unknown(a, l) >= 2
    ensures j in l && j != k && a[j] == -1
  {
    var m := |l| - 1;
    if a[l[m]] == -1 && l[m] != k {
      return l[m];
    }
    if a[l[m]] == -1 {
      j := UnknownExists(a, l[..m]);
    } else {
      j := UnknownOther(a, l[..m], k);
    }
  }

  /** Solving an arc takes one off the count of each list that has it. */
  lemma {:induction false} UnknownSolved(a: seq<int>, l: seq<nat>, k: nat, v: int)
    requires Within(l, |a|) && k < |a| && a[k] == -1 && v != -1 && Once(l)
    ensures Unknown(a[k := v], l) == Unknown(a, l) - if k in l then 1 else 0
  {
    if l != [] {
      var m := |l| - 1;
      UnknownSolved(a, l[..m], k, v);
      assert forall j :: j in l <==> j in l[..m] || j == l[m];
      if l[m] == k {
        assert k !in l[..m];
      }
    }
  }

  lemma {:induction false} UnknownBound(a: seq<int>, l: seq<nat>)
    requires Within(l, |a|)
    ensures Unknown(a, l) <= |l|
  {
    if l != [] {
      UnknownBound(a, l[..|l| - 1]);
    }
  }
}
