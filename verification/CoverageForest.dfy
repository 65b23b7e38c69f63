/** When the arcs without a counter can all be recovered: they must form a forest that keeps entry and exit apart. */
module CoverageForest {
  import opened CoverageGraph
  import opened Sequences

  predicate Touches(g: Graph, k: nat, b: nat)
  {
    k < |g.arcs| && (g.arcs[k].src == b || g.arcs[k].dst == b)
  }

  /** Whether another arc of c meets k at block b. */
  ghost predicate MetAt(g: Graph, c: set<nat>, k: nat, b: nat)
  {
    exists j :: j in c && j != k && Touches(g, j, b)
  }

  /** A core: no inner block meets it exactly once. (A self-loop meets its block twice.) */
  ghost predicate Core(g: Graph, c: set<nat>)
  {
    && (forall k :: k in c ==> k < |g.arcs|)
    && forall k, b :: k in c && b >= 2 && Touches(g, k, b) ==> g.arcs[k].src == g.arcs[k].dst || MetAt(g, c, k, b)
  }

  ghost function TreeArcs(g: Graph): set<nat>
  {
    set k: nat | k < |g.arcs| && g.arcs[k].onTree
  }

  // ---------------------------------------------------------------------------
  // Trails
  // ---------------------------------------------------------------------------

  /** Arc k joins blocks b and d, in either direction. */
  ghost predicate Joins(g: Graph, k: nat, b: nat, d: nat)
  {
    k < |g.arcs| && ((g.arcs[k].src == b && g.arcs[k].dst == d) || (g.arcs[k].src == d && g.arcs[k].dst == b))
  }

  /** A walk along arcs of c, in either direction, that repeats no arc. */
  ghost predicate Trail(g: Graph, c: set<nat>, vs: seq<nat>, ks: seq<nat>)
  {
    && |ks| > 0 && |vs| == |ks| + 1 && Once(ks)
    && forall i :: 0 <= i < |ks| ==> ks[i] in c && Joins(g, ks[i], vs[i], vs[i + 1])
  }

  /** A trail that comes back to its start, or leads from the entry to the exit. */
  ghost predicate Bad(vs: seq<nat>)
  {
    |vs| > 0 && (vs[0] == vs[|vs| - 1] || (vs[0] == 0 && vs[|vs| - 1] == 1))
  }

  ghost predicate BadTrail(g: Graph, c: set<nat>, vs: seq<nat>, ks: seq<nat>)
  {
    Trail(g, c, vs, ks) && Bad(vs)
  }

  /** No undirected cycle among the uncounted arcs, and entry and exit in different trees. */
  ghost predicate Forest(g: Graph)
  {
    !exists vs, ks :: BadTrail(g, TreeArcs(g), vs, ks)
  }

  ghost function ArcsOf(ks: seq<nat>): (c: set<nat>)
    ensures forall k :: k in c <==> k in ks
  {
    set k | k in ks
  }

  /** The arcs of a bad trail form a core. */
  lemma BadTrailCore(g: Graph, c: set<nat>, vs: seq<nat>, ks: seq<nat>)
    requires BadTrail(g, c, vs, ks)
    ensures Core(g, ArcsOf(ks)) && ArcsOf(ks) <= c
  {
    var core := ArcsOf(ks);
    forall k | k in core ensures k < |g.arcs| {
      var i :| 0 <= i < |ks| && ks[i] == k;
      assert Joins(g, ks[i], vs[i], vs[i + 1]);
    }
    forall k, b | k in core && b >= 2 && Touches(g, k, b)
      ensures g.arcs[k].src == g.arcs[k].dst || MetAt(g, core, k, b)
    {
      var i :| 0 <= i < |ks| && ks[i] == k;
      BadTrailMet(g, c, vs, ks, core, i, b);
    }
  }

  lemma BadTrailMet(g: Graph, c: set<nat>, vs: seq<nat>, ks: seq<nat>, core: set<nat>, i: nat, b: nat)
    requires BadTrail(g, c, vs, ks) && i < |ks| && b >= 2 && Touches(g, ks[i], b)
             && forall j :: 0 <= j < |ks| ==> ks[j] in core
    ensures g.arcs[ks[i]].src == g.arcs[ks[i]].dst || MetAt(g, core, ks[i], b)
  {
    assert Joins(g, ks[i], vs[i], vs[i + 1]);
    if |ks| > 1 {
      var j := if b == vs[i] then (if i == 0 then |ks| - 1 else i - 1) else if i == |ks| - 1 then 0 else i + 1;
      assert Joins(g, ks[j], vs[j], vs[j + 1]);
      assert Touches(g, ks[j], b);
      assert ks[j] != ks[i];
    }
  }

  lemma Suffix(g: Graph, c: set<nat>, vs: seq<nat>, ks: seq<nat>, p: nat)
    requires Trail(g, c, vs, ks) && p < |ks|
    ensures Trail(g, c, vs[p..], ks[p..]) && vs[p..][0] == vs[p] && vs[p..][|vs[p..]| - 1] == vs[|vs| - 1]
  {
    var ws, ls := vs[p..], ks[p..];
    forall i | 0 <= i < |ls| ensures ls[i] in c && Joins(g, ls[i], ws[i], ws[i + 1]) {
      assert Joins(g, ks[p + i], vs[p + i], vs[p + i + 1]);
    }
  }

  ghost function Backwards(s: seq<nat>): (r: seq<nat>)
    ensures |r| == |s| && forall i :: 0 <= i < |s| ==> r[i] == s[|s| - 1 - i]
  {
    seq(|s|, i requires 0 <= i < |s| => s[|s| - 1 - i])
  }

  lemma Reversed(g: Graph, c: set<nat>, vs: seq<nat>, ks: seq<nat>)
    requires Trail(g, c, vs, ks)
    ensures Trail(g, c, Backwards(vs), Backwards(ks))
  {
    var ws, ls := Backwards(vs), Backwards(ks);
    forall i | 0 <= i < |ls| ensures ls[i] in c && Joins(g, ls[i], ws[i], ws[i + 1]) {
      var j := |ks| - 1 - i;
      assert Joins(g, ks[j], vs[j], vs[j + 1]);
    }
  }

  /** A trail within a core can be led on until it closes or reaches the entry or the exit. */
  lemma LeadOn(g: Graph, c: set<nat>, vs: seq<nat>, ks: seq<nat>) returns (ws: seq<nat>, ls: seq<nat>)
    requires Core(g, c) && Trail(g, c, vs, ks)
    ensures Trail(g, c, ws, ls) && (ws[0] == ws[|ls|] || (ws[0] == vs[0] && ws[|ls|] < 2))
    decreases c - ArcsOf(ks)
  {
    var n := |ks|;
    var b, k := vs[n], ks[n - 1];
    assert Joins(g, k, vs[n - 1], vs[n]);
    if b < 2 {
      return vs, ks;
    }
    assert Touches(g, k, b);
    if g.arcs[k].src == g.arcs[k].dst {
      Suffix(g, c, vs, ks, n - 1);
      return vs[n - 1..], ks[n - 1..];
    }
    assert MetAt(g, c, k, b);
    var j :| j in c && j != k && Touches(g, j, b);
    if j in ks {
      var i :| 0 <= i < n && ks[i] == j;
      assert Joins(g, ks[i], vs[i], vs[i + 1]);
      var p := if vs[i] == b then i else i + 1;
      Suffix(g, c, vs, ks, p);
      return vs[p..], ks[p..];
    }
    var d := if g.arcs[j].src == b then g.arcs[j].dst else g.arcs[j].src;
    assert j in c - ArcsOf(ks) && j !in c - ArcsOf(ks + [j]);
    ws, ls := LeadOn(g, c, vs + [d], ks + [j]);
  }

  /** Every non-empty core holds a bad trail. */
  lemma CoreHasBadTrail(g: Graph, c: set<nat>, k: nat) returns (ws: seq<nat>, ls: seq<nat>)
    requires Core(g, c) && k in c
    ensures BadTrail(g, c, ws, ls)
  {
    var a := g.arcs[k];
    assert Joins(g, k, a.src, a.dst);
    ws, ls := LeadOn(g, c, [a.src, a.dst], [k]);
    if ws[0] != ws[|ls|] {
      Reversed(g, c, ws, ls);
      ws, ls := LeadOn(g, c, Backwards(ws), Backwards(ls));
      if ws[0] != ws[|ls|] && ws[0] == 1 {
        Reversed(g, c, ws, ls);
        ws, ls := Backwards(ws), Backwards(ls);
      }
    }
  }

  /** The uncounted arcs are a forest that keeps entry and exit apart exactly when they hold no core. */
  lemma ForestIff(g: Graph)
    ensures Forest(g) <==> forall c: set<nat> :: Core(g, c) && c <= TreeArcs(g) ==> c == {}
  {
    if Forest(g) {
      forall c: set<nat> | Core(g, c) && c <= TreeArcs(g) ensures c == {} {
        if k :| k in c {
          var ws, ls := CoreHasBadTrail(g, c, k);
          assert BadTrail(g, TreeArcs(g), ws, ls);
        }
      }
    } else {
      var vs, ks :| BadTrail(g, TreeArcs(g), vs, ks);
      BadTrailCore(g, TreeArcs(g), vs, ks);
      assert ks[0] in ArcsOf(ks);
    }
  }
}
