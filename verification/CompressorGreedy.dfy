/** The greedy parse: which tokens the compressor emits, said by brute force. */
module CompressorGreedy {
  import opened CompressorTokens
  import opened CompressorSearch

  function Min(a: int, b: int): int
  {
    if a < b then a else b
  }

  /** Where the window starts. */
  function From(offset: nat, window: nat): nat
  {
    if offset < window then 0 else offset - window
  }

  /**
    * The match at an offset: the first longest one among the preprocessed bytes and, if it covers all of those,
    * continued until a byte differs, the data ends or the length field is full.
    */
  ghost predicate IsMatch(data: seq<byte>, offset: nat, window: nat, preprocessed: nat, length: nat, distance: nat)
    requires offset < |data|
  {
    var capped := Min(|data| - offset, 8191);
    var n := Min(capped, preprocessed);
    && length <= capped && IsLongestMatch(data, offset, From(offset, window), n, Min(length, n), distance)
    && (length >= n && n > 0 ==> Extended(data, offset, capped, length, distance))
  }

  ghost predicate Extended(data: seq<byte>, offset: nat, capped: nat, length: nat, distance: nat)
    requires offset < |data|
  {
    && 0 < distance <= offset && length <= capped <= |data| - offset
    && Agrees(data, offset - distance, offset, length)
    && (length == capped || data[offset + length] != data[offset - distance + length])
  }

  /** No four bytes of the window, at a distance of 8 or more, are the next four bytes. */
  ghost predicate Unmatched(data: seq<byte>, offset: nat, window: nat)
  {
    forall a: nat :: From(offset, window) <= a && a + 8 <= offset ==> !Agrees(data, a, offset, 4)
  }

  /** A match too short to be emitted means that no four bytes match, and the other way round. */
  lemma UnmatchedIff(data: seq<byte>, offset: nat, window: nat, preprocessed: nat, length: nat, distance: nat)
    requires offset < |data| && preprocessed >= 4 && IsMatch(data, offset, window, preprocessed, length, distance)
    ensures length < 4 <==> Unmatched(data, offset, window)
    ensures length > 0 ==>
            8 <= distance <= offset && distance <= window && Agrees(data, offset - distance, offset, length)
  {
    hide Agrees;
    var n, from := Min(Min(|data| - offset, 8191), preprocessed), From(offset, window);
    if length < 4 {
      forall a: nat | from <= a && a + 8 <= offset ensures !Agrees(data, a, offset, 4) {
        assert !Beats(data, offset, a, n, Min(length, n));
        if Agrees(data, a, offset, 4) {
          AgreesFits(data, a, offset, 4);
          AgreesPrefix(data, a, offset, 4, length + 1);
        }
      }
    } else {
      AgreesPrefix(data, offset - distance, offset, Min(length, n), 4);
      assert from <= offset - distance && offset - distance + 8 <= offset;
    }
  }

  lemma AgreesFits(data: seq<byte>, a: nat, b: nat, n: nat)
    requires Agrees(data, a, b, n)
    ensures a + n <= |data| && b + n <= |data|
  {}

  /** There is only one match at an offset. */
  lemma MatchUnique(data: seq<byte>, offset: nat, window: nat, preprocessed: nat, l: nat, d: nat, m: nat, e: nat)
    requires offset < |data| && preprocessed >= 1
    requires IsMatch(data, offset, window, preprocessed, l, d) && IsMatch(data, offset, window, preprocessed, m, e)
    ensures l == m && (l > 0 ==> d == e)
  {
    hide Agrees, IsLongestMatch, Extended;
    var capped := Min(|data| - offset, 8191);
    var n, from := Min(capped, preprocessed), From(offset, window);
    LongestUnique(data, offset, from, n, Min(l, n), d, Min(m, n), e);
    if l >= n {
      ExtendedUnique(data, offset, capped, l, m, d);
    }
  }

  lemma LongestUnique(data: seq<byte>, offset: nat, from: nat, n: nat, l: nat, d: nat, m: nat, e: nat)
    requires IsLongestMatch(data, offset, from, n, l, d) && IsLongestMatch(data, offset, from, n, m, e)
    ensures l == m && (l > 0 ==> d == e)
  {
    hide Agrees, NoneBetter;
    if l < m {
      NotLonger(data, offset, from, offset, n, l, m, e);
    } else if m < l {
      NotLonger(data, offset, from, offset, n, m, l, d);
    } else if l > 0 && d < e {
      NotLonger(data, offset, from, offset - d, n, l - 1, l, e);
    } else if l > 0 && e < d {
      NotLonger(data, offset, from, offset - e, n, l - 1, l, d);
    }
  }

  lemma NotLonger(data: seq<byte>, offset: nat, from: nat, last: nat, n: nat, best: nat, m: nat, e: nat)
    requires best < m <= n
    requires 8 <= e <= offset && from <= offset - e < last && Agrees(data, offset - e, offset, m)
    ensures !NoneBetter(data, offset, from, last, n, best)
  {
    AgreesPrefix(data, offset - e, offset, m, best + 1);
    assert Beats(data, offset, offset - e, n, best);
  }

  lemma ExtendedUnique(data: seq<byte>, offset: nat, capped: nat, l: nat, m: nat, d: nat)
    requires offset < |data| && Extended(data, offset, capped, l, d) && Extended(data, offset, capped, m, d)
    ensures l == m
  {
    hide Agrees;
    if l < m {
      ExtendedStops(data, offset, capped, l, m, d);
    } else if m < l {
      ExtendedStops(data, offset, capped, m, l, d);
    }
  }

  lemma ExtendedStops(data: seq<byte>, offset: nat, capped: nat, l: nat, m: nat, d: nat)
    requires offset < |data| && Extended(data, offset, capped, l, d) && l < m <= capped
    ensures !Agrees(data, offset - d, offset, m)
  {
    hide Agrees;
    AgreesExtend(data, offset - d, offset, l);
    if Agrees(data, offset - d, offset, m) {
      AgreesPrefix(data, offset - d, offset, m, l + 1);
    }
  }

  // ---------------------------------------------------------------------------
  // Tokens
  // ---------------------------------------------------------------------------

  /** The bytes a token stands for. */
  function Width(t: Token): nat
  {
    match t
    case Literal(bytes) => |bytes|
    case Copy(length, _) => length
  }

  /** Where the input stands after some tokens. */
  function Reach(ts: seq<Token>): nat
  {
    if ts == [] then 0 else Reach(ts[..|ts| - 1]) + Width(ts[|ts| - 1])
  }

  lemma {:induction false} ReachExpand(ts: seq<Token>)
    requires WellFormed(ts)
    ensures |Expand(ts)| == Reach(ts)
  {
    if ts != [] {
      var i := |ts| - 1;
      ReachExpand(ts[..i]);
      if ts[i].Copy? {
        CopyGrows(Expand(ts[..i]), ts[i].length, ts[i].distance);
      }
    }
  }

  /** A copy is the match at its place; no byte of a literal run has one. */
  ghost predicate IsChoice(data: seq<byte>, o: nat, t: Token, window: nat, preprocessed: nat)
  {
    match t
    case Literal(bytes) => forall k: nat :: o <= k < o + |bytes| ==> Unmatched(data, k, window)
    case Copy(length, distance) => o < |data| && IsMatch(data, o, window, preprocessed, length, distance)
  }

  /** Only a full literal run is followed by another. */
  ghost predicate Runs(ts: seq<Token>)
  {
    forall i: nat, j: nat :: i < |ts| && j == i + 1 < |ts| && ts[i].Literal? && ts[j].Literal? ==>
      |ts[i].bytes| == 16383
  }

  /** Every token is the choice of the greedy parse at its place. */
  ghost predicate Greedy(data: seq<byte>, ts: seq<Token>, window: nat, preprocessed: nat)
  {
    Runs(ts) && forall i: nat :: i < |ts| ==> IsChoice(data, Reach(ts[..i]), ts[i], window, preprocessed)
  }

  lemma GreedyAppend(data: seq<byte>, ts: seq<Token>, t: Token, window: nat, preprocessed: nat)
    requires Greedy(data, ts, window, preprocessed) && IsChoice(data, Reach(ts), t, window, preprocessed)
    requires ts != [] && ts[|ts| - 1].Literal? && t.Literal? ==> |ts[|ts| - 1].bytes| == 16383
    ensures Greedy(data, ts + [t], window, preprocessed) && Reach(ts + [t]) == Reach(ts) + Width(t)
  {
    hide IsChoice, Reach;
    var us := ts + [t];
    forall i: nat | i < |us| ensures IsChoice(data, Reach(us[..i]), us[i], window, preprocessed) {
      assert us[..i] == ts[..i];
      assert ts[..|ts|] == ts;
    }
    ReachAppend(ts, t);
  }

  lemma ReachAppend(ts: seq<Token>, t: Token)
    ensures Reach(ts + [t]) == Reach(ts) + Width(t)
  {
    assert (ts + [t])[..|ts|] == ts;
  }

  /** The parse of the data is unique. */
  lemma GreedyUnique(data: seq<byte>, ts: seq<Token>, us: seq<Token>, window: nat, preprocessed: nat)
    requires WellFormed(ts) && Expand(ts) == data && Greedy(data, ts, window, preprocessed)
    requires WellFormed(us) && Expand(us) == data && Greedy(data, us, window, preprocessed)
    requires preprocessed >= 4
    ensures ts == us
  {
    hide WellFormed, Expand, Greedy;
    var n := Min(|ts|, |us|);
    SamePrefix(data, ts, us, window, preprocessed, n);
    assert ts[..|ts|] == ts && us[..|us|] == us;
    if |ts| <= |us| {
      NoTail(data, us, ts);
    } else {
      NoTail(data, ts, us);
    }
  }

  lemma NoTail(data: seq<byte>, ts: seq<Token>, us: seq<Token>)
    requires WellFormed(ts) && Expand(ts) == data && WellFormed(us) && Expand(us) == data
    requires |us| <= |ts| && ts[..|us|] == us
    ensures |ts| == |us|
  {
    hide WellFormed, Expand, Reach;
    ReachExpand(us);
    if |us| < |ts| {
      MoreAfter(data, ts, |us|);
    }
  }

  /** Before its last token, a stream has not reached the end of the data. */
  lemma MoreAfter(data: seq<byte>, ts: seq<Token>, i: nat)
    requires WellFormed(ts) && Expand(ts) == data && i < |ts|
    ensures Reach(ts[..i]) < Reach(ts[..i + 1]) <= |data| && Reach(ts[..i + 1]) == Reach(ts[..i]) + Width(ts[i])
    ensures Reach(ts[..i + 1]) < |data| ==> i + 1 < |ts|
    ensures ts[i].Literal? ==> |ts[i].bytes| <= 16383 && ts[i].bytes == data[Reach(ts[..i])..Reach(ts[..i + 1])]
    ensures ts[i].Copy? ==> ts[i].length >= 4
  {
    hide WellFormed, Expand, Reach, EncodeAll;
    var a, b := OneToken(ts, i);
    if i + 1 == |ts| {
      assert ts[..i + 1] == ts;
    }
    if ts[i].Literal? {
      SliceAfter(data, a, ts[i].bytes);
    }
  }

  /** The output before and after token i. */
  lemma OneToken(ts: seq<Token>, i: nat) returns (a: seq<byte>, b: seq<byte>)
    requires WellFormed(ts) && i < |ts|
    ensures b <= Expand(ts) && |a| == Reach(ts[..i]) && |b| == Reach(ts[..i + 1]) == |a| + Width(ts[i])
    ensures i + 1 == |ts| ==> b == Expand(ts)
    ensures Width(ts[i]) > 0 && (ts[i].Copy? ==> ts[i].length >= 4)
    ensures ts[i].Literal? ==> |ts[i].bytes| <= 16383 && b == a + ts[i].bytes
  {
    hide WellFormed, Expand, Reach, Fits, Apply, EncodeAll;
    Prefix(ts, i);
    Prefix(ts, i + 1);
    a, b := Expand(ts[..i]), Expand(ts[..i + 1]);
    ReachExpand(ts[..i]);
    ReachExpand(ts[..i + 1]);
    assert ts[..i + 1] == ts[..i] + [ts[i]];
    Append(ts[..i], ts[i]);
    ReachAppend(ts[..i], ts[i]);
    TokenAt(a, ts[i]);
    if i + 1 == |ts| {
      assert ts[..i + 1] == ts;
    }
  }

  lemma SliceAfter(data: seq<byte>, a: seq<byte>, bytes: seq<byte>)
    requires a + bytes <= data
    ensures bytes == data[|a|..|a| + |bytes|]
  {
    assert data[..|a| + |bytes|] == a + bytes;
  }

  lemma TokenAt(out: seq<byte>, t: Token)
    requires Fits(out, t)
    ensures Width(t) > 0 && (t.Copy? ==> t.length >= 4)
    ensures t.Literal? ==> |t.bytes| <= 16383 && Apply(out, t) == out + t.bytes
  {}

  lemma {:induction false} SamePrefix(data: seq<byte>, ts: seq<Token>, us: seq<Token>, window: nat, preprocessed: nat,
    n: nat)
    requires WellFormed(ts) && Expand(ts) == data && Greedy(data, ts, window, preprocessed)
    requires WellFormed(us) && Expand(us) == data && Greedy(data, us, window, preprocessed)
    requires n <= |ts| && n <= |us| && preprocessed >= 4
    ensures ts[..n] == us[..n]
    decreases n
  {
    hide WellFormed, Expand, Greedy;
    if n > 0 {
      var i := n - 1;
      SamePrefix(data, ts, us, window, preprocessed, i);
      SameChoice(data, ts, us, window, preprocessed, i);
      assert ts[..n] == ts[..i] + [ts[i]] && us[..n] == us[..i] + [us[i]];
    }
  }

  lemma SameChoice(data: seq<byte>, ts: seq<Token>, us: seq<Token>, window: nat, preprocessed: nat, i: nat)
    requires WellFormed(ts) && Expand(ts) == data && Greedy(data, ts, window, preprocessed)
    requires WellFormed(us) && Expand(us) == data && Greedy(data, us, window, preprocessed)
    requires i < |ts| && i < |us| && ts[..i] == us[..i] && preprocessed >= 4
    ensures ts[i] == us[i]
  {
    hide WellFormed, Expand, IsMatch, Unmatched, Reach, Runs;
    var o := Reach(ts[..i]);
    MoreAfter(data, ts, i);
    MoreAfter(data, us, i);
    assert IsChoice(data, o, ts[i], window, preprocessed) && IsChoice(data, o, us[i], window, preprocessed);
    if ts[i].Copy? && us[i].Copy? {
      MatchUnique(data, o, window, preprocessed, ts[i].length, ts[i].distance, us[i].length, us[i].distance);
    } else if ts[i].Copy? {
      UnmatchedIff(data, o, window, preprocessed, ts[i].length, ts[i].distance);
    } else if us[i].Copy? {
      UnmatchedIff(data, o, window, preprocessed, us[i].length, us[i].distance);
    } else if |ts[i].bytes| < |us[i].bytes| {
      RunEnds(data, ts, us, window, preprocessed, i);
    } else if |us[i].bytes| < |ts[i].bytes| {
      RunEnds(data, us, ts, window, preprocessed, i);
    }
  }

  /** A run cannot end where another greedy parse goes on with one. */
  lemma RunEnds(data: seq<byte>, ts: seq<Token>, us: seq<Token>, window: nat, preprocessed: nat, i: nat)
    requires WellFormed(ts) && Expand(ts) == data && Greedy(data, ts, window, preprocessed)
    requires WellFormed(us) && Expand(us) == data && Greedy(data, us, window, preprocessed)
    requires i < |ts| && i < |us| && ts[..i] == us[..i] && preprocessed >= 4
    requires ts[i].Literal? && us[i].Literal?
    ensures |ts[i].bytes| >= |us[i].bytes|
  {
    hide WellFormed, Expand, IsMatch, Unmatched, Reach;
    if |ts[i].bytes| < |us[i].bytes| {
      MoreAfter(data, ts, i);
      MoreAfter(data, us, i);
      var j, o := i + 1, Reach(ts[..i + 1]);
      MoreAfter(data, ts, j);
      assert IsChoice(data, o, ts[j], window, preprocessed)
        && IsChoice(data, Reach(us[..i]), us[i], window, preprocessed);
      if ts[j].Copy? {
        assert Unmatched(data, o, window);
        UnmatchedIff(data, o, window, preprocessed, ts[j].length, ts[j].distance);
      }
    }
  }
}
