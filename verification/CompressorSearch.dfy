/** The failure-table search for the longest earlier match. */
module CompressorSearch {
  import opened CompressorTokens

  const NONE := 0xffff

  // ---------------------------------------------------------------------------
  // The failure table
  // ---------------------------------------------------------------------------

  /** The first n elements of p end with its first l elements. */
  ghost predicate Border(p: seq<byte>, n: nat, l: nat)
  {
    l <= n <= |p| && p[..l] == p[n - l..n]
  }

  /** After a mismatch at n, a shift that leaves l elements matched can still succeed at the same text position. */
  ghost predicate Resumes(p: seq<byte>, n: nat, l: nat)
  {
    n < |p| && l < n && Border(p, n, l) && p[l] != p[n]
  }

  /** f is the longest way to resume after a mismatch at n, or NONE. */
  ghost predicate IsFailure(p: seq<byte>, n: nat, f: nat)
  {
    && (f != NONE ==> Resumes(p, n, f))
    && forall l: nat :: (f == NONE || l > f) ==> !Resumes(p, n, l)
  }

  /** Borders of a border are borders. */
  lemma BorderOfBorder(p: seq<byte>, n: nat, j: nat, l: nat)
    requires Border(p, n, j) && l <= j
    ensures Border(p, n, l) <==> Border(p, j, l)
  {
    assert p[n - j..n] == p[..j];
    assert p[n - l..n] == p[n - j..n][j - l..];
    assert p[..j][j - l..] == p[j - l..j];
  }

  /** A border extends by one matching element. */
  lemma BorderExtend(p: seq<byte>, n: nat, l: nat)
    requires n < |p| && l <= n
    ensures Border(p, n + 1, l + 1) <==> Border(p, n, l) && p[l] == p[n]
  {
    assert p[..l + 1] == p[..l] + [p[l]];
    assert p[n - l..n + 1] == p[n - l..n] + [p[n]];
    if Border(p, n + 1, l + 1) {
      assert p[..l + 1][..l] == p[..l] && p[n - l..n + 1][..l] == p[n - l..n];
      assert p[..l + 1][l] == p[n - l..n + 1][l];
    }
  }

  /** j is the longest proper border of the first n elements. */
  ghost predicate Longest(p: seq<byte>, n: nat, j: nat)
  {
    Border(p, n, j) && j < n && forall l: nat :: j < l < n ==> !Border(p, n, l)
  }

  /** The next element continues the longest border: the table entry is inherited. */
  lemma InheritFailure(p: seq<byte>, i: nat, j: nat, f: nat)
    requires i < |p| && Longest(p, i, j) && p[i] == p[j] && IsFailure(p, j, f)
    ensures IsFailure(p, i, f) && Longest(p, i + 1, j + 1)
  {
    forall l: nat | l < j ensures Resumes(p, i, l) <==> Resumes(p, j, l) {
      BorderOfBorder(p, i, j, l);
    }
    forall l: nat | l >= j ensures !Resumes(p, i, l) {
      if j < l < i { assert !Border(p, i, l); }
    }
    BorderExtend(p, i, j);
    var i' := i + 1;
    forall l: nat | j + 1 < l < i' ensures !Border(p, i', l) {
      BorderExtend(p, i, l - 1);
    }
  }

  /** The next element differs: the longest border is the entry. */
  lemma NewFailure(p: seq<byte>, i: nat, j: nat)
    requires i < |p| < NONE && Longest(p, i, j) && p[i] != p[j]
    ensures IsFailure(p, i, j) && FallingBack(p, i, j)
  {
    forall l: nat | l > j ensures !Resumes(p, i, l) {
      if l < i { assert !Border(p, i, l); }
    }
  }

  /** What the fall-back loop knows: every border longer than j (every border, for NONE) has the wrong next element. */
  ghost predicate FallingBack(p: seq<byte>, i: nat, j: nat)
  {
    && i < |p| && (j != NONE ==> j < i && Border(p, i, j))
    && forall l: nat :: l < i && (j == NONE || l > j) && Border(p, i, l) ==> p[l] != p[i]
  }

  lemma FallBackStep(p: seq<byte>, i: nat, j: nat, f: nat)
    requires FallingBack(p, i, j) && j != NONE && p[i] != p[j] && IsFailure(p, j, f)
    ensures FallingBack(p, i, f) && (f != NONE ==> f < j)
  {
    if f != NONE { BorderOfBorder(p, i, j, f); }
    forall l: nat | l < i && (f == NONE || l > f) && Border(p, i, l) ensures p[l] != p[i] {
      if l < j {
        BorderOfBorder(p, i, j, l);
        assert !Resumes(p, j, l);
      }
    }
  }

  lemma FallBackEnd(p: seq<byte>, i: nat, j: nat)
    requires FallingBack(p, i, j) && (j == NONE || p[i] == p[j]) && i >= 1 && |p| < NONE
    ensures Longest(p, i + 1, if j == NONE then 0 else j + 1)
  {
    var k := if j == NONE then 0 else j + 1;
    if j != NONE { BorderExtend(p, i, j); }
    var i' := i + 1;
    forall l: nat | k < l < i' ensures !Border(p, i', l) {
      BorderExtend(p, i, l - 1);
    }
  }

  lemma TableStart(p: seq<byte>)
    requires |p| >= 1
    ensures IsFailure(p, 0, NONE) && Longest(p, 1, 0)
  {
    assert p[..0] == p[1..1];
  }

  lemma FailureGives(p: seq<byte>, n: nat, f: nat)
    requires IsFailure(p, n, f)
    ensures f != NONE ==> f < n && Border(p, n, f)
  {}

  /** Fills the failure table for the pattern at the given offset. */
  method BuildTable(data: seq<byte>, offset: nat, n: nat, table: array<nat>)
    requires 1 <= n <= table.Length < 0xffff && offset + n <= |data|
    modifies table
    ensures forall k :: 0 <= k < n ==> IsFailure(data[offset..offset + n], k, table[k])
  {
    hide Border, Resumes, IsFailure, Longest, FallingBack;
    ghost var p := data[offset..offset + n];
    TableStart(p);
    table[0] := NONE;
    var j: nat := 0;
    for i := 1 to n
      invariant j < i && Longest(p, i, j)
      invariant forall k :: 0 <= k < i ==> IsFailure(p, k, table[k])
    {
      if data[offset + i] == data[offset + j] {
        InheritFailure(p, i, j, table[j]);
        table[i] := table[j];
      } else {
        NewFailure(p, i, j);
        table[i] := j;
        while j != NONE && data[offset + i] != data[offset + j]
          invariant FallingBack(p, i, j) && (j == NONE || j < i)
          invariant forall k :: 0 <= k < i + 1 ==> IsFailure(p, k, table[k])
          decreases if j == NONE then 0 else j + 1
        {
          FallBackStep(p, i, j, table[j]);
          j := table[j];
        }
        FallBackEnd(p, i, j);
      }
      j := if j == NONE then 0 else j + 1;
    }
  }

  // ---------------------------------------------------------------------------
  // The window search
  // ---------------------------------------------------------------------------

  /** The n bytes at a and at b agree. */
  ghost predicate Agrees(data: seq<byte>, a: nat, b: nat, n: nat)
  {
    a + n <= |data| && b + n <= |data| && data[a..a + n] == data[b..b + n]
  }

  /** The start a gives a match of more than best bytes (up to n). */
  ghost predicate Beats(data: seq<byte>, offset: nat, a: nat, n: nat, best: nat)
  {
    best < n && Agrees(data, a, offset, best + 1)
  }

  /** No start before `last` in the window gives a match longer than best (up to n bytes). */
  ghost predicate NoneBetter(data: seq<byte>, offset: nat, from: nat, last: int, n: nat, best: nat)
  {
    forall a: nat :: from <= a < last && a + MATCH_ALIGNMENT <= offset ==> !Beats(data, offset, a, n, best)
  }

  /** A start in the window that matches, and no earlier one matches as far. */
  ghost predicate FirstMatch(data: seq<byte>, offset: nat, from: nat, n: nat, length: nat, distance: nat)
    requires length > 0
  {
    && MATCH_ALIGNMENT <= distance <= offset - from && Agrees(data, offset - distance, offset, length)
    && NoneBetter(data, offset, from, offset - distance, n, length - 1)
  }

  /** The longest match, by brute force: a first start attains it, and no start at distance 8 or more exceeds it. */
  ghost predicate IsLongestMatch(data: seq<byte>, offset: nat, from: nat, n: nat, length: nat, distance: nat)
  {
    && length <= n && (length > 0 ==> FirstMatch(data, offset, from, n, length, distance))
    && NoneBetter(data, offset, from, offset, n, length)
  }

  lemma AgreesExtend(data: seq<byte>, a: nat, b: nat, n: nat)
    requires a + n < |data| && b + n < |data|
    ensures Agrees(data, a, b, n + 1) <==> Agrees(data, a, b, n) && data[a + n] == data[b + n]
  {
    assert data[a..a + n + 1] == data[a..a + n] + [data[a + n]];
    assert data[b..b + n + 1] == data[b..b + n] + [data[b + n]];
    if Agrees(data, a, b, n + 1) {
      assert data[a..a + n + 1][n] == data[b..b + n + 1][n];
      assert data[a..a + n + 1][..n] == data[a..a + n] && data[b..b + n + 1][..n] == data[b..b + n];
    }
  }

  lemma AgreesPrefix(data: seq<byte>, a: nat, b: nat, n: nat, m: nat)
    requires Agrees(data, a, b, n) && m <= n
    ensures Agrees(data, a, b, m)
  {
    assert data[a..a + m] == data[a..a + n][..m] && data[b..b + m] == data[b..b + n][..m];
  }

  lemma SliceOfSlice(s: seq<byte>, o: nat, n: nat, d: nat, j: nat)
    requires d <= j <= n && o + n <= |s|
    ensures s[o..o + n][d..j] == s[o + d..o + j]
  {
    var a, b := s[o..o + n][d..j], s[o + d..o + j];
    assert |a| == |b|;
    forall k | 0 <= k < |a| ensures a[k] == b[k] {
      assert s[o..o + n][d + k] == s[o + (d + k)];
    }
  }

  /** A later start inside a matched stretch: the stretch it shares with the pattern is a border. */
  lemma ShiftIsBorder(data: seq<byte>, offset: nat, a: nat, n: nat, j: nat, d: nat)
    requires offset + n <= |data| && j < n && d <= j && Agrees(data, a, offset, j)
    ensures Agrees(data, a + d, offset, j - d) <==> Border(data[offset..offset + n], j, j - d)
  {
    var p := data[offset..offset + n];
    assert p[..j - d] == data[offset..offset + (j - d)];
    SliceOfSlice(data, offset, n, d, j);
    assert data[a + d..a + j] == data[a..a + j][d..];
    assert data[offset + d..offset + j] == data[offset..offset + j][d..];
  }

  /** A skipped start could not have matched further than the mismatch. */
  lemma SkippedStart(data: seq<byte>, offset: nat, a: nat, n: nat, j: nat, f: nat, d: nat)
    requires offset + n <= |data| && j < n && a < offset && Agrees(data, a, offset, j)
             && data[a + j] != data[offset + j]
    requires IsFailure(data[offset..offset + n], j, f) && 0 < d <= j && (f == NONE || j - d > f)
    ensures !Agrees(data, a + d, offset, j - d + 1)
  {
    if Agrees(data, a + d, offset, j - d + 1) {
      var p := data[offset..offset + n];
      AgreesExtend(data, a + d, offset, j - d);
      ShiftIsBorder(data, offset, a, n, j, d);
      assert Resumes(p, j, j - d);
    }
  }

  /** A mismatch at j: nothing up to the next start beats max(best, j), and the resumed prefix matches. */
  lemma MismatchStep(data: seq<byte>, offset: nat, from: nat, a: nat, n: nat, j: nat, f: nat, best: nat)
    requires from <= a && offset + n <= |data| && j < n && a < offset && j <= best
    requires Agrees(data, a, offset, j) && data[a + j] != data[offset + j] && IsFailure(data[offset..offset + n], j, f)
    requires NoneBetter(data, offset, from, a, n, best)
    ensures f != NONE ==>
            f < j && Agrees(data, a + j - f, offset, f) && NoneBetter(data, offset, from, a + j - f, n, best)
    ensures f == NONE ==> NoneBetter(data, offset, from, a + j + 1, n, best)
  {
    hide Border, Resumes, IsFailure, Agrees;
    FailureGives(data[offset..offset + n], j, f);
    var last := if f == NONE then a + j + 1 else a + j - f;
    forall b: nat | from <= b < last && b + MATCH_ALIGNMENT <= offset
      ensures !Beats(data, offset, b, n, best)
    {
      if b >= a && Beats(data, offset, b, n, best) {
        if b == a {
          AgreesPrefix(data, a, offset, best + 1, j + 1);
          AgreesExtend(data, a, offset, j);
        } else {
          AgreesPrefix(data, b, offset, best + 1, j - (b - a) + 1);
          SkippedStart(data, offset, a, n, j, f, b - a);
        }
      }
    }
    if f != NONE { ShiftIsBorder(data, offset, a, n, j, j - f); }
  }

  lemma EmptySearch(data: seq<byte>, offset: nat, from: nat, n: nat)
    requires from <= offset <= |data|
    ensures Agrees(data, from, offset, 0) && NoneBetter(data, offset, from, from, n, 0)
  {}

  lemma AgreesEmpty(data: seq<byte>, a: nat, b: nat)
    requires a <= |data| && b <= |data|
    ensures Agrees(data, a, b, 0)
  {}

  /** Improving the best length keeps what is known about the earlier starts. */
  lemma NoneBetterGrows(data: seq<byte>, offset: nat, from: nat, last: int, n: nat, best: nat, better: nat)
    requires NoneBetter(data, offset, from, last, n, best) && best <= better
    ensures NoneBetter(data, offset, from, last, n, better)
  {
    forall a: nat | from <= a < last && a + MATCH_ALIGNMENT <= offset ensures !Beats(data, offset, a, n, better) {
      if Beats(data, offset, a, n, better) {
        AgreesPrefix(data, a, offset, better + 1, best + 1);
        assert Beats(data, offset, a, n, best);
      }
    }
  }

  lemma SearchDone(data: seq<byte>, offset: nat, from: nat, a: nat, n: nat, j: nat, length: nat, distance: nat)
    requires from <= a && j <= length <= n && NoneBetter(data, offset, from, a, n, length)
    requires j == n || a + MATCH_ALIGNMENT > offset
    requires length > 0 ==> FirstMatch(data, offset, from, n, length, distance)
    ensures IsLongestMatch(data, offset, from, n, length, distance)
  {}

  /** The search: the text index i and the matched length j move by the failure table; the start is i - j. */
  method Search(data: seq<byte>, offset: nat, from: nat, n: nat, table: array<nat>) returns (length: nat, distance: nat)
    requires from <= offset && 1 <= n <= table.Length < 0xffff && offset + n <= |data|
    requires forall k :: 0 <= k < n ==> IsFailure(data[offset..offset + n], k, table[k])
    ensures IsLongestMatch(data, offset, from, n, length, distance)
  {
    hide Border, Resumes, IsFailure, Agrees, Beats, NoneBetter, IsLongestMatch;
    length, distance := 0, 0;
    var i: int := 0;
    var j: nat := 0;
    EmptySearch(data, offset, from, n);
    while j < n && i <= offset - from + j - MATCH_ALIGNMENT
      invariant j <= n && length <= n && i - j >= 0
      invariant Agrees(data, from + i - j, offset, j)
      invariant from + i - j + MATCH_ALIGNMENT <= offset || j <= length
      invariant NoneBetter(data, offset, from, from + i - j, n, length)
      invariant length > 0 ==> FirstMatch(data, offset, from, n, length, distance)
      decreases offset - from - (i - j), n - j
    {
      ghost var a := from + i - j;
      if data[offset + j] == data[from + i] {
        AgreesExtend(data, a, offset, j);
        j := j + 1;
        i := i + 1;
        continue;
      }
      if j > length {
        NoneBetterGrows(data, offset, from, a, n, length, j);
        NoneBetterGrows(data, offset, from, a, n, length, j - 1);
        length := j;
        distance := offset + j - from - i;
      }
      MismatchStep(data, offset, from, a, n, j, table[j], length);
      j := table[j];
      if j == NONE {
        AgreesEmpty(data, from + i + 1, offset);
        j := 0;
        i := i + 1;
      }
    }
    ghost var a := from + i - j;
    if j > length {
      NoneBetterGrows(data, offset, from, a, n, length, j);
      NoneBetterGrows(data, offset, from, a, n, length, j - 1);
      length := j;
      distance := offset + j - from - i;
    }
    SearchDone(data, offset, from, a, n, j, length, distance);
  }
}
