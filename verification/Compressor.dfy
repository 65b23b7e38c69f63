/** The compressor, and the decompressor's qword copies over a flat memory. */
module Compressor {
  import opened CompressorTokens
  import opened CompressorSearch
  import opened CompressorGreedy

  datatype Level = None | Fast | Full

  const WINDOW_SIZE_FAST := 31
  const MAX_PREPROCESSED := 1023
  const MAX_PREPROCESSED_FAST := 31

  /** The stream so far: its bytes, and the input it covers. */
  ghost predicate Covers(out: seq<byte>, ts: seq<Token>, input: seq<byte>)
  {
    WellFormed(ts) && out == EncodeAll(ts) && Expand(ts) == input
  }

  lemma CoversNothing()
    ensures Covers([], [], [])
  {}

  /** A literal run continues the stream. */
  lemma CoversLiteral(out: seq<byte>, ts: seq<Token>, data: seq<byte>, offset: nat, n: nat)
    requires 1 <= n <= MAX_NON_MATCH_LENGTH && offset + n <= |data| && Covers(out, ts, data[..offset])
    ensures Covers(out + EncodeNonMatch(n) + data[offset..offset + n], ts + [Literal(data[offset..offset + n])],
            data[..offset + n])
  {
    var t := Literal(data[offset..offset + n]);
    assert Fits(Expand(ts), t);
    Append(ts, t);
    assert data[..offset] + data[offset..offset + n] == data[..offset + n];
    assert out + (EncodeNonMatch(n) + data[offset..offset + n]) == out + EncodeNonMatch(n) + data[offset..offset + n];
  }

  /** A back reference continues the stream. */
  lemma CoversCopy(out: seq<byte>, ts: seq<Token>, data: seq<byte>, offset: nat, length: nat, distance: nat)
    requires offset + length <= |data| && Covers(out, ts, data[..offset])
    requires MIN_MATCH_LENGTH <= length <= MAX_MATCH_LENGTH && MATCH_ALIGNMENT <= distance <= WINDOW_SIZE
             && distance <= offset
    requires Agrees(data, offset - distance, offset, length)
    ensures Covers(out + EncodeMatch(length, distance), ts + [Copy(length, distance)], data[..offset + length])
  {
    hide WellFormed, Expand, EncodeAll, CopyOut, Agrees;
    var t := Copy(length, distance);
    assert Fits(Expand(ts), t);
    Append(ts, t);
    AgreesRepeats(data, offset, length, distance);
    CopyOutIs(data, offset, length, distance);
  }

  lemma AgreesRepeats(data: seq<byte>, offset: nat, length: nat, distance: nat)
    requires distance <= offset && Agrees(data, offset - distance, offset, length)
    ensures forall i :: offset <= i < offset + length ==> data[i] == data[i - distance]
  {
    forall i | offset <= i < offset + length ensures data[i] == data[i - distance] {
      assert data[offset..offset + length][i - offset] ==
        data[offset - distance..offset - distance + length][i - offset];
    }
  }

  /** The stream is the encoding of tokens that fit their fields and expand to the data. */
  ghost predicate StandsFor(out: seq<byte>, data: seq<byte>)
  {
    exists ts :: Covers(out, ts, data)
  }

  /** Literal runs only. */
  ghost predicate IsStored(out: seq<byte>, data: seq<byte>)
  {
    exists ts: seq<Token> :: Covers(out, ts, data) && Runs(ts) && forall i: nat :: i < |ts| ==> ts[i].Literal?
  }

  /** The stream is the greedy parse of the data. */
  ghost predicate IsGreedy(out: seq<byte>, data: seq<byte>, window: nat, preprocessed: nat)
  {
    exists ts :: Covers(out, ts, data) && Greedy(data, ts, window, preprocessed)
  }

  /** The greedy stream of some data is unique. */
  lemma StreamUnique(out: seq<byte>, out': seq<byte>, data: seq<byte>, window: nat, preprocessed: nat)
    requires IsGreedy(out, data, window, preprocessed) && IsGreedy(out', data, window, preprocessed)
    requires preprocessed >= 4
    ensures out == out'
  {
    hide Greedy, WellFormed, Expand, EncodeAll;
    var ts :| Covers(out, ts, data) && Greedy(data, ts, window, preprocessed);
    var us :| Covers(out', us, data) && Greedy(data, us, window, preprocessed);
    GreedyUnique(data, ts, us, window, preprocessed);
  }

  /** Without compression the input is cut into literal runs, all of them full but the last. */
  method Store(data: seq<byte>) returns (out: seq<byte>)
    ensures IsStored(out, data)
  {
    hide Covers;
    ghost var ts := [];
    out := [];
    CoversNothing();
    var offset := 0;
    while offset < |data|
      invariant 0 <= offset <= |data| && Covers(out, ts, data[..offset])
      invariant forall i: nat :: i < |ts| ==> ts[i].Literal?
      invariant offset < |data| ==> forall i: nat :: i < |ts| ==> |ts[i].bytes| == 16383
      invariant Runs(ts)
    {
      var chunk := |data| - offset;
      if chunk > MAX_NON_MATCH_LENGTH {
        chunk := MAX_NON_MATCH_LENGTH;
      }
      CoversLiteral(out, ts, data, offset, chunk);
      ts := ts + [Literal(data[offset..offset + chunk])];
      out := out + EncodeNonMatch(chunk) + data[offset..offset + chunk];
      offset := offset + chunk;
    }
    assert data[..offset] == data;
  }

  /** The best match at the offset: found by the failure table, then extended beyond the preprocessed length. */
  method FindMatch(data: seq<byte>, offset: nat, window: nat, maxPreprocessed: nat, table: array<nat>)
    returns (length: nat, distance: nat)
    requires offset < |data| && 1 <= maxPreprocessed <= table.Length <= MAX_PREPROCESSED
    modifies table
    ensures length <= MAX_MATCH_LENGTH && offset + length <= |data|
    ensures length > 0 ==>
            MATCH_ALIGNMENT <= distance <= offset && distance <= window
            && Agrees(data, offset - distance, offset, length)
    ensures IsMatch(data, offset, window, maxPreprocessed, length, distance)
  {
    hide IsFailure, Agrees, NoneBetter;
    var capped := |data| - offset;
    if capped > MAX_MATCH_LENGTH {
      capped := MAX_MATCH_LENGTH;
    }
    var preprocessed := capped;
    if preprocessed > maxPreprocessed {
      preprocessed := maxPreprocessed;
    }
    var from := if offset < window then 0 else offset - window;
    BuildTable(data, offset, preprocessed, table);
    length, distance := Search(data, offset, from, preprocessed, table);
    ghost var found := length;
    if length == preprocessed {
      while length < capped && data[offset + length] == data[offset - distance + length]
        invariant found <= length <= capped && Agrees(data, offset - distance, offset, length)
      {
        AgreesExtend(data, offset - distance, offset, length);
        length := length + 1;
      }
    }
    assert IsLongestMatch(data, offset, from, preprocessed, found, distance);
  }

  /** Emits the pending literal run, if there is one. */
  method Flush(data: seq<byte>, offset: nat, pending: nat, out0: seq<byte>, ghost ts0: seq<Token>, ghost window: nat,
    ghost preprocessed: nat) returns (out: seq<byte>, ghost ts: seq<Token>)
    requires pending <= MAX_NON_MATCH_LENGTH && pending <= offset <= |data|
             && Parsed(out0, ts0, data, offset - pending, window, preprocessed) && Closed(ts0)
    requires forall k: nat :: offset - pending <= k < offset ==> Unmatched(data, k, window)
    ensures Parsed(out, ts, data, offset, window, preprocessed)
    ensures pending == 0 || pending == 16383 ==> Closed(ts)
  {
    hide Covers, Greedy, Unmatched, Reach;
    out, ts := out0, ts0;
    if pending > 0 {
      CoversLiteral(out, ts, data, offset - pending, pending);
      GreedyAppend(data, ts, Literal(data[offset - pending..offset]), window, preprocessed);
      ts := ts + [Literal(data[offset - pending..offset])];
      out := out + EncodeNonMatch(pending) + data[offset - pending..offset];
    }
  }

  /** The stream so far is the greedy parse up to an offset. */
  ghost predicate Parsed(out: seq<byte>, ts: seq<Token>, data: seq<byte>, offset: nat, window: nat, preprocessed: nat)
  {
    && offset <= |data| && Covers(out, ts, data[..offset]) && Greedy(data, ts, window, preprocessed)
    && Reach(ts) == offset
  }

  /** The last token is not a literal run that could go on. */
  ghost predicate Closed(ts: seq<Token>)
  {
    ts != [] && ts[|ts| - 1].Literal? ==> |ts[|ts| - 1].bytes| == 16383
  }

  /**
   * Compresses data: the stream's tokens fit their fields and stand for exactly the input, at every level. Without
   * compression they are full literal runs. Otherwise they are the greedy parse, for the window and the preprocessed
   * length of the level.
   */
  method Compress(data: seq<byte>, level: Level) returns (out: seq<byte>)
    ensures StandsFor(out, data)
    ensures level == None ==> IsStored(out, data)
    ensures level == Fast ==> IsGreedy(out, data, 31, 31)
    ensures level == Full ==> IsGreedy(out, data, 1023, 1023)
  {
    hide StandsFor, IsStored, IsGreedy;
    if level == None {
      out := Store(data);
      StoredStands(out, data);
      return;
    }
    var window, maxPreprocessed := WINDOW_SIZE, MAX_PREPROCESSED;
    if level == Fast {
      window, maxPreprocessed := WINDOW_SIZE_FAST, MAX_PREPROCESSED_FAST;
    }
    out := CompressWith(data, window, maxPreprocessed);
    GreedyStands(out, data, window, maxPreprocessed);
  }

  lemma StoredStands(out: seq<byte>, data: seq<byte>)
    requires IsStored(out, data)
    ensures StandsFor(out, data)
  {
    hide Covers, Runs;
  }

  lemma GreedyStands(out: seq<byte>, data: seq<byte>, window: nat, preprocessed: nat)
    requires IsGreedy(out, data, window, preprocessed)
    ensures StandsFor(out, data)
  {
    hide Covers, Greedy;
  }

  /** The matching loop, for a window and a pattern length of the level. */
  method CompressWith(data: seq<byte>, window: nat, maxPreprocessed: nat) returns (out: seq<byte>)
    requires 4 <= maxPreprocessed <= MAX_PREPROCESSED && window <= WINDOW_SIZE
    ensures IsGreedy(out, data, window, maxPreprocessed)
  {
    hide Covers, Greedy, Unmatched, IsMatch, Agrees, Parsed;
    var table := new nat[maxPreprocessed];
    ghost var ts := [];
    out := [];
    ParsedNothing(data, window, maxPreprocessed);
    var pending := 0;
    var offset := 0;
    while offset < |data|
      invariant 0 <= pending <= offset <= |data| && pending <= MAX_NON_MATCH_LENGTH
      invariant Parsed(out, ts, data, offset - pending, window, maxPreprocessed) && Closed(ts)
      invariant forall k: nat :: offset - pending <= k < offset ==> Unmatched(data, k, window)
    {
      var length, distance := FindMatch(data, offset, window, maxPreprocessed, table);
      UnmatchedIff(data, offset, window, maxPreprocessed, length, distance);
      if pending == MAX_NON_MATCH_LENGTH || (pending > 0 && length >= MIN_MATCH_LENGTH) {
        out, ts := Flush(data, offset, pending, out, ts, window, maxPreprocessed);
        pending := 0;
      }
      if length < MIN_MATCH_LENGTH {
        pending := pending + 1;
        offset := offset + 1;
      } else {
        ParsedCopy(out, ts, data, offset, window, maxPreprocessed, length, distance);
        ts := ts + [Copy(length, distance)];
        out := out + EncodeMatch(length, distance);
        offset := offset + length;
      }
    }
    out, ts := Flush(data, offset, pending, out, ts, window, maxPreprocessed);
    ParsedAll(out, ts, data, window, maxPreprocessed);
  }

  lemma ParsedNothing(data: seq<byte>, window: nat, preprocessed: nat)
    ensures Parsed([], [], data, 0, window, preprocessed)
  {
    CoversNothing();
  }

  lemma ParsedAll(out: seq<byte>, ts: seq<Token>, data: seq<byte>, window: nat, preprocessed: nat)
    requires Parsed(out, ts, data, |data|, window, preprocessed)
    ensures IsGreedy(out, data, window, preprocessed)
  {
    hide Covers, Greedy;
    assert data[..|data|] == data;
  }

  /** A back reference to the match at the offset continues the parse. */
  lemma ParsedCopy(out: seq<byte>, ts: seq<Token>, data: seq<byte>, offset: nat, window: nat, preprocessed: nat,
    length: nat, distance: nat)
    requires Parsed(out, ts, data, offset, window, preprocessed) && offset < |data| && window <= WINDOW_SIZE
    requires IsMatch(data, offset, window, preprocessed, length, distance) && length >= 4 && preprocessed >= 4
    ensures offset + length <= |data| && distance <= WINDOW_SIZE && length <= MAX_MATCH_LENGTH
    ensures Parsed(out + EncodeMatch(length, distance), ts + [Copy(length, distance)], data, offset + length, window,
            preprocessed)
  {
    hide Covers, Greedy, Unmatched, Agrees, Reach, IsLongestMatch, Extended;
    UnmatchedIff(data, offset, window, preprocessed, length, distance);
    CoversCopy(out, ts, data, offset, length, distance);
    GreedyAppend(data, ts, Copy(length, distance), window, preprocessed);
  }

  /** Sixty-four zero bytes become a run of eight and a copy of the rest from eight bytes back. */
  method ZeroBytes() returns (out: seq<byte>)
    ensures out == [0x20, 0, 0, 0, 0, 0, 0, 0, 0, 0x71, 0, 2]
  {
    hide IsGreedy;
    var data := seq(64, _ => 0);
    ZeroParse(data);
    out := Compress(data, Full);
    StreamUnique(out, [0x20, 0, 0, 0, 0, 0, 0, 0, 0, 0x71, 0, 2], data, 1023, 1023);
  }

  lemma ZeroParse(data: seq<byte>)
    requires |data| == 64 && forall i :: 0 <= i < 64 ==> data[i] == 0
    ensures IsGreedy([0x20, 0, 0, 0, 0, 0, 0, 0, 0, 0x71, 0, 2], data, 1023, 1023)
  {
    hide Covers, Greedy, WellFormed, IsMatch, Unmatched;
    ParsedNothing(data, 1023, 1023);
    forall k: nat | k < 8 ensures Unmatched(data, k, 1023) {
      EarlyUnmatched(data, k, 1023);
    }
    var run := Literal(data[0..8]);
    CoversLiteral([], [], data, 0, 8);
    GreedyAppend(data, [], run, 1023, 1023);
    assert [] + EncodeNonMatch(8) + data[0..8] == [0x20, 0, 0, 0, 0, 0, 0, 0, 0];
    assert [] + [run] == [run];
    ZeroMatch(data);
    ParsedCopy([0x20, 0, 0, 0, 0, 0, 0, 0, 0], [run], data, 8, 1023, 1023, 56, 8);
    assert [0x20, 0, 0, 0, 0, 0, 0, 0, 0] + EncodeMatch(56, 8) == [0x20, 0, 0, 0, 0, 0, 0, 0, 0, 0x71, 0, 2];
    ParsedAll([0x20, 0, 0, 0, 0, 0, 0, 0, 0, 0x71, 0, 2], [run] + [Copy(56, 8)], data, 1023, 1023);
  }

  lemma EarlyUnmatched(data: seq<byte>, k: nat, window: nat)
    requires k < 8
    ensures Unmatched(data, k, window)
  {}

  lemma ZeroMatch(data: seq<byte>)
    requires |data| == 64 && forall i :: 0 <= i < 64 ==> data[i] == 0
    ensures IsMatch(data, 8, 1023, 1023, 56, 8)
  {
    assert data[0..56] == data[8..64];
    assert Agrees(data, 0, 8, 56);
  }

  // ---------------------------------------------------------------------------
  // The decompressor
  // ---------------------------------------------------------------------------

  /** One 8-byte load and store. */
  method CopyQword(mem: array<byte>, src: nat, dst: nat)
    requires src + 8 <= mem.Length && dst + 8 <= mem.Length
    modifies mem
    ensures forall a :: dst <= a < dst + 8 ==> mem[a] == old(mem[a - dst + src])
    ensures forall i :: 0 <= i < mem.Length && !(dst <= i < dst + 8) ==> mem[i] == old(mem[i])
  {
    var word := mem[src..src + 8];
    forall i | 0 <= i < 8 {
      mem[dst + i] := word[i];
    }
  }

  /** Where a chunk may come from: at least a qword back, or somewhere the stores do not reach. */
  predicate Source(src: nat, dst: nat, n: nat)
  {
    src + 8 <= dst || dst + n + 7 <= src || src + n + 7 <= dst
  }

  /**
   * Copies n bytes by qwords, first up to an aligned destination, then aligned. The stores run up to
   * seven bytes past the chunk; the chunk itself ends up equal to its source.
   */
  method CopyChunk(mem: array<byte>, src0: nat, dst0: nat, n: nat) returns (dst: nat)
    requires 1 <= n && src0 + n + 7 <= mem.Length && dst0 + n + 7 <= mem.Length && Source(src0, dst0, n)
    modifies mem
    ensures dst == dst0 + n
    ensures forall a :: dst0 <= a < dst0 + n ==> mem[a] == mem[a - dst0 + src0]
    ensures forall i :: 0 <= i < mem.Length && !(dst0 <= i < dst0 + n + 7) ==> mem[i] == old(mem[i])
  {
    dst := dst0;
    var src, length := src0, n;
    var address: int := dst0;
    var pad := (-address) % 8;
    if pad != 0 {
      CopyQword(mem, src, dst);
      if pad >= length {
        return dst + length;
      }
      length := length - pad;
      dst := dst + pad;
      src := src + pad;
    }
    var k := 0;
    while true
      invariant 0 <= k && (k == 0 || k < length) && length > 0
      invariant dst - dst0 == src - src0 == n - length
      invariant forall a :: dst0 <= a < dst + k && a < dst0 + n ==> mem[a] == mem[a - dst0 + src0]
      invariant forall i :: 0 <= i < mem.Length && !(dst0 <= i < dst0 + n + 7) ==> mem[i] == old(mem[i])
      decreases length - k
    {
      CopyQword(mem, src + k, dst + k);
      k := k + 8;
      if k >= length {
        break;
      }
    }
    dst := dst + length;
  }

  /** The header bytes of a copy give back its fields. */
  lemma MatchHeader(length: nat, distance: nat)
    requires length <= MAX_MATCH_LENGTH && distance <= WINDOW_SIZE
    ensures var s := EncodeMatch(length, distance);
            var b0: int, b1: int, b2: int := s[0], s[1], s[2];
            b0 % 2 == 1 && b0 / 2 + (b1 % 64) * 128 == length && b1 / 64 + b2 * 4 == distance
  {}

  /** The header bytes of a literal run give back its length. */
  lemma NonMatchHeader(n: nat)
    requires n <= MAX_NON_MATCH_LENGTH
    ensures var s := EncodeNonMatch(n);
            var b0: int, b1: int := s[0], if n > 63 then s[1] else 0;
            && b0 % 2 == 0 && ((b0 / 2) % 2 == 1 <==> n > 63)
            && b0 / 4 + b1 * 64 == n
  {}

  /** What lies in memory from address a. */
  ghost predicate Holds(mem: array<byte>, a: nat, s: seq<byte>)
    reads mem
  {
    a + |s| <= mem.Length && mem[a..a + |s|] == s
  }

  lemma HoldsPart(mem: array<byte>, a: nat, s: seq<byte>, i: nat, j: nat)
    requires Holds(mem, a, s) && i <= j <= |s|
    ensures Holds(mem, a + i, s[i..j])
    ensures forall k :: a + i <= k < a + j ==> mem[k] == s[k - a]
  {
    assert forall k :: a <= k < a + |s| ==> mem[k] == mem[a..a + |s|][k - a];
    assert mem[a + i..a + j] == s[i..j];
  }

  /** A copied literal run extends the output. */
  lemma HoldsLiteral(mem: array<byte>, a: nat, out: seq<byte>, src: nat, bytes: seq<byte>)
    requires Holds(mem, a, out) && Holds(mem, src, bytes) && a + |out| + |bytes| <= mem.Length
    requires forall k :: a + |out| <= k < a + |out| + |bytes| ==> mem[k] == mem[k - (a + |out|) + src]
    ensures Holds(mem, a, out + bytes)
  {
    HoldsPart(mem, src, bytes, 0, |bytes|);
    HoldsPart(mem, a, out, 0, |out|);
    var n := |out + bytes|;
    forall i | 0 <= i < n ensures mem[a..a + n][i] == (out + bytes)[i] {
      assert mem[a..a + n][i] == mem[a + i];
      if i >= |out| {
        assert mem[a + i] == mem[src + (i - |out|)];
      }
    }
  }

  /** A copied back reference extends the output as CopyOut says. */
  lemma HoldsCopy(mem: array<byte>, a: nat, out: seq<byte>, length: nat, distance: nat)
    requires Holds(mem, a, out) && 1 <= distance <= |out| && a + |out| + length <= mem.Length
    requires forall k :: a + |out| <= k < a + |out| + length ==> mem[k] == mem[k - distance]
    ensures Holds(mem, a, CopyOut(out, length, distance))
  {
    var n := |out|;
    var s := mem[a..a + n + length];
    assert s[..n] == mem[a..a + n];
    forall i | n <= i < n + length ensures s[i] == s[i - distance] {
      assert mem[a + i] == mem[a + i - distance];
    }
    CopyOutIs(s, n, length, distance);
    assert s[..n + length] == s;
  }

  /** The bytes of token i inside the encoded stream. */
  lemma TokenBytes(ts: seq<Token>, i: nat)
    requires WellFormed(ts) && i < |ts|
    ensures WellFormed(ts[..i]) && WellFormed(ts[..i + 1]) && Fits(Expand(ts[..i]), ts[i])
    ensures Expand(ts[..i + 1]) == Apply(Expand(ts[..i]), ts[i]) && Expand(ts[..i + 1]) <= Expand(ts)
    ensures var a, b := |EncodeAll(ts[..i])|, |EncodeAll(ts[..i + 1])|;
            a < b <= |EncodeAll(ts)| && b - a == |Encode(ts[i])| && EncodeAll(ts)[a..b] == Encode(ts[i])
  {
    hide *;
    Prefix(ts, i);
    Prefix(ts, i + 1);
    assert ts[..i + 1] == ts[..i] + [ts[i]];
    Append(ts[..i], ts[i]);
    EncodeNonEmpty(Expand(ts[..i]), ts[i]);
    PrefixSlice(EncodeAll(ts), EncodeAll(ts[..i]), Encode(ts[i]));
  }

  lemma PrefixSlice(e: seq<byte>, a: seq<byte>, b: seq<byte>)
    requires a + b <= e
    ensures e[|a|..|a| + |b|] == b
  {
    assert e[..|a + b|] == a + b;
    assert e[|a|..|a| + |b|] == e[..|a + b|][|a|..];
  }

  lemma EncodeNonEmpty(out: seq<byte>, t: Token)
    requires Fits(out, t)
    ensures |Encode(t)| >= 1
  {}

  /** Memory as the decompressor needs it: the stream, the output area, and seven spare bytes after each. */
  ghost predicate Laid(mem: array<byte>, data: nat, out: nat, ts: seq<Token>)
    requires WellFormed(ts)
    reads mem
  {
    var n, m := |EncodeAll(ts)|, |Expand(ts)|;
    && Holds(mem, data, EncodeAll(ts))
    && data + n + 7 <= mem.Length && out + m + 7 <= mem.Length && (data + n + 7 <= out || out + m + 7 <= data)
  }

  /** Decodes a back reference at pos. */
  method DecodeCopy(mem: array<byte>, pos: nat, dst: nat, ghost out: nat, ghost o: seq<byte>, ghost t: Token)
    returns (pos': nat, dst': nat)
    requires t.Copy? && Fits(o, t) && Holds(mem, pos, EncodeMatch(t.length, t.distance)) && Holds(mem, out, o)
    requires dst == out + |o| && dst + t.length + 7 <= mem.Length
    modifies mem
    ensures pos' == pos + 3 && dst' == dst + t.length && Holds(mem, out, CopyOut(o, t.length, t.distance))
    ensures forall k :: 0 <= k < mem.Length && !(dst <= k < dst + t.length + 7) ==> mem[k] == old(mem[k])
  {
    hide CopyOut, Holds, EncodeMatch;
    HoldsBytes(mem, pos, EncodeMatch(t.length, t.distance));
    MatchHeader(t.length, t.distance);
    var b0: int, b1: int, b2: int := mem[pos], mem[pos + 1], mem[pos + 2];
    var length := b0 / 2 + (b1 % 64) * 128;
    var distance := b1 / 64 + b2 * 4;
    ghost var before := mem[..];
    HoldsSlice(mem, out, o);
    dst' := CopyChunk(mem, dst - distance, dst, length);
    pos' := pos + 3;
    HoldsKept(mem, out, o, before);
    HoldsCopy(mem, out, o, length, distance);
  }

  /** Decodes a literal run at pos. */
  method DecodeLiteral(mem: array<byte>, pos: nat, dst: nat, ghost out: nat, ghost o: seq<byte>, ghost t: Token)
    returns (pos': nat, dst': nat)
    requires t.Literal? && Fits(o, t) && Holds(mem, pos, EncodeNonMatch(|t.bytes|) + t.bytes) && Holds(mem, out, o)
    requires dst == out + |o| && dst + |t.bytes| + 7 <= mem.Length
    requires var end := pos + |EncodeNonMatch(|t.bytes|)| + |t.bytes| + 7;
             end <= mem.Length && (end <= out || dst + |t.bytes| + 7 <= pos)
    modifies mem
    ensures pos' == pos + |EncodeNonMatch(|t.bytes|)| + |t.bytes| && dst' == dst + |t.bytes|
            && Holds(mem, out, o + t.bytes)
    ensures forall k :: 0 <= k < mem.Length && !(dst <= k < dst + |t.bytes| + 7) ==> mem[k] == old(mem[k])
  {
    hide *;
    LiteralNonEmpty(o, t);
    var src, length := ReadLiteralHeader(mem, pos, t.bytes);
    ghost var before := mem[..];
    HoldsSlice(mem, out, o);
    HoldsSlice(mem, src, t.bytes);
    dst' := CopyChunk(mem, src, dst, length);
    pos' := src + length;
    HoldsKept(mem, out, o, before);
    HoldsKept(mem, src, t.bytes, before);
    HoldsLiteral(mem, out, o, src, t.bytes);
  }

  lemma LiteralNonEmpty(o: seq<byte>, t: Token)
    requires t.Literal? && Fits(o, t)
    ensures 1 <= |t.bytes| <= MAX_NON_MATCH_LENGTH
  {}

  /** Reads the length of a literal run from its header, and where its bytes start. */
  method ReadLiteralHeader(mem: array<byte>, pos: nat, ghost bytes: seq<byte>) returns (src: nat, length: nat)
    requires |bytes| <= MAX_NON_MATCH_LENGTH && Holds(mem, pos, EncodeNonMatch(|bytes|) + bytes)
    ensures src == pos + |EncodeNonMatch(|bytes|)| && length == |bytes| && Holds(mem, src, bytes)
  {
    hide Holds, EncodeNonMatch;
    ghost var header := EncodeNonMatch(|bytes|);
    HoldsConcat(mem, pos, header, bytes);
    HoldsBytes(mem, pos, header);
    NonMatchHeader(|bytes|);
    var b0: int := mem[pos];
    length := b0 / 4;
    src := pos + 1;
    if (b0 / 2) % 2 == 1 {
      var b1: int := mem[pos + 1];
      length := length + b1 * 64;
      src := pos + 2;
    }
  }

  lemma HoldsConcat(mem: array<byte>, a: nat, s: seq<byte>, t: seq<byte>)
    requires Holds(mem, a, s + t)
    ensures Holds(mem, a, s) && Holds(mem, a + |s|, t)
  {
    HoldsPart(mem, a, s + t, 0, |s|);
    HoldsPart(mem, a, s + t, |s|, |s + t|);
    assert (s + t)[|s|..] == t && (s + t)[..|s|] == s;
  }

  /** Decodes one token: the header at pos, the bytes to dst. */
  method DecodeToken(mem: array<byte>, pos: nat, dst: nat, ghost data: nat, ghost out: nat, ghost ts: seq<Token>,
    ghost i: nat)
    returns (pos': nat, dst': nat)
    requires WellFormed(ts) && i < |ts| && Laid(mem, data, out, ts)
    requires WellFormed(ts[..i]) && Holds(mem, out, Expand(ts[..i]))
    requires pos == data + |EncodeAll(ts[..i])| && dst == out + |Expand(ts[..i])|
    modifies mem
    ensures Laid(mem, data, out, ts) && WellFormed(ts[..i + 1]) && Holds(mem, out, Expand(ts[..i + 1]))
    ensures pos' == data + |EncodeAll(ts[..i + 1])| && dst' == out + |Expand(ts[..i + 1])|
    ensures forall k :: 0 <= k < mem.Length && !(out <= k < out + |Expand(ts)| + 7) ==> mem[k] == old(mem[k])
  {
    hide *;
    TokenBytes(ts, i);
    LaidParts(mem, data, out, ts);
    ghost var t, o, e := ts[i], Expand(ts[..i]), EncodeAll(ts);
    ghost var a := |EncodeAll(ts[..i])|;
    TokenShape(o, t);
    HoldsPart(mem, data, e, a, a + |Encode(t)|);
    ghost var before := mem[..];
    HoldsSlice(mem, data, e);
    var b0: int := mem[pos];
    if b0 % 2 == 1 {
      pos', dst' := DecodeCopy(mem, pos, dst, out, o, t);
    } else {
      pos', dst' := DecodeLiteral(mem, pos, dst, out, o, t);
    }
    HoldsKept(mem, data, e, before);
    LaidIntro(mem, data, out, ts);
  }

  lemma LaidParts(mem: array<byte>, data: nat, out: nat, ts: seq<Token>)
    requires WellFormed(ts) && Laid(mem, data, out, ts)
    ensures var n, m := |EncodeAll(ts)|, |Expand(ts)|;
            && Holds(mem, data, EncodeAll(ts))
            && data + n + 7 <= mem.Length && out + m + 7 <= mem.Length && (data + n + 7 <= out || out + m + 7 <= data)
  {}

  lemma LaidIntro(mem: array<byte>, data: nat, out: nat, ts: seq<Token>)
    requires WellFormed(ts) && Holds(mem, data, EncodeAll(ts))
    requires var n, m := |EncodeAll(ts)|, |Expand(ts)|;
             data + n + 7 <= mem.Length && out + m + 7 <= mem.Length && (data + n + 7 <= out || out + m + 7 <= data)
    ensures Laid(mem, data, out, ts)
  {}

  /** The kind bit of a token's first byte, and the growth of the output. */
  lemma TokenShape(o: seq<byte>, t: Token)
    requires Fits(o, t)
    ensures |Encode(t)| >= 1 && |Apply(o, t)| == |o| + (if t.Copy? then t.length else |t.bytes|)
    ensures var b0: int := Encode(t)[0]; b0 % 2 == 1 <==> t.Copy?
    ensures t.Copy? ==> t.length <= MAX_MATCH_LENGTH && t.distance <= WINDOW_SIZE && 1 <= t.distance <= |o|
                        && Encode(t) == EncodeMatch(t.length, t.distance)
                        && Apply(o, t) == CopyOut(o, t.length, t.distance)
    ensures t.Literal? ==>
            |t.bytes| <= MAX_NON_MATCH_LENGTH && Encode(t) == EncodeNonMatch(|t.bytes|) + t.bytes
            && Apply(o, t) == o + t.bytes
  {
    if t.Copy? {
      CopyGrows(o, t.length, t.distance);
      MatchHeader(t.length, t.distance);
    } else {
      NonMatchHeader(|t.bytes|);
    }
  }

  lemma HoldsSlice(mem: array<byte>, a: nat, s: seq<byte>)
    requires Holds(mem, a, s)
    ensures a + |s| <= mem.Length && mem[..][a..a + |s|] == s
  {
    assert mem[..][a..a + |s|] == mem[a..a + |s|];
  }

  lemma HoldsBytes(mem: array<byte>, a: nat, s: seq<byte>)
    requires Holds(mem, a, s)
    ensures a + |s| <= mem.Length && forall k :: a <= k < a + |s| ==> mem[k] == s[k - a]
  {
    HoldsPart(mem, a, s, 0, |s|);
  }

  lemma HoldsIntro(mem: array<byte>, a: nat, s: seq<byte>)
    requires a + |s| <= mem.Length && forall k :: a <= k < a + |s| ==> mem[k] == s[k - a]
    ensures Holds(mem, a, s)
  {
    forall k | 0 <= k < |s| ensures mem[a..a + |s|][k] == s[k] {
      assert mem[a + k] == s[a + k - a];
    }
  }

  /** Unchanged bytes still hold what they held. */
  lemma HoldsKept(mem: array<byte>, a: nat, s: seq<byte>, before: seq<byte>)
    requires |before| == mem.Length && a + |s| <= mem.Length && before[a..a + |s|] == s
    requires forall k :: a <= k < a + |s| ==> mem[k] == before[k]
    ensures Holds(mem, a, s)
  {
    assert mem[a..a + |s|] == before[a..a + |s|];
  }

  /** The decompressor writes exactly the bytes the stream stands for. */
  method Decompress(mem: array<byte>, data: nat, length: nat, out: nat, ghost ts: seq<Token>)
    requires WellFormed(ts) && Laid(mem, data, out, ts) && length == |EncodeAll(ts)|
    modifies mem
    ensures Holds(mem, out, Expand(ts))
    ensures forall k :: 0 <= k < mem.Length && !(out <= k < out + |Expand(ts)| + 7) ==> mem[k] == old(mem[k])
  {
    hide *;
    var pos, dst, end := data, out, data + length;
    ghost var i := 0;
    DecodeStart(mem, data, out, ts);
    while pos < end
      invariant 0 <= i <= |ts| && Laid(mem, data, out, ts) && WellFormed(ts[..i]) && Holds(mem, out, Expand(ts[..i]))
      invariant pos == data + |EncodeAll(ts[..i])| && dst == out + |Expand(ts[..i])|
      invariant forall k :: 0 <= k < mem.Length && !(out <= k < out + |Expand(ts)| + 7) ==> mem[k] == old(mem[k])
      decreases |ts| - i
    {
      WholeStream(ts, i);
      pos, dst := DecodeToken(mem, pos, dst, data, out, ts, i);
      i := i + 1;
    }
    WholeStream(ts, i);
    assert ts[..|ts|] == ts;
  }

  lemma DecodeStart(mem: array<byte>, data: nat, out: nat, ts: seq<Token>)
    requires WellFormed(ts) && Laid(mem, data, out, ts)
    ensures ts[..0] == [] && WellFormed([]) && Expand([]) == [] && EncodeAll([]) == [] && Holds(mem, out, [])
  {}

  /** The stream ends exactly when its bytes do. */
  lemma WholeStream(ts: seq<Token>, i: nat)
    requires WellFormed(ts) && i <= |ts| && WellFormed(ts[..i])
    ensures i < |ts| <==> |EncodeAll(ts[..i])| < |EncodeAll(ts)|
  {
    if i < |ts| { TokenBytes(ts, i); } else { assert ts[..i] == ts; }
  }

  /** Compressing, laying the stream out in memory and decompressing gives back the input. */
  method RoundTrip(data: seq<byte>, level: Level) returns (restored: seq<byte>)
    ensures restored == data
  {
    hide *;
    var stream := Compress(data, level);
    ghost var ts := TokensOf(stream, data);
    var n := |stream|;
    var mem := new byte[n + 7 + |data| + 7](i requires 0 <= i => if i < n then stream[i] else 0);
    HoldsIntro(mem, 0, stream);
    LaidIntro(mem, 0, n + 7, ts);
    Decompress(mem, 0, n, n + 7, ts);
    HoldsSlice(mem, n + 7, data);
    restored := mem[..][n + 7..n + 7 + |data|];
  }

  lemma TokensOf(stream: seq<byte>, data: seq<byte>) returns (ts: seq<Token>)
    requires StandsFor(stream, data)
    ensures WellFormed(ts) && stream == EncodeAll(ts) && Expand(ts) == data
  {
    hide WellFormed, EncodeAll, Expand;
    ts :| Covers(stream, ts, data);
  }
}
