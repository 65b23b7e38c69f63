/** The compressed stream: literal runs and back references, their meaning and their byte encoding. */
module CompressorTokens {

  type byte = x: int | 0 <= x < 256

  const MIN_MATCH_LENGTH := 4
  const MAX_NON_MATCH_LENGTH := 16383
  const MAX_MATCH_LENGTH := 8191
  const MATCH_ALIGNMENT := 8
  const WINDOW_SIZE := 1023

  datatype Token = Literal(bytes: seq<byte>) | Copy(length: nat, distance: nat)

  /** Appends `length` bytes, each read `distance` back from the end as the output grows. */
  ghost function CopyOut(out: seq<byte>, length: nat, distance: nat): seq<byte>
    requires 1 <= distance <= |out|
    decreases length
  {
    if length == 0 then out else CopyOut(out + [out[|out| - distance]], length - 1, distance)
  }

  /** A token's fields fit their bit widths, and a copy reaches back into existing output, never closer than a qword. */
  ghost predicate Fits(out: seq<byte>, t: Token)
  {
    match t
    case Literal(bytes) => 1 <= |bytes| <= MAX_NON_MATCH_LENGTH
    case Copy(length, distance) =>
      && MIN_MATCH_LENGTH <= length <= MAX_MATCH_LENGTH
      && MATCH_ALIGNMENT <= distance <= WINDOW_SIZE && distance <= |out|
  }

  ghost function Apply(out: seq<byte>, t: Token): seq<byte>
    requires Fits(out, t)
  {
    match t
    case Literal(bytes) => out + bytes
    case Copy(length, distance) => CopyOut(out, length, distance)
  }

  /** Every token fits the output of the tokens before it. */
  ghost predicate WellFormed(ts: seq<Token>)
    decreases |ts|, 0
  {
    ts == [] || (WellFormed(ts[..|ts| - 1]) && Fits(Expand(ts[..|ts| - 1]), ts[|ts| - 1]))
  }

  /** The byte string a stream stands for. */
  ghost function Expand(ts: seq<Token>): seq<byte>
    requires WellFormed(ts)
    decreases |ts|, 1
  {
    if ts == [] then [] else Apply(Expand(ts[..|ts| - 1]), ts[|ts| - 1])
  }

  /** The header of a literal run, as one or two bytes. */
  function EncodeNonMatch(n: nat): (s: seq<byte>)
    requires n <= MAX_NON_MATCH_LENGTH
    ensures |s| == if n > 63 then 2 else 1
  {
    var b := (n % 64) * 4 + if n > 63 then 2 else 0;
    if n > 63 then [b, n / 64] else [b]
  }

  /** A back reference, as three bytes. */
  function EncodeMatch(length: nat, distance: nat): (s: seq<byte>)
    requires length <= MAX_MATCH_LENGTH && distance <= WINDOW_SIZE
    ensures |s| == 3
  {
    [(length % 128) * 2 + 1, (distance % 4) * 64 + length / 128, distance / 4]
  }

  ghost function Encode(t: Token): seq<byte>
    requires exists out :: Fits(out, t)
  {
    match t
    case Literal(bytes) => EncodeNonMatch(|bytes|) + bytes
    case Copy(length, distance) => EncodeMatch(length, distance)
  }

  ghost function EncodeAll(ts: seq<Token>): seq<byte>
    requires WellFormed(ts)
  {
    if ts == [] then [] else
      assert Fits(Expand(ts[..|ts| - 1]), ts[|ts| - 1]);
      EncodeAll(ts[..|ts| - 1]) + Encode(ts[|ts| - 1])
  }

  lemma Append(ts: seq<Token>, t: Token)
    requires WellFormed(ts) && Fits(Expand(ts), t)
    ensures WellFormed(ts + [t]) && Expand(ts + [t]) == Apply(Expand(ts), t)
    ensures EncodeAll(ts + [t]) == EncodeAll(ts) + Encode(t)
  {
    assert (ts + [t])[..|ts|] == ts;
  }

  /** A prefix of a stream: its output and its encoding are prefixes. */
  lemma {:induction false} Prefix(ts: seq<Token>, n: nat)
    requires WellFormed(ts) && n <= |ts|
    ensures WellFormed(ts[..n]) && Expand(ts[..n]) <= Expand(ts) && EncodeAll(ts[..n]) <= EncodeAll(ts)
    ensures n < |ts| ==> Fits(Expand(ts[..n]), ts[n])
    decreases |ts|
  {
    if n == |ts| {
      assert ts[..n] == ts;
    } else {
      var m := |ts| - 1;
      Prefix(ts[..m], n);
      assert ts[..m][..n] == ts[..n];
      ApplyGrows(Expand(ts[..m]), ts[m]);
      if n < m { assert ts[..m][n] == ts[n]; }
    }
  }

  lemma ApplyGrows(out: seq<byte>, t: Token)
    requires Fits(out, t)
    ensures out <= Apply(out, t)
  {
    if t.Copy? { CopyGrows(out, t.length, t.distance); }
  }

  lemma {:induction false} CopyGrows(out: seq<byte>, length: nat, distance: nat)
    requires 1 <= distance <= |out|
    ensures |CopyOut(out, length, distance)| == |out| + length && out <= CopyOut(out, length, distance)
    decreases length
  {
    if length > 0 {
      CopyGrows(out + [out[|out| - distance]], length - 1, distance);
    }
  }

  /** A copy yields any continuation that repeats at the distance. */
  lemma {:induction false} CopyOutIs(s: seq<byte>, n: nat, length: nat, distance: nat)
    requires 1 <= distance <= n && n + length <= |s|
    requires forall i :: n <= i < n + length ==> s[i] == s[i - distance]
    ensures CopyOut(s[..n], length, distance) == s[..n + length]
    decreases length
  {
    if length > 0 {
      assert s[n] == s[n - distance];
      assert s[..n] + [s[..n][n - distance]] == s[..n + 1];
      CopyOutIs(s, n + 1, length - 1, distance);
    }
  }
}
