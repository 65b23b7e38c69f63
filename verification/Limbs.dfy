/** Little-endian numbers in 32-bit limbs: the value of a limb sequence and how stores change it. */
module Limbs {
  import opened Arithmetic
  import opened Bits

  const BASE: int := 0x1_0000_0000

  type u32 = x: int | 0 <= x < 0x1_0000_0000
  type u64 = x: int | 0 <= x < 0x1_0000_0000_0000_0000

  /** The weight of limb n. */
  ghost function P(n: nat): (p: int)
    ensures p > 0
  {
    PowPositive(BASE, n);
    Pow(BASE, n)
  }

  lemma PStep(n: nat)
    ensures P(n + 1) == BASE * P(n)
  {}

  lemma PAdd(m: nat, n: nat)
    ensures P(m + n) == P(m) * P(n)
  {
    PowAdd(BASE, m, n);
  }

  lemma PMonotone(m: nat, n: nat)
    requires m <= n
    ensures P(m) <= P(n)
  {
    PowMonotone(BASE, m, n);
  }

  /** The number denoted by s, least significant limb first. */
  ghost function Val(s: seq<u32>): nat
  {
    if s == [] then 0
    else
      var n := |s| - 1;
      MulMonotone(P(n), 0, s[n]);
      Val(s[..n]) + s[n] * P(n)
  }

  lemma ValAppend(s: seq<u32>, x: u32)
    ensures Val(s + [x]) == Val(s) + x * P(|s|)
  {
    assert (s + [x])[..|s|] == s;
  }

  lemma {:induction false} ValBound(s: seq<u32>)
    ensures Val(s) < P(|s|)
  {
    if s == [] {
    } else {
      var n := |s| - 1;
      ValBound(s[..n]);
      MulMonotone(P(n), s[n], BASE - 1);
      PStep(n);
      assert (BASE - 1) * P(n) + P(n) == BASE * P(n);
    }
  }

  lemma {:induction false} ValConcat(s: seq<u32>, t: seq<u32>)
    ensures Val(s + t) == Val(s) + Val(t) * P(|s|)
  {
    if t == [] {
      assert s + t == s;
    } else {
      var n := |t| - 1;
      var p, v := P(|s|), Val(t[..n]);
      calc {
        Val(s + t);
        { assert s + t == (s + t[..n]) + [t[n]]; ValAppend(s + t[..n], t[n]); }
        Val(s + t[..n]) + t[n] * P(n + |s|);
        { ValConcat(s, t[..n]); PAdd(n, |s|); MulAssoc(t[n], P(n), p); }
        Val(s) + v * p + t[n] * P(n) * p;
        { MulDistribute(v, t[n] * P(n), p); }
        Val(s) + Val(t) * p;
      }
    }
  }

  /** The low n limbs are the residue modulo the weight of limb n, the others the quotient. */
  lemma ValSplit(s: seq<u32>, n: nat)
    requires n <= |s|
    ensures Val(s) == Val(s[..n]) + Val(s[n..]) * P(n)
    ensures Val(s) / P(n) == Val(s[n..])
    ensures Val(s) % P(n) == Val(s[..n])
  {
    assert s == s[..n] + s[n..];
    ValConcat(s[..n], s[n..]);
    ValBound(s[..n]);
    DivModUnique(Val(s), P(n), Val(s[n..]), Val(s[..n]));
  }

  lemma {:induction false} ValZeros(s: seq<u32>)
    requires forall i :: 0 <= i < |s| ==> s[i] == 0
    ensures Val(s) == 0
  {
    if s != [] {
      ValZeros(s[..|s| - 1]);
    }
  }

  /** Limbs that are zero do not count. */
  lemma ValTrailingZeros(s: seq<u32>, n: nat)
    requires n <= |s|
    requires forall i :: n <= i < |s| ==> s[i] == 0
    ensures Val(s) == Val(s[..n]) < P(n)
  {
    hide *;
    ValSplit(s, n);
    ValZeros(s[n..]);
    ValBound(s[..n]);
  }

  /** What storing one limb does to the value. */
  lemma ValUpdate(s: seq<u32>, k: nat, x: u32)
    requires k < |s|
    ensures Val(s[k := x]) == Val(s) + (x - s[k]) * P(k)
  {
    hide *;
    var t := s[k := x];
    ValSplit(s, k + 1);
    ValSplit(t, k + 1);
    assert t[k + 1..] == s[k + 1..];
    assert t[..k + 1] == s[..k] + [x];
    assert s[..k + 1] == s[..k] + [s[k]];
    ValAppend(s[..k], x);
    ValAppend(s[..k], s[k]);
    MulDistribute(x - s[k], s[k], P(k));
  }

  /** A non-zero top limb bounds the value from below. */
  lemma ValTopLimb(s: seq<u32>, n: nat)
    requires n < |s| && s[n] != 0
    ensures Val(s) >= P(n)
  {
    hide *;
    ValSplit(s, n + 1);
    MulMonotone(P(n + 1), 0, Val(s[n + 1..]));
    assert s[..n + 1] == s[..n] + [s[n]];
    ValAppend(s[..n], s[n]);
    MulMonotone(P(n), 1, s[n]);
  }

  /** The highest differing limb decides the order. */
  lemma ValLess(s: seq<u32>, t: seq<u32>, n: nat)
    requires |s| == |t| && n < |s|
    requires s[n + 1..] == t[n + 1..] && s[n] < t[n]
    ensures Val(s) < Val(t)
  {
    hide *;
    ValSplit(s, n + 1);
    ValSplit(t, n + 1);
    assert s[..n + 1] == s[..n] + [s[n]];
    assert t[..n + 1] == t[..n] + [t[n]];
    ValAppend(s[..n], s[n]);
    ValAppend(t[..n], t[n]);
    ValBound(s[..n]);
    MulMonotone(P(n), s[n] + 1, t[n]);
    MulDistribute(s[n], 1, P(n));
  }

  /** The weight of a limb as a power of two. */
  lemma LimbWeight(w: nat)
    ensures P(w) == Size(32 * w)
  {
    if w > 0 {
      LimbWeight(w - 1);
      assert Size(32) == BASE by { SizeOf32(); }
      SizeAdd(32, 32 * (w - 1));
    }
  }

  lemma SizeOf32()
    ensures Size(32) == BASE
  {
    hide Size;
    SizeAdd(16, 16);
    SizeAdd(8, 8);
    SizeAdd(4, 4);
    assert Size(4) == 16 by { SizeZero(); SizeStep(0); SizeStep(1); SizeStep(2); SizeStep(3); }
  }

  /** The first weights. */
  lemma SmallWeights()
    ensures P(0) == 1 && P(1) == BASE && P(2) == 0x10000000000000000 && P(3) == 0x1000000000000000000000000
    ensures P(4) == 0x100000000000000000000000000000000 && P(5) == 0x10000000000000000000000000000000000000000
    ensures P(6) == 0x1000000000000000000000000000000000000000000000000
  {
    hide P;
    assert P(0) == 1 by { PZero(); }
    PStep(0);
    PStep(1);
    PStep(2);
    PStep(3);
    PStep(4);
    PStep(5);
  }

  lemma PZero()
    ensures P(0) == 1
  {}

  /** The value of up to four limbs. */
  lemma SmallValue(a: u32, b: u32, c: u32, d: u32)
    ensures Val([a]) == a && Val([a, b]) == a + b * BASE && Val([a, b, c]) == a + b * BASE + c * 0x10000000000000000
    ensures Val([a, b, c, d]) == a + b * BASE + c * 0x10000000000000000 + d * 0x1000000000000000000000000
  {
    SmallWeights();
    hide P;
    ValAppend([], a);
    assert [] + [a] == [a];
    ValAppend([a], b);
    assert [a] + [b] == [a, b];
    ValAppend([a, b], c);
    assert [a, b] + [c] == [a, b, c];
    ValAppend([a, b, c], d);
    assert [a, b, c] + [d] == [a, b, c, d];
  }
}
