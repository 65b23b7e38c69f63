/** Barrett reduction with a precomputed reciprocal. */
module RsaBarrett {
  import opened Arithmetic
  import opened Limbs
  import opened RsaNumbers
  import opened Bits

  /**
   * The reciprocal of m for k limbs. The modulus lies strictly above the
   * weight of its top limb, as every odd modulus of two or more limbs does.
   */
  ghost predicate Reciprocal(m: int, k: nat, mu: int)
  {
    k >= 1 && P(k - 1) < m < P(k) && mu == P(2 * k) / m
  }

  /** The quotient estimate of the reduction: floor(floor(a / B^(k-1)) * mu / B^(k+1)). */
  ghost function Estimate(a: int, k: nat, mu: int): int
    requires k >= 1
  {
    (a / P(k - 1)) * mu / P(k + 1)
  }

  lemma ReciprocalBound(m: int, k: nat, mu: int)
    requires Reciprocal(m, k, mu)
    ensures 0 <= mu < P(k + 1)
    ensures mu * m <= P(2 * k) < (mu + 1) * m
    ensures P(2 * k) == P(k - 1) * P(k + 1)
  {
    PAdd(k - 1, k + 1);
    var r := P(2 * k) % m;
    assert P(2 * k) == mu * m + r;
    MulDistribute(mu, 1, m);
    assert mu >= 0 by {
      if mu < 0 { MulMonotone(m, mu, -1); }
    }
    if mu >= P(k + 1) {
      MulMonotone(m, P(k + 1), mu);
      MulMonotone(P(k + 1), P(k - 1) + 1, m);
      MulDistribute(P(k - 1), 1, P(k + 1));
    }
  }

  lemma DivBounds(x: int, d: int)
    requires d > 0
    ensures (x / d) * d <= x < (x / d + 1) * d
  {
    assert x == (x / d) * d + x % d;
    MulDistribute(x / d, 1, d);
  }

  lemma EstimateNotAbove(a: int, m: int, x: int, y: int, q1: int, mu: int, q3: int)
    requires a >= 0 && m > 0 && x > 0 && y > 0 && mu >= 0
    requires q1 * x <= a && mu * m <= x * y && q3 * y <= q1 * mu
    ensures q3 * m <= a
  {
    var n := x * y;
    MulPositive(x, y);
    calc {
      n * (q3 * m);
      (q3 * y) * (x * m);
    <= { MulMonotone(x * m, q3 * y, q1 * mu); }
      (q1 * mu) * (x * m);
      (q1 * x) * (mu * m);
    <= { MulMonotone(mu * m, q1 * x, a); }
      a * (mu * m);
    <= { MulMonotone(a, mu * m, n); }
      a * n;
      n * a;
    }
    if q3 * m > a { MulMonotone(n, a + 1, q3 * m); MulDistribute(a, 1, n); }
  }

  lemma ProductBound(a: int, m: int, x: int, y: int, u: int, v: int, w: int)
    requires a >= 0 && m > 0 && x > 0 && y > 0 && u > 0
    requires a < u * x && x * y < v * m && u * v < w * y
    ensures a < w * m
  {
    var n := x * y;
    MulPositive(x, y);
    MulPositive(u, x);
    MulPositive(x, m);
    calc {
      n * a;
    <= { MulMonotone(n, a, u * x); }
      n * (u * x);
    <= { MulMonotone(u * x, n, v * m); }
      (v * m) * (u * x);
      (u * v) * (x * m);
    <  { MulStrict(x * m, u * v, w * y); }
      (w * y) * (x * m);
      n * (w * m);
    }
    CancelLess(n, a, w * m);
  }

  lemma MulStrict(a: int, x: int, y: int)
    requires a > 0 && x < y
    ensures x * a < y * a
  {
    MulMonotone(a, x + 1, y);
    MulDistribute(x, 1, a);
  }

  lemma EstimateNotBelow(a: int, m: int, x: int, y: int, q1: int, mu: int, q3: int)
    requires a >= 0 && m > 0 && x > 0 && y > 0 && 0 <= mu < y && 0 <= q1 < y
    requires a < (q1 + 1) * x && x * y < (mu + 1) * m && q1 * mu < (q3 + 1) * y
    ensures a < (q3 + 3) * m
  {
    assert (q1 + 1) * (mu + 1) < (q3 + 3) * y by {
      MulDistribute(q1, 1, mu + 1);
      MulDistribute(mu, 1, q1);
      MulDistribute(q3 + 1, 2, y);
    }
    ProductBound(a, m, x, y, q1 + 1, mu + 1, q3 + 3);
  }

  /** The estimate never exceeds the true quotient and is at most two too small. */
  lemma EstimateWithinTwo(a: int, m: int, k: nat, mu: int)
    requires Reciprocal(m, k, mu) && 0 <= a < P(2 * k)
    ensures 0 <= a - Estimate(a, k, mu) * m < 3 * m
    ensures a / m - 2 <= Estimate(a, k, mu) <= a / m
  {
    var x, y := P(k - 1), P(k + 1);
    var q1 := a / x;
    var q3 := q1 * mu / y;
    ReciprocalBound(m, k, mu);
    DivBounds(a, x);
    DivBounds(q1 * mu, y);
    assert q1 >= 0 by { if q1 < 0 { MulMonotone(x, q1 + 1, 0); } }
    assert q1 < y by { if q1 >= y { MulMonotone(x, y, q1); } }
    EstimateNotAbove(a, m, x, y, q1, mu, q3);
    EstimateNotBelow(a, m, x, y, q1, mu, q3);
    DivBounds(a, m);
    MulDistribute(q3, 3, m);
    if q3 > a / m { MulMonotone(m, a / m + 1, q3); }
    if q3 < a / m - 2 { MulMonotone(m, q3 + 3, a / m); }
  }

  // ---------------------------------------------------------------------------
  // Zero residues
  // ---------------------------------------------------------------------------

  /** A divisor of a power of two is a power of two. */
  lemma {:induction false} PowerDivisor(m: int, t: int, n: nat) returns (s: nat)
    requires m > 0 && m * t == Size(n)
    ensures m == Size(s)
  {
    if n == 0 {
      if t > 1 { MulMonotone(t, 1, m); }
      if t < 1 { MulMonotone(m, t, 0); }
      return 0;
    }
    if m % 2 == 0 {
      MulAssoc(2, m / 2, t);
      s := PowerDivisor(m / 2, t, n - 1);
      s := s + 1;
    } else {
      OddFactor(m, t);
      MulAssoc(m, t / 2, 2);
      s := PowerDivisor(m, t / 2, n - 1);
    }
  }

  lemma OddFactor(m: int, t: int)
    requires m % 2 == 1 && (m * t) % 2 == 0
    ensures t % 2 == 0
  {
    if t % 2 == 1 {
      assert m * t == 2 * (m / 2) * t + t by { MulDistribute(2 * (m / 2), 1, t); }
      MulAssoc(2, m / 2, t);
    }
  }

  /** A modulus that divides BASE^(2k) is a multiple of the weight of its top limb. */
  lemma TopWeightDivides(m: int, k: nat, mu: int) returns (c: int)
    requires Reciprocal(m, k, mu) && mu * m == P(2 * k)
    ensures m == c * P(k - 1)
  {
    LimbWeight(2 * k);
    var s := PowerDivisor(m, mu, 64 * k);
    LimbWeight(k - 1);
    var n := 32 * (k - 1);
    if s < n { SizeMonotone(s, n); }
    SizeAdd(s - n, n);
    c := Size(s - n);
  }

  /**
    * For a multiple of the modulus, the estimate is the quotient itself exactly when the modulus divides BASE^(2k);
    * otherwise it is too small, and the last loop stops at the modulus.
    */
  lemma MultipleEstimate(a: int, m: int, k: nat, mu: int, x: int)
    requires Reciprocal(m, k, mu) && 0 < a < P(2 * k) && a == x * m
    ensures Estimate(a, k, mu) == x <==> P(2 * k) % m == 0
  {
    hide P, Pow;
    var u, y := P(k - 1), P(k + 1);
    var q1 := a / u;
    var q3 := q1 * mu / y;
    ReciprocalBound(m, k, mu);
    DivBounds(a, u);
    DivBounds(q1 * mu, y);
    DivModUnique(P(2 * k), m, mu, P(2 * k) - mu * m);
    if q3 == x {
      MultipleTight(a, m, u, y, q1, mu, x);
    }
    if P(2 * k) % m == 0 {
      var c := TopWeightDivides(m, k, mu);
      MulAssoc(x, c, u);
      DivModUnique(a, u, x * c, 0);
      MultipleExact(a, m, u, y, q1, mu, x);
      DivModUnique(q1 * mu, y, x, 0);
    }
  }

  lemma MultipleTight(a: int, m: int, u: int, y: int, q1: int, mu: int, x: int)
    requires a > 0 && m > 0 && u > 0 && y > 0 && mu >= 0 && a == x * m
    requires q1 * u <= a && mu * m <= u * y && x * y <= q1 * mu
    ensures mu * m == u * y
  {
    var n := u * y;
    MulPositive(u, m);
    MulMonotone(m, 0, mu);
    assert n * a == (x * y) * (u * m) by { MulSwap(u, y, m, x); }
    MulMonotone(u * m, x * y, q1 * mu);
    assert (q1 * mu) * (u * m) == (q1 * u) * (mu * m) by { MulSwap(q1, mu, u, m); }
    MulMonotone(mu * m, q1 * u, a);
    if mu * m < n { MulStrict(a, mu * m, n); }
  }

  lemma MultipleExact(a: int, m: int, u: int, y: int, q1: int, mu: int, x: int)
    requires m > 0 && u > 0 && a == x * m && q1 * u == a && mu * m == u * y
    ensures q1 * mu == x * y
  {
    var c := u * m;
    MulPositive(u, m);
    assert (q1 * mu) * c == (x * y) * c by {
      MulSwap(q1, mu, u, m);
      MulSwap(x, m, y, u);
    }
    if q1 * mu < x * y { MulStrict(c, q1 * mu, x * y); }
    if q1 * mu > x * y { MulStrict(c, x * y, q1 * mu); }
  }

  /**
   * What the reduction makes of v: its residue, or the modulus for a multiple at least as large, unless that divides
   * BASE^(2k).
   */
  ghost function Reduced(v: int, m: int, k: nat): int
    requires m > 0
  {
    if v < m || v % m != 0 || P(2 * k) % m == 0 then v % m else m
  }

  /** A key: the modulus, its reciprocal, and the two exponents. */
  class RsaState {
    const maxNumberLength: nat
    const modulus: RsaNumber
    const mu: RsaNumber
    var publicKey: RsaNumber?
    var privateKey: RsaNumber?

    /** A modulus and the number computed for its reciprocal, in buffers of 2k + 3 limbs. */
    constructor (modulus: RsaNumber, mu: RsaNumber)
      requires modulus != mu && modulus.data != mu.data
      requires modulus.Normal() && mu.Normal()
      requires modulus.data.Length == mu.data.Length == 2 * modulus.length + 3
      ensures Formed() && this.modulus == modulus && this.mu == mu
      ensures publicKey == null && privateKey == null
    {
      maxNumberLength := 2 * modulus.length + 3;
      this.modulus := modulus;
      this.mu := mu;
      publicKey := null;
      privateKey := null;
    }

    ghost predicate Formed()
      reads modulus, mu, modulus.data, mu.data
    {
      && modulus != mu && modulus.data != mu.data
      && modulus.Normal() && mu.Normal()
      && maxNumberLength == 2 * modulus.length + 3
      && modulus.data.Length == mu.data.Length == maxNumberLength
    }

    /** The number computed for the reciprocal is the reciprocal. */
    ghost predicate Valid()
      reads modulus, mu, modulus.data, mu.data
    {
      Formed() && Reciprocal(modulus.Value(), modulus.length, mu.Value())
    }

    /** The number is not one of the two that make up the key. */
    ghost predicate Separate(a: RsaNumber)
    {
      && a != modulus && a != mu && a.data != modulus.data && a.data != mu.data
      && a.data.Length == maxNumberLength
    }

    /** The modulus as a number. */
    ghost function Modulus(): (m: int)
      requires Valid()
      reads modulus, mu, modulus.data, mu.data
      ensures m > 1
    {
      modulus.Value()
    }
  }

  /** The bounds that keep the reduction inside its buffers and its k + 1 limbs. */
  lemma ReductionFits(m: int, k: nat, mu: int, a: int)
    requires Reciprocal(m, k, mu) && 0 <= a < P(2 * k)
    ensures mu < P(k + 1)
    ensures 0 <= (a / P(k - 1)) * mu < P(2 * k + 2)
    ensures var r := a - Estimate(a, k, mu) * m; 0 <= r < 3 * m && r % P(k + 1) == r
  {
    var x, y := P(k - 1), P(k + 1);
    var q1 := a / x;
    ReciprocalBound(m, k, mu);
    DivBounds(a, x);
    assert q1 >= 0 by { if q1 < 0 { MulMonotone(x, q1 + 1, 0); } }
    assert q1 < y by { if q1 >= y { MulMonotone(x, y, q1); } }
    MulMonotone(mu, q1, y);
    MulMonotone(mu, 0, q1);
    MulStrict(y, mu, y);
    PAdd(k + 1, k + 1);
    PStep(k);
    EstimateWithinTwo(a, m, k, mu);
    var r := a - Estimate(a, k, mu) * m;
    DivModUnique(r, y, 0, r);
  }

  /** The parts of a valid state that the reduction uses. */
  lemma StateParts(a: RsaNumber, state: RsaState)
    requires state.Valid() && state.Separate(a)
    ensures state.modulus.Normal() && state.modulus.Padded() && state.mu.Normal() && state.mu.Padded()
    ensures state.Modulus() == state.modulus.Value() && state.modulus.length >= 1
    ensures a != state.modulus && a != state.mu && a.data != state.modulus.data && a.data != state.mu.data
    ensures state.modulus.data.Length == a.data.Length == state.maxNumberLength == 2 * state.modulus.length + 3
    ensures Reciprocal(state.modulus.Value(), state.modulus.length, state.mu.Value())
  {}

  lemma EstimateIs(a: int, k: nat, mu: int)
    requires k >= 1
    ensures Estimate(a, k, mu) == (a / P(k - 1)) * mu / P(k + 1)
  {}

  /** The two products and the fixed-length subtraction: a := a - Estimate(a) * m, exactly. */
  method SubtractEstimate(a: RsaNumber, state: RsaState)
    requires state.Valid() && state.Separate(a) && a.Normal()
    requires a.length <= 2 * state.modulus.length
    modifies a, a.data
    ensures a.Normal() && a.length >= 1
    ensures a.Value() ==
            old(a.Value()) - Estimate(old(a.Value()), state.modulus.length, state.mu.Value()) * state.Modulus()
    ensures a.Value() < 3 * state.Modulus()
  {
    hide *;
    StateParts(a, state);
    NormalIsPadded(a);
    var k := state.modulus.length;
    ghost var m, mu, v := state.modulus.Value(), state.mu.Value(), a.Value();
    PaddedValue(a);
    PMonotone(a.length, 2 * k);
    ReductionFits(m, k, mu, v);
    NormalLengthBound(state.mu, k + 1);
    EstimateIs(v, k, mu);
    var tmp1 := new RsaNumber(state.maxNumberLength);
    Multiply(a, k - 1, state.mu, tmp1);
    NormalLengthBound(tmp1, 2 * k + 2);
    NormalIsPadded(tmp1);
    var tmp2 := new RsaNumber(state.maxNumberLength);
    Multiply(tmp1, k + 1, state.modulus, tmp2);
    SubtractFixedLength(a, tmp2, k + 1);
  }

  /** What the last loop ends with, from v - t * m on. */
  lemma FinalResidue(v: int, m: int, k: nat, mu: int, t: int, r: int)
    requires Reciprocal(m, k, mu) && m <= v < P(2 * k) && m > 1 && r == v - t * m && 0 <= r <= m
    requires t == Estimate(v, k, mu) || (t > Estimate(v, k, mu) && r > 0)
    ensures r == Reduced(v, m, k)
  {
    hide P, Pow, Estimate;
    DivBounds(v, m);
    if v % m == 0 {
      var x := v / m;
      MultipleEstimate(v, m, k, mu, x);
      MulDistribute(x, -t, m);
      if t < x - 1 { MulMonotone(m, 2, x - t); }
      if t > x { MulMonotone(m, x - t, -1); }
      EstimateWithinTwo(v, m, k, mu);
    } else if r == m {
      MulDistribute(t, 1, m);
      DivModUnique(v, m, t + 1, 0);
    } else {
      DivModUnique(v, m, t, r);
    }
  }

  lemma SmallReduced(v: int, m: int, k: nat)
    requires 0 <= v < m
    ensures Reduced(v, m, k) == v
  {
    DivModUnique(v, m, 0, v);
  }

  /** The reduced number is congruent to the original and at most the modulus. */
  lemma ReducedCongruent(v: int, m: int, k: nat)
    requires v >= 0 && m > 1
    ensures 0 <= Reduced(v, m, k) <= m && Cong(Reduced(v, m, k), v, m)
  {
    DivBounds(v, m);
    if Reduced(v, m, k) == v % m {
      CongFromMultiple(v % m, v, -(v / m), m);
    } else {
      MulDistribute(1, -(v / m), m);
      CongFromMultiple(m, v, 1 - v / m, m);
    }
  }

  /**
   * a := a mod m, after at most two corrective subtractions. The last loop compares strictly, so a multiple of m that
   * is not below m comes out as m itself, exactly unless m divides BASE^(2k).
   */
  method Modulo(a: RsaNumber, state: RsaState) returns (ghost corrections: nat)
    requires state.Valid() && state.Separate(a) && a.Normal()
    requires a.length <= 2 * state.modulus.length
    modifies a, a.data
    ensures a.Normal() && a.Value() <= state.Modulus()
    ensures Cong(a.Value(), old(a.Value()), state.Modulus())
    ensures a.Value() == Reduced(old(a.Value()), state.Modulus(), state.modulus.length)
    ensures a.Value() == old(a.Value()) % state.Modulus() <==>
              || old(a.Value()) < state.Modulus() || old(a.Value()) % state.Modulus() != 0
              || P(2 * state.modulus.length) % state.Modulus() == 0
    ensures corrections <= 2
  {
    hide *;
    corrections := 0;
    StateParts(a, state);
    ghost var m, v, k := state.Modulus(), a.Value(), state.modulus.length;
    ReducedCongruent(v, m, k);
    ReducedIff(v, m, k);
    var less := IsLessThan(a, state.modulus);
    if less {
      SmallReduced(v, m, k);
      return;
    }
    ghost var t := Estimate(v, k, state.mu.Value());
    ghost var bound := 3 * m;
    NormalBelow(a, 2 * k);
    SubtractEstimate(a, state);
    less := IsLessThan(state.modulus, a);
    while less
      invariant a.Normal() && a.length >= 1
      invariant less <==> m < a.Value()
      invariant a.Value() == v - t * m
      invariant a.Value() < bound && corrections <= 2
      invariant if corrections == 0 then t == Estimate(v, k, state.mu.Value())
                else t > Estimate(v, k, state.mu.Value()) && a.Value() > 0
      invariant bound == if corrections == 0 then 3 * m else if corrections == 1 then 2 * m else m
      decreases a.Value()
    {
      NormalIsPadded(a);
      Subtract(a, state.modulus);
      corrections, t, bound := corrections + 1, t + 1, bound - m;
      MulDistribute(t - 1, 1, m);
      less := IsLessThan(state.modulus, a);
    }
    FinalResidue(v, m, k, state.mu.Value(), t, a.Value());
  }

  lemma NormalBelow(a: RsaNumber, n: nat)
    requires a.Normal() && a.length <= n
    ensures a.Value() < P(n)
  {
    PaddedValue(a);
    PMonotone(a.length, n);
  }

  lemma ReducedIff(v: int, m: int, k: nat)
    requires m > 1
    ensures Reduced(v, m, k) == v % m <==> v < m || v % m != 0 || P(2 * k) % m == 0
  {}
}
