/** Integer facts shared by the number-theoretic parts of the model. */
module Arithmetic {

  /** b to the power e. */
  ghost function Pow(b: int, e: nat): int
  {
    if e == 0 then 1 else b * Pow(b, e - 1)
  }

  lemma {:induction false} PowPositive(b: int, e: nat)
    requires b > 0
    ensures Pow(b, e) > 0
  {
    if e > 0 {
      PowPositive(b, e - 1);
      MulPositive(b, Pow(b, e - 1));
    }
  }

  lemma {:induction false} PowAdd(b: int, d: nat, e: nat)
    ensures Pow(b, d + e) == Pow(b, d) * Pow(b, e)
  {
    if d == 0 {
    } else {
      PowAdd(b, d - 1, e);
      MulAssoc(b, Pow(b, d - 1), Pow(b, e));
    }
  }

  lemma {:induction false} PowMonotone(b: int, d: nat, e: nat)
    requires b >= 1 && d <= e
    ensures Pow(b, d) <= Pow(b, e)
  {
    if d < e {
      PowMonotone(b, d, e - 1);
      PowPositive(b, e - 1);
      MulMonotone(Pow(b, e - 1), 1, b);
    }
  }

  lemma MulPositive(x: int, y: int)
    requires x > 0 && y > 0
    ensures x * y > 0
  {}

  lemma MulAssoc(x: int, y: int, z: int)
    ensures (x * y) * z == x * (y * z)
  {}

  /** Regrouping a product of two products. */
  lemma MulSwap(a: int, b: int, c: int, d: int)
    ensures (a * b) * (c * d) == (a * c) * (b * d)
  {
    MulAssoc(a, b, c * d);
    MulAssoc(b, c, d);
    MulAssoc(c, b, d);
    MulAssoc(a, c, b * d);
  }

  lemma MulDistribute(x: int, y: int, z: int)
    ensures (x + y) * z == x * z + y * z
  {}

  lemma MulMonotone(a: int, x: int, y: int)
    requires a >= 0 && x <= y
    ensures a * x <= a * y && x * a <= y * a
  {}

  /** A positive common factor can be cancelled from a strict inequality. */
  lemma CancelLess(a: int, x: int, y: int)
    requires a > 0 && a * x < a * y
    ensures x < y
  {
    if x >= y {
      MulMonotone(a, y, x);
    }
  }

  /** Quotient and remainder are determined by their defining equation. */
  lemma DivModUnique(x: int, m: int, q: int, r: int)
    requires m > 0 && x == q * m + r && 0 <= r < m
    ensures x / m == q && x % m == r
  {
    var q', r' := x / m, x % m;
    assert q' * m + r' == x;
    assert (q - q') * m == r' - r;
    if q > q' {
      MulMonotone(m, 1, q - q');
    } else if q < q' {
      MulMonotone(m, 1, q' - q);
    }
  }

  /** Dividing in two steps is dividing by the product. */
  lemma DivDiv(x: int, a: int, b: int)
    requires x >= 0 && a > 0 && b > 0
    ensures a * b > 0 && x / (a * b) == x / a / b
  {
    MulPositive(a, b);
    var q, r := x / a, x % a;
    var q', r' := q / b, q % b;
    assert x == q * a + r;
    assert q == q' * b + r';
    MulDistribute(q' * b, r', a);
    MulAssoc(q', b, a);
    MulMonotone(a, r' + 1, b);
    MulDistribute(r', 1, a);
    MulMonotone(a, 0, r');
    DivModUnique(x, a * b, q', r' * a + r);
  }

  /** The residue by a product, from two divisions. */
  lemma ModMod(x: int, a: int, b: int)
    requires x >= 0 && a > 0 && b > 0
    ensures a * b > 0 && x % (a * b) == (x / a % b) * a + x % a
    ensures x % (a * b) / a == x / a % b
  {
    DivDiv(x, a, b);
    var q, r := x / a, x % a;
    var q', r' := q / b, q % b;
    assert x == q * a + r && q == q' * b + r';
    MulDistribute(q' * b, r', a);
    MulAssoc(q', b, a);
    MulMonotone(a, r' + 1, b);
    MulDistribute(r', 1, a);
    MulMonotone(a, 0, r');
    DivModUnique(x, a * b, q', r' * a + r);
    DivModUnique(r' * a + r, a, r', r);
  }

  /** Adding a multiple of the modulus does not change a residue. */
  lemma ModShift(x: int, t: int, m: int)
    requires m > 0
    ensures (x + t * m) % m == x % m
  {
    var q, r := x / m, x % m;
    assert x + t * m == (q + t) * m + r;
    DivModUnique(x + t * m, m, q + t, r);
  }

  /** Congruence modulo m, as agreement of residues. */
  ghost predicate Cong(x: int, y: int, m: int)
    requires m > 0
  {
    x % m == y % m
  }

  lemma CongFromMultiple(x: int, y: int, t: int, m: int)
    requires m > 0 && x == y + t * m
    ensures Cong(x, y, m)
  {
    ModShift(y, t, m);
  }

  /** Congruent numbers differ by a multiple of the modulus. */
  lemma CongWitness(x: int, y: int, m: int) returns (t: int)
    requires m > 0 && Cong(x, y, m)
    ensures x == y + t * m
  {
    t := x / m - y / m;
    assert x == (x / m) * m + x % m;
    assert y == (y / m) * m + y % m;
    assert t * m == (x / m) * m - (y / m) * m;
  }

  /** Congruence is kept by products. */
  lemma CongMul(x: int, x': int, y: int, y': int, m: int)
    requires m > 0 && Cong(x, x', m) && Cong(y, y', m)
    ensures Cong(x * y, x' * y', m)
  {
    var s := CongWitness(x, x', m);
    var t := CongWitness(y, y', m);
    var c := s * y' + x' * t + s * t * m;
    calc {
      x * y;
      (x' + s * m) * (y' + t * m);
      x' * y' + x' * (t * m) + (s * m) * y' + (s * m) * (t * m);
      { assert x' * (t * m) == (x' * t) * m; assert (s * m) * y' == (s * y') * m;
        assert (s * m) * (t * m) == (s * t * m) * m; }
      x' * y' + (x' * t) * m + (s * y') * m + (s * t * m) * m;
      x' * y' + c * m;
    }
    CongFromMultiple(x * y, x' * y', c, m);
  }
}
