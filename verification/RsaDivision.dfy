/**
 * The recurrence of the reciprocal's long division, on numbers: trial digits, the add-back without carries, the digits
 * it ends with.
 */
module RsaDivision {
  import opened Arithmetic
  import opened Limbs
  import opened RsaBarrett
  import opened RsaProcess

  // ---------------------------------------------------------------------------
  // Trial digits
  // ---------------------------------------------------------------------------

  /** Limb n of a number. */
  ghost function Limb(x: nat, n: nat): nat
  {
    (x / P(n)) % BASE
  }

  lemma LimbOfVal(s: seq<u32>, n: nat)
    requires n < |s|
    ensures Limb(Val(s), n) == s[n]
  {
    ValSplit(s, n);
    HeadLimb(s[n..]);
    DivModUnique(Val(s[n..]), BASE, Val(s[n..][1..]), s[n]);
  }

  /** The divisor at quotient position j. */
  ghost function Divisor(b: nat, j: nat): nat
  {
    MulMonotone(P(j), 0, b);
    b * P(j)
  }

  /** The trial digit after the three-by-two limb correction. */
  ghost function Trial(a: nat, b: nat, k: nat, j: nat): int
    requires k >= 2 && b >= P(k - 1)
  {
    TopTwoPositive(b, k);
    var x := a / P(j + k - 2) / (b / P(k - 2));
    if x < BASE then x else BASE - 1
  }

  lemma TopTwoPositive(b: nat, k: nat)
    requires k >= 2 && b >= P(k - 1)
    ensures b / P(k - 2) >= BASE
  {
    PStep(k - 2);
    DivBounds(b, P(k - 2));
    if b / P(k - 2) < BASE {
      MulMonotone(P(k - 2), b / P(k - 2) + 1, BASE);
    }
  }

  /** A multiple of d = u * w + r (0 <= r < w) below a cannot beat a's leading part. */
  lemma LeadingPart(x: nat, a: nat, d: nat, u: nat, r: nat, w: nat)
    requires w > 0 && d == u * w + r && r < w && x * d <= a
    ensures x * u <= a / w
  {
    DivBounds(a, w);
    MulDistribute(u * w, r, x);
    MulMonotone(x, 0, r);
    MulAssoc(x, u, w);
    if x * u > a / w {
      MulMonotone(w, a / w + 1, x * u);
    }
  }

  /** Conversely, if x * u fits a's leading part, then (x - 1) * d fits a. */
  lemma OneTooLarge(x: nat, a: nat, d: nat, u: nat, r: nat, w: nat)
    requires w > 0 && d == u * w + r && r < w && u >= BASE && 1 <= x <= BASE
    requires x * u <= a / w
    ensures (x - 1) * d <= a
  {
    DivBounds(a, w);
    calc {
      (x - 1) * d;
      { MulDistribute(x, -1, d); MulDistribute(u * w, r, x); }
      x * (u * w) + x * r - d;
      { MulAssoc(x, u, w); }
      (x * u) * w + x * r - d;
    <= { MulMonotone(w, x * u, a / w); }
      a + x * r - d;
    <= { MulMonotone(r, x, BASE); MulMonotone(BASE, r, w); MulMonotone(w, BASE, u); }
      a;
    }
  }

  /** How the shifted divisor splits at the weight of the third limb from the top. */
  lemma DivisorSplit(b: nat, k: nat, j: nat, n: nat)
    requires n <= k
    ensures Divisor(b, j) == (b / P(n)) * P(j + n) + (b % P(n)) * P(j)
    ensures 0 <= (b % P(n)) * P(j) < P(j + n)
  {
    var u, r := b / P(n), b % P(n);
    assert b == u * P(n) + r;
    MulDistribute(u * P(n), r, P(j));
    PAdd(n, j);
    MulAssoc(u, P(n), P(j));
    MulMonotone(P(j), 0, r);
    MulStrict(P(j), r, P(n));
  }

  /** Each trial digit is the exact quotient digit or one too large. */
  lemma TrialWithinOne(a: nat, b: nat, k: nat, j: nat)
    requires k >= 2 && P(k - 1) <= b && a < Divisor(b, j + 1)
    ensures Divisor(b, j) > 0
    ensures var q := a / Divisor(b, j); 0 <= q < BASE && (Trial(a, b, k, j) == q || Trial(a, b, k, j) == q + 1)
  {
    var d, w, u := Divisor(b, j), P(j + k - 2), b / P(k - 2);
    var r := (b % P(k - 2)) * P(j);
    MulPositive(b, P(j));
    TopTwoPositive(b, k);
    DivisorSplit(b, k, j, k - 2);
    var q, x := a / d, Trial(a, b, k, j);
    DivBounds(a, d);
    assert 0 <= q < BASE by {
      PStep(j);
      MulAssoc(b, P(j), BASE);
      if q >= BASE { MulMonotone(d, BASE, q); }
      if q < 0 { MulMonotone(d, q + 1, 0); }
    }
    LeadingPart(q, a, d, u, r, w);
    var t := a / w;
    DivBounds(t, u);
    assert q <= t / u by { if q > t / u { MulMonotone(u, t / u + 1, q); } }
    assert x >= q && x <= t / u;
    MulMonotone(u, x, t / u);
    if x >= q + 2 {
      OneTooLarge(x, a, d, u, r, w);
      MulMonotone(d, q + 1, x - 1);
    }
  }

  lemma QuotientAtLeast(x: int, y: int, d: int)
    requires d > 0
    ensures x <= y / d <==> x * d <= y
  {
    DivBounds(y, d);
    if x <= y / d {
      MulMonotone(d, x, y / d);
    } else {
      MulMonotone(d, y / d + 1, x);
    }
  }

  /** The two-by-one estimate is never below the three-by-two one. */
  lemma FirstEstimate(a2: nat, a1: nat, b1: nat, b0: nat)
    requires b1 > 0 && a1 < BASE && b0 < BASE
    ensures (a2 * BASE + a1) / (b1 * BASE + b0) <= a2 / b1
  {
    var t, u := a2 * BASE + a1, b1 * BASE + b0;
    var x := t / u;
    QuotientAtLeast(x, t, u);
    assert x >= 0 by { QuotientAtLeast(0, t, u); }
    LeadingPart(x, t, u, b1, b0, BASE);
    QuotientAtLeast(x, a2, b1);
  }

  /** The dividend's top limb never exceeds the divisor's. */
  lemma DivisorTop(a: nat, b: nat, k: nat, j: nat, x: int, y: int)
    requires k >= 2 && a < Divisor(b, j + 1) && a / P(j + k) == x && b / P(k - 1) == y
    ensures x <= y
  {
    DivBounds(a, P(j + k));
    DivBounds(b, P(k - 1));
    PAdd(k - 1, j + 1);
    MulMonotone(P(j + 1), b + 1, (y + 1) * P(k - 1));
    MulDistribute(b, 1, P(j + 1));
    MulAssoc(y + 1, P(k - 1), P(j + 1));
    if x > y { MulMonotone(P(j + k), y + 1, x); }
  }

  lemma DivisorPositive(b: nat, k: nat, j: nat)
    requires k >= 2 && b >= P(k - 1)
    ensures Divisor(b, j) > 0
  {
    MulPositive(b, P(j));
  }

  lemma StepRemainder(a: nat, d: nat, x: int)
    requires d > 0 && (x == a / d || x == a / d + 1)
    ensures a % d == a - (a / d) * d
    ensures x * d <= a <==> x == a / d
    ensures x == a / d + 1 ==> (x - 1) * d == x * d - d && a + d - x * d == a % d
  {
    DivBounds(a, d);
    MulDistribute(a / d, 1, d);
  }

  lemma DigitProduct(b: nat, q: nat, j: nat)
    ensures b * q * P(j) == q * Divisor(b, j)
  {
    MulAssoc(q, b, P(j));
  }

  /** The scaled dividend starts below the divisor at position k + 1. */
  lemma FirstDividend(m: nat, k: nat, w: nat)
    requires k >= 2 && w > 0 && P(k - 1) < m
    ensures w * P(2 * k) < Divisor(m * w, k + 1) && P(k - 1) <= m * w
  {
    PAdd(k - 1, k + 1);
    MulStrict(P(k + 1), P(k - 1), m);
    MulStrict(w, P(2 * k), m * P(k + 1));
    MulAssoc(m, w, P(k + 1));
    MulAssoc(m, P(k + 1), w);
    MulMonotone(m, 1, w);
  }

  lemma ScaledQuotient(mu: nat, m: nat, w: nat, a: nat, n: nat)
    requires m > 0 && w > 0 && mu * (m * w) + a == w * n && a < m * w
    ensures mu == n / m
  {
    DivBounds(n, m);
    MulPositive(m, w);
    MulAssoc(mu, m, w);
    if mu < n / m {
      MulMonotone(m, mu + 1, n / m);
      MulDistribute(mu, 1, m);
      MulMonotone(w, mu * m + m, n);
      MulDistribute(mu * m, m, w);
    } else if mu > n / m {
      MulMonotone(m, n / m + 1, mu);
      MulStrict(w, n, mu * m);
    }
  }

  lemma DivisorZero(b: nat)
    ensures Divisor(b, 0) == b
  {}

  // ---------------------------------------------------------------------------
  // The digit the division reads off the leading limbs
  // ---------------------------------------------------------------------------

  /** Peeling off one limb. */
  lemma LimbStep(a: nat, n: nat)
    ensures a / P(n) == (a / P(n + 1)) * BASE + Limb(a, n)
  {
    hide P, Pow;
    PStep(n);
    DivDiv(a, P(n), BASE);
  }

  lemma TopLimb(a: nat, n: nat)
    requires a < P(n + 1)
    ensures Limb(a, n) == a / P(n) && a / P(n + 1) == 0
  {
    hide P, Pow;
    DivModUnique(a, P(n + 1), 0, a);
    LimbStep(a, n);
  }

  lemma LimbBound(a: nat, n: nat)
    ensures 0 <= Limb(a, n) < BASE
  {}

  /** The divisor has its top bit's limb at k - 1. */
  lemma TopOfDivisor(b: nat, k: nat)
    requires k >= 2 && P(k - 1) <= b < P(k)
    ensures Limb(b, k - 1) == b / P(k - 1) >= 1 && b / P(k - 2) == Limb(b, k - 1) * BASE + Limb(b, k - 2)
  {
    hide P, Pow, Limb;
    TopLimb(b, k - 1);
    LimbStep(b, k - 2);
    QuotientAtLeast(1, b, P(k - 1));
  }

  /** The digit from three leading limbs of the dividend and two of the divisor: the first estimate, corrected. */
  ghost function ThreeByTwo(a2: nat, a1: nat, a0: nat, b1: nat, b0: nat): (q: int)
    requires b1 >= 1
    ensures 0 <= q < BASE
  {
    var a64 := a2 * BASE + a1;
    var first := if a2 == b1 then BASE - 1 else (a64 / b1) % BASE;
    var t := (a64 * BASE + a0) / (b1 * BASE + b0);
    QuotientAtLeast(0, a64 * BASE + a0, b1 * BASE + b0);
    if t < first then t else first
  }

  /** The digit the division reads off its leading limbs, for any dividend. */
  ghost function Guess(a: nat, b: nat, k: nat, j: nat): (q: int)
    requires k >= 2 && P(k - 1) <= b < P(k)
    ensures 0 <= q < BASE
  {
    TopOfDivisor(b, k);
    ThreeByTwo(Limb(a, j + k), Limb(a, j + k - 1), Limb(a, j + k - 2), Limb(b, k - 1), Limb(b, k - 2))
  }

  /** For a dividend below the divisor's next position, it is the trial digit. */
  lemma GuessIsTrial(a: nat, b: nat, k: nat, j: nat)
    requires k >= 2 && P(k - 1) <= b < P(k) && a < Divisor(b, j + 1)
    ensures Guess(a, b, k, j) == Trial(a, b, k, j)
  {
    hide P, Pow, Limb, Divisor;
    var n := j + k - 2;
    DividendBound(a, b, k, j);
    TopLimb(a, n + 2);
    LimbStep(a, n + 1);
    LimbStep(a, n);
    TopOfDivisor(b, k);
    var b32, a2, a1, a0 := Limb(b, k - 1), Limb(a, n + 2), Limb(a, n + 1), Limb(a, n);
    LimbBound(a, n + 1);
    LimbBound(a, n);
    LimbBound(b, k - 2);
    DivisorTop(a, b, k, j, a2, b32);
    ThreeByTwoIs(a2, a1, a0, b32, Limb(b, k - 2));
    hide ThreeByTwo;
  }

  /** When the dividend's top limb does not exceed the divisor's, the digit is the three-by-two quotient, capped. */
  lemma ThreeByTwoIs(a2: nat, a1: nat, a0: nat, b1: nat, b0: nat)
    requires 1 <= b1 && a2 <= b1 && a1 < BASE && a0 < BASE && b0 < BASE
    ensures var t := ((a2 * BASE + a1) * BASE + a0) / (b1 * BASE + b0);
            ThreeByTwo(a2, a1, a0, b1, b0) == if t < BASE then t else BASE - 1
  {
    var a64 := a2 * BASE + a1;
    FirstEstimate(a64, a0, b1, b0);
    if a2 < b1 {
      QuotientAtLeast(BASE, a64, b1);
      QuotientAtLeast(0, a64, b1);
      DivModUnique(a64 / b1, BASE, 0, a64 / b1);
    }
  }

  lemma DividendBound(a: nat, b: nat, k: nat, j: nat)
    requires b < P(k) && a < Divisor(b, j + 1)
    ensures a < P(j + k + 1)
  {
    PAdd(k, j + 1);
    MulMonotone(P(j + 1), b, P(k));
  }

  // ---------------------------------------------------------------------------
  // The add-back, limb by limb without carries
  // ---------------------------------------------------------------------------

  /** The number of limbs in use, at least one. */
  ghost function Length(x: nat): (n: nat)
    ensures n >= 1 && x < P(n) && (n > 1 ==> P(n - 1) <= x)
  {
    if x < BASE then
      PZero();
      PStep(0);
      1
    else
      var n := Length(x / BASE);
      LengthStep(x, n);
      n + 1
  }

  lemma LengthStep(x: nat, n: nat)
    requires x >= BASE && n >= 1 && x / BASE < P(n) && (n > 1 ==> P(n - 1) <= x / BASE)
    ensures x < P(n + 1) && P(n) <= x
  {
    hide P, Pow;
    DivBounds(x, BASE);
    PStep(n);
    MulMonotone(BASE, x / BASE + 1, P(n));
    if n > 1 {
      PStep(n - 1);
      MulMonotone(BASE, P(n - 1), x / BASE);
    } else {
      PZero();
      PStep(0);
    }
  }

  lemma LengthIs(x: nat, n: nat)
    requires n >= 1 && x < P(n) && (n > 1 ==> P(n - 1) <= x)
    ensures Length(x) == n
  {
    hide P, Pow;
    var l := Length(x);
    if l < n { PMonotone(l, n - 1); }
    if l > n { PMonotone(n, l - 1); }
  }

  /** Limb i of the sum with b at position j, cut to 32 bits. */
  ghost function SumLimb(a: nat, b: nat, j: nat, i: nat): (x: int)
    ensures 0 <= x < BASE
  {
    if i < j then Limb(a, i) else (Limb(a, i) + Limb(b, i - j)) % BASE
  }

  ghost predicate Wraps(a: nat, b: nat, j: nat, i: nat)
  {
    i >= j && Limb(a, i) + Limb(b, i - j) >= BASE
  }

  /** The low n limbs of the sum. */
  ghost function Added(a: nat, b: nat, j: nat, n: nat): nat
  {
    if n == 0 then 0
    else
      MulMonotone(P(n - 1), 0, SumLimb(a, b, j, n - 1));
      Added(a, b, j, n - 1) + SumLimb(a, b, j, n - 1) * P(n - 1)
  }

  /** What adding b at position j back to a gives: every limb of a is summed on its own. */
  ghost function AddBack(a: nat, b: nat, j: nat): nat
  {
    Added(a, b, j, Length(a))
  }

  /** The carries that the low n limbs lose. */
  ghost function Lost(a: nat, b: nat, j: nat, n: nat): int
  {
    if n == 0 then 0 else Lost(a, b, j, n - 1) + if Wraps(a, b, j, n - 1) then P(n) else 0
  }

  lemma LowLimbs(a: nat, n: nat)
    ensures a % P(n + 1) == a % P(n) + Limb(a, n) * P(n)
  {
    hide P, Pow;
    LimbStep(a, n);
    PStep(n);
    var q := a / P(n + 1);
    MulDistribute(q * BASE, Limb(a, n), P(n));
    MulAssoc(q, BASE, P(n));
  }

  /** The sum and the lost carries make up the true sum of the low limbs. */
  lemma {:induction false} AddedAndLost(a: nat, b: nat, j: nat, n: nat)
    ensures Added(a, b, j, n) + Lost(a, b, j, n) == a % P(n) + if n >= j then (b % P(n - j)) * P(j) else 0
  {
    hide P, Pow, Limb;
    PZero();
    if n > 0 {
      var i := n - 1;
      AddedAndLost(a, b, j, i);
      LowLimbs(a, i);
      if i >= j {
        LowLimbs(b, i - j);
        MulDistribute(b % P(i - j), Limb(b, i - j) * P(i - j), P(j));
        MulAssoc(Limb(b, i - j), P(i - j), P(j));
        PAdd(i - j, j);
        OneLimbLost(a, b, j, i);
      }
    }
  }

  lemma OneLimbLost(a: nat, b: nat, j: nat, i: nat)
    requires i >= j
    ensures SumLimb(a, b, j, i) * P(i) + (if Wraps(a, b, j, i) then P(i + 1) else 0) ==
            Limb(a, i) * P(i) + Limb(b, i - j) * P(i)
  {
    hide P, Pow, Limb;
    PStep(i);
    LimbBound(a, i);
    LimbBound(b, i - j);
    MulDistribute(Limb(a, i), Limb(b, i - j), P(i));
    if Wraps(a, b, j, i) { MulDistribute(Limb(a, i) + Limb(b, i - j), -BASE, P(i)); }
  }

  lemma {:induction false} AddedBound(a: nat, b: nat, j: nat, n: nat)
    ensures Added(a, b, j, n) < P(n)
  {
    hide P, Pow, SumLimb;
    if n == 0 {
      PZero();
    } else {
      AddedBound(a, b, j, n - 1);
      PStep(n - 1);
      MulMonotone(P(n - 1), SumLimb(a, b, j, n - 1), BASE - 1);
      MulDistribute(BASE - 1, 1, P(n - 1));
    }
  }

  /** The carries lost below l are zero exactly when no limb below l wraps, and small. */
  lemma {:induction false} LostBound(a: nat, b: nat, j: nat, l: nat)
    ensures 0 <= Lost(a, b, j, l) < P(l + 1)
    ensures Lost(a, b, j, l) == 0 <==> forall i: nat :: i < l ==> !Wraps(a, b, j, i)
  {
    hide P, Pow, Wraps;
    if l > 0 {
      LostBound(a, b, j, l - 1);
      PStep(l);
      MulMonotone(P(l), 2, BASE);
    }
  }

  /** The carries lost from l on are multiples of the weight of limb l + 1. */
  lemma {:induction false} LostAbove(a: nat, b: nat, j: nat, l: nat, n: nat) returns (c: int)
    requires l <= n
    ensures Lost(a, b, j, n) == Lost(a, b, j, l) + c * P(l + 1)
  {
    hide P, Pow, Wraps;
    if l == n {
      return 0;
    }
    c := LostAbove(a, b, j, l, n - 1);
    if Wraps(a, b, j, n - 1) {
      PAdd(n - l - 1, l + 1);
      MulDistribute(c, P(n - l - 1), P(l + 1));
      c := c + P(n - l - 1);
    }
  }

  // ---------------------------------------------------------------------------
  // One step
  // ---------------------------------------------------------------------------

  /** The digit a step stores. */
  ghost function Digit(a: nat, b: nat, k: nat, j: nat): (q: int)
    requires k >= 2 && P(k - 1) <= b < P(k)
    ensures 0 <= q < BASE
  {
    var g := Guess(a, b, k, j);
    if g * Divisor(b, j) <= a then g else (if g == 0 then 0 else g - 1)
  }

  /** What a step leaves of a: the last borrow of the subtraction is dropped at the length of the minuend. */
  ghost function Left(a: nat, b: nat, k: nat, j: nat): nat
    requires k >= 2 && P(k - 1) <= b < P(k)
  {
    var p := Guess(a, b, k, j) * Divisor(b, j);
    if p <= a then a - p
    else
      var w := AddBack(a, b, j);
      (w - p) % P(Length(w))
  }

  /** The add-back does no harm: no limb below the top one of the sum wraps, and the remainder fits the sum's limbs. */
  ghost predicate Harmless(a: nat, b: nat, j: nat)
    requires Divisor(b, j) > 0
  {
    var l := Length(AddBack(a, b, j));
    (forall i: nat :: i < l - 1 ==> !Wraps(a, b, j, i)) && a % Divisor(b, j) < P(l)
  }

  /** The true sum has the limbs of a when the divisor's limbs lie among them. */
  lemma SumWithin(a: nat, b: nat, k: nat, j: nat, n: nat)
    requires b < P(k) && a < P(n) && n >= j + k
    ensures Added(a, b, j, n) + Lost(a, b, j, n) == a + Divisor(b, j)
  {
    hide P, Pow;
    AddedAndLost(a, b, j, n);
    PMonotone(k, n - j);
    DivModUnique(a, P(n), 0, a);
    DivModUnique(b, P(n - j), 0, b);
  }

  /** The add-back is the true sum exactly when no limb wraps. */
  lemma AddBackIff(a: nat, b: nat, k: nat, j: nat)
    requires b < P(k) && Length(a) >= j + k
    ensures AddBack(a, b, j) == a + Divisor(b, j) <==> forall i: nat :: i < Length(a) ==> !Wraps(a, b, j, i)
  {
    hide P, Pow, Wraps, Added, Lost, Divisor;
    SumWithin(a, b, k, j, Length(a));
    LostBound(a, b, j, Length(a));
  }

  /** A trial product above the dividend means a dividend of at least j + k limbs. */
  lemma AddBackLength(a: nat, b: nat, k: nat, j: nat)
    requires k >= 2 && P(k - 1) <= b && Trial(a, b, k, j) >= 1
    ensures Length(a) >= j + k
  {
    hide P, Pow;
    var w, u := P(j + k - 2), b / P(k - 2);
    TopTwoPositive(b, k);
    var t := a / w;
    QuotientAtLeast(1, t, u);
    QuotientAtLeast(BASE, a, w);
    PStep(j + k - 2);
    if Length(a) < j + k { PMonotone(Length(a), j + k - 1); }
  }

  /**
   * For a dividend in range, each step stores the quotient digit, and leaves the remainder exactly when the add-back
   * does no harm.
   */
  lemma StepExact(a: nat, b: nat, k: nat, j: nat)
    requires k >= 2 && P(k - 1) <= b < P(k) && a < Divisor(b, j + 1)
    ensures Divisor(b, j) > 0 && Digit(a, b, k, j) == a / Divisor(b, j)
    ensures Left(a, b, k, j) == a % Divisor(b, j) <==> Guess(a, b, k, j) * Divisor(b, j) <= a || Harmless(a, b, j)
  {
    hide P, Pow, Guess, Trial, Divisor, AddBack, Length;
    TrialWithinOne(a, b, k, j);
    GuessIsTrial(a, b, k, j);
    var d, g := Divisor(b, j), Guess(a, b, k, j);
    StepRemainder(a, d, g);
    QuotientAtLeast(0, a, d);
    if g * d > a {
      AddBackLength(a, b, k, j);
      AddBackExact(a, b, k, j, g * d);
    }
  }

  lemma AddBackExact(a: nat, b: nat, k: nat, j: nat, p: int)
    requires b < P(k) && Length(a) >= j + k && Divisor(b, j) > 0 && a + Divisor(b, j) - p == a % Divisor(b, j)
    ensures (AddBack(a, b, j) - p) % P(Length(AddBack(a, b, j))) == a % Divisor(b, j) <==> Harmless(a, b, j)
  {
    hide P, Pow, Divisor, Wraps, Added, Lost, Length;
    var n := Length(a);
    SumWithin(a, b, k, j, n);
    AddedBound(a, b, j, n);
    SumExact(a, b, j, n, AddBack(a, b, j), Length(AddBack(a, b, j)), p, a % Divisor(b, j));
  }

  lemma SumExact(a: nat, b: nat, j: nat, n: nat, w: nat, l: nat, p: int, r: int)
    requires w < P(n) && w + Lost(a, b, j, n) - p == r >= 0 && l >= 1 && w < P(l) && (l > 1 ==> P(l - 1) <= w) && n >= 1
    ensures (w - p) % P(l) == r <==> (forall i: nat :: i < l - 1 ==> !Wraps(a, b, j, i)) && r < P(l)
  {
    hide P, Pow, Wraps, Lost;
    if l > n { PMonotone(n, l - 1); }
    var c := LostAbove(a, b, j, l - 1, n);
    var lost := Lost(a, b, j, l - 1);
    LostBound(a, b, j, l - 1);
    ModShift(r - lost, -c, P(l));
    LostModulo(r, lost, P(l));
  }

  lemma LostModulo(r: int, lost: int, p: int)
    requires 0 <= lost < p && r >= 0
    ensures (r - lost) % p == r <==> lost == 0 && r < p
  {
    var t := (r - lost) / p;
    if (r - lost) % p == r {
      assert r - lost == t * p + r;
      if t <= -1 { MulMonotone(p, t, -1); }
      if t >= 1 { MulMonotone(p, 1, t); }
    }
    if lost == 0 && r < p { DivModUnique(r, p, 0, r); }
  }

  // ---------------------------------------------------------------------------
  // All digits
  // ---------------------------------------------------------------------------

  /** The number made of the digits the division stores from position j down. */
  ghost function CodeQuotient(a: nat, b: nat, k: nat, j: nat): nat
    requires k >= 2 && P(k - 1) <= b < P(k)
    decreases j
  {
    MulMonotone(P(j), 0, Digit(a, b, k, j));
    Digit(a, b, k, j) * P(j) + if j == 0 then 0 else CodeQuotient(Left(a, b, k, j), b, k, j - 1)
  }

  /** The step at position j leaves the true remainder. */
  ghost predicate KeepsRemainder(a: nat, b: nat, k: nat, j: nat)
    requires k >= 2 && P(k - 1) <= b < P(k)
  {
    DivisorPositive(b, k, j);
    Guess(a, b, k, j) * Divisor(b, j) <= a || Harmless(a, b, j)
  }

  /** No step from position j down to 1 does harm; what the last step leaves is never used. */
  ghost predicate AddBackSafe(a: nat, b: nat, k: nat, j: nat)
    requires k >= 2 && P(k - 1) <= b < P(k)
    decreases j
  {
    DivisorPositive(b, k, j);
    j > 0 ==> KeepsRemainder(a, b, k, j) && AddBackSafe(a % Divisor(b, j), b, k, j - 1)
  }

  /** After the first step that does harm, the digits still to come happen to be those of the true remainder. */
  ghost predicate Recovers(a: nat, b: nat, k: nat, j: nat)
    requires k >= 2 && P(k - 1) <= b < P(k)
    decreases j
  {
    DivisorPositive(b, k, j);
    j > 0 ==>
      if KeepsRemainder(a, b, k, j) then Recovers(a % Divisor(b, j), b, k, j - 1)
      else CodeQuotient(Left(a, b, k, j), b, k, j - 1) == (a % Divisor(b, j)) / b
  }

  /** A quotient splits at position j. */
  lemma QuotientSplit(a: nat, b: nat, j: nat)
    requires b > 0 && Divisor(b, j) > 0
    ensures a / b == (a / Divisor(b, j)) * P(j) + (a % Divisor(b, j)) / b
  {
    hide P, Pow;
    var d := Divisor(b, j);
    var q, r := a / d, a % d;
    DivBounds(a, d);
    MulAssoc(q, P(j), b);
    MulDistribute(q * P(j), r / b, b);
    DivModUnique(a, b, q * P(j) + r / b, r % b);
  }

  /** The stored digits are the quotient exactly when the division recovers from every harm. */
  lemma {:induction false} RecoversIff(a: nat, b: nat, k: nat, j: nat)
    requires k >= 2 && P(k - 1) <= b < P(k) && a < Divisor(b, j + 1)
    ensures CodeQuotient(a, b, k, j) == a / b <==> Recovers(a, b, k, j)
    decreases j
  {
    hide P, Pow, Guess, Harmless, Left, Digit, Divisor;
    DivisorPositive(b, k, j);
    StepExact(a, b, k, j);
    if j == 0 {
      DivisorZero(b);
      PZero();
    } else {
      QuotientSplit(a, b, j);
      if KeepsRemainder(a, b, k, j) {
        RecoversIff(a % Divisor(b, j), b, k, j - 1);
      }
    }
  }

  lemma {:induction false} SafeRecovers(a: nat, b: nat, k: nat, j: nat)
    requires k >= 2 && P(k - 1) <= b < P(k) && AddBackSafe(a, b, k, j)
    ensures Recovers(a, b, k, j)
    decreases j
  {
    hide P, Pow, KeepsRemainder, Divisor, CodeQuotient, Left;
    DivisorPositive(b, k, j);
    if j > 0 {
      SafeRecovers(a % Divisor(b, j), b, k, j - 1);
    }
  }
}
