/** The long division that computes the reciprocal used by the Barrett reduction. */
module RsaReciprocal {
  import opened Arithmetic
  import opened Limbs
  import opened RsaNumbers
  import opened RsaBarrett
  import opened RsaProcess
  import opened RsaDivision
  import opened Bits

  // ---------------------------------------------------------------------------
  // The helpers of the division
  // ---------------------------------------------------------------------------

  /** The number of leading zero bits of a 32-bit limb. */
  function LeadingZeros(x: u32): (s: nat)
    requires x > 0
    ensures s <= 31 && Size(31 - s) <= x < Size(32 - s)
    decreases BASE - x
  {
    if x >= 0x8000_0000 then
      assert Size(31) == 0x8000_0000 && Size(32) == BASE by { SizeOf32(); SizeStep(31); }
      0
    else
      var s := LeadingZeros(2 * x);
      assert s <= 30 && Size(30 - s) <= x < Size(31 - s) by {
        SizeStep(31 - s);
        SizeZero();
        if s < 31 { SizeStep(30 - s); }
      }
      s + 1
  }

  lemma ShiftLimb(v: int, c: int, x: int, w: int, p: int, t: int)
    requires t == c + x * w
    ensures v + (t % BASE) * p + (t / BASE) * (BASE * p) == v + c * p + (x * p) * w
  {
    var hi, lo := t / BASE, t % BASE;
    assert t == hi * BASE + lo;
    MulAssoc(hi, BASE, p);
    MulDistribute(lo, hi * BASE, p);
    MulDistribute(c, x * w, p);
    MulAssoc(x, w, p);
    MulAssoc(x, p, w);
  }

  /** One stored limb of a product by a single limb or power of two. */
  lemma ShiftStep(a: seq<u32>, out: seq<u32>, i: nat, c: int, w: int, t: int, lo: u32)
    requires i < |a| && t == c + a[i] * w && lo == t % BASE
    requires i <= |out| && Val(out) + c * P(|out|) == Val(a[..i]) * w * P(|out| - i)
    ensures Val(out + [lo]) + (t / BASE) * P(|out| + 1) == Val(a[..i + 1]) * w * P(|out| - i)
  {
    hide Val, P, Pow;
    var n := |out|;
    ValAppend(out, lo);
    PStep(n);
    ShiftLimb(Val(out), c, a[i], w, P(n), t);
    assert a[..i + 1] == a[..i] + [a[i]];
    ValAppend(a[..i], a[i]);
    PAdd(i, n - i);
    MulDistribute(Val(a[..i]), a[i] * P(i), w);
    MulDistribute(Val(a[..i]) * w, a[i] * P(i) * w, P(n - i));
    assert a[i] * P(i) * w * P(n - i) == a[i] * P(n) * w by {
      MulAssoc(a[i], P(i), P(n - i));
      MulAssoc(a[i] * P(i), w, P(n - i));
      MulAssoc(a[i] * P(i), P(n - i), w);
    }
  }

  lemma ScaledLimb(x: u32, w: u32, c: int)
    requires 0 <= c < BASE
    ensures 0 <= c + x * w < BASE * BASE && (c + x * w) / BASE < BASE
  {
    LimbProduct(x, w);
    DivBounds(c + x * w, BASE);
  }

  /** out := a * w * BASE^offset, for one limb w. */
  method MultiplyInt(a: RsaNumber, w: u32, out: RsaNumber, offset: nat)
    requires a != out && a.data != out.data && a.Padded() && a.length + offset < out.data.Length
    modifies out, out.data
    ensures out.Normal() && out.length >= 1 && out.Value() == a.Value() * w * P(offset)
  {
    hide Val, P, Pow;
    for i := 0 to offset
      invariant forall k :: 0 <= k < i ==> out.data[k] == 0
    {
      out.data[i] := 0;
    }
    ValZeros(out.data[..offset]);
    ValZeros(a.data[..][..0]);
    var carry: u64 := 0;
    for i := 0 to a.length
      invariant carry < BASE
      invariant Val(out.data[..i + offset]) + carry * P(i + offset) == Val(a.data[..][..i]) * w * P(offset)
    {
      ScaledLimb(a.data[i], w, carry);
      ghost var c, before := carry, out.data[..i + offset];
      carry := carry + a.data[i] * w;
      var limb: u32 := carry % BASE;
      ShiftStep(a.data[..], before, i, c, w, carry, limb);
      out.data[i + offset] := limb;
      assert out.data[..i + 1 + offset] == before + [limb];
      carry := carry / BASE;
    }
    PaddedValue(a);
    assert a.data[..][..a.length] == a.data[..a.length];
    var top: u32 := carry;
    var n := a.length + offset;
    ghost var before := out.data[..n];
    out.data[n] := top;
    assert out.data[..n + 1] == before + [top];
    ValAppend(before, top);
    out.length := n + 1;
    Normalize(out);
  }

  lemma ShiftFits(x: u32, s: nat, c: int)
    requires s < 32 && 0 <= c < Size(s)
    ensures 0 <= c + x * Size(s) < 0x1_0000_0000_0000_0000
    ensures 0 <= (c + x * Size(s)) / BASE < Size(s)
  {
    SizeOf32();
    SizeMonotone(s, 32);
    var t := c + x * Size(s);
    MulMonotone(Size(s), x + 1, BASE);
    MulDistribute(x, 1, Size(s));
    MulMonotone(Size(s), 0, x);
    MulMonotone(BASE, Size(s), BASE);
    DivBounds(t, BASE);
  }

  /** out := a * 2^s, for a shift that does not overflow the top limb. */
  method ShiftLeft(a: RsaNumber, s: nat, out: RsaNumber)
    requires a != out && a.data != out.data && a.data.Length == out.data.Length
    requires a.Padded() && out.length == 0 && out.Padded()
    requires s < 32 && a.Value() * Size(s) < P(a.length)
    modifies out, out.data
    ensures out.Padded() && out.length == a.length && out.Value() == a.Value() * Size(s)
  {
    hide Val, P, Pow, Size;
    ValZeros(out.data[..0]);
    ValZeros(a.data[..][..0]);
    var w := Size(s);
    var carry: u64 := 0;
    PZero();
    for i := 0 to a.length
      invariant carry < Size(s)
      invariant Val(out.data[..i]) + carry * P(i) == Val(a.data[..][..i]) * w * P(0)
      invariant forall k :: i <= k < out.data.Length ==> out.data[k] == 0
      invariant out.length == 0
    {
      ShiftFits(a.data[i], s, carry);
      ghost var c, before := carry, out.data[..i];
      carry := carry + a.data[i] * w;
      var limb: u32 := carry % BASE;
      ShiftStep(a.data[..], before, i, c, w, carry, limb);
      out.data[i] := limb;
      assert out.data[..i + 1] == before + [limb];
      carry := carry / BASE;
    }
    PaddedValue(a);
    assert a.data[..][..a.length] == a.data[..a.length];
    if carry >= 1 { MulMonotone(P(a.length), 1, carry); }
    out.length := a.length;
    PaddedValue(out);
  }

  /** The correction loop: the largest digit, at most the first estimate, whose product fits. */
  method CorrectDigit(first: u32, a128: nat, b64: nat) returns (q: u32)
    requires b64 > 0
    ensures q == if a128 / b64 < first then a128 / b64 else first
  {
    q := first;
    var product := b64 * q;
    QuotientAtLeast(0, a128, b64);
    QuotientAtLeast(first, a128, b64);
    while a128 < product
      invariant product == b64 * q && q <= first && (q < first ==> q >= a128 / b64)
      decreases product
    {
      QuotientAtLeast(q, a128, b64);
      MulDistribute(q, -1, b64);
      product := product - b64;
      q := q - 1;
    }
    QuotientAtLeast(q, a128, b64);
  }

  /** The digit from the leading limbs, with its correction loop. */
  method TrialDigit(a: RsaNumber, b: RsaNumber, k: nat, j: nat) returns (q: u32)
    requires b.Padded() && b.length == k >= 2 && P(k - 1) <= b.Value() < P(k) && j + k < a.data.Length
    ensures q == Guess(a.Value(), b.Value(), k, j)
  {
    hide Val, P, Pow, Limb;
    LimbOfVal(a.data[..], j + k);
    LimbOfVal(a.data[..], j + k - 1);
    LimbOfVal(a.data[..], j + k - 2);
    LimbOfVal(b.data[..], k - 1);
    LimbOfVal(b.data[..], k - 2);
    TopOfDivisor(b.Value(), k);
    var b32 := b.data[k - 1];
    var b64 := b32 * BASE + b.data[k - 2];
    var a64 := a.data[j + k] * BASE + a.data[j + k - 1];
    var a128 := a64 * BASE + a.data[j + k - 2];
    var first: u32 := if a.data[j + k] == b32 then BASE - 1 else (a64 / b32) % BASE;
    q := CorrectDigit(first, a128, b64);
  }

  // ---------------------------------------------------------------------------
  // The add-back step and the whole division
  // ---------------------------------------------------------------------------

  /** Limbs summed one by one make up the sum without carries. */
  lemma {:induction false} AddedIs(s: seq<u32>, a: nat, b: nat, j: nat, n: nat)
    requires n <= |s| && forall i: nat :: i < n ==> s[i] == SumLimb(a, b, j, i)
    ensures Val(s[..n]) == Added(a, b, j, n)
  {
    hide P, Pow, SumLimb;
    if n > 0 {
      AddedIs(s, a, b, j, n - 1);
      assert s[..n] == s[..n - 1] + [s[n - 1]];
      ValAppend(s[..n - 1], s[n - 1]);
    }
  }

  /**
   * a += b * BASE^j as the source computes it: each limb sum is taken in 32 bits before it is widened, so no carry
   * ever leaves its limb.
   */
  method AddShifted(a: RsaNumber, b: RsaNumber, j: nat)
    requires a != b && a.data != b.data && a.data.Length == b.data.Length
    requires a.Normal() && 1 <= a.length < a.data.Length
    modifies a, a.data
    ensures a.Normal() && 1 <= a.length <= old(a.length)
    ensures a.Value() == AddBack(old(a.Value()), b.Value(), j)
  {
    hide Val, P, Pow, Limb, Length;
    ghost var start, va, vb := a.data[..], a.Value(), b.Value();
    var n := a.length;
    NumberLength(a);
    var carry: u64 := 0;
    var i := j;
    while i < n
      invariant carry == 0 && a.length == n && (i <= n || i == j)
      invariant forall t :: 0 <= t < a.data.Length && (t < j || i <= t) ==> a.data[t] == start[t]
      invariant forall t :: j <= t < i && t < n ==> a.data[t] == (start[t] + b.data[t - j]) % BASE
    {
      carry := carry + (a.data[i] + b.data[i - j]) % BASE;
      a.data[i] := carry % BASE;
      carry := carry / BASE;
      i := i + 1;
    }
    forall t: nat | t < n ensures a.data[..][t] == SumLimb(va, vb, j, t) {
      LimbOfVal(start, t);
      if t >= j { LimbOfVal(b.data[..], t - j); }
    }
    AddedIs(a.data[..], va, vb, j, n);
    AddedBound(va, vb, j, n);
    a.length := n + 1;
    assert a.data[..n + 1] == a.data[..][..n] + [0];
    ValAppend(a.data[..][..n], 0);
    Normalize(a);
    NormalLengthBound(a, n);
  }

  /** The length of a normal number is the number of limbs of its value. */
  lemma NumberLength(a: RsaNumber)
    requires a.Normal() && a.length >= 1
    ensures a.length == Length(a.Value())
  {
    hide P, Pow, Length;
    PaddedValue(a);
    if a.length > 1 { NormalLowerBound(a); }
    LengthIs(a.Value(), a.length);
  }

  /** One step of the division: stores nothing itself, leaves what the recurrence leaves, and returns its digit. */
  method DivisionStep(a: RsaNumber, b: RsaNumber, tmp: RsaNumber, k: nat, j: nat) returns (q: u32)
    requires Distinct3(a, b, tmp)
    requires a.data.Length == b.data.Length == tmp.data.Length && j + k < a.data.Length
    requires a.Normal() && 1 <= a.length < a.data.Length && b.Padded() && b.length == k >= 2
    requires P(k - 1) <= b.Value() < P(k)
    modifies a, a.data, tmp, tmp.data
    ensures a.Normal() && 1 <= a.length <= old(a.length)
    ensures a.Value() == Left(old(a.Value()), b.Value(), k, j)
    ensures q == Digit(old(a.Value()), b.Value(), k, j)
  {
    hide Val, P, Pow, Guess, AddBack, Length, Divisor;
    ghost var va, vb := a.Value(), b.Value();
    q := TrialDigit(a, b, k, j);
    DigitProduct(vb, q, j);
    MultiplyInt(b, q, tmp, j);
    var less := IsLessThan(a, tmp);
    if less {
      AddShifted(a, b, j);
      NumberLength(a);
      q := q - 1;
    }
    Subtract(a, tmp);
  }

  /** The dividend buffer: a single limb 2^shift above 2k zero limbs. */
  method CreateDividend(k: nat, s: nat) returns (a: RsaNumber)
    requires s < 32
    ensures fresh(a) && fresh(a.data) && a.data.Length == 2 * k + 3
    ensures a.Normal() && a.length == 2 * k + 1 && a.Value() == Size(s) * P(2 * k)
  {
    a := new RsaNumber(2 * k + 3);
    ghost var before := a.data[..];
    assert Size(s) < BASE by { SizeMonotone(s, 31); SizeOf32(); SizeStep(31); }
    var limb: u32 := Size(s);
    ValUpdate(before, 2 * k, limb);
    a.data[2 * k] := limb;
    assert a.data[..] == before[2 * k := limb];
    a.length := 2 * k + 1;
  }

  /** Storing digit j into a number whose limbs up to j are zero. */
  method StoreDigit(mu: RsaNumber, j: nat, q: u32)
    requires j < mu.length <= mu.data.Length && forall t :: 0 <= t <= j ==> mu.data[t] == 0
    requires mu.Padded()
    modifies mu.data
    ensures mu.Padded() && mu.Value() == old(mu.Value()) + q * P(j)
    ensures forall t :: 0 <= t < j ==> mu.data[t] == 0
  {
    ghost var before := mu.data[..];
    ValUpdate(before, j, q);
    mu.data[j] := q;
    assert mu.data[..] == before[j := q];
  }

  /** The dividend, shifted modulus and reciprocal buffers share no storage. */
  ghost predicate Distinct3(a: RsaNumber, b: RsaNumber, c: RsaNumber)
  {
    a != b && a != c && b != c && a.data != b.data && a.data != c.data && b.data != c.data
  }

  /** The shift that normalises a modulus of k limbs. */
  ghost function ShiftOf(m: nat, k: nat): (s: nat)
    requires k >= 2 && P(k - 1) <= m < P(k)
    ensures s <= 31 && P(k - 1) <= m * Size(s) < P(k)
  {
    TopLimb(m, k - 1);
    TopOfDivisor(m, k);
    var s := LeadingZeros(Limb(m, k - 1));
    ShiftFitsTop(m, k, s);
    s
  }

  lemma ShiftFitsTop(m: nat, k: nat, s: nat)
    requires k >= 2 && P(k - 1) <= m < P(k) && s <= 31 && m / P(k - 1) < Size(32 - s)
    ensures P(k - 1) <= m * Size(s) < P(k)
  {
    hide P, Pow, Size;
    var top := m / P(k - 1);
    DivBounds(m, P(k - 1));
    SizeAdd(32 - s, s);
    SizeOf32();
    MulMonotone(Size(s), top + 1, Size(32 - s));
    MulStrict(Size(s), m, (top + 1) * P(k - 1));
    MulAssoc(top + 1, P(k - 1), Size(s));
    MulAssoc(top + 1, Size(s), P(k - 1));
    MulMonotone(P(k - 1), (top + 1) * Size(s), BASE);
    PStep(k - 1);
    MulMonotone(m, 1, Size(s));
  }

  /** The number the division computes for a modulus, whatever its add-backs do. */
  ghost function CodeReciprocal(m: nat, k: nat): nat
    requires k >= 2 && P(k - 1) <= m < P(k)
  {
    CodeQuotient(Scaled(m, k), m * Size(ShiftOf(m, k)), k, k)
  }

  ghost function Scaled(m: nat, k: nat): nat
    requires k >= 2 && P(k - 1) <= m < P(k)
  {
    MulPositive(Size(ShiftOf(m, k)), P(2 * k));
    Size(ShiftOf(m, k)) * P(2 * k)
  }

  /** Every step of the division of a modulus but the last leaves the true remainder. */
  ghost predicate SafeModulus(m: nat, k: nat)
    requires k >= 2 && P(k - 1) <= m < P(k)
  {
    AddBackSafe(Scaled(m, k), m * Size(ShiftOf(m, k)), k, k)
  }

  ghost predicate RecoversModulus(m: nat, k: nat)
    requires k >= 2 && P(k - 1) <= m < P(k)
  {
    Recovers(Scaled(m, k), m * Size(ShiftOf(m, k)), k, k)
  }

  /** The number computed is the reciprocal exactly when the division recovers, in particular when no step does harm. */
  lemma ReciprocalIff(m: nat, k: nat)
    requires k >= 2 && P(k - 1) < m < P(k)
    ensures Reciprocal(m, k, CodeReciprocal(m, k)) <==> RecoversModulus(m, k)
    ensures SafeModulus(m, k) ==> RecoversModulus(m, k)
  {
    hide P, Pow, Size, ShiftOf, Recovers, AddBackSafe, CodeQuotient;
    var w := Size(ShiftOf(m, k));
    FirstDividend(m, k, w);
    MulPositive(m, w);
    RecoversIff(Scaled(m, k), m * w, k, k);
    DivBounds(w * P(2 * k), m * w);
    ScaledQuotient((w * P(2 * k)) / (m * w), m, w, (w * P(2 * k)) % (m * w), P(2 * k));
    if SafeModulus(m, k) { SafeRecovers(Scaled(m, k), m * w, k, k); }
  }

  /**
   * The reciprocal of the modulus by long division, for every modulus of two or more limbs. Add-backs lose carries, so
   * the result is the reciprocal exactly when the division recovers from every harm that does.
   */
  method CalculateMu(modulus: RsaNumber) returns (mu: RsaNumber)
    requires modulus.Normal() && modulus.length >= 2 && modulus.data.Length == 2 * modulus.length + 3
    ensures fresh(mu) && fresh(mu.data) && mu.data.Length == modulus.data.Length && mu.Normal()
    ensures P(modulus.length - 1) <= modulus.Value() < P(modulus.length)
    ensures mu.Value() == CodeReciprocal(modulus.Value(), modulus.length)
    ensures P(modulus.length - 1) < modulus.Value() ==>
              && (Reciprocal(modulus.Value(), modulus.length, mu.Value()) <==>
                 RecoversModulus(modulus.Value(), modulus.length))
              && (SafeModulus(modulus.Value(), modulus.length) ==>
                 Reciprocal(modulus.Value(), modulus.length, mu.Value()))
  {
    hide *;
    var k := modulus.length;
    NormalLowerBound(modulus);
    NormalIsPadded(modulus);
    PaddedValue(modulus);
    ghost var m := modulus.Value();
    ShiftIs(modulus);
    var shift := LeadingZeros(modulus.data[k - 1]);
    ghost var w := Size(shift);
    CodeReciprocalIs(m, k, shift);
    var a := CreateDividend(k, shift);
    var b := new RsaNumber(2 * k + 3);
    NormalIsPadded(b);
    ShiftLeft(modulus, shift, b);
    mu := new RsaNumber(2 * k + 3);
    EmptyNumber(mu);
    mu.length := k + 2;
    EmptyNumber(mu);
    var tmp := new RsaNumber(2 * k + 3);
    Distinct3Intro(a, b, mu);
    Distinct3Intro(a, b, tmp);
    Divide(a, b, mu, tmp, k);
    PaddedValue(mu);
    NormalIsPaddedLength(mu);
    Normalize(mu);
    if P(k - 1) < m { ReciprocalIff(m, k); }
  }

  lemma ShiftIs(modulus: RsaNumber)
    requires modulus.Normal() && modulus.length >= 2
    requires var k := modulus.length; P(k - 1) <= modulus.Value() < P(k)
    ensures var k := modulus.length;
            && modulus.data[k - 1] > 0 && LeadingZeros(modulus.data[k - 1]) == ShiftOf(modulus.Value(), k) <= 31
            && P(k - 1) <= modulus.Value() * Size(ShiftOf(modulus.Value(), k)) < P(k)
  {
    hide P, Pow, Val, Size;
    LimbOfVal(modulus.data[..], modulus.length - 1);
  }

  lemma CodeReciprocalIs(m: nat, k: nat, s: nat)
    requires k >= 2 && P(k - 1) <= m < P(k) && s == ShiftOf(m, k)
    ensures Size(s) * P(2 * k) == Scaled(m, k)
    ensures P(k - 1) <= m * Size(s) < P(k) && CodeReciprocal(m, k) == CodeQuotient(Scaled(m, k), m * Size(s), k, k)
  {
    hide P, Pow, Size, CodeQuotient, ShiftOf;
  }

  lemma NormalIsPaddedLength(a: RsaNumber)
    requires a.Padded()
    ensures a.length <= a.data.Length
  {}

  lemma EmptyNumber(a: RsaNumber)
    requires a.length <= a.data.Length
    requires (a.length == 0 && a.Normal()) || forall t :: 0 <= t < a.data.Length ==> a.data[t] == 0
    ensures a.Padded() && a.Value() == 0 && forall t :: 0 <= t < a.data.Length ==> a.data[t] == 0
  {
    ValZeros(a.data[..]);
  }

  lemma Distinct3Intro(a: RsaNumber, b: RsaNumber, c: RsaNumber)
    requires a != b && a != c && b != c && a.data != b.data && a.data != c.data && b.data != c.data
    ensures Distinct3(a, b, c)
  {}

  /** The digit loop of the division, from position k down to 0. */
  method Divide(a: RsaNumber, b: RsaNumber, mu: RsaNumber, tmp: RsaNumber, k: nat)
    requires Distinct3(a, b, mu) && Distinct3(a, b, tmp) && mu != tmp && mu.data != tmp.data
    requires a.data.Length == b.data.Length == tmp.data.Length == mu.data.Length == 2 * k + 3
    requires a.Normal() && 1 <= a.length <= 2 * k + 1 && b.Padded() && b.length == k >= 2
    requires P(k - 1) <= b.Value() < P(k)
    requires mu.Padded() && mu.length == k + 2 && mu.Value() == 0
             && forall t :: 0 <= t < mu.data.Length ==> mu.data[t] == 0
    modifies a, a.data, mu.data, tmp, tmp.data
    ensures mu.Padded() && mu.Value() == CodeQuotient(old(a.Value()), old(b.Value()), k, k)
  {
    hide Val, P, Pow, Digit, Left;
    ghost var n, vb := a.Value(), b.Value();
    var j := k + 1;
    while j > 0
      invariant 0 <= j <= k + 1
      invariant a.Normal() && 1 <= a.length <= 2 * k + 1 && b.Padded() && b.length == k && b.Value() == vb
      invariant mu.Value() + (if j > 0 then CodeQuotient(a.Value(), vb, k, j - 1) else 0) == CodeQuotient(n, vb, k, k)
      invariant mu.Padded() && mu.length == k + 2 && forall t :: 0 <= t < j ==> mu.data[t] == 0
    {
      j := j - 1;
      var q := DivisionStep(a, b, tmp, k, j);
      StoreDigit(mu, j, q);
    }
  }

  /** Setting up a key: the state is valid exactly when the division recovers, in particular when no step does harm. */
  method InitState(modulus: RsaNumber) returns (state: RsaState)
    requires modulus.Normal() && modulus.length >= 2 && modulus.data.Length == 2 * modulus.length + 3
    ensures fresh(state) && state.Formed() && state.modulus == modulus
    ensures P(modulus.length - 1) <= modulus.Value() < P(modulus.length)
    ensures P(modulus.length - 1) < modulus.Value() ==>
              && (state.Valid() <==> RecoversModulus(modulus.Value(), modulus.length))
              && (SafeModulus(modulus.Value(), modulus.length) ==> state.Valid())
  {
    hide Val, P, Pow, CodeReciprocal, RecoversModulus, SafeModulus, Reciprocal;
    var mu := CalculateMu(modulus);
    state := new RsaState(modulus, mu);
  }
}
