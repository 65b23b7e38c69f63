/** Sliding-window exponentiation modulo the key's modulus. */
module RsaProcess {
  import opened Arithmetic
  import opened Limbs
  import opened RsaNumbers
  import opened RsaBarrett
  import opened Bits

  const TABLE_SHIFT := 5
  const TABLE_SIZE := 32

  // ---------------------------------------------------------------------------
  // Bits of a multi-limb exponent
  // ---------------------------------------------------------------------------

  lemma TrailingStep(x: nat, n: nat)
    requires x % 2 == 0 && x / 2 == (x / 2 / Size(n)) * Size(n)
    ensures x / Size(n + 1) == x / 2 / Size(n) && x == (x / Size(n + 1)) * Size(n + 1)
  {
    hide *;
    DivDiv(x, 2, Size(n));
    SizeStep(n);
    var y := x / 2 / Size(n);
    MulAssoc(2, y, Size(n));
    MulAssoc(y, 2, Size(n));
  }

  /** Dividing by the power of two of the trailing zeros leaves an odd number, exactly. */
  lemma {:induction false} TrailingPart(x: nat)
    requires x > 0
    ensures var n := TrailingZeros(x); x == (x / Size(n)) * Size(n) && (x / Size(n)) % 2 == 1
  {
    if x % 2 == 1 {
      SizeZero();
    } else {
      TrailingPart(x / 2);
      TrailingStep(x, TrailingZeros(x / 2));
    }
  }

  /** Adding an even multiple of the divisor changes no bit below the sum's quotient. */
  lemma LowBitOfSum(x: int, t: int, d: int)
    requires x >= 0 && d > 0
    ensures ((x + (2 * t) * d) / d) % 2 == (x / d) % 2
  {
    assert x == (x / d) * d + x % d;
    MulDistribute(x / d, 2 * t, d);
    DivModUnique(x + (2 * t) * d, d, x / d + 2 * t, x % d);
  }

  lemma HeadLimb(s: seq<u32>)
    requires |s| > 0
    ensures Val(s) == s[0] + Val(s[1..]) * BASE
  {
    ValSplit(s, 1);
    assert P(1) == BASE by { PStep(0); }
    assert s[..1] == [] + [s[0]];
    ValAppend([], s[0]);
  }

  /** Bit i of a number is bit i mod 32 of limb i / 32. */
  lemma BitOfLimb(s: seq<u32>, i: nat)
    requires i < 32 * |s|
    ensures (Val(s) / Size(i)) % 2 == (s[i / 32] / Size(i % 32)) % 2
  {
    hide Val, P, Pow, Size;
    var w, b := i / 32, i % 32;
    assert Val(s) / Size(i) == Val(s[w..]) / Size(b) by {
      LimbWeight(w);
      SizeAdd(32 * w, b);
      ValSplit(s, w);
      DivDiv(Val(s), P(w), Size(b));
    }
    HeadLimb(s[w..]);
    LowLimbBit(s[w], Val(s[w..][1..]), b);
  }

  /** The limbs above do not reach the bits of the lowest limb. */
  lemma LowLimbBit(x: u32, h: int, b: nat)
    requires b < 32
    ensures ((x + h * BASE) / Size(b)) % 2 == (x / Size(b)) % 2
  {
    hide Size;
    SizeOf32();
    SizeAdd(31 - b, b);
    SizeStep(31);
    MulAssoc(2 * h, Size(31 - b), Size(b));
    MulAssoc(2, h, Size(31 - b));
    LowBitOfSum(x, h * Size(31 - b), Size(b));
  }

  /** Taking in one more bit of the exponent. */
  lemma PrefixStep(e: nat, i: nat)
    ensures e / Size(i) == 2 * (e / Size(i + 1)) + (e / Size(i)) % 2
  {
    DivDiv(e, Size(i), 2);
    SizeStep(i);
  }

  // ---------------------------------------------------------------------------
  // Modular powers
  // ---------------------------------------------------------------------------

  /**
   * The number the engine ends with for base^e: the residue, or the modulus when it divides the power of a non-zero
   * base, unless the modulus divides BASE^(2k).
   */
  ghost function Representative(base: int, e: nat, m: int, k: nat): int
    requires m > 0
  {
    var power := Pow(base, e);
    if base == 0 || power % m != 0 || P(2 * k) % m == 0 then power % m else m
  }

  /** A reduced product of representatives is the representative of the sum of the exponents. */
  lemma PowerProduct(x: int, y: int, base: int, d: nat, e: nat, m: int, k: nat)
    requires m > 1 && base >= 0 && x == Representative(base, d, m, k) && y == Representative(base, e, m, k)
    ensures Reduced(x * y, m, k) == Representative(base, d + e, m, k)
  {
    hide Pow, P;
    var p, q := Pow(base, d), Pow(base, e);
    RepresentativeBounds(base, d, m, k);
    RepresentativeBounds(base, e, m, k);
    CongMul(x, p, y, q, m);
    PowAdd(base, d, e);
    if base == 0 {
      ZeroRepresentative(d, m, k);
      ZeroRepresentative(e, m, k);
      ZeroRepresentative(d + e, m, k);
      SmallReduced(x * y, m, k);
    } else {
      MulPositiveOrZero(x, y);
      if x * y < m { SmallReduced(x * y, m, k); }
    }
  }

  lemma MulPositiveOrZero(x: int, y: int)
    requires x >= 0 && y >= 0
    ensures x * y >= 0 && (x > 0 && y > 0 ==> x * y > 0)
  {
    MulMonotone(y, 0, x);
    if x > 0 && y > 0 { MulPositive(x, y); }
  }

  /** A representative is congruent to its power, at most the modulus, and zero only where the residue is exact. */
  lemma RepresentativeBounds(base: int, e: nat, m: int, k: nat)
    requires m > 1
    ensures var r := Representative(base, e, m, k);
            0 <= r <= m && Cong(r, Pow(base, e), m) && (base != 0 && P(2 * k) % m != 0 ==> r > 0)
  {
    var p := Pow(base, e);
    DivBounds(p, m);
    if Representative(base, e, m, k) == p % m {
      CongFromMultiple(p % m, p, -(p / m), m);
    } else {
      MulDistribute(1, -(p / m), m);
      CongFromMultiple(m, p, 1 - p / m, m);
    }
  }

  lemma ZeroRepresentative(e: nat, m: int, k: nat)
    requires m > 1
    ensures Representative(0, e, m, k) == if e == 0 then 1 else 0
  {
    DivModUnique(Pow(0, e), m, 0, Pow(0, e));
  }

  /** When the engine's result is the residue itself. */
  lemma ResidueIff(base: int, e: nat, m: int, k: nat)
    requires m > 1
    ensures Representative(base, e, m, k) == Pow(base, e) % m <==>
            base == 0 || Pow(base, e) % m != 0 || P(2 * k) % m == 0
  {}

  /** The number x represents base^e under the state's modulus. */
  ghost predicate Holds(x: RsaNumber, state: RsaState, base: int, e: nat)
    requires state.Valid()
    reads x, x.data, state.modulus, state.mu, state.modulus.data, state.mu.data
  {
    x.Normal() && base >= 0 && x.Value() == Representative(base, e, state.Modulus(), state.modulus.length)
  }

  /** A representative fits k limbs, so products of two fit 2k. */
  lemma HoldsFits(x: RsaNumber, state: RsaState, base: int, e: nat)
    requires state.Valid() && Holds(x, state, base, e)
    ensures x.Normal() && x.Padded() && x.length <= state.modulus.length
    ensures base >= 0 && x.Value() == Representative(base, e, state.Modulus(), state.modulus.length)
    ensures 0 <= x.Value() <= state.Modulus() < P(state.modulus.length)
  {
    RepresentativeBounds(base, e, state.Modulus(), state.modulus.length);
    NormalLengthBound(x, state.modulus.length);
  }

  lemma HoldsIntro(x: RsaNumber, state: RsaState, base: int, e: nat)
    requires state.Valid() && x.Normal() && base >= 0
             && x.Value() == Representative(base, e, state.Modulus(), state.modulus.length)
    ensures Holds(x, state, base, e)
  {}

  lemma ProductFits(z: RsaNumber, x: int, y: int, m: int, k: nat)
    requires z.Normal() && z.Value() == x * y && 0 <= x <= m < P(k) && 0 <= y <= m && k >= 1
    ensures z.length <= 2 * k
  {
    MulMonotone(y, x, m);
    MulMonotone(m, y, m);
    MulMonotone(m, m, P(k));
    PAdd(k, k);
    MulStrict(P(k), m, P(k));
    NormalLengthBound(z, 2 * k);
  }

  /** out := x * y reduced. */
  method MultiplyMod(x: RsaNumber, y: RsaNumber, out: RsaNumber, state: RsaState, ghost base: int, ghost d: nat,
    ghost e: nat)
    requires state.Valid() && state.Separate(out)
    requires out != x && out != y && out.data != x.data && out.data != y.data
    requires Holds(x, state, base, d) && Holds(y, state, base, e)
    modifies out, out.data
    ensures Holds(out, state, base, d + e)
  {
    hide *;
    StateParts(out, state);
    HoldsFits(x, state, base, d);
    HoldsFits(y, state, base, e);
    ghost var m := state.Modulus();
    ghost var vx, vy := x.Value(), y.Value();
    Multiply(x, 0, y, out);
    NoShift(vx);
    ProductFits(out, vx, vy, m, state.modulus.length);
    ghost var _ := Modulo(out, state);
    PowerProduct(vx, vy, base, d, e, m, state.modulus.length);
    HoldsIntro(out, state, base, d + e);
  }

  lemma NoShift(v: int)
    ensures v / P(0) == v
  {}

  /** out := x * x reduced. */
  method SquareMod(x: RsaNumber, out: RsaNumber, state: RsaState, ghost base: int, ghost e: nat)
    requires state.Valid() && state.Separate(out)
    requires out != x && out.data != x.data
    requires Holds(x, state, base, e)
    modifies out, out.data
    ensures Holds(out, state, base, 2 * e)
  {
    hide *;
    StateParts(out, state);
    HoldsFits(x, state, base, e);
    ghost var m := state.Modulus();
    ghost var vx := x.Value();
    Square(x, out);
    ProductFits(out, vx, vx, m, state.modulus.length);
    ghost var _ := Modulo(out, state);
    PowerProduct(vx, vx, base, e, e, m, state.modulus.length);
    HoldsIntro(out, state, base, 2 * e);
  }

  /** Two distinct working buffers that belong to no part of the key. */
  ghost predicate Buffers(x: RsaNumber, y: RsaNumber, state: RsaState)
  {
    state.Separate(x) && state.Separate(y) && x != y && x.data != y.data
  }

  lemma BuffersSwap(x: RsaNumber, y: RsaNumber, state: RsaState)
    requires Buffers(x, y, state)
    ensures Buffers(y, x, state) && state.Separate(x) && state.Separate(y) && x != y && x.data != y.data
    ensures x != state.modulus && x != state.mu && x.data != state.modulus.data && x.data != state.mu.data
  {}

  /** Squares n times, flipping between the two buffers. */
  method SquareTimes(x: RsaNumber, y: RsaNumber, n: nat, state: RsaState, ghost base: int, ghost e: nat)
    returns (cur: RsaNumber, other: RsaNumber)
    requires state.Valid() && Buffers(x, y, state) && Holds(x, state, base, e)
    modifies x, y, x.data, y.data
    ensures (cur == x && other == y) || (cur == y && other == x)
    ensures Buffers(cur, other, state)
    ensures e * Size(n) >= 0 && Holds(cur, state, base, e * Size(n))
  {
    hide *;
    cur, other := x, y;
    ghost var d := e;
    SizeZero();
    BuffersSwap(x, y, state);
    BuffersSwap(y, x, state);
    for i := 0 to n
      invariant (cur == x && other == y) || (cur == y && other == x)
      invariant d == e * Size(i) && state.Valid() && Holds(cur, state, base, d)
    {
      SquareMod(cur, other, state, base, d);
      cur, other := other, cur;
      SizeStep(i);
      MulAssoc(e, 2, Size(i));
      d := 2 * d;
    }
  }

  /** No table entry shares storage with a working buffer. */
  ghost predicate Apart(table: seq<RsaNumber>, x: RsaNumber)
  {
    forall t :: t in table ==> t != x && t.data != x.data
  }

  lemma ApartEntry(table: seq<RsaNumber>, x: RsaNumber, t: RsaNumber)
    requires Apart(table, x) && t in table
    ensures t != x && t.data != x.data
  {}

  /** The exponent arithmetic of one window: the pending bits move from the mask into the power. */
  lemma WindowExponent(a: nat, mask: nat, len: nat, pad: nat, odd: nat)
    requires mask == odd * Size(pad) && pad <= len
    ensures (a * Size(len - pad) + odd) * Size(pad) == a * Size(len) + mask
  {
    SizeAdd(len - pad, pad);
    MulDistribute(a * Size(len - pad), odd, Size(pad));
    MulAssoc(a, Size(len - pad), Size(pad));
  }

  /** The bits of a non-zero mask below its length: the padding fits and the odd part indexes the table. */
  lemma WindowMask(mask: nat, len: nat)
    requires 0 < mask < Size(len) && len <= TABLE_SHIFT + 1
    ensures var pad := TrailingZeros(mask); var odd := Shift(mask, pad);
            pad < len && mask == odd * Size(pad) && odd % 2 == 1 && odd / 2 < TABLE_SIZE && odd == 2 * (odd / 2) + 1
  {
    var pad := TrailingZeros(mask);
    TrailingPart(mask);
    ShiftDivides(mask, pad);
    var odd := Shift(mask, pad);
    assert odd >= 1;
    MulMonotone(Size(pad), 1, odd);
    if pad >= len { SizeMonotone(len, pad); }
    SizeMonotone(len, 6);
    assert Size(6) == 64 by { SizeStep(0); SizeStep(1); SizeStep(2); SizeStep(3); SizeStep(4); SizeStep(5); }
    MulMonotone(odd, 1, Size(pad));
    SizeMonotone(0, pad);
  }

  /** One window of the exponent: squarings, one table product, and the padding squarings. */
  method ApplyWindow(x: RsaNumber, y: RsaNumber, table: seq<RsaNumber>, mask: nat, maskLength: nat, state: RsaState,
                     ghost base: int, ghost a: nat)
    returns (cur: RsaNumber, other: RsaNumber)
    requires state.Valid() && Buffers(x, y, state) && Holds(x, state, base, a)
    requires |table| == TABLE_SIZE && Apart(table, x) && Apart(table, y)
    requires forall i :: 0 <= i < |table| ==> Holds(table[i], state, base, 2 * i + 1)
    requires 0 < mask < Size(maskLength) && maskLength <= TABLE_SHIFT + 1
    modifies x, y, x.data, y.data
    ensures (cur == x && other == y) || (cur == y && other == x)
    ensures Buffers(cur, other, state)
    ensures a * Size(maskLength) + mask >= 0 && Holds(cur, state, base, a * Size(maskLength) + mask)
  {
    hide *;
    WindowMask(mask, maskLength);
    var padding := TrailingZeros(mask);
    var odd := Shift(mask, padding);
    BuffersSwap(x, y, state);
    BuffersSwap(y, x, state);
    ApartEntry(table, x, table[odd / 2]);
    ApartEntry(table, y, table[odd / 2]);
    cur, other := SquareTimes(x, y, maskLength - padding, state, base, a);
    assert Holds(table[odd / 2], state, base, odd);
    ghost var d := a * Size(maskLength - padding);
    MultiplyMod(cur, table[odd / 2], other, state, base, d, odd);
    cur, other := other, cur;
    BuffersSwap(other, cur, state);
    cur, other := SquareTimes(cur, other, padding, state, base, d + odd);
    WindowExponent(a, mask, maskLength, padding, odd);
  }

  /** The odd powers value^1, value^3, ..., value^63. */
  method BuildTable(value: RsaNumber, state: RsaState, ghost base: int) returns (table: seq<RsaNumber>)
    requires state.Valid() && state.Separate(value) && Holds(value, state, base, 1)
    ensures |table| == TABLE_SIZE && table[0] == value
    ensures forall i :: 0 < i < |table| ==> fresh(table[i]) && fresh(table[i].data)
    ensures forall i :: 0 <= i < |table| ==> Holds(table[i], state, base, 2 * i + 1)
  {
    hide *;
    StateParts(value, state);
    var squared := new RsaNumber(state.maxNumberLength);
    SeparateFresh(squared, state);
    SquareMod(value, squared, state, base, 1);
    table := [value];
    for i := 1 to 32
      invariant |table| == i && table[0] == value
      invariant forall j :: 0 < j < i ==> fresh(table[j]) && fresh(table[j].data)
      invariant forall j :: 0 <= j < i ==> Holds(table[j], state, base, 2 * j + 1)
      invariant Holds(squared, state, base, 2)
    {
      var next := new RsaNumber(state.maxNumberLength);
      SeparateFresh(next, state);
      MultiplyMod(table[i - 1], squared, next, state, base, 2 * (i - 1) + 1, 2);
      table := table + [next];
    }
    TableSizeIs();
  }

  lemma TableSizeIs()
    ensures TABLE_SIZE == 32 && TABLE_SHIFT == 5
  {}

  lemma SeparateFresh(a: RsaNumber, state: RsaState)
    requires a != state.modulus && a != state.mu && a.data != state.modulus.data && a.data != state.mu.data
    requires a.data.Length == state.maxNumberLength
    ensures state.Separate(a)
  {}

  /** What the loop knows between bits: the power so far and the pending mask make up the exponent's prefix. */
  ghost predicate Pending(e: nat, i: nat, a: nat, mask: nat, len: nat)
  {
    && a * Size(len) + mask == e / Size(i)
    && mask < Size(len) && (mask == 0 <==> len == 0) && len <= TABLE_SHIFT
  }

  /** Taking in one bit either extends the mask or, with nothing pending, doubles the power. */
  lemma PendingStep(e: nat, i: nat, a: nat, mask: nat, len: nat, bit: nat)
    requires Pending(e, i + 1, a, mask, len) && bit == (e / Size(i)) % 2
    ensures var mask', len' := 2 * mask + bit, if 2 * mask + bit != 0 then len + 1 else len;
            && (mask' == 0 ==> len' == 0 && Pending(e, i, 2 * a, 0, 0))
            && (mask' != 0 ==>
               0 < mask' < Size(len') && len' <= TABLE_SHIFT + 1 && a * Size(len') + mask' == e / Size(i))
            && (mask' != 0 && len' <= TABLE_SHIFT ==> Pending(e, i, a, mask', len'))
  {
    hide Size;
    PrefixStep(e, i);
    SizeStep(len);
    SizeZero();
    ExtendMask(a, mask, Size(len), Size(len + 1), bit, e / Size(i + 1), e / Size(i));
  }

  lemma ExtendMask(a: int, mask: int, p: int, p': int, bit: int, x: int, y: int)
    requires p' == 2 * p && a * p + mask == x && y == 2 * x + bit
    ensures a * p' + (2 * mask + bit) == y && a * p' == 2 * a * p
  {
    MulAssoc(a, 2, p);
    MulAssoc(2, a, p);
  }

  lemma PendingFlushed(e: nat, i: nat, a: nat)
    requires a == e / Size(i)
    ensures Pending(e, i, a, 0, 0)
  {
    SizeZero();
  }

  lemma PendingStart(exponent: RsaNumber)
    requires exponent.Padded()
    ensures Pending(exponent.Value(), 32 * exponent.length, 0, 0, 0)
  {
    PaddedValue(exponent);
    LimbWeight(exponent.length);
    DivModUnique(exponent.Value(), P(exponent.length), 0, exponent.Value());
    SizeZero();
  }

  lemma PendingDone(e: nat, a: nat)
    requires Pending(e, 0, a, 0, 0)
    ensures a == e
  {
    SizeZero();
  }

  lemma ExponentBit(exponent: RsaNumber, i: nat)
    requires exponent.Padded() && i < 32 * exponent.length
    ensures i / 32 < exponent.data.Length
    ensures (exponent.Value() / Size(i)) % 2 == (exponent.data[i / 32] / Size(i % 32)) % 2
  {
    BitOfLimb(exponent.data[..], i);
  }

  /** A buffer holding one. */
  method One(state: RsaState, ghost base: int) returns (one: RsaNumber)
    requires state.Valid() && base >= 0
    ensures fresh(one) && fresh(one.data) && state.Separate(one)
    ensures Holds(one, state, base, 0)
  {
    DivModUnique(1, state.Modulus(), 0, 1);
    one := new RsaNumber(state.maxNumberLength);
    ValUpdate(one.data[..], 0, 1);
    ghost var before := one.data[..];
    one.data[0] := 1;
    assert one.data[..] == before[0 := 1];
    one.length := 1;
  }

  /** The main loop: from the top bit of the exponent down, by windows of at most six bits. */
  method Exponentiate(exponent: RsaNumber, table: seq<RsaNumber>, state: RsaState, ghost base: int)
    returns (result: RsaNumber)
    requires state.Valid() && exponent.Padded() && |table| == TABLE_SIZE
    requires base >= 0 && forall i :: 0 <= i < |table| ==> Holds(table[i], state, base, 2 * i + 1)
    ensures fresh(result) && fresh(result.data) && result.data.Length == state.maxNumberLength
    ensures Holds(result, state, base, exponent.Value())
  {
    hide *;
    ghost var e := exponent.Value();
    var mask: nat, maskLength: nat := 0, 0;
    var x := One(state, base);
    var y := new RsaNumber(state.maxNumberLength);
    BuffersIntro(x, y, table, state);
    BuffersSwap(x, y, state);
    BuffersSwap(y, x, state);
    TableSizeIs();
    var cur, other := x, y;
    var i := 32 * exponent.length;
    ghost var a: nat := 0;
    PendingStart(exponent);
    while i > 0
      invariant 0 <= i <= 32 * exponent.length
      invariant (cur == x && other == y) || (cur == y && other == x)
      invariant Holds(cur, state, base, a)
      invariant forall j :: 0 <= j < |table| ==> Holds(table[j], state, base, 2 * j + 1)
      invariant Pending(e, i, a, mask, maskLength)
      invariant i == 0 ==> mask == 0 && maskLength == 0
      invariant exponent.Padded() && exponent.Value() == e
      invariant exponent.length == old(exponent.length)
    {
      i := i - 1;
      ExponentBit(exponent, i);
      ShiftDivides(exponent.data[i / 32], i % 32);
      var bit := Shift(exponent.data[i / 32], i % 32) % 2;
      PendingStep(e, i, a, mask, maskLength, bit);
      mask := 2 * mask + bit;
      maskLength := if mask != 0 then maskLength + 1 else maskLength;
      if i != 0 {
        if mask == 0 {
          SquareMod(cur, other, state, base, a);
          cur, other, a := other, cur, 2 * a;
          continue;
        }
        if maskLength < TABLE_SHIFT + 1 {
          continue;
        }
      } else if maskLength == 0 {
        SquareMod(cur, other, state, base, a);
        cur, other, a := other, cur, 2 * a;
        break;
      }
      cur, other := ApplyWindow(cur, other, table, mask, maskLength, state, base, a);
      a := a * Size(maskLength) + mask;
      mask, maskLength := 0, 0;
      PendingFlushed(e, i, a);
    }
    PendingDone(e, a);
    result := cur;
  }

  lemma BuffersIntro(x: RsaNumber, y: RsaNumber, table: seq<RsaNumber>, state: RsaState)
    requires state.Separate(x) && y.data.Length == state.maxNumberLength
    requires y != state.modulus && y != state.mu && y.data != state.modulus.data && y.data != state.mu.data
    requires x != y && x.data != y.data
    requires forall i :: 0 <= i < |table| ==>
             table[i] != x && table[i].data != x.data && table[i] != y && table[i].data != y.data
    ensures Buffers(x, y, state) && Apart(table, x) && Apart(table, y)
  {}

  datatype Key = PublicKey | PrivateKey | OtherKey

  /** The operation accepts its arguments. */
  ghost predicate Accepts(state: RsaState, value: RsaNumber, exponent: RsaNumber?, out: RsaNumber)
    requires state.Valid() && value.length <= value.data.Length
    reads value, value.data, exponent, if exponent == null then {} else {exponent.data}
    reads state.modulus, state.mu, state.modulus.data, state.mu.data
  {
    && value.data.Length == state.maxNumberLength && out.data.Length == state.maxNumberLength
    && Val(value.data[..value.length]) < state.Modulus()
    && exponent != null && exponent.Value() < state.Modulus()
  }

  /** The number stands for base^e: congruent, at most the modulus, and the residue itself under the exact condition. */
  ghost predicate IsPower(x: RsaNumber, base: nat, e: nat, m: int, k: nat)
    requires m > 1
    reads x, x.data
  {
    && x.Normal() && x.Value() <= m && Cong(x.Value(), Pow(base, e), m)
    && x.Value() == Representative(base, e, m, k)
    && (x.Value() == Pow(base, e) % m <==> base == 0 || Pow(base, e) % m != 0 || P(2 * k) % m == 0)
  }

  /** An exponent of the key, if there is one, is a number of the key's size and not the value. */
  ghost predicate KeyApart(state: RsaState, exponent: RsaNumber?, value: RsaNumber)
    reads exponent, if exponent == null then {} else {exponent.data}
  {
    exponent != null ==>
      && exponent.Normal() && exponent.data.Length == state.maxNumberLength
      && exponent != value && exponent.data != value.data
  }

  /**
   * The public operation. It fails on a misfit buffer, a value or an exponent that is not
   * below the modulus, or a missing key. Otherwise out is congruent to value^exponent and at most the modulus; it is
   * the residue itself exactly unless the modulus divides the power of a non-zero value and does not divide BASE^(2k).
   */
  method Process(state: RsaState, value: RsaNumber, key: Key, out: RsaNumber) returns (ok: bool)
    requires state.Valid() && value.length <= value.data.Length
    requires value != state.modulus && value != state.mu && value.data != state.modulus.data
             && value.data != state.mu.data
    requires out != state.modulus && out != state.mu && out.data != state.modulus.data && out.data != state.mu.data
    requires key == PublicKey ==> KeyApart(state, state.publicKey, value)
    requires key == PrivateKey ==> KeyApart(state, state.privateKey, value)
    modifies value, value.data, out, out.data
    ensures key == PublicKey ==> (ok <==> old(Accepts(state, value, state.publicKey, out)))
    ensures key == PrivateKey ==> (ok <==> old(Accepts(state, value, state.privateKey, out)))
    ensures key == OtherKey ==> !ok
    ensures key == PublicKey && ok ==>
              var base, e := old(Val(value.data[..value.length])), old(state.publicKey.Value());
              IsPower(out, base, e, old(state.Modulus()), state.modulus.length)
    ensures key == PrivateKey && ok ==>
              var base, e := old(Val(value.data[..value.length])), old(state.privateKey.Value());
              IsPower(out, base, e, old(state.Modulus()), state.modulus.length)
  {
    if value.data.Length != state.maxNumberLength {
      return false;
    }
    var exponent: RsaNumber? := null;
    if key == PublicKey {
      exponent := state.publicKey;
    } else if key == PrivateKey {
      exponent := state.privateKey;
    }
    Normalize(value);
    var less := IsLessThan(value, state.modulus);
    if !less {
      return false;
    }
    if exponent == null {
      return false;
    }
    less := IsLessThan(exponent, state.modulus);
    if !less || out.data.Length != state.maxNumberLength {
      return false;
    }
    ghost var base, e, m := value.Value(), exponent.Value(), state.Modulus();
    ok := true;
    Compute(state, value, exponent, out);
    ResidueIff(base, e, m, state.modulus.length);
    RepresentativeBounds(base, e, m, state.modulus.length);
  }

  /** The part of the operation after its argument checks. */
  method Compute(state: RsaState, value: RsaNumber, exponent: RsaNumber, out: RsaNumber)
    requires state.Valid() && state.Separate(value) && state.Separate(out)
    requires value.Normal() && exponent.Normal() && value.Value() < state.Modulus()
    modifies out, out.data
    ensures out.Normal()
    ensures out.Value() ==
            Representative(old(value.Value()), old(exponent.Value()), old(state.Modulus()), state.modulus.length)
  {
    hide *;
    StateParts(out, state);
    StateParts(value, state);
    NormalIsPadded(exponent);
    ghost var base, e := value.Value(), exponent.Value();
    FirstPower(value, state);
    var table := BuildTable(value, state, base);
    var result := Exponentiate(exponent, table, state, base);
    HoldsFits(result, state, base, e);
    Copy(result, out);
  }

  lemma FirstPower(value: RsaNumber, state: RsaState)
    requires state.Valid() && value.Normal() && value.Value() < state.Modulus()
    ensures Holds(value, state, value.Value(), 1)
  {
    assert Pow(value.Value(), 1) == value.Value() * Pow(value.Value(), 0);
    DivModUnique(value.Value(), state.Modulus(), 0, value.Value());
  }

  method Copy(from: RsaNumber, to: RsaNumber)
    requires from != to && from.data != to.data && from.data.Length == to.data.Length && from.Normal()
    modifies to, to.data
    ensures to.Normal() && to.Value() == from.Value()
  {
    to.length := from.length;
    for i := 0 to from.data.Length
      invariant to.length == from.length
      invariant forall k :: 0 <= k < i ==> to.data[k] == from.data[k]
    {
      to.data[i] := from.data[i];
    }
    assert to.data[..] == from.data[..];
  }

  /** The square of 2^32 + 1, as a modulus with its reciprocal. */
  lemma SquareModulus()
    ensures var m := 0x10000000200000001;
            && Val([1, 2, 1]) == m && Val([4, 0xfffffffc, 2, 0xfffffffe]) == P(6) / m
            && Reciprocal(m, 3, P(6) / m) && P(6) % m != 0
    ensures Val([1, 1]) == 0x100000001 && Val([2]) == 2 && Pow(0x100000001, 2) == 0x10000000200000001
  {
    SmallWeights();
    SmallValue(1, 2, 1, 0);
    SmallValue(4, 0xfffffffc, 2, 0xfffffffe);
    SmallValue(1, 1, 0, 0);
    SmallValue(2, 0, 0, 0);
    hide P, Val;
    DivModUnique(P(6), 0x10000000200000001, 0xfffffffe00000002fffffffc00000004,
      0x1000000000000000000000000000000000000000000000000 - 0xfffffffe00000002fffffffc00000004 * 0x10000000200000001);
    assert Pow(0x100000001, 1) == 0x100000001 * Pow(0x100000001, 0);
  }

  /** The key with that modulus and the public exponent 2. */
  method SquareKey() returns (state: RsaState)
    ensures fresh(state) && fresh(state.modulus) && fresh(state.modulus.data) && fresh(state.mu) && fresh(state.mu.data)
    ensures state.Valid() && state.modulus.length == 3 && state.Modulus() == 0x10000000200000001
            && state.maxNumberLength == 9
    ensures state.publicKey != null && fresh(state.publicKey) && fresh(state.publicKey.data)
    ensures state.publicKey.Normal() && state.publicKey.data.Length == 9 && state.publicKey.Value() == 2
  {
    hide Val, P, Pow, Reciprocal;
    SquareModulus();
    SmallWeights();
    var modulus := CreateFromLimbs([1, 2, 1], 9);
    var mu := CreateFromLimbs([4, 0xfffffffc, 2, 0xfffffffe], 9);
    NormalLengthIs(modulus, 3);
    state := new RsaState(modulus, mu);
    var exponent := CreateFromLimbs([2], 9);
    state.publicKey := exponent;
  }

  /** The modulus can come out for a zero residue: value 2^32 + 1 and exponent 2 under the modulus (2^32 + 1)^2. */
  method ModulusForZero() returns (limbs: seq<u32>)
    ensures Val(limbs) == 0x10000000200000001
  {
    hide Val, P, Pow, Reciprocal, Cong;
    SquareModulus();
    var state := SquareKey();
    var value := CreateFromLimbs([1, 1], 9);
    PaddedValue(value);
    var out := new RsaNumber(9);
    var _ := Process(state, value, PublicKey, out);
    DivModUnique(0x10000000200000001, 0x10000000200000001, 1, 0);
    limbs := out.data[..];
  }
}
