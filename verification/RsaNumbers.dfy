/** The multi-limb numbers of the RSA engine and their in-place operations. */
module RsaNumbers {
  import opened Arithmetic
  import opened Limbs

  /** A number in a fixed buffer of limbs; only the low `length` limbs are in use. */
  class RsaNumber {
    var length: nat
    const data: array<u32>

    constructor (capacity: nat)
      ensures fresh(data) && data.Length == capacity && length == 0
      ensures Normal() && Value() == 0
    {
      data := new u32[capacity](_ => 0);
      length := 0;
      new;
      ValZeros(data[..]);
    }

    /** Every limb outside the used part is zero. */
    ghost predicate Padded()
      reads this, data
    {
      length <= data.Length && forall i :: length <= i < data.Length ==> data[i] == 0
    }

    /** Padded, and without leading zero limbs (the number zero may use no limb or one). */
    ghost predicate Normal()
      reads this, data
    {
      Padded() && (length > 1 ==> data[length - 1] != 0)
    }

    ghost function Value(): nat
      reads data
    {
      Val(data[..])
    }
  }

  lemma PaddedValue(a: RsaNumber)
    requires a.Padded()
    ensures a.Value() == Val(a.data[..a.length]) < P(a.length)
  {
    ValTrailingZeros(a.data[..], a.length);
    assert a.data[..][..a.length] == a.data[..a.length];
  }

  lemma NormalIsPadded(a: RsaNumber)
    requires a.Normal()
    ensures a.Padded() && a.length <= a.data.Length
  {}

  /** A normal number with more than one limb is at least the weight of its top limb. */
  lemma NormalLowerBound(a: RsaNumber)
    requires a.Normal() && a.length > 1
    ensures P(a.length - 1) <= a.Value()
  {
    ValTopLimb(a.data[..], a.length - 1);
  }

  /** The length of a normal number is fixed by its value. */
  lemma NormalLengthBound(a: RsaNumber, n: nat)
    requires a.Normal() && a.Value() < P(n) && n >= 1
    ensures a.length <= n
  {
    if a.length > n {
      NormalLowerBound(a);
      PMonotone(n, a.length - 1);
    }
  }

  /** The length of a normal number of more than one limb lies where its value lies. */
  lemma NormalLengthIs(a: RsaNumber, n: nat)
    requires a.Normal() && n >= 1 && P(n - 1) <= a.Value() < P(n)
    ensures a.length == n
  {
    NormalLengthBound(a, n);
    PaddedValue(a);
    if a.length < n { PMonotone(a.length, n - 1); }
  }

  method Clear(a: RsaNumber)
    modifies a.data
    ensures forall i :: 0 <= i < a.data.Length ==> a.data[i] == 0
  {
    for i := 0 to a.data.Length
      invariant forall k :: 0 <= k < i ==> a.data[k] == 0
    {
      a.data[i] := 0;
    }
  }

  method Normalize(a: RsaNumber)
    requires a.length <= a.data.Length
    modifies a, a.data
    ensures a.Normal() && a.length <= old(a.length)
    ensures old(a.length) >= 1 ==> a.length >= 1
    ensures a.Value() == Val(old(a.data[..a.length]))
    ensures forall i :: 0 <= i < old(a.length) ==> a.data[i] == old(a.data[i])
  {
    for i := a.length to a.data.Length
      invariant a.length == old(a.length) <= i
      invariant forall k :: 0 <= k < a.length ==> a.data[k] == old(a.data[k])
      invariant forall k :: a.length <= k < i ==> a.data[k] == 0
    {
      a.data[i] := 0;
    }
    assert a.data[..a.length] == old(a.data[..a.length]);
    PaddedValue(a);
    while a.length > 1 && a.data[a.length - 1] == 0
      invariant a.Padded() && a.length <= old(a.length)
      invariant old(a.length) >= 1 ==> a.length >= 1
      invariant a.Value() == Val(old(a.data[..a.length]))
      invariant forall i :: 0 <= i < old(a.length) ==> a.data[i] == old(a.data[i])
    {
      a.length := a.length - 1;
    }
  }

  /** A number with the given limbs, cut to the capacity. */
  method CreateFromLimbs(limbs: seq<u32>, capacity: nat) returns (a: RsaNumber)
    ensures fresh(a) && fresh(a.data) && a.data.Length == capacity && a.Normal()
    ensures a.Value() == Val(limbs[..if |limbs| > capacity then capacity else |limbs|])
    ensures |limbs| <= capacity ==> a.Value() == Val(limbs)
  {
    var n := if |limbs| > capacity then capacity else |limbs|;
    a := new RsaNumber(capacity);
    a.length := n;
    for i := 0 to n
      invariant a.length == n && forall k :: 0 <= k < i ==> a.data[k] == limbs[k]
    {
      a.data[i] := limbs[i];
    }
    assert a.data[..n] == limbs[..n];
    assert |limbs| <= capacity ==> limbs[..n] == limbs;
    Normalize(a);
  }

  /**
   * The comparison is exact, except that a zero in no limbs counts as
   * less than a zero in one limb.
   */
  method IsLessThan(a: RsaNumber, b: RsaNumber) returns (r: bool)
    requires a.Normal() && b.Normal() && a.data.Length == b.data.Length
    ensures r <==> a.Value() < b.Value() || (a.length == 0 && b.length == 1 && b.Value() == 0)
  {
    PaddedValue(a);
    PaddedValue(b);
    if a.length < b.length {
      PMonotone(a.length, b.length - 1);
      if b.data[b.length - 1] != 0 {
        ValTopLimb(b.data[..], b.length - 1);
      } else {
        assert forall i :: 0 <= i < b.data.Length ==> b.data[i] == 0;
        ValZeros(b.data[..]);
      }
      return true;
    }
    if a.length > b.length {
      if a.length > 1 {
        PMonotone(b.length, a.length - 1);
        NormalLowerBound(a);
      }
      return false;
    }
    var i := a.length;
    while i > 0
      invariant 0 <= i <= a.length
      invariant forall k :: i <= k < a.data.Length ==> a.data[k] == b.data[k]
    {
      i := i - 1;
      assert a.data[..][i + 1..] == b.data[..][i + 1..];
      if a.data[i] < b.data[i] {
        ValLess(a.data[..], b.data[..], i);
        return true;
      }
      if a.data[i] > b.data[i] {
        ValLess(b.data[..], a.data[..], i);
        return false;
      }
    }
    assert a.data[..] == b.data[..];
    return false;
  }

  lemma BorrowStep(v: int, c: int, d: int, y: int, p: int, d': int, c': int)
    requires d - y - c == d' - c' * BASE
    ensures v + (d' - d) * p - c' * (BASE * p) == (v - c * p) - y * p
  {
    calc {
      v + (d' - d) * p - c' * (BASE * p);
      { MulAssoc(c', BASE, p); }
      v + (d' - d) * p - c' * BASE * p;
      { MulDistribute(d' - d, -(c' * BASE), p); }
      v + (d' - d - c' * BASE) * p;
      { assert d' - d - c' * BASE == -c - y; }
      v + (-c - y) * p;
      { MulDistribute(-c, -y, p); }
      (v - c * p) - y * p;
    }
  }

  /**
   * The borrow loop shared by both subtractions, over the low n limbs;
   * the final borrow is dropped. The source's output argument is always its first operand.
   */
  method SubtractLimbs(a: array<u32>, b: array<u32>, n: nat) returns (ghost borrow: int)
    requires a != b && n <= a.Length && n <= b.Length
    modifies a
    ensures 0 <= borrow <= 1
    ensures Val(a[..]) - borrow * P(n) == old(Val(a[..])) - Val(b[..n])
    ensures forall i :: n <= i < a.Length ==> a[i] == old(a[i])
  {
    var carry := 0;
    for i := 0 to n
      invariant 0 <= carry <= 1
      invariant Val(a[..]) - carry * P(i) == old(Val(a[..])) - Val(b[..i])
      invariant forall k :: i <= k < a.Length ==> a[k] == old(a[k])
    {
      var value := a[i] - b[i] - carry;
      ghost var before := a[..];
      ghost var d := if value < 0 then value + BASE else value;
      ghost var c := carry;
      ValUpdate(before, i, d);
      BorrowStep(Val(before), c, before[i], b[i], P(i), d, if value < 0 then 1 else 0);
      PStep(i);
      assert b[..i + 1] == b[..i] + [b[i]];
      ValAppend(b[..i], b[i]);
      a[i] := value % BASE;
      assert a[..] == before[i := d];
      carry := if value < 0 then 1 else 0;
    }
    borrow := carry;
  }

  /** a := (a - b) mod BASE^n, on the low n limbs. */
  method SubtractFixedLength(a: RsaNumber, b: RsaNumber, n: nat)
    requires a != b && a.data != b.data && a.data.Length == b.data.Length
    requires a.length <= a.data.Length && 1 <= n <= a.data.Length
    modifies a, a.data
    ensures a.Normal() && 1 <= a.length <= n
    ensures a.Value() == (old(a.Value()) - b.Value()) % P(n)
  {
    hide Val, P;
    ghost var v, w := Val(a.data[..]), Val(b.data[..]);
    ValSplit(b.data[..], n);
    assert b.data[..][..n] == b.data[..n];
    ghost var h := Val(b.data[..][n..]);
    ghost var borrow := SubtractLimbs(a.data, b.data, n);
    a.length := n;
    ValSplit(a.data[..], n);
    assert a.data[..][..n] == a.data[..n];
    MulDistribute(borrow, h, P(n));
    assert a.Value() == v - w + (borrow + h) * P(n);
    ModShift(v - w, borrow + h, P(n));
    Normalize(a);
  }

  /** The difference on n limbs, without the last borrow. */
  ghost function Difference(v: int, w: int, n: nat): int
  {
    (v - w) % P(n)
  }

  /**
   * a -= b on the limbs of a. The source only logs when a is below b; the last borrow is then dropped, so the
   * difference is taken modulo the weight above a's limbs.
   */
  method Subtract(a: RsaNumber, b: RsaNumber)
    requires a != b && a.data != b.data && a.data.Length == b.data.Length
    requires a.Padded() && a.length >= 1
    modifies a, a.data
    ensures a.Normal() && 1 <= a.length <= old(a.length)
    ensures a.Value() == Difference(old(a.Value()), b.Value(), old(a.length))
    ensures old(a.Value()) >= b.Value() ==> a.Value() == old(a.Value()) - b.Value()
  {
    hide Val, P, Pow;
    PaddedValue(a);
    ghost var v, w, p := a.Value(), b.Value(), P(a.length);
    if v >= w { DivModUnique(v - w, p, 0, v - w); }
    SubtractFixedLength(a, b, a.length);
  }

  lemma RowStep(v: int, c: int, o: int, x: int, y: int, t: int, w: int, u: int, z: int)
    requires t == c + o + x * y
    ensures v + (t % BASE - o) * (u * w) + (t / BASE) * (BASE * (u * w)) + x * z * w
         == v + c * (u * w) + x * (z + y * u) * w
  {
    var hi, lo, p := t / BASE, t % BASE, u * w;
    assert t == hi * BASE + lo;
    calc {
      (lo - o) * p + hi * (BASE * p);
      { MulAssoc(hi, BASE, p); }
      (lo - o) * p + hi * BASE * p;
      { MulDistribute(lo - o, hi * BASE, p); }
      (lo - o + hi * BASE) * p;
      { assert lo - o + hi * BASE == c + x * y; }
      (c + x * y) * p;
      { MulDistribute(c, x * y, p); }
      c * p + x * y * p;
      { MulAssoc(x * y, u, w); MulAssoc(x, y, u); }
      c * p + x * (y * u) * w;
    }
    MulDistribute(z, y * u, x);
    MulDistribute(x * z, x * (y * u), w);
  }

  lemma LimbProduct(x: u32, y: u32)
    ensures 0 <= x * y <= (BASE - 1) * (BASE - 1)
  {
    MulMonotone(x, 0, y);
    MulMonotone(x, y, BASE - 1);
    MulMonotone(BASE - 1, x, BASE - 1);
  }

  /** One limb of a product row: the carry and the stored limb account for x * b[j] at weight i + j. */
  lemma RowLimb(out: seq<u32>, i: nat, j: nat, b: seq<u32>, x: u32, c: int, t: int)
    requires j < |b| && i + j < |out| && t == c + out[i + j] + x * b[j]
    ensures Val(out[i + j := t % BASE]) + (t / BASE) * P(i + j + 1) + x * Val(b[..j]) * P(i)
         == Val(out) + c * P(i + j) + x * Val(b[..j + 1]) * P(i)
  {
    hide Val, P, Pow;
    ValUpdate(out, i + j, t % BASE);
    PAdd(j, i);
    PStep(i + j);
    assert b[..j + 1] == b[..j] + [b[j]];
    ValAppend(b[..j], b[j]);
    RowStep(Val(out), c, out[i + j], x, b[j], t, P(i), P(j), Val(b[..j]));
  }

  /** The inner loop of both products: out += x * b * BASE^i; no carry exceeds 64 bits. */
  method MultiplyRow(b: array<u32>, n: nat, x: u32, out: array<u32>, i: nat)
    requires b != out && n <= b.Length && i + n < out.Length && out[i + n] == 0
    modifies out
    ensures Val(out[..]) == old(Val(out[..])) + x * Val(b[..n]) * P(i)
    ensures forall k :: i + n < k < out.Length ==> out[k] == old(out[k])
  {
    var carry: u64 := 0;
    assert Val(b[..][..0]) == 0;
    hide *;
    for j := 0 to n
      invariant carry < BASE
      invariant Val(out[..]) + carry * P(i + j) == old(Val(out[..])) + x * Val(b[..][..j]) * P(i)
      invariant forall k :: i + n <= k < out.Length ==> out[k] == old(out[k])
    {
      LimbProduct(x, b[j]);
      ghost var before, c := out[..], carry;
      carry := carry + (out[i + j] + x * b[j]);
      RowLimb(before, i, j, b[..], x, c, carry);
      var limb: u32 := carry % BASE;
      out[i + j] := limb;
      assert out[..] == before[i + j := limb];
      carry := carry / BASE;
    }
    ghost var before := out[..];
    var top: u32 := carry;
    ValUpdate(before, i + n, top);
    out[i + n] := top;
    assert out[..] == before[i + n := top];
    assert b[..n] == b[..][..n];
  }

  lemma ProductStep(v: int, x: int, p: int, w: int)
    ensures (v + x * p) * w == v * w + x * w * p
  {
    MulDistribute(v, x * p, w);
    MulAssoc(x, p, w);
    MulAssoc(x, w, p);
  }

  /** The double loop of both products, over a cleared buffer: out := a[lo..lo+n] * b[..m]. */
  method MultiplyLimbs(a: array<u32>, lo: nat, n: nat, b: array<u32>, m: nat, out: array<u32>)
    requires a != out && b != out && lo + n <= a.Length && m <= b.Length && n + m <= out.Length
    requires forall k :: 0 <= k < out.Length ==> out[k] == 0
    modifies out
    ensures Val(out[..]) == Val(a[lo..lo + n]) * Val(b[..m])
    ensures forall k :: n + m <= k < out.Length ==> out[k] == 0
  {
    ValZeros(out[..]);
    assert Val(a[lo..lo]) == 0;
    hide *;
    for i := 0 to n
      invariant Val(out[..]) == Val(a[lo..lo + i]) * Val(b[..m])
      invariant forall k :: i + m <= k < out.Length ==> out[k] == 0
    {
      assert a[lo..lo + i + 1] == a[lo..lo + i] + [a[lo + i]];
      ValAppend(a[lo..lo + i], a[lo + i]);
      ProductStep(Val(a[lo..lo + i]), a[lo + i], P(i), Val(b[..m]));
      MultiplyRow(b, m, a[i + lo], out, i);
    }
  }

  /** out := (a / BASE^shift) * b. */
  method Multiply(a: RsaNumber, shift: nat, b: RsaNumber, out: RsaNumber)
    requires out != a && out != b && out.data != a.data && out.data != b.data
    requires a.Padded() && b.Padded()
    requires shift < a.length ==> a.length - shift + b.length <= out.data.Length
    requires out.data.Length >= 1
    modifies out, out.data
    ensures out.Normal() && out.Value() == (a.Value() / P(shift)) * b.Value()
  {
    Clear(out);
    PaddedValue(a);
    PaddedValue(b);
    if shift >= a.length {
      ValZeros(out.data[..]);
      PMonotone(a.length, shift);
      DivModUnique(a.Value(), P(shift), 0, a.Value());
      out.length := 1;
      return;
    }
    var n := a.length - shift;
    ValSplit(a.data[..a.length], shift);
    assert a.data[..a.length][shift..] == a.data[shift..shift + n];
    MultiplyLimbs(a.data, shift, n, b.data, b.length, out.data);
    out.length := n + b.length;
    PaddedValue(out);
    Normalize(out);
  }

  /** out := a * a. */
  method Square(a: RsaNumber, out: RsaNumber)
    requires out != a && out.data != a.data
    requires a.Padded() && 2 * a.length <= out.data.Length
    modifies out, out.data
    ensures out.Normal() && out.Value() == a.Value() * a.Value()
  {
    Clear(out);
    PaddedValue(a);
    assert a.data[..a.length] == a.data[0..0 + a.length];
    MultiplyLimbs(a.data, 0, a.length, a.data, a.length, out.data);
    out.length := 2 * a.length;
    PaddedValue(out);
    Normalize(out);
  }
}
