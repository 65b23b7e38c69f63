/** The two exponents of a key undo each other. */
module RsaSignature {
  import opened Arithmetic
  import opened Limbs
  import opened RsaNumbers
  import opened RsaBarrett
  import opened RsaProcess

  /** Raising to the power n changes no residue modulo m. */
  ghost predicate Fixes(n: nat, m: int)
    requires m > 1
  {
    forall x: nat :: x < m ==> Cong(Pow(x, n), x, m)
  }

  lemma {:induction false} PowPow(b: int, d: nat, e: nat)
    ensures d * e >= 0 && Pow(b, d * e) == Pow(Pow(b, d), e)
  {
    MulMonotone(e, 0, d);
    if e > 0 {
      PowPow(b, d, e - 1);
      MulDistribute(e - 1, 1, d);
      MulMonotone(e - 1, 0, d);
      PowAdd(b, d, d * (e - 1));
    }
  }

  lemma {:induction false} CongPow(x: int, y: int, e: nat, m: int)
    requires m > 0 && Cong(x, y, m)
    ensures Cong(Pow(x, e), Pow(y, e), m)
  {
    if e > 0 {
      CongPow(x, y, e - 1, m);
      CongMul(x, y, Pow(x, e - 1), Pow(y, e - 1), m);
    }
  }

  lemma {:induction false} PowZero(e: nat)
    ensures Pow(0, e) == if e == 0 then 1 else 0
  {}

  /** A product of exponents that fixes every residue has no zero factor. */
  lemma FixesPositive(d: nat, e: nat, m: int)
    requires m > 1 && Fixes(d * e, m)
    ensures d > 0 && e > 0
  {
    if d == 0 || e == 0 {
      assert d * e == 0;
      assert Cong(Pow(0, d * e), 0, m);
      DivModUnique(1, m, 0, 1);
      DivModUnique(0, m, 0, 0);
    }
  }

  /** The first power r of a value x stays below the modulus, and its second power is congruent to x. */
  lemma Undone(x: nat, d: nat, e: nat, m: int, k: nat, r: int)
    requires m > 1 && x < m && Fixes(d * e, m) && r == Representative(x, d, m, k)
    ensures 0 <= r < m && Cong(Pow(r, e), x, m) && (x == 0 ==> r == 0)
  {
    hide Pow, P, Representative, Fixes;
    RepresentativeBounds(x, d, m, k);
    CongPow(r, Pow(x, d), e, m);
    PowPow(x, d, e);
    FixedAt(x, d * e, m);
    FixesPositive(d, e, m);
    if x == 0 {
      ZeroRepresentative(d, m, k);
    }
    if r == m {
      DivModUnique(m, m, 1, 0);
      CongPow(m, 0, e, m);
      PowZero(e);
      DivModUnique(x, m, 0, x);
    }
  }

  lemma FixedAt(x: nat, n: nat, m: int)
    requires m > 1 && x < m && Fixes(n, m)
    ensures Cong(Pow(x, n), x, m)
  {}

  /** The result of the second operation is the value itself. */
  lemma Recovered(x: nat, r: nat, e: nat, m: int, k: nat)
    requires m > 1 && x < m && e > 0 && Cong(Pow(r, e), x, m) && (x == 0 ==> r == 0)
    ensures Representative(r, e, m, k) == x
  {
    hide Pow, P;
    DivModUnique(x, m, 0, x);
    if x == 0 {
      ZeroRepresentative(e, m, k);
    }
  }

  /** A buffer that neither the key nor its exponents use. */
  ghost predicate Free(state: RsaState, x: RsaNumber)
    reads state
  {
    && state.Separate(x)
    && x != state.publicKey && x != state.privateKey
    && (state.publicKey != null ==> x.data != state.publicKey.data)
    && (state.privateKey != null ==> x.data != state.privateKey.data)
  }

  /** Both exponents are there and below the modulus. */
  ghost predicate Paired(state: RsaState)
    reads state, state.modulus, state.modulus.data, state.mu, state.mu.data
    reads state.publicKey, if state.publicKey == null then {} else {state.publicKey.data}
    reads state.privateKey, if state.privateKey == null then {} else {state.privateKey.data}
  {
    && state.Valid() && state.publicKey != null && state.privateKey != null
    && state.publicKey.Normal() && state.publicKey.data.Length == state.maxNumberLength
    && state.privateKey.Normal() && state.privateKey.data.Length == state.maxNumberLength
    && state.publicKey.Value() < state.Modulus() && state.privateKey.Value() < state.Modulus()
  }

  /**
   * A signature verifies: if the product of the exponents fixes every residue, the private operation followed by the
   * public one succeeds and gives back the value itself, and so does the public one followed by the private one.
   */
  method ThereAndBack(state: RsaState, value: RsaNumber, first: Key, between: RsaNumber, out: RsaNumber)
    returns (ok: bool)
    requires Paired(state) && Fixes(state.privateKey.Value() * state.publicKey.Value(), state.Modulus())
    requires Free(state, value) && Free(state, between) && Free(state, out)
    requires between != value && between.data != value.data && first != OtherKey
    requires value.length <= value.data.Length && Val(value.data[..value.length]) < state.Modulus()
    modifies value, value.data, between, between.data, out, out.data
    ensures ok && out.Normal() && out.Value() == old(Val(value.data[..value.length]))
  {
    hide Pow, P, Val, Representative, Fixes, Reciprocal, Cong;
    ghost var x, m, k := Val(value.data[..value.length]), state.Modulus(), state.modulus.length;
    ghost var d, e := state.privateKey.Value(), state.publicKey.Value();
    FixesPositive(d, e, m);
    assert d * e == e * d;
    ok := Process(state, value, first, between);
    ghost var r := between.Value();
    if first == PrivateKey {
      Undone(x, d, e, m, k, r);
      Recovered(x, r, e, m, k);
      PaddedValue(between);
      ok := Process(state, between, PublicKey, out);
    } else {
      Undone(x, e, d, m, k, r);
      Recovered(x, r, d, m, k);
      PaddedValue(between);
      ok := Process(state, between, PrivateKey, out);
    }
  }
}
