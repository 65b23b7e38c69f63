/**
 * Moduli at which the division's add-back loses carries: with a wrong reciprocal, and with a right one all the same.
 */
module RsaExamples {
  import opened Arithmetic
  import opened Limbs
  import opened Bits
  import opened RsaBarrett
  import opened RsaDivision
  import opened RsaReciprocal

  lemma LeadingZerosIs(x: u32, s: nat)
    requires x > 0 && s <= 31 && Size(31 - s) <= x < Size(32 - s)
    ensures LeadingZeros(x) == s
  {
    hide Size;
    var t := LeadingZeros(x);
    if t < s { SizeMonotone(32 - s, 31 - t); }
    if t > s { SizeMonotone(32 - t, 31 - s); }
  }

  lemma SmallSizes()
    ensures Size(1) == 2 && Size(2) == 4 && Size(30) == 0x4000_0000 && Size(31) == 0x8000_0000
  {
    SizeOf32();
    hide Size;
    SizeZero();
    SizeStep(0);
    SizeStep(1);
    SizeStep(30);
    SizeStep(31);
  }

  /** A sum of five limbs. */
  lemma FiveLimbs(a: nat, b: nat, j: nat)
    ensures Added(a, b, j, 5) ==
            SumLimb(a, b, j, 0) + SumLimb(a, b, j, 1) * BASE + SumLimb(a, b, j, 2) * 0x10000000000000000
            + SumLimb(a, b, j, 3) * 0x1000000000000000000000000
            + SumLimb(a, b, j, 4) * 0x100000000000000000000000000000000
  {
    SmallWeights();
    hide P, SumLimb;
    assert Added(a, b, j, 1) == SumLimb(a, b, j, 0);
    assert Added(a, b, j, 2) == Added(a, b, j, 1) + SumLimb(a, b, j, 1) * P(1);
    assert Added(a, b, j, 3) == Added(a, b, j, 2) + SumLimb(a, b, j, 2) * P(2);
    assert Added(a, b, j, 4) == Added(a, b, j, 3) + SumLimb(a, b, j, 3) * P(3);
    assert Added(a, b, j, 5) == Added(a, b, j, 4) + SumLimb(a, b, j, 4) * P(4);
  }

  /** A step without add-back. */
  lemma PlainStep(a: nat, b: nat, j: nat, q: nat, r: nat)
    requires P(2) <= b < P(3) && Guess(a, b, 3, j) == q && q * Divisor(b, j) + r == a
    ensures Digit(a, b, 3, j) == q && Left(a, b, 3, j) == r && KeepsRemainder(a, b, 3, j)
    ensures CodeQuotient(a, b, 3, j) == q * P(j) + if j == 0 then 0 else CodeQuotient(r, b, 3, j - 1)
  {
    hide P, Pow, Guess, Divisor, Harmless, AddBack;
  }

  /** The digit from literal limbs. */
  lemma GuessIs(a: nat, b: nat, j: nat, a2: nat, a1: nat, a0: nat, b1: nat, b0: nat)
    requires P(2) <= b < P(3) && b1 >= 1 && Limb(b, 2) == b1 && Limb(b, 1) == b0
    requires Limb(a, j + 3) == a2 && Limb(a, j + 2) == a1 && Limb(a, j + 1) == a0
    ensures Guess(a, b, 3, j) == ThreeByTwo(a2, a1, a0, b1, b0)
  {
    hide P, Pow, Limb, ThreeByTwo;
  }

  // ---------------------------------------------------------------------------
  // 2^65 + 2^33 + 3: the reciprocal is wrong
  // ---------------------------------------------------------------------------

  lemma HarmfulStepLimbs()
    ensures var a, b := 0x60000000e0000000c00000000000000000000000, 0x8000000080000000c0000000;
            && Limb(a, 0) == 0 && Limb(a, 1) == 0 && Limb(a, 2) == 0xc000_0000 && Limb(a, 3) == 0xe000_0000
            && Limb(a, 4) == 0x6000_0000
            && Limb(b, 0) == 0xc000_0000 && Limb(b, 1) == 0x8000_0000 && Limb(b, 2) == 0x8000_0000 && Limb(b, 3) == 0
    ensures Length(0x60000000e0000000c00000000000000000000000) == 5
            && Length(0x600000006000000040000000c000000000000000) == 5
  {
    SmallWeights();
    hide P, Pow;
    LengthIs(0x60000000e0000000c00000000000000000000000, 5);
    LengthIs(0x600000006000000040000000c000000000000000, 5);
  }

  /** The third step: the add-back wraps below the top limb of the sum, and the remainder is lost. */
  lemma HarmfulStep()
    ensures var a, b := 0x60000000e0000000c00000000000000000000000, 0x8000000080000000c0000000;
            && P(2) <= b < P(3) && Guess(a, b, 3, 1) == 0xc000_0001
            && Digit(a, b, 3, 1) == 0xc000_0000 && Left(a, b, 3, 1) == 0xffffffff7fffffff300000000000000000000000
  {
    SmallWeights();
    HarmfulStepLimbs();
    hide P, Pow, Limb, Length;
    var a, b, w :=
      0x60000000e0000000c00000000000000000000000, 0x8000000080000000c0000000,
      0x600000006000000040000000c000000000000000;
    GuessIs(a, b, 1, 0x6000_0000, 0xe000_0000, 0xc000_0000, 0x8000_0000, 0x8000_0000);
    hide Guess;
    FiveLimbs(a, b, 1);
    assert AddBack(a, b, 1) == w;
    hide AddBack;
    assert Divisor(b, 1) == 0x8000000080000000c000000000000000;
    hide Divisor;
    DivModUnique(w - 0xc000_0001 * 0x8000000080000000c000000000000000, P(5), -1,
      0xffffffff7fffffff300000000000000000000000);
  }

  lemma WrongGuesses()
    ensures var b := 0x8000000080000000c0000000;
            && P(2) <= b < P(3)
            && Guess(0x40000000000000000000000000000000000000000000000000000000, b, 3, 3) == 0x7fff_ffff
            && Guess(0x4000000020000000c0000000000000000000000000000000, b, 3, 2) == 0x7fff_ffff
            && Guess(0xffffffff7fffffff300000000000000000000000, b, 3, 0) == 0xffff_fffd
  {
    SmallWeights();
    hide P, Pow;
    var b := 0x8000000080000000c0000000;
    GuessIs(0x40000000000000000000000000000000000000000000000000000000, b, 3, 0x4000_0000, 0, 0, 0x8000_0000,
      0x8000_0000);
    GuessIs(0x4000000020000000c0000000000000000000000000000000, b, 2, 0x4000_0000, 0x2000_0000, 0xc000_0000,
      0x8000_0000, 0x8000_0000);
    GuessIs(0xffffffff7fffffff300000000000000000000000, b, 0, 0x7fff_ffff, 0x3000_0000, 0, 0x8000_0000, 0x8000_0000);
  }

  lemma WrongDigits()
    ensures var b := 0x8000000080000000c0000000;
            && P(2) <= b < P(3)
            && CodeQuotient(0x40000000000000000000000000000000000000000000000000000000, b, 3, 3) ==
               0x7fffffff7fffffffc0000000fffffffd
  {
    SmallWeights();
    HarmfulStep();
    WrongGuesses();
    hide P, Pow, AddBack, Limb, Guess;
    var b := 0x8000000080000000c0000000;
    var a2, a1 := 0x4000000020000000c0000000000000000000000000000000, 0x60000000e0000000c00000000000000000000000;
    var a0 := 0xffffffff7fffffff300000000000000000000000;
    PlainStep(0x40000000000000000000000000000000000000000000000000000000, b, 3, 0x7fff_ffff, a2);
    PlainStep(a2, b, 2, 0x7fff_ffff, a1);
    PlainStep(a0, b, 0, 0xffff_fffd, 0xffffffff0000000030000000c000000240000000);
    hide Left, Digit, Divisor;
    assert CodeQuotient(a1, b, 3, 1) == 0xc000_0000 * P(1) + CodeQuotient(a0, b, 3, 1 - 1);
  }

  /** The reciprocal computed for the modulus 2^65 + 2^33 + 3 is two too small in its last digit. */
  lemma WrongReciprocal()
    ensures var m := 0x20000000200000003;
            && P(2) < m < P(3) && CodeReciprocal(m, 3) == 0x7fffffff7fffffffc0000000fffffffd
            && P(6) / m == 0x7fffffff7fffffffc0000000ffffffff && !RecoversModulus(m, 3)
  {
    SmallWeights();
    SmallSizes();
    var m := 0x20000000200000003;
    hide P, Pow, Size, LeadingZeros;
    LeadingZerosIs(2, 30);
    assert Limb(m, 2) == 2;
    assert ShiftOf(m, 3) == 30;
    hide ShiftOf, CodeQuotient, Recovers;
    WrongDigits();
    DivModUnique(P(6), m, 0x7fffffff7fffffffc0000000ffffffff,
      0x1000000000000000000000000000000000000000000000000 - 0x7fffffff7fffffffc0000000ffffffff * m);
    ReciprocalIff(m, 3);
  }

  // ---------------------------------------------------------------------------
  // 2^65 - 2^33 + 1: a remainder is lost, and the reciprocal is right all the same
  // ---------------------------------------------------------------------------

  lemma LuckyStepLimbs()
    ensures var a, b := 0x3fffffffc0000000000000000000000000000000, 0xffffffff0000000080000000;
            && Limb(a, 0) == 0 && Limb(a, 1) == 0 && Limb(a, 2) == 0 && Limb(a, 3) == 0xc000_0000
            && Limb(a, 4) == 0x3fff_ffff
            && Limb(b, 0) == 0x8000_0000 && Limb(b, 1) == 0 && Limb(b, 2) == 0xffff_ffff && Limb(b, 3) == 0
    ensures Length(0x3fffffffc0000000000000000000000000000000) == 5
            && Length(0x3fffffffbfffffff000000008000000000000000) == 5
  {
    SmallWeights();
    hide P, Pow;
    LengthIs(0x3fffffffc0000000000000000000000000000000, 5);
    LengthIs(0x3fffffffbfffffff000000008000000000000000, 5);
  }

  /** The third step loses the remainder here too. */
  lemma LuckyStep()
    ensures var a, b := 0x3fffffffc0000000000000000000000000000000, 0xffffffff0000000080000000;
            && P(2) <= b < P(3) && Guess(a, b, 3, 1) == 0x4000_0000
            && Digit(a, b, 3, 1) == 0x3fff_ffff && Left(a, b, 3, 1) == 0xfffffffffffffffee00000008000000000000000
  {
    SmallWeights();
    LuckyStepLimbs();
    hide P, Pow, Limb, Length;
    var a, b, w :=
      0x3fffffffc0000000000000000000000000000000, 0xffffffff0000000080000000,
      0x3fffffffbfffffff000000008000000000000000;
    GuessIs(a, b, 1, 0x3fff_ffff, 0xc000_0000, 0, 0xffff_ffff, 0);
    hide Guess;
    FiveLimbs(a, b, 1);
    assert AddBack(a, b, 1) == w;
    hide AddBack;
    assert Divisor(b, 1) == 0xffffffff000000008000000000000000;
    hide Divisor;
    DivModUnique(w - 0x4000_0000 * 0xffffffff000000008000000000000000, P(5), -1,
      0xfffffffffffffffee00000008000000000000000);
  }

  lemma LuckyGuesses()
    ensures var b := 0xffffffff0000000080000000;
            && P(2) <= b < P(3)
            && Guess(0x80000000000000000000000000000000000000000000000000000000, b, 3, 3) == 0x8000_0000
            && Guess(0x7fffffffc000000000000000000000000000000000000000, b, 3, 2) == 0x8000_0000
            && Guess(0xfffffffffffffffee00000008000000000000000, b, 3, 0) == 0xffff_ffff
  {
    SmallWeights();
    hide P, Pow;
    var b := 0xffffffff0000000080000000;
    GuessIs(0x80000000000000000000000000000000000000000000000000000000, b, 3, 0x8000_0000, 0, 0, 0xffff_ffff, 0);
    GuessIs(0x7fffffffc000000000000000000000000000000000000000, b, 2, 0x7fff_ffff, 0xc000_0000, 0, 0xffff_ffff, 0);
    GuessIs(0xfffffffffffffffee00000008000000000000000, b, 0, 0xffff_fffe, 0xe000_0000, 0x8000_0000, 0xffff_ffff, 0);
  }

  lemma LuckyDigits()
    ensures var a, b := 0x80000000000000000000000000000000000000000000000000000000, 0xffffffff0000000080000000;
            P(2) <= b < P(3) && CodeQuotient(a, b, 3, 3) == 0x80000000800000003fffffffffffffff
              && !AddBackSafe(a, b, 3, 3)
  {
    SmallWeights();
    LuckyStep();
    LuckyGuesses();
    hide P, Pow, AddBack, Limb, Guess, Harmless;
    var a3, b := 0x80000000000000000000000000000000000000000000000000000000, 0xffffffff0000000080000000;
    var a2, a1 := 0x7fffffffc000000000000000000000000000000000000000, 0x3fffffffc0000000000000000000000000000000;
    var a0 := 0xfffffffffffffffee00000008000000000000000;
    PlainStep(a3, b, 3, 0x8000_0000, a2);
    PlainStep(a2, b, 2, 0x8000_0000, a1);
    PlainStep(a0, b, 0, 0xffff_ffff, 0xffffffff00000000dfffffff0000000080000000);
    StepExact(a1, b, 3, 1);
    assert Divisor(b, 1) == 0xffffffff000000008000000000000000;
    DivModUnique(a3, Divisor(b, 3), 0x8000_0000, a2);
    DivModUnique(a2, Divisor(b, 2), 0x8000_0000, a1);
    DivModUnique(a1, Divisor(b, 1), 0x3fff_ffff, 0xfffffffee00000008000000000000000);
    hide Left, Digit, Divisor;
    assert CodeQuotient(a1, b, 3, 1) == 0x3fff_ffff * P(1) + CodeQuotient(a0, b, 3, 1 - 1);
    assert !AddBackSafe(a1, b, 3, 2 - 1);
    assert !AddBackSafe(a2, b, 3, 3 - 1);
  }

  /** Losing a remainder need not spoil the reciprocal: for 2^65 - 2^33 + 1 the digits after it are right. */
  lemma LuckyReciprocal()
    ensures var m := 0x1fffffffe00000001;
            && P(2) < m < P(3) && !SafeModulus(m, 3) && RecoversModulus(m, 3) && CodeReciprocal(m, 3) == P(6) / m
  {
    SmallWeights();
    SmallSizes();
    var m := 0x1fffffffe00000001;
    hide P, Pow, Size, LeadingZeros;
    SizeZero();
    LeadingZerosIs(1, 31);
    assert Limb(m, 2) == 1;
    assert ShiftOf(m, 3) == 31;
    hide ShiftOf, CodeQuotient, Recovers, AddBackSafe;
    LuckyDigits();
    DivModUnique(P(6), m, 0x80000000800000003fffffffffffffff,
      0x1000000000000000000000000000000000000000000000000 - 0x80000000800000003fffffffffffffff * m);
    ReciprocalIff(m, 3);
  }

  // ---------------------------------------------------------------------------
  // An add-back that wraps and does no harm
  // ---------------------------------------------------------------------------

  /** Limbs [3, 0, 0xc0000000] with [5, 0, 0xc0000000] added back: the top limb wraps, and the remainder is right. */
  lemma HarmlessWrap()
    ensures var a, b := 0xc00000000000000000000003, 0xc00000000000000000000005;
            && P(2) <= b < P(3) && Wraps(a, b, 0, 2) && Harmless(a, b, 0) && Guess(a, b, 3, 0) * Divisor(b, 0) > a
  {
    SmallWeights();
    HarmlessLimbs();
    hide P, Pow, Limb, Length;
    var a, b := 0xc00000000000000000000003, 0xc00000000000000000000005;
    GuessIs(a, b, 0, 0, 0xc000_0000, 0, 0xc000_0000, 0);
    hide Guess;
    HarmlessSum();
    hide AddBack;
    assert Divisor(b, 0) == b;
    hide Divisor;
    DivModUnique(a, b, 0, a);
    assert !Wraps(a, b, 0, 0) && !Wraps(a, b, 0, 1);
  }

  lemma HarmlessSum()
    ensures AddBack(0xc00000000000000000000003, 0xc00000000000000000000005, 0) == 0x800000000000000000000008
  {
    SmallWeights();
    HarmlessLimbs();
    hide P, Pow, Limb, Length;
    var a, b := 0xc00000000000000000000003, 0xc00000000000000000000005;
    assert Added(a, b, 0, 1) == 8;
    assert Added(a, b, 0, 2) == Added(a, b, 0, 1) + SumLimb(a, b, 0, 1) * P(1);
    assert Added(a, b, 0, 3) == Added(a, b, 0, 2) + SumLimb(a, b, 0, 2) * P(2);
  }

  lemma HarmlessLimbs()
    ensures var a, b := 0xc00000000000000000000003, 0xc00000000000000000000005;
            && Limb(a, 0) == 3 && Limb(a, 1) == 0 && Limb(a, 2) == 0xc000_0000 && Limb(a, 3) == 0
            && Limb(b, 0) == 5 && Limb(b, 1) == 0 && Limb(b, 2) == 0xc000_0000
            && Length(a) == 3 && Length(0x800000000000000000000008) == 3
  {
    SmallWeights();
    hide P, Pow;
    LengthIs(0xc00000000000000000000003, 3);
    LengthIs(0x800000000000000000000008, 3);
  }
}
