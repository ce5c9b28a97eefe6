/** test.opt.c: `kdiv_s32_p_23`, the C routine kdiv emits for signed division
    by 23 at the word length 32, and its relation to magic and calculate_kdivs. */
module TestOpt {
  import opened Words
  import opened Bits
  import opened MagicSigned
  import opened Calculators

  /** The constants baked into the routine: the magic number and the shift. */
  const M23: i32 := -1307163959
  const S23: nat := 4

  /** `kdiv_s32_p_23(n)`: the signed 64-bit product M * n, its high word,
      `q + n` (the correction for d > 0 and M < 0), the shift by 4, and the
      sign term `c = n >> 31`, an arithmetic shift of an `int`. None of the
      `int` additions overflows. The quotient keeps the sign of the dividend. */
  function KdivS32P23(n: i32): (r: i32)
    ensures r < 0 <==> n < 0
  {
    var t := M23 * n;
    HighWord23(n);
    var q := Shr(t, 32);
    var q := q + n;
    ShrBounds(q, S23);
    var q := Shr(q, S23);
    SignShift(n);
    var c := Shr(n, 31);
    q + c
  }

  /** The high word of M * n lies between -n and 0 (n >= 0) or between 0 and
      -n (n < 0), so adding n stays between 0 and n. */
  lemma HighWord23(n: i32)
    ensures var q := Shr(M23 * n, 32);
            (n >= 0 ==> -(n as int) <= q <= 0) && (n < 0 ==> 0 <= q < -(n as int))
  {
    Pow2Low();
    var x := M23 * n;
    if n >= 0 {
      MulMonotone(n, -W32, M23);
      DivRange(x, W32, -(n as int), 1);
    } else {
      var a, b := -(n as int), -(M23 as int);
      MulMonotone(a, 1, b);
      MulMonotone(a, b, W32 - 1);
      DivRange(x, W32, 0, a);
    }
  }

  /** magic(23): the loop stops at p = 36, with M = 2^36/23 + 1 - 2^32
      = -1307163959 and s = 4, the constants of the routine. */
  lemma MagicS23()
    ensures MagicSSpec(23) == Ms(M23, S23)
  {
    var anc := 2147483641;
    Pow2Low();
    DivModUnique(W31, 23, 93368854, 6);
    assert Anc(23) == anc;
    TwentyThreeAt(32, 1, 2, 14, 186737708, 12);
    TwentyThreeAt(33, 2, 4, 28, 373475417, 1);
    TwentyThreeAt(34, 4, 8, 56, 746950834, 2);
    TwentyThreeAt(35, 8, 16, 112, 1493901668, 4);
    TwentyThreeAt(36, 16, 32, 224, 2987803336, 8);
    assert ExitS(23, 32) == 36;
  }

  /** magic's quantities for d = 23 at exponent p, where 2^p = k * 2^32. */
  lemma TwentyThreeAt(p: nat, k: nat, q1: int, r1: int, q2: int, r2: int)
    requires Pow2(p) == k * W32 && Anc(23) == 2147483641
    requires k * W32 == 2147483641 * q1 + r1 && 0 <= r1 < 2147483641
    requires k * W32 == 23 * q2 + r2 && 0 <= r2 < 23
    ensures Q1S(23, p) == q1 && R1S(23, p) == r1 && Q2S(23, p) == q2 && R2S(23, p) == r2
  {
    DivModUnique(k * W32, 2147483641, q1, r1);
    DivModUnique(k * W32, 23, q2, r2);
  }

  /** 23 is not a power of two, so calculate_kdivs takes the multiply-high
      sequence. */
  lemma GeneralCase23()
    ensures CaseS(23) == MulHighS
  {
    assert Pow2(4) == 16 && Pow2(5) == 32;
    BetweenPowers(23, 4);
  }

  /** The routine computes what calculate_kdivs computes with its constants, for
      every dividend: the `int` sign term -1 and the `unsigned int` sign term
      0xFFFF_FFFF of calculate_kdivs give the same sum. */
  lemma MatchesCalculator(n: i32)
    ensures CalcS(M23, S23, n, 23) == Ok(KdivS32P23(n))
  {
    GeneralCase23();
    CalcSMulHigh(M23, S23, n, 23);
    RoutinePath(n);
  }

  /** The multiply-high sequence with the routine's constants is the routine. */
  lemma RoutinePath(n: i32)
    ensures MulHighPath(M23, S23, n, 23, ToU32(Shr(n, 31))) == KdivS32P23(n)
  {
    var q := Shr(M23 * n, 32);
    HighSum23(n);
    PathFromHigh(M23, S23, n, 23, ToU32(Shr(n, 31)), q + n);
    KdivSteps(n);
    SignTermsAgree(Shr(q + n, S23), n);
  }

  /** The high word plus the dividend, shifted by 4, stays within `int` and is
      non-negative for a non-negative dividend. */
  lemma HighSum23(n: i32)
    ensures var q := Shr(M23 * n, 32);
            HighWordS(M23, n) == q && AddSub(q, M23, n, 23) == q + n
    ensures var x := Shr(Shr(M23 * n, 32) + n, S23);
            -W31 < x < W31 && (n >= 0 ==> x >= 0)
  {
    HighWord23(n);
    var q := Shr(M23 * n, 32);
    assert HighWordS(M23, n) == q;
    ShrBounds(q + n, S23);
  }

  /** Adding the `unsigned int` sign term and reading the sum back as an `int`
      is adding the `int` sign term. */
  lemma SignTermsAgree(x: int, n: i32)
    requires -W31 < x < W31 && (n >= 0 ==> x >= 0)
    ensures ToS32(x + ToU32(Shr(n, 31))) == x + Shr(n, 31)
  {
    SignTerm(n);
    SignShift(n);
    if n < 0 {
      ToS32Congruent(x + (W32 - 1), x - 1);
    }
  }

  /** The routine's steps, composed. */
  lemma KdivSteps(n: i32)
    ensures KdivS32P23(n) == Shr(Shr(M23 * n, 32) + n, S23) + Shr(n, 31)
  {
  }

  /** For every non-negative dividend the routine returns n / 23. */
  lemma NonNegativeExact(n: i32)
    requires n >= 0
    ensures KdivS32P23(n) == n / 23
  {
    MagicS23();
    CalcSExact(23, n);
    MatchesCalculator(n);
  }

  /** For every negative dividend, -2^31 included, the routine returns two less
      than C's `n / 23`: the arithmetic sign term subtracts 1 where 1 is to be added. */
  lemma NegativeOffByTwo(n: i32)
    requires n < 0
    ensures KdivS32P23(n) == TruncDiv(n, 23) - 2
  {
    MagicS23();
    GeneralCase23();
    SignTermOffByTwo(23, n);
    MatchesCalculator(n);
  }

  /** n = 100 gives 4; n = -1 gives -2 where C's division gives 0; n = -23
      gives -3 where C's division gives -1. */
  lemma Examples()
    ensures KdivS32P23(100) == 4
    ensures KdivS32P23(-1) == -2 && TruncDiv(-1, 23) == 0
    ensures KdivS32P23(-23) == -3 && TruncDiv(-23, 23) == -1
  {
    NonNegativeExact(100);
    NegativeOffByTwo(-1);
    NegativeOffByTwo(-23);
  }

  /** With the sign bit read by a logical shift, as the `shri` of kdiv.c's
      notes intends, the same constants give C's division for every dividend. */
  lemma LogicalSignTermExact(n: i32)
    ensures CalcSLogical(M23, S23, n, 23) == Ok(TruncDiv(n, 23))
  {
    MagicS23();
    GeneralCase23();
    CalcSLogicalExact(23, n);
  }
}
