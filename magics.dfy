/** `magic`: the magic multiplier and shift for signed division by a constant d
    (kdiv.c, Warren's algorithm for signed divisors).

    The solver works on |d| and on t = 2^31 (positive d) or 2^31 + 1 (negative d),
    the bound of the dividend magnitudes it must serve. As for magicu, the exact
    quantities at exponent p are functions and the method keeps its `unsigned int`
    variables equal to them. The C demands 2 <= |d|; main also calls it for d = 1
    and d = -1, where it terminates too, so the model accepts every d with
    1 <= |d| <= 2^31 - 1 (abs(-2^31) is undefined in C). */
module MagicSigned {
  import opened Words
  import opened MulShift

  /** `struct ms`: magic number and shift amount. */
  datatype Ms = Ms(M: i32, s: int)

  /** The divisors magic is called with: nonzero, and not -2^31. */
  predicate Divisor(d: int)
  {
    d != 0 && -W31 < d < W31
  }

  /** `ad = abs(d)`. */
  function AD(d: int): (ad: int)
    requires Divisor(d)
    ensures 1 <= ad < W31
  {
    Abs(d)
  }

  /** `t = 2^31 + ((unsigned)d >> 31)`: one more than the largest dividend
      magnitude, 2^31 for d > 0 and 2^31 + 1 for d < 0. */
  function T(d: int): (t: int)
    requires Divisor(d)
    ensures AD(d) < t && t == (if d < 0 then W31 + 1 else W31)
  {
    TopBit(d);
    W31 + ToU32(d) / W31
  }

  /** `(unsigned)d >> 31` is the sign bit of d. */
  lemma TopBit(d: int)
    requires -W31 <= d < W31
    ensures ToU32(d) / W31 == if d < 0 then 1 else 0
  {
    if d < 0 {
      DivBetween(ToU32(d), W31, 1);
    } else {
      DivBetween(d, W31, 0);
    }
  }

  /** `anc = t - 1 - t % ad`, the absolute value of nc. */
  function Anc(d: int): (anc: int)
    requires Divisor(d)
    ensures 2 <= anc <= W31 && anc == Nc(T(d), AD(d))
  {
    AncBounds(d);
    Nc(T(d), AD(d))
  }

  lemma AncBounds(d: int)
    requires Divisor(d)
    ensures 2 <= Nc(T(d), AD(d)) <= W31
  {
    var t, ad := T(d), AD(d);
    assert t % ad <= ad - 1;
  }

  /** 2^p = Q1S * anc + R1S. */
  function Q1S(d: int, p: nat): int requires Divisor(d) { Pow2(p) / Anc(d) }
  function R1S(d: int, p: nat): int requires Divisor(d) { Pow2(p) % Anc(d) }

  /** 2^p = Q2S * ad + R2S. */
  function Q2S(d: int, p: nat): int requires Divisor(d) { Pow2(p) / AD(d) }
  function R2S(d: int, p: nat): int requires Divisor(d) { Pow2(p) % AD(d) }

  /** `delta = ad - r2`. */
  function DeltaS(d: int, p: nat): int requires Divisor(d) { AD(d) - R2S(d, p) }

  /** The test of the do-while loop at exponent p, on the `unsigned int` q1. */
  predicate ContinueS(d: int, p: nat)
    requires Divisor(d)
  {
    var q1 := Q1S(d, p) % W32;
    q1 < DeltaS(d, p) || (q1 == DeltaS(d, p) && R1S(d, p) == 0)
  }

  /** The exponent at which the loop, having reached p, stops. The C has no cap
      on p; the cap at 62 here never acts (ExitStopsS): where q1 does not wrap,
      the test is 2^p <= anc * delta < 2^62, and q1 never wraps. */
  function ExitS(d: int, p: nat): (e: nat)
    requires Divisor(d) && 32 <= p <= 62
    ensures p <= e <= 62
    decreases 62 - p
  {
    if p < 62 && ContinueS(d, p) then ExitS(d, p + 1) else p
  }

  /** The exponent of the loop's first test. */
  const FirstTest: nat := 32

  /** The exponent at which magic's loop stops. */
  function ExitExp(d: int): (e: nat)
    requires Divisor(d)
    ensures 32 <= e <= 62
  {
    ExitS(d, FirstTest)
  }

  /** The loop test fails at the exit exponent: the cap of ExitS never acts. */
  lemma {:induction false} ExitStopsS(d: int, p: nat)
    requires Divisor(d) && 32 <= p <= 62 && Q1S(d, p) < W32
    ensures !ContinueS(d, ExitS(d, p))
    decreases 62 - p
  {
    if ContinueS(d, p) {
      NextS(d, p);
      ExitStopsS(d, p + 1);
    }
  }

  /** What magic returns: the loop ends at p = ExitS(d, 32); M is 2^p/|d| + 1
      converted to `int`, negated for negative d. */
  function MagicSSpec(d: int): Ms
    requires Divisor(d)
  {
    var m := ExactM(d);
    Ms(if d < 0 then ToS32(-(ToS32(m) as int)) else ToS32(m), ExitExp(d) - 32)
  }

  /** The exact multiplier at the exit exponent: 2^p / |d| + 1, before its
      conversion to `int`. */
  function ExactM(d: int): int
    requires Divisor(d)
  {
    Q2S(d, ExitExp(d)) + 1
  }

  /** At p = 32, q1 = 2^32 / anc fits in 32 bits. */
  lemma FirstS(d: int, p: nat)
    requires Divisor(d) && p == 32
    ensures Q1S(d, p) < W32
  {
    Pow2Low();
    QuotientBelow(Pow2(p), Anc(d), W32);
  }

  /** Where q1 does not wrap, ContinueS is the exact test 2^p <= anc * delta. */
  lemma ContinueExactS(d: int, p: nat)
    requires Divisor(d) && Q1S(d, p) < W32
    ensures ContinueS(d, p) <==> Pow2(p) <= Anc(d) * DeltaS(d, p)
  {
    DivNonNegative(Pow2(p), Anc(d));
    assert Q1S(d, p) % W32 == Q1S(d, p);
    QuotientCompare(Pow2(p), Anc(d), DeltaS(d, p));
  }

  /** One more pass is possible only below p = 62, and then q1 at p + 1 is at most
      2 * delta + 1 <= 2 * |d| + 1, so it does not wrap either. */
  lemma NextS(d: int, p: nat)
    requires Divisor(d) && 32 <= p <= 62 && Q1S(d, p) < W32 && ContinueS(d, p)
    ensures p < 62 && Q1S(d, p + 1) < W32
  {
    var anc, delta, x := Anc(d), DeltaS(d, p), Pow2(p);
    ContinueExactS(d, p);
    assert 1 <= delta < W31;
    ContinueBound(x, anc, delta);
    Below62Exp(p);
    assert Pow2(p + 1) == 2 * x;
  }

  /** 2^p < 2^62 only for p < 62. */
  lemma Below62Exp(p: nat)
    requires Pow2(p) < W62
    ensures p < 62
  {
    Pow2Constants();
    if p >= 62 {
      Pow2Monotone(62, p);
    }
  }

  /** A passed test 2^p <= anc * delta bounds 2^p below 2^62 and the next q1
      below 2^32. */
  lemma ContinueBound(x: int, anc: int, delta: int)
    requires 0 <= x <= anc * delta && 1 <= anc <= W31 && 1 <= delta < W31
    ensures x < W62 && (2 * x) / anc < W32
  {
    MulMonotone(anc, delta, W31 - 1);
    MulMonotone(W31 - 1, anc, W31);
    MulMonotone(anc, 2 * delta, W32);
    QuotientBelow(2 * x, anc, W32);
  }

  /** The loop's four `unsigned int` variables q1, r1, q2, r2. */
  datatype Pairs = Pairs(q1: u32, r1: u32, q2: u32, r2: u32)

  /** The update the loop body applies to each of its pairs: double a quotient
      and remainder by D in `unsigned int`, then carry once from the remainder
      into the quotient. */
  function DoubleCarry(q: u32, r: u32, D: u32): (u32, u32)
    requires D >= 1
  {
    var q', r' := (2 * q) % W32, (2 * r) % W32;
    if r' >= D then ((q' + 1) % W32, (r' - D) % W32) else (q', r')
  }

  /** For X = q*D + r (q kept modulo 2^32), DoubleCarry yields the pair of 2*X. */
  lemma DoubleCarryExact(X: int, D: u32, q: u32, r: u32)
    requires X >= 0 && 1 <= D <= W31
    requires q == (X / D) % W32 && r == X % D
    ensures DoubleCarry(q, r, D) == (((2 * X) / D) % W32, (2 * X) % D)
  {
    WrappedStep(X, D, 0, q, r);
    ModInc(2 * q);
    SmallMod(2 * r);
  }

  /** The loop variables at exponent p, replayed from the initial values at
      p = 31 through p - 31 passes of the loop body. */
  function TrackS(ad: u32, anc: u32, p: nat): Pairs
    requires 1 <= ad <= W31 && 1 <= anc <= W31 && p >= 31
    decreases p
  {
    if p == 31 then Pairs(W31 / anc, W31 % anc, W31 / ad, W31 % ad)
    else
      var s := TrackS(ad, anc, p - 1);
      var (q1, r1) := DoubleCarry(s.q1, s.r1, anc);
      var (q2, r2) := DoubleCarry(s.q2, s.r2, ad);
      Pairs(q1, r1, q2, r2)
  }

  /** The C's `ad`, `t` and `anc` are AD(d), T(d) and Anc(d). */
  lemma Computed(d: int, ad: int, t: int, anc: int)
    requires Divisor(d) && ad == (if d < 0 then -d else d)
    requires t == W31 + ToU32(d) / 0x8000_0000 && anc == t - 1 - t % ad
    ensures ad == AD(d) && t == T(d) && anc == Anc(d)
  {
  }

  /** The values the C computes before the loop are the loop variables at p = 31. */
  lemma InitialC(ad: u32, anc: u32)
    requires 1 <= ad <= W31 && 1 <= anc <= W31
    ensures W31 / anc < W32 && W31 - (W31 / anc) * anc == W31 % anc
    ensures W31 / ad < W32 && W31 - (W31 / ad) * ad == W31 % ad
    ensures TrackS(ad, anc, 31) == Pairs(W31 / anc, W31 - (W31 / anc) * anc, W31 / ad, W31 - (W31 / ad) * ad)
  {
    InitialQuotient(W31, anc);
    InitialQuotient(W31, ad);
  }

  /** The loop test `q1 < delta || (q1 == delta && r1 == 0)`, delta = ad - r2. */
  predicate TestC(ad: u32, s: Pairs)
  {
    var delta := (ad - s.r2) % W32;
    s.q1 < delta || (s.q1 == delta && s.r1 == 0)
  }

  /** The loop variables hold the exact quotients (modulo 2^32) and remainders
      of 2^p by |nc| and |d|. */
  lemma {:induction false} TrackExact(d: int, p: nat)
    requires Divisor(d) && p >= 31
    ensures TrackS(AD(d), Anc(d), p) == Pairs(Q1S(d, p) % W32, R1S(d, p), Q2S(d, p) % W32, R2S(d, p))
    decreases p
  {
    if p == 31 {
      Pow2Low();
      InitialQuotient(W31, Anc(d));
      InitialQuotient(W31, AD(d));
    } else {
      TrackExact(d, p - 1);
      var x := Pow2(p - 1);
      assert Pow2(p) == 2 * x;
      DoubleCarryExact(x, Anc(d), Q1S(d, p - 1) % W32, R1S(d, p - 1));
      DoubleCarryExact(x, AD(d), Q2S(d, p - 1) % W32, R2S(d, p - 1));
    }
  }

  /** The C's loop test has passed at every exponent from 32 up to p. */
  predicate PassedAll(ad: u32, anc: u32, p: int)
    requires 1 <= ad <= W31 && 1 <= anc <= W31
    decreases p
  {
    p < FirstTest || (TestC(ad, TrackS(ad, anc, p)) && PassedAll(ad, anc, p - 1))
  }

  /** Once the C's loop test has passed at every exponent from 32 to p - 1, q1
      does not wrap at p and the exit exponent is still ahead. */
  lemma {:induction false} PassedC(d: int, p: nat)
    requires Divisor(d) && 32 <= p <= 62
    requires PassedAll(AD(d), Anc(d), p - 1)
    ensures Q1S(d, p) < W32 && ExitS(d, p) == ExitExp(d)
    decreases p
  {
    FirstS(d, FirstTest);
    if p > 32 {
      PassedC(d, p - 1);
      TestExact(d, p - 1);
      NextS(d, p - 1);
    }
  }

  /** The C's loop test fails at the exit exponent. */
  lemma StopC(d: int, ad: u32, t: int, anc: u32)
    requires Divisor(d) && ad == (if d < 0 then -d else d)
    requires t == W31 + ToU32(d) / 0x8000_0000 && anc == t - 1 - t % ad
    requires 1 <= ad <= W31 && 1 <= anc <= W31
    ensures !TestC(ad, TrackS(ad, anc, ExitExp(d)))
  {
    Computed(d, ad, t, anc);
    FirstS(d, FirstTest);
    ExitStopsS(d, FirstTest);
    TestExact(d, ExitExp(d));
  }

  /** When the C's loop test first fails, at p, p is the exit exponent and the
      variable q2 holds the exact quotient 2^p / |d| modulo 2^32, so the
      fields the C then writes are those of MagicSSpec(d). */
  lemma ExitC(d: int, ad: u32, t: int, anc: u32, p: int, q2: u32, mag: Ms)
    requires Divisor(d) && ad == (if d < 0 then -d else d)
    requires t == W31 + ToU32(d) / 0x8000_0000 && anc == t - 1 - t % ad
    requires 1 <= ad <= W31 && 1 <= anc <= W31 && 32 <= p <= 62
    requires PassedAll(ad, anc, p - 1) && !TestC(ad, TrackS(ad, anc, p))
    requires q2 == TrackS(ad, anc, p).q2
    requires var m0 := ToS32(q2 + 1);
             mag == Ms(if d < 0 then ToS32(-(m0 as int)) else m0, p - 32)
    ensures mag == MagicSSpec(d)
  {
    Computed(d, ad, t, anc);
    PassedC(d, p);
    TestExact(d, p);
    TrackExact(d, p);
    FinishS(d, p, q2);
  }

  /** The C's loop test at exponent p is ContinueS. */
  lemma TestExact(d: int, p: nat)
    requires Divisor(d) && p >= 31
    ensures TestC(AD(d), TrackS(AD(d), Anc(d), p)) == ContinueS(d, p)
  {
    TrackExact(d, p);
    var q1, r1, r2 := Q1S(d, p) % W32, R1S(d, p), R2S(d, p);
    TestS(d, p, AD(d), q1, r1, r2, (AD(d) - r2) % W32);
  }

  /** The loop test of the C, on its variables, is ContinueS. */
  lemma TestS(d: int, p: nat, ad: int, q1: int, r1: int, r2: int, delta: int)
    requires Divisor(d) && ad == AD(d)
    requires q1 == Q1S(d, p) % W32 && r1 == R1S(d, p) && r2 == R2S(d, p)
    requires delta == (ad - r2) % W32
    ensures (q1 < delta || (q1 == delta && r1 == 0)) == ContinueS(d, p)
  {
    assert 0 <= r2 < AD(d);
    SmallMod(ad - r2);
  }

  /** The fields written after the loop are those of MagicSSpec. */
  lemma FinishS(d: int, p: nat, q2: int)
    requires Divisor(d) && p == ExitExp(d) && q2 == Q2S(d, p) % W32
    ensures var m0 := ToS32(q2 + 1);
            Ms(if d < 0 then ToS32(-(m0 as int)) else m0, p - 32) == MagicSSpec(d)
  {
    var m := Q2S(d, p) + 1;
    ModInc(Q2S(d, p));
    assert (q2 + 1) % W32 == m % W32;
    assert ToS32(q2 + 1) == ToS32(m);
  }

  /** One doubling of a quotient/remainder pair in 32-bit arithmetic, as the
      loop of `magic` writes it for (q1, r1) and for (q2, r2). */
  method DoubleStepC(q: u32, r: u32, D: u32) returns (q': u32, r': u32)
    requires D >= 1
    ensures (q', r') == DoubleCarry(q, r, D)
  {
    q' := (2 * q) % W32;
    r' := (2 * r) % W32;
    if r' >= D {
      q' := (q' + 1) % W32;
      r' := (r' - D) % W32;
    }
  }

  /** The C's test on the loop variables is TestC. */
  lemma TestIs(ad: u32, s: Pairs, delta: u32)
    requires delta == (ad - s.r2) % W32
    ensures TestC(ad, s) <==> s.q1 < delta || (s.q1 == delta && s.r1 == 0)
  {
  }

  /** One pass of the loop doubles both pairs of the previous exponent. */
  lemma TrackStep(ad: u32, anc: u32, p: nat, prev: Pairs, q1: u32, r1: u32, q2: u32, r2: u32)
    requires 1 <= ad <= W31 && 1 <= anc <= W31 && p >= 32 && prev == TrackS(ad, anc, p - 1)
    requires (q1, r1) == DoubleCarry(prev.q1, prev.r1, anc) && (q2, r2) == DoubleCarry(prev.q2, prev.r2, ad)
    ensures Pairs(q1, r1, q2, r2) == TrackS(ad, anc, p)
  {
  }

  /** The do-while loop of `magic`, with the initialisation of q1, r1, q2 and
      r2 before it: it returns the exponent p at which the test first fails
      and q2 there. */
  method SearchC(ad: u32, anc: u32, ghost e: int) returns (p: int, q2: u32)
    requires 1 <= ad <= W31 && 1 <= anc <= W31
    requires 32 <= e <= 62 && !TestC(ad, TrackS(ad, anc, e))
    ensures 32 <= p <= e && PassedAll(ad, anc, p - 1) && !TestC(ad, TrackS(ad, anc, p))
    ensures q2 == TrackS(ad, anc, p).q2
  {
    var delta: u32, q1: u32, r1: u32, r2: u32;
    var two31: u32 := 0x8000_0000;
    InitialC(ad, anc);
    p := 31;
    q1 := two31 / anc;
    q2 := two31 / ad;
    r1 := two31 - q1 * anc;
    r2 := two31 - q2 * ad;
    while true
      invariant 31 <= p < e
      invariant Pairs(q1, r1, q2, r2) == TrackS(ad, anc, p)
      invariant PassedAll(ad, anc, p)
      decreases e - p
    {
      p := p + 1;
      ghost var prev := Pairs(q1, r1, q2, r2);
      q1, r1 := DoubleStepC(q1, r1, anc);
      q2, r2 := DoubleStepC(q2, r2, ad);
      TrackStep(ad, anc, p, prev, q1, r1, q2, r2);
      delta := (ad - r2) % W32;
      TestIs(ad, Pairs(q1, r1, q2, r2), delta);
      if !(q1 < delta || (q1 == delta && r1 == 0)) {
        break;
      }
    }
  }

  /** `magic(d)`. */
  method Magic(d: i32) returns (mag: Ms)
    requires Divisor(d)
    ensures mag == MagicSSpec(d)
  {
    var p: int;
    var ad: u32, anc: u32, q2: u32, t: u32;
    var two31: u32 := 0x8000_0000;
    mag := Ms(0, 0);
    ad := if d < 0 then -d else d;
    t := two31 + ToU32(d) / 0x8000_0000;
    anc := t - 1 - t % ad;
    assert 1 <= ad <= W31 && 1 <= anc <= W31 by {
      Computed(d, ad, t, anc);
    }
    StopC(d, ad, t, anc);
    p, q2 := SearchC(ad, anc, ExitExp(d));
    mag := mag.(M := ToS32(q2 + 1));
    if d < 0 {
      mag := mag.(M := ToS32(-(mag.M as int)));
    }
    mag := mag.(s := p - 32);
    ExitC(d, ad, t, anc, p, q2, mag);
  }

  // ----- the multiplier magic returns, as used by calculate_kdivs -----

  /** Where the loop stops: q1 has not wrapped, the test fails, and when the loop
      ran past p the test passed one exponent earlier. */
  lemma {:induction false} ExitFactsS(d: int, p: nat)
    requires Divisor(d) && 32 <= p <= 62 && Q1S(d, p) < W32
    ensures var e := ExitS(d, p);
            Q1S(d, e) < W32 && !ContinueS(d, e)
            && (e > p ==> ContinueS(d, e - 1) && Q1S(d, e - 1) < W32)
    decreases 62 - p
  {
    if ContinueS(d, p) {
      NextS(d, p);
      ExitFactsS(d, p + 1);
    }
  }

  /** An odd divisor of a power of two is 1. */
  lemma {:induction false} OddDividesPow2(D: int, k: nat)
    requires D >= 1 && D % 2 == 1 && Pow2(k) % D == 0
    ensures D == 1
  {
    if k > 0 {
      var q := Pow2(k) / D;
      assert Pow2(k) == D * q;
      EvenFactor(D, q, Pow2(k - 1));
      DivModUnique(Pow2(k - 1), D, q / 2, 0);
      OddDividesPow2(D, k - 1);
    }
  }

  /** An odd factor of an even product leaves the other factor even. */
  lemma EvenFactor(D: int, q: int, y: int)
    requires D % 2 == 1 && D * q == 2 * y
    ensures q % 2 == 0 && D * (q / 2) == y
  {
    var g, b := q / 2, q % 2;
    assert D * q == 2 * (D * g) + D * b by {
      assert q == 2 * g + b;
    }
    if b == 1 {
      assert false;
    }
  }

  /** For |d| >= 2, the multiplier 2^p/|d| + 1 at the exit exponent fits in 32
      bits: m * |d| = 2^p + delta with 1 <= delta <= |d|, and the loop's exit
      test makes 2^p > anc * delta. */
  lemma SignedMultiplier(d: int)
    requires Divisor(d) && AD(d) >= 2
    ensures var p := ExitExp(d);
            var m := ExactM(d);
            1 <= m < W32 && m * AD(d) == Pow2(p) + DeltaS(d, p)
            && 1 <= DeltaS(d, p) <= AD(d) && Pow2(p) > Anc(d) * DeltaS(d, p)
  {
    var p := ExitExp(d);
    FirstS(d, FirstTest);
    ExitFactsS(d, FirstTest);
    ContinueExactS(d, p);
    ShapeS(d, p);
    if p == 32 {
      Pow2Low();
      MulMonotone(W31 + 1, 2, AD(d));
      QuotientBelow(W32, AD(d), W31 + 1);
    } else {
      MultiplierAfterContinue(d, p - 1);
    }
  }

  lemma ShapeS(d: int, p: nat)
    requires Divisor(d)
    ensures (Q2S(d, p) + 1) * AD(d) == Pow2(p) + DeltaS(d, p) && 1 <= DeltaS(d, p) <= AD(d)
    ensures Q2S(d, p) >= 0
  {
    var x, ad := Pow2(p), AD(d);
    assert x == ad * (x / ad) + x % ad;
    DivNonNegative(x, ad);
  }

  /** Once the test has passed at p, the multiplier at p + 1 is below 2^32. */
  lemma MultiplierAfterContinue(d: int, p: nat)
    requires Divisor(d) && AD(d) >= 2 && Q1S(d, p) < W32 && ContinueS(d, p)
    ensures Q2S(d, p + 1) + 1 < W32
  {
    ContinueExactS(d, p);
    ShapeS(d, p);
    ShapeS(d, p + 1);
    var ad, anc, delta := AD(d), Anc(d), DeltaS(d, p);
    assert Pow2(p + 1) == 2 * Pow2(p);
    if anc == W31 && delta == ad {
      assert Pow2(p) % ad == 0;
      WideAnc(d);
      OddDividesPow2(ad, p);
    }
    FitsFromContinue(Q2S(d, p + 1) + 1, ad, anc, delta, DeltaS(d, p + 1), Pow2(p));
  }

  /** anc reaches 2^31 only for a negative divisor with |d| dividing 2^31 + 1,
      which makes |d| odd. */
  lemma WideAnc(d: int)
    requires Divisor(d) && Anc(d) == W31
    ensures AD(d) % 2 == 1
  {
    var t, ad := T(d), AD(d);
    assert Anc(d) == t - 1 - t % ad;
    assert t == W31 + 1 && t % ad == 0;
    OddNumerator(t, ad);
  }

  /** The arithmetic behind MultiplierAfterContinue: m * |d| = 2 * 2^p + delta'
      with 2^p <= anc * delta stays below 2^32 * |d|. */
  lemma FitsFromContinue(m: int, ad: int, anc: int, delta: int, delta': int, x: int)
    requires 2 <= ad < W31 && 1 <= delta <= ad && 1 <= delta' <= ad && 1 <= anc <= W31
    requires m * ad == 2 * x + delta' && x <= anc * delta
    requires anc == W31 ==> delta < ad
    ensures m < W32
  {
    if anc < W31 {
      MulMonotone(delta, anc, W31 - 1);
      MulMonotone(W31 - 1, delta, ad);
      assert x <= W31 * ad - ad;
    } else {
      MulMonotone(W31, delta, ad - 1);
      assert x <= W31 * ad - W31;
    }
    assert W32 * ad == 2 * (W31 * ad);
    assert m * ad < W32 * ad;
    MulCancelStrict(ad, m, W32);
  }

  /** A divisor of the odd number 2^31 + 1 is odd. */
  lemma OddNumerator(t: int, D: int)
    requires t == W31 + 1 && D >= 1 && t % D == 0
    ensures D % 2 == 1
  {
    var q := t / D;
    assert t == D * q;
    if D % 2 == 0 {
      EvenTimes(D, q);
    }
  }

  lemma EvenTimes(D: int, q: int)
    requires D % 2 == 0
    ensures (D * q) % 2 == 0
  {
    var h := D / 2;
    assert D * q == 2 * (h * q);
  }

  /** floor(m * n / 2^p) is n / |d| for every dividend magnitude below t; for
      n > 0 the product is not a multiple of 2^p, so the floor of the negated
      product is one below the negated quotient. */
  lemma SignedQuotient(d: int, n: int)
    requires Divisor(d) && AD(d) >= 2 && 0 <= n < T(d)
    ensures var p := ExitExp(d);
            var m := ExactM(d);
            Shr(m * n, p) == n / AD(d)
            && (n > 0 ==> Shr(-(m * n), p) == -(n / AD(d)) - 1)
  {
    var p, m, D := ExitExp(d), ExactM(d), AD(d);
    SignedMultiplier(d);
    QuotientBoth(T(d), D, p, m, DeltaS(d, p), n);
    assert n > 0 ==> Shr(-(m * n), p) == -(n / D) - 1;
  }

  /** For a positive divisor the bracket also holds at |n| = t = 2^31, the
      magnitude of the most negative `int`: the negated product floors to
      -(2^31 / d) - 1. */
  lemma SignedQuotientAtT(d: int)
    requires Divisor(d) && d >= 2
    ensures Shr(-(ExactM(d) * W31), ExitExp(d)) == -(W31 / d) - 1
  {
    var p, m := ExitExp(d), ExactM(d);
    SignedMultiplier(d);
    Pow2Low();
    Pow2Add(31, p - 31);
    NegatedAtT(T(d), AD(d), p, m, DeltaS(d, p), Pow2(p - 31));
  }

  /** MulShift's bracket, read as the floors of the product and of its negation. */
  lemma QuotientBoth(T: int, D: int, P: nat, m: int, delta: int, n: int)
    requires 1 <= D <= T && delta >= 1 && m * D == Pow2(P) + delta
    requires Pow2(P) > Nc(T, D) * delta
    requires 0 <= n < T
    ensures Shr(m * n, P) == n / D
    ensures n > 0 ==> Shr(-(m * n), P) == -(n / D) - 1
  {
    MagicQuotient(T, D, P, m, delta, n);
    if n > 0 {
      MagicBracket(T, D, P, m, delta, n);
      NegFloor(m * n, Pow2(P), n / D);
    }
  }
}
