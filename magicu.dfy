/** `magicu`: the magic multiplier, add indicator and shift for unsigned
    division by a constant d, 1 <= d <= 2^32 - 1 (kdiv.c, Warren's algorithm).

    The exact quantities the solver tracks at exponent p are stated as
    functions (Q1, R1, Q2, R2, Delta); the method keeps its 32-bit variables
    equal to them, reduced modulo 2^32 where the C variables wrap. */
module MagicUnsigned {
  import opened Words
  import opened MulShift

  /** `struct mu`: magic number, "add" indicator (0 or 1) and shift amount. */
  datatype Mu = Mu(M: u32, a: int, s: int)

  /** 2^p = Q1 * nc + R1, with nc = 2^32 - 1 - (2^32 mod d). */
  function Q1(d: u32, p: nat): int requires d >= 1 { Pow2(p) / Nc(W32, d) }
  function R1(d: u32, p: nat): int requires d >= 1 { Pow2(p) % Nc(W32, d) }

  /** 2^p - 1 = Q2 * d + R2. */
  function Q2(d: u32, p: nat): int requires d >= 1 { (Pow2(p) - 1) / d }
  function R2(d: u32, p: nat): int requires d >= 1 { (Pow2(p) - 1) % d }

  /** `delta = d - 1 - r2`. */
  function Delta(d: u32, p: nat): int requires d >= 1 { d - 1 - R2(d, p) }

  /** The test of the do-while loop at exponent p. As in the C, `q1` is an
      `unsigned int`, so the comparison sees Q1 reduced modulo 2^32. */
  predicate Continue(d: u32, p: nat)
    requires d >= 1
  {
    var q1 := Q1(d, p) % W32;
    p < 64 && (q1 < Delta(d, p) || (q1 == Delta(d, p) && R1(d, p) == 0))
  }

  /** The exponent at which the loop, having reached p, stops. */
  function ExitP(d: u32, p: nat): (e: nat)
    requires d >= 1 && 32 <= p <= 64
    ensures p <= e <= 64 && !Continue(d, e)
    ensures forall i :: p <= i < e ==> Continue(d, i)
    decreases 64 - p
  {
    if Continue(d, p) then ExitP(d, p + 1) else p
  }

  /** The exponent of the loop's first test. */
  const FirstP: nat := 32

  /** What magicu returns: the loop ends at p = ExitP(d, 32); M is (2^p-1)/d + 1
      truncated to 32 bits, and a records that this multiplier needs 33 bits. */
  function MagicUSpec(d: u32): Mu
    requires d >= 1
  {
    var p := ExitP(d, FirstP);
    Mu(ExactMU(d) % W32, AFlag(d, p), p - 32)
  }

  /** The exact multiplier at the exit exponent, (2^p - 1)/d + 1, which may need
      33 bits. */
  function ExactMU(d: u32): int
    requires d >= 1
  {
    Q2(d, ExitP(d, FirstP)) + 1
  }

  lemma NcAtLeastW31(d: u32)
    requires d >= 1
    ensures Nc(W32, d) >= W31
  {
    if d > W31 {
      DivModUnique(W32, d, 1, W32 - d);
    }
  }

  /** One pass of the loop body from exponent p to p + 1, on exact values. */
  lemma Step(d: u32, p: nat)
    requires d >= 1
    ensures Pow2(p + 1) == 2 * Pow2(p)
    ensures if 2 * R1(d, p) >= Nc(W32, d)
            then Q1(d, p + 1) == 2 * Q1(d, p) + 1 && R1(d, p + 1) == 2 * R1(d, p) - Nc(W32, d)
            else Q1(d, p + 1) == 2 * Q1(d, p) && R1(d, p + 1) == 2 * R1(d, p)
    ensures if 2 * R2(d, p) + 1 >= d
            then Q2(d, p + 1) == 2 * Q2(d, p) + 1 && R2(d, p + 1) == 2 * R2(d, p) + 1 - d
            else Q2(d, p + 1) == 2 * Q2(d, p) && R2(d, p + 1) == 2 * R2(d, p) + 1
  {
    DoubleStep(Pow2(p), 0, Nc(W32, d));
    DoubleStep(Pow2(p) - 1, 1, d);
  }

  /** The C computes nc as `-1 - (-d) % d` in `unsigned int` arithmetic. */
  lemma NcComputed(d: u32)
    requires d >= 1
    ensures (-1 - (-(d as int) % W32) % d) % W32 == Nc(W32, d)
  {
    assert -(d as int) % W32 == W32 - d;
    DivAddMultiple(W32 - d, d, 1);
    DivModUnique(W32, d, (W32 - d) / d + 1, (W32 - d) % d);
  }

  /** The values the C computes before the loop are the quantities at p = 31. */
  lemma Initial(d: u32, p: nat)
    requires d >= 1 && p == 31
    ensures var nc := Nc(W32, d);
            var q1 := 0x8000_0000 / nc;
            var q2 := 0x7FFF_FFFF / d;
            0 <= q1 < W32 && q1 == Q1(d, p) % W32 && (0x8000_0000 - q1 * nc) % W32 == R1(d, p)
            && 0 <= q2 < W32 && q2 == Q2(d, p) % W32 && (0x7FFF_FFFF - q2 * d) % W32 == R2(d, p)
            && AFlag(d, p) == 0
  {
    Pow2Low();
    NcAtLeastW31(d);
    var nc := Nc(W32, d);
    InitialQuotient(W31, nc);
    InitialQuotient(W31 - 1, d);
  }

  /** The update of q1 and r1 in the loop body, on the wrapped q1. */
  lemma StepQ1(d: u32, p: nat, q1: int, r1: int)
    requires d >= 1 && q1 == Q1(d, p) % W32 && r1 == R1(d, p)
    ensures var nc := Nc(W32, d);
            if r1 >= nc - r1
            then (2 * q1 + 1) % W32 == Q1(d, p + 1) % W32 && (2 * r1 - nc) % W32 == R1(d, p + 1)
            else (2 * q1) % W32 == Q1(d, p + 1) % W32 && (2 * r1) % W32 == R1(d, p + 1)
  {
    assert Pow2(p + 1) == 2 * Pow2(p) + 0;
    WrappedStep(Pow2(p), Nc(W32, d), 0, q1, r1);
  }

  /** The "add" indicator is set exactly when the exact q2 reaches 2^32 - 1. */
  function AFlag(d: u32, p: nat): int
    requires d >= 1
  {
    if Q2(d, p) >= W32 - 1 then 1 else 0
  }

  /** Once set, the "add" indicator stays set: the exact q2 only grows with p. */
  lemma {:induction false} AFlagSticky(d: u32, p: nat, p': nat)
    requires d >= 1 && p <= p'
    ensures AFlag(d, p) <= AFlag(d, p')
    decreases p' - p
  {
    if p < p' {
      AFlagSticky(d, p, p' - 1);
      Step(d, p' - 1);
      DivNonNegative(Pow2(p' - 1) - 1, d);
    }
  }

  /** The update of q2, r2 and the indicator in the loop body, on the wrapped q2. */
  lemma StepQ2(d: u32, p: nat, q2: int, r2: int, a: int)
    requires d >= 1 && q2 == Q2(d, p) % W32 && r2 == R2(d, p) && a == AFlag(d, p)
    ensures if r2 + 1 >= d - r2
            then (2 * q2 + 1) % W32 == Q2(d, p + 1) % W32 && (2 * r2 + 1 - d) % W32 == R2(d, p + 1)
                 && (if q2 >= 0x7FFF_FFFF then 1 else a) == AFlag(d, p + 1)
            else (2 * q2) % W32 == Q2(d, p + 1) % W32 && (2 * r2 + 1) % W32 == R2(d, p + 1)
                 && (if q2 >= 0x8000_0000 then 1 else a) == AFlag(d, p + 1)
  {
    var X := Pow2(p) - 1;
    assert Pow2(p + 1) - 1 == 2 * X + 1;
    WrappedStep(X, d, 1, q2, r2);
    DoubleStep(X, 1, d);
    var Q := X / d;
    DivNonNegative(X, d);
    if r2 + 1 >= d - r2 {
      FlagStep(Q, 1, a);
    } else {
      FlagStep(Q, 0, a);
    }
  }

  /** The indicator test on the wrapped q2 before doubling (q2 >= 2^31 - b) agrees
      with the exact test on the doubled quotient 2*Q + b. */
  lemma FlagStep(Q: int, b: int, a: int)
    requires Q >= 0 && 0 <= b <= 1 && a == (if Q >= W32 - 1 then 1 else 0)
    ensures (if Q % W32 >= W31 - b then 1 else a) == (if 2 * Q + b >= W32 - 1 then 1 else 0)
  {
    if Q < W32 {
      assert Q % W32 == Q;
    }
  }

  /** The loop test of the C, on its variables, is Continue. */
  lemma Test(d: u32, p: nat, q1: int, r1: int, r2: int)
    requires d >= 1 && p <= 64 && q1 == Q1(d, p) % W32 && r1 == R1(d, p) && r2 == R2(d, p)
    ensures (p < 64 && (q1 < (d - 1 - r2) % W32 || (q1 == (d - 1 - r2) % W32 && r1 == 0)))
            == Continue(d, p)
  {
    assert 0 <= r2 < d;
    SmallMod(d - 1 - r2);
  }

  /** The fields written after the loop are those of MagicUSpec. */
  lemma Finish(d: u32, p: nat, q2: int, a: int)
    requires d >= 1 && 32 <= p <= 64 && p == ExitP(d, FirstP)
    requires q2 == Q2(d, p) % W32 && a == AFlag(d, p)
    ensures Mu((q2 + 1) % W32, a, p - 32) == MagicUSpec(d)
  {
    ModInc(Q2(d, p));
  }

  // ----- the C's loop on its `unsigned int` variables -----

  /** The loop's variables q1, r1, q2, r2 and the indicator magu.a. */
  datatype LoopU = LoopU(q1: u32, r1: u32, q2: u32, r2: u32, a: int)

  /** The values the C assigns before the loop, at p = 31. */
  function StartU(d: u32, nc: u32): LoopU
    requires d >= 1 && nc >= 1
  {
    var q1 := 0x8000_0000 / nc;
    var q2 := 0x7FFF_FFFF / d;
    LoopU(q1, (0x8000_0000 - q1 * nc) % W32, q2, (0x7FFF_FFFF - q2 * d) % W32, 0)
  }

  /** The update of q1 and r1 in the loop body, in `unsigned int` arithmetic. */
  function StepQ1U(nc: u32, q1: u32, r1: u32): (u32, u32)
  {
    if r1 >= (nc - r1) % W32 then ((2 * q1 + 1) % W32, (2 * r1 - nc) % W32)
    else ((2 * q1) % W32, (2 * r1) % W32)
  }

  /** The update of q2, r2 and magu.a in the loop body. */
  function StepQ2U(d: u32, q2: u32, r2: u32, a: int): (u32, u32, int)
  {
    if (r2 + 1) % W32 >= (d - r2) % W32
    then ((2 * q2 + 1) % W32, (2 * r2 + 1 - d) % W32, if q2 >= 0x7FFF_FFFF then 1 else a)
    else ((2 * q2) % W32, (2 * r2 + 1) % W32, if q2 >= 0x8000_0000 then 1 else a)
  }

  /** One pass of the loop body. */
  function StepU(d: u32, nc: u32, s: LoopU): LoopU
  {
    var (q1, r1) := StepQ1U(nc, s.q1, s.r1);
    var (q2, r2, a) := StepQ2U(d, s.q2, s.r2, s.a);
    LoopU(q1, r1, q2, r2, a)
  }

  /** The loop's variables once p has reached the given value. */
  function TrackU(d: u32, nc: u32, p: nat): LoopU
    requires d >= 1 && nc >= 1 && p >= 31
    decreases p
  {
    if p == 31 then StartU(d, nc) else StepU(d, nc, TrackU(d, nc, p - 1))
  }

  /** The loop test `p < 64 && (q1 < delta || (q1 == delta && r1 == 0))`. */
  predicate TestU(d: u32, p: int, s: LoopU)
  {
    var delta := (d - 1 - s.r2) % W32;
    p < 64 && (s.q1 < delta || (s.q1 == delta && s.r1 == 0))
  }

  /** The loop test has passed at every exponent from 32 up to p. */
  predicate PassedU(d: u32, nc: u32, p: int)
    requires d >= 1 && nc >= 1
    decreases p
  {
    p < 32 || (TestU(d, p, TrackU(d, nc, p)) && PassedU(d, nc, p - 1))
  }

  /** With nc as the C computes it, the replayed variables are the exact
      quantities, reduced where the C's variables wrap. */
  lemma {:induction false} TrackExactU(d: u32, p: nat)
    requires d >= 1 && p >= 31
    ensures Nc(W32, d) >= 1
    ensures TrackU(d, Nc(W32, d), p)
            == LoopU(Q1(d, p) % W32, R1(d, p), Q2(d, p) % W32, R2(d, p), AFlag(d, p))
    decreases p
  {
    NcAtLeastW31(d);
    var nc := Nc(W32, d);
    if p == 31 {
      Initial(d, p);
    } else {
      TrackExactU(d, p - 1);
      var s := TrackU(d, nc, p - 1);
      StepExactQ1(d, p - 1, s.q1, s.r1);
      StepExactQ2(d, p - 1, s.q2, s.r2, s.a);
    }
  }

  lemma StepExactQ1(d: u32, p: nat, q1: u32, r1: u32)
    requires d >= 1 && q1 == Q1(d, p) % W32 && r1 == R1(d, p)
    ensures Nc(W32, d) < W32
    ensures StepQ1U(Nc(W32, d), q1, r1) == (Q1(d, p + 1) % W32, R1(d, p + 1))
  {
    var nc := Nc(W32, d);
    assert 0 <= r1 < nc;
    assert (nc - r1) % W32 == nc - r1;
    StepQ1(d, p, q1, r1);
  }

  lemma StepExactQ2(d: u32, p: nat, q2: u32, r2: u32, a: int)
    requires d >= 1 && q2 == Q2(d, p) % W32 && r2 == R2(d, p) && a == AFlag(d, p)
    ensures StepQ2U(d, q2, r2, a) == (Q2(d, p + 1) % W32, R2(d, p + 1), AFlag(d, p + 1))
  {
    assert 0 <= r2 < d;
    StepQ2Unwrapped(d, q2, r2, a);
    StepQ2(d, p, q2, r2, a);
  }

  /** With r2 < d, the C's `r2 + 1` and `d - r2` do not wrap. */
  lemma StepQ2Unwrapped(d: u32, q2: u32, r2: u32, a: int)
    requires r2 < d
    ensures StepQ2U(d, q2, r2, a)
            == if r2 + 1 >= d - r2
               then ((2 * q2 + 1) % W32, (2 * r2 + 1 - d) % W32, if q2 >= 0x7FFF_FFFF then 1 else a)
               else ((2 * q2) % W32, (2 * r2 + 1) % W32, if q2 >= 0x8000_0000 then 1 else a)
  {
    SmallMod(r2 + 1);
    SmallMod(d - r2);
  }

  /** The C's loop test at exponent p is Continue. */
  lemma TestExactU(d: u32, p: nat)
    requires d >= 1 && 31 <= p <= 64
    ensures Nc(W32, d) >= 1
    ensures TestU(d, p, TrackU(d, Nc(W32, d), p)) == Continue(d, p)
  {
    TrackExactU(d, p);
    var s := TrackU(d, Nc(W32, d), p);
    Test(d, p, s.q1, s.r1, s.r2);
  }

  /** Having passed its test at every exponent from 32 to p - 1, the loop's exit
      exponent seen from p is the one seen from 32. */
  lemma {:induction false} PassedExitU(d: u32, p: nat)
    requires d >= 1 && 32 <= p <= 64
    requires Nc(W32, d) >= 1 && PassedU(d, Nc(W32, d), p - 1)
    ensures ExitP(d, p) == ExitP(d, FirstP)
    decreases p
  {
    if p > 32 {
      TestExactU(d, p - 1);
      PassedExitU(d, p - 1);
    }
  }

  /** When the C's loop test first fails, at p, p is the exit exponent, and the
      fields the C then writes are those of MagicUSpec(d). */
  lemma ExitU(d: u32, nc: u32, p: int, q2: u32, a: int, magu: Mu)
    requires d >= 1 && nc == (-1 - (-(d as int) % W32) % d) % W32 && nc >= 1
    requires 32 <= p <= 64 && PassedU(d, nc, p - 1) && !TestU(d, p, TrackU(d, nc, p))
    requires q2 == TrackU(d, nc, p).q2 && a == TrackU(d, nc, p).a
    requires magu == Mu((q2 + 1) % W32, a, p - 32)
    ensures magu == MagicUSpec(d)
  {
    NcComputed(d);
    PassedExitU(d, p);
    TestExactU(d, p);
    assert ExitP(d, p) == p;
    TrackExactU(d, p);
    Finish(d, p, q2, a);
  }

  /** The update of q1 and r1 in the body of magicu's loop. */
  method UpdateQ1(nc: u32, q1: u32, r1: u32) returns (q1': u32, r1': u32)
    ensures (q1', r1') == StepQ1U(nc, q1, r1)
  {
    if r1 >= (nc - r1) % W32 {
      q1' := (2 * q1 + 1) % W32;
      r1' := (2 * r1 - nc) % W32;
    } else {
      q1' := (2 * q1) % W32;
      r1' := (2 * r1) % W32;
    }
  }

  /** The update of q2, r2 and magu.a in the body of magicu's loop. */
  method UpdateQ2(d: u32, q2: u32, r2: u32, magu: Mu) returns (q2': u32, r2': u32, magu': Mu)
    ensures (q2', r2', magu'.a) == StepQ2U(d, q2, r2, magu.a)
    ensures magu' == magu.(a := magu'.a)
  {
    magu' := magu;
    if (r2 + 1) % W32 >= (d - r2) % W32 {
      if q2 >= 0x7FFF_FFFF {
        magu' := magu'.(a := 1);
      }
      q2' := (2 * q2 + 1) % W32;
      r2' := (2 * r2 + 1 - d) % W32;
    } else {
      if q2 >= 0x8000_0000 {
        magu' := magu'.(a := 1);
      }
      q2' := (2 * q2) % W32;
      r2' := (2 * r2 + 1) % W32;
    }
  }

  /** The do-while loop of `magicu`, with the initialisation of q1, r1, q2 and
      r2 before it; magu.a is set inside. */
  method SearchU(d: u32, nc: u32, magu0: Mu) returns (p: int, q2: u32, magu: Mu)
    requires d >= 1 && nc >= 1 && magu0.a == 0
    ensures 32 <= p <= 64 && PassedU(d, nc, p - 1) && !TestU(d, p, TrackU(d, nc, p))
    ensures q2 == TrackU(d, nc, p).q2 && magu == magu0.(a := TrackU(d, nc, p).a)
  {
    var delta: u32, q1: u32, r1: u32, r2: u32;
    magu := magu0;
    p := 31;
    q1 := 0x8000_0000 / nc;
    r1 := (0x8000_0000 - q1 * nc) % W32;
    q2 := 0x7FFF_FFFF / d;
    r2 := (0x7FFF_FFFF - q2 * d) % W32;
    while true
      invariant 31 <= p < 64
      invariant LoopU(q1, r1, q2, r2, magu.a) == TrackU(d, nc, p)
      invariant magu == magu0.(a := magu.a)
      invariant PassedU(d, nc, p)
      decreases 64 - p
    {
      p := p + 1;
      q1, r1 := UpdateQ1(nc, q1, r1);
      q2, r2, magu := UpdateQ2(d, q2, r2, magu);
      delta := (d - 1 - r2) % W32;
      if !(p < 64 && (q1 < delta || (q1 == delta && r1 == 0))) {
        assert !TestU(d, p, LoopU(q1, r1, q2, r2, magu.a));
        break;
      }
      assert TestU(d, p, LoopU(q1, r1, q2, r2, magu.a));
    }
  }

  /** `magicu(d)`. */
  method MagicU(d: u32) returns (magu: Mu)
    requires d >= 1
    ensures magu == MagicUSpec(d)
  {
    var p: int;
    var nc: u32, q2: u32;
    magu := Mu(0, 0, 0);
    magu := magu.(a := 0);
    assert 1 <= (-1 - (-(d as int) % W32) % d) % W32 by {
      NcComputed(d);
      NcAtLeastW31(d);
    }
    nc := (-1 - (-(d as int) % W32) % d) % W32;
    p, q2, magu := SearchU(d, nc, magu);
    magu := magu.(M := (q2 + 1) % W32);
    magu := magu.(s := p - 32);
    ExitU(d, nc, p, q2, magu.a, magu);
  }

  // ----- what the returned triple means -----

  /** Where q1 does not wrap, Continue is the exact test 2^p <= nc * delta. */
  lemma ContinueExact(d: u32, p: nat)
    requires d >= 1 && p < 64 && Q1(d, p) < W32
    ensures Continue(d, p) <==> Pow2(p) <= Nc(W32, d) * Delta(d, p)
  {
    DivNonNegative(Pow2(p), Nc(W32, d));
    assert Q1(d, p) % W32 == Q1(d, p);
    QuotientCompare(Pow2(p), Nc(W32, d), Delta(d, p));
  }

  /** When the loop stops at p, 2^p > nc * delta: the stop is never premature. */
  lemma StopExact(d: u32, p: nat)
    requires d >= 1 && p <= 64 && !Continue(d, p)
    ensures Pow2(p) > Nc(W32, d) * Delta(d, p)
  {
    var nc, delta := Nc(W32, d), Delta(d, p);
    assert 0 <= delta < W32;
    if p == 64 {
      Pow2Constants();
      MulMonotone(delta, nc, W32);
      MulMonotone(W32, delta, W32);
    } else if Q1(d, p) < W32 {
      ContinueExact(d, p);
    } else {
      QuotientCompare(Pow2(p), nc, delta);
    }
  }

  /** The exact multiplier m = (2^p - 1)/d + 1 satisfies m*d = 2^p + delta. */
  lemma MultiplierShape(d: u32, p: nat, m: int)
    requires d >= 1 && m == Q2(d, p) + 1
    ensures m * d == Pow2(p) + Delta(d, p) && 0 <= Delta(d, p) < d
  {
    ShapeOf(Pow2(p) - 1, d);
  }

  /** magicu stops with 32 <= p <= 64 and 2^p > nc * delta, the criterion under
      which the multiplier gives floor(n / d) for every 32-bit n (MulShift). */
  lemma MagicUCriterion(d: u32)
    requires d >= 1
    ensures var p := ExitP(d, FirstP);
            32 <= p <= 64 && MagicUSpec(d).s == p - 32
            && Pow2(p) > Nc(W32, d) * Delta(d, p)
  {
    StopExact(d, ExitP(d, FirstP));
  }

  /** For every unsigned dividend, multiplying by the exact multiplier and shifting
      right by p is floor division by d. */
  lemma MagicUExact(d: u32, n: u32)
    requires d >= 1
    ensures Shr(ExactMU(d) * n, ExitP(d, FirstP)) == n / d
  {
    var p, m := ExitP(d, FirstP), ExactMU(d);
    StopExact(d, p);
    MultiplierShape(d, p, m);
    MagicQuotient(W32, d, p, m, Delta(d, p), n);
  }

  /** For d <= 2^31, nc exceeds 2^31. */
  lemma NcAboveW31(d: u32)
    requires 1 <= d <= W31
    ensures Nc(W32, d) > W31
  {
    if d == W31 {
      DivModUnique(W32, d, 2, 0);
    }
  }

  /** magicu needs a 33-bit shift (s == 32) only for divisors above 2^31. */
  lemma MagicUShiftBound(d: u32)
    requires 1 <= d <= W31
    ensures ExitP(d, FirstP) <= 63 && MagicUSpec(d).s <= 31
  {
    var p := ExitP(d, FirstP);
    if p == 64 {
      StopsBy63(d, p - 1);
      assert false;
    }
  }

  /** For d <= 2^31 the test at p = 63 sees the exact q1 and fails. */
  lemma StopsBy63(d: u32, p: nat)
    requires 1 <= d <= W31 && p == 63
    ensures !Continue(d, p)
  {
    var nc, delta := Nc(W32, d), Delta(d, p);
    NcAboveW31(d);
    Pow2Low();
    Pow2Add(31, 32);
    var x := Pow2(p);
    assert x == W31 * W32;
    assert Q1(d, p) < W32 by {
      MulMonotone(W32, W31 + 1, nc);
      QuotientBelow(x, nc, W32);
    }
    ContinueExact(d, p);
    assert nc * delta < x by {
      MulMonotone(nc, delta, W31 - 1);
      MulMonotone(W31 - 1, nc, W32);
    }
  }

  /** The multiplier as returned: M is m mod 2^32 and a says m needs a 33rd bit,
      so m == M + a * 2^32 with m < 2^33. When s == 32, a == 1. */
  lemma MagicUMultiplier(d: u32)
    requires d >= 1
    ensures var m := ExactMU(d);
            var mu := MagicUSpec(d);
            m < 2 * W32 && (mu.a == 0 || mu.a == 1)
            && (mu.a == 1 <==> m >= W32) && m == mu.M + mu.a * W32
            && (mu.s == 32 ==> mu.a == 1)
  {
    var p := ExitP(d, FirstP);
    MultiplierBelow(d, p);
    DivNonNegative(Pow2(p) - 1, d);
    SplitMultiplier(ExactMU(d));
  }

  lemma SplitMultiplier(m: int)
    requires 0 <= m < 2 * W32
    ensures m == m % W32 + (if m >= W32 then 1 else 0) * W32
  {
    if m >= W32 {
      DivModUnique(m, W32, 1, m - W32);
    }
  }

  /** The exact multiplier at the exit exponent is below 2^33, and above 2^32
      when the exit is at p = 64. */
  lemma MultiplierBelow(d: u32, p: nat)
    requires d >= 1 && p == ExitP(d, FirstP)
    ensures Q2(d, p) + 1 < 2 * W32 && (p == 64 ==> Q2(d, p) + 1 > W32)
  {
    if p == 32 {
      BoundAt32(d, p);
    } else if p < 64 {
      BoundAfterContinue(d, p - 1);
    } else {
      if d <= W31 {
        MagicUShiftBound(d);
      }
      BoundAt64(d, p);
    }
  }

  lemma BoundAt32(d: u32, p: nat)
    requires d >= 1 && p == 32
    ensures Q2(d, p) + 1 <= W32
  {
    Pow2Low();
    InitialQuotient(W32 - 1, d);
  }

  /** If the loop went on past p (p <= 62), the multiplier at p + 1 fits in 33 bits:
      q1 did not wrap at p, so 2^p <= nc * delta, whence m_p < 2^32. */
  lemma BoundAfterContinue(d: u32, p: nat)
    requires d >= 1 && 32 <= p <= 62 && Continue(d, p)
    ensures Q2(d, p + 1) + 1 < 2 * W32
  {
    var nc, delta, x := Nc(W32, d), Delta(d, p), Pow2(p);
    NcAtLeastW31(d);
    assert Q1(d, p) < W32 by {
      Pow2Order(p, 62);
      Pow62(x, nc);
    }
    ContinueExact(d, p);
    var m := Q2(d, p) + 1;
    MultiplierShape(d, p, m);
    MultiplierFits(m, d, x, nc, delta);
    DoubleStep(x - 1, 1, d);
    assert Pow2(p + 1) - 1 == 2 * (x - 1) + 1;
  }

  /** Below 2^62, the quotient by nc >= 2^31 fits in 32 bits. */
  lemma Pow62(x: int, nc: int)
    requires 0 <= x <= Pow2(62) && nc >= W31
    ensures x / nc < W32
  {
    Pow2Low();
    Pow2Add(31, 31);
    assert x <= W31 * W31;
    MulMonotone(W31, W31, nc);
    MulMonotone(nc, W31, W32);
    QuotientBelow(x, nc, W32);
  }

  /** m*d = x + delta with x <= nc*delta and nc < 2^32 forces m < 2^32. */
  lemma MultiplierFits(m: int, d: int, x: int, nc: int, delta: int)
    requires 1 <= d && 0 <= delta < d && 0 <= nc < W32
    requires m * d == x + delta && x <= nc * delta
    ensures m < W32
  {
    assert m * d <= (nc + 1) * delta;
    assert (nc + 1) * delta < W32 * d by {
      MulMonotone(delta, nc + 1, W32);
      MulMonotone(W32, delta, d - 1);
    }
    MulCancelStrict(d, m, W32);
  }

  /** At p = 64 with d > 2^31: (2^64 - 1)/d + 1 < 2^33. */
  lemma BoundAt64(d: u32, p: nat)
    requires W31 < d && p == 64
    ensures Q2(d, p) + 1 > W32 && Q2(d, p) + 1 < 2 * W32
  {
    Pow2Constants();
    var x := Pow2(p) - 1;
    assert x == W32 * W32 - 1;
    assert x < d * (2 * W32 - 1) by {
      MulMonotone(2 * W32 - 1, W31 + 1, d);
    }
    QuotientBelow(x, d, 2 * W32 - 1);
    assert d * W32 <= x by {
      MulMonotone(W32, d, W32 - 1);
    }
    assert x == d * Q2(d, p) + R2(d, p);
    MulCancelStrict(d, W32 - 1, Q2(d, p) + 1);
  }

  /** magicu(7): the loop runs from p = 32 to p = 35; the multiplier
      (2^35 - 1)/7 + 1 = 0x1_2492_4925 needs 33 bits. */
  lemma MagicUSeven()
    ensures MagicUSpec(7) == Mu(0x2492_4925, 1, 3)
  {
    var nc := 4294967291;
    Pow2Low();
    DivModUnique(W32, 7, 613566756, 4);
    assert Nc(W32, 7) == nc;
    SevenAt(32, 1, 1, 5, 613566756, 3);
    SevenAt(33, 2, 2, 10, 1227133513, 0);
    SevenAt(34, 4, 4, 20, 2454267026, 1);
    SevenAt(35, 8, 8, 40, 4908534052, 3);
    assert ExitP(7, 32) == 35;
  }

  /** The solver's quantities for d = 7 at exponent p, where 2^p = k * 2^32. */
  lemma SevenAt(p: nat, k: nat, q1: int, r1: int, q2: int, r2: int)
    requires Pow2(p) == k * W32 && Nc(W32, 7) == 4294967291
    requires k * W32 == 4294967291 * q1 + r1 && 0 <= r1 < 4294967291
    requires k * W32 - 1 == 7 * q2 + r2 && 0 <= r2 < 7
    ensures Q1(7, p) == q1 && R1(7, p) == r1 && Q2(7, p) == q2 && R2(7, p) == r2
  {
    DivModUnique(k * W32, 4294967291, q1, r1);
    DivModUnique(k * W32 - 1, 7, q2, r2);
  }
}
