/** `calculate_kdivu` and `calculate_kdivs` of kdiv.c: the value that the emitted
    instruction sequence computes for one dividend, for the word length 32.

    Each C assignment of a wider value to an `int` or `unsigned int` is written
    out as ToS32 / ToU32; `>>` on a signed value is Shr (floor division by a
    power of two), `>>` on an unsigned value is Shr of a non-negative value. */
module Calculators {
  import opened Words
  import opened Bits
  import opened MulShift
  import opened MagicUnsigned
  import opened MagicSigned

  /** The instruction sequences that the calculators (and the emitters) choose among. */
  datatype EmissionCase =
    | ShiftU       // unsigned, d a power of two: shr
    | MulHighU     // unsigned, a == 0: mulhu, shri
    | MulHighAddU  // unsigned, a == 1: mulhu, add, shrxi
    | ShiftS       // signed, d == 1, d == -1 or d a power of two: shrsi, shri, add, shrsi, neg
    | MulHighS     // signed otherwise: mulhs, add|sub, shrsi, shri, add

  // ----- unsigned -----

  /** The unsigned sequence for add indicator a and divisor d; an indicator other
      than 0 or 1 is the fatal "Unsupported constant division". The shift-only
      sequence is chosen exactly for the powers of two 2^0 .. 2^31. */
  function CaseU(a: int, d: u32): (c: Result<EmissionCase>)
    ensures c.Exit? <==> !(d >= 1 && Pow2(CeilLog2(d)) == d) && a != 0 && a != 1
    ensures c == Ok(ShiftU) <==> d >= 1 && Pow2(CeilLog2(d)) == d
    ensures c.Ok? ==> c.value in {ShiftU, MulHighU, MulHighAddU}
  {
    if IsPowOf2(d) then Ok(ShiftU)
    else if a == 0 then Ok(MulHighU)
    else if a == 1 then Ok(MulHighAddU)
    else Exit(UnsupportedConstantDivision)
  }

  /** `mulhu`: the high word of the 64-bit product M * n. It never exceeds
      either factor. */
  function HighWordU(M: u32, n: u32): (q: u32)
    ensures q <= M && q <= n
  {
    Pow2Low();
    HighWordBound(M, n);
    HighWordBound(n, M);
    Shr(M * n, 32)
  }

  lemma HighWordBound(x: u32, y: u32)
    ensures Pow2(32) == W32 && 0 <= (x * y) / W32 <= x
  {
    Pow2Low();
    MulMonotone(x, y, W32 - 1);
    MulMonotone(x + 1, 0, W32);
    DivRange(x * y, W32, 0, x + 1);
  }

  /** `calculate_kdivu(M, a, s, n, d, 32)`. In the a == 1 sequence the sum
      q + n is formed in an `unsigned int` and so wraps modulo 2^32 before it
      is widened; the mask with `ipowul(2, W) - 1` leaves it unchanged
      (Bits.MaskKeepsWord). */
  function CalcU(M: u32, a: int, s: nat, n: u32, d: u32): (r: Result<u32>)
    requires s < 64 && (a == 0 ==> s < 32)
    ensures r.Exit? <==> CaseU(a, d).Exit?
  {
    match CaseU(a, d)
    case Exit(reason) => Exit(reason)
    case Ok(c) =>
      if c == ShiftU then
        var k := CeilLog2(d);
        ShrBounds(n, k);
        Ok(Shr(n, k))
      else if c == MulHighU then
        var q := HighWordU(M, n);
        ShrBounds(q, s);
        Ok(Shr(q, s))
      else
        var t := (HighWordU(M, n) + n) % W32;
        ShrBounds(t, s);
        Ok(Shr(t, s))
  }

  /** The same with the add of the a == 1 sequence kept in 64 bits, so that its
      carry reaches the shift (the `shrxi` of the comment at kdiv.c:375-377). */
  function CalcUWide(M: u32, a: int, s: nat, n: u32, d: u32): (r: Result<u32>)
    requires s < 64 && (a == 0 ==> s < 32)
    ensures r.Exit? <==> CaseU(a, d).Exit?
    ensures a != 1 || CaseU(a, d) == Ok(ShiftU) ==> r == CalcU(M, a, s, n, d)
  {
    if CaseU(a, d) == Ok(MulHighAddU) then
      Ok(ToU32(Shr(HighWordU(M, n) + n, s)))
    else
      CalcU(M, a, s, n, d)
  }

  /** magicu's output is always accepted by calculate_kdivu. */
  lemma MagicUAccepted(d: u32)
    requires d >= 1
    ensures var mu := MagicUSpec(d);
            mu.s < 64 && (mu.a == 0 ==> mu.s < 32) && CaseU(mu.a, d).Ok?
  {
    MagicUCriterion(d);
    MagicUMultiplier(d);
  }

  /** With magicu's output, every unsigned sequence is floor division, provided
      that, where the a == 1 sequence is used, the sum q + n stays below 2^32. */
  lemma CalcUExact(d: u32, n: u32)
    requires d >= 1
    requires var mu := MagicUSpec(d);
             CaseU(mu.a, d) == Ok(MulHighAddU) ==> HighWordU(mu.M, n) + n < W32
    ensures var mu := MagicUSpec(d);
            mu.s < 64 && (mu.a == 0 ==> mu.s < 32)
    ensures var mu := MagicUSpec(d);
            CalcU(mu.M, mu.a, mu.s, n, d) == Ok(n / d)
  {
    var mu := MagicUSpec(d);
    var p := ExitP(d, FirstP);
    var m := ExactMU(d);
    MagicUAccepted(d);
    MagicUMultiplier(d);
    if !IsPowOf2(d) {
      MagicUExact(d, n);
      if mu.a == 0 {
        HighShift(mu.M, 0, m, mu.s, p, n, n / d);
      } else {
        HighShift(mu.M, 1, m, mu.s, p, n, n / d);
        SmallMod(HighWordU(mu.M, n) + n);
      }
    }
  }

  /** The high word of M * n, plus n when a == 1, is the high word of m * n for
      the exact multiplier m = M + a * 2^32. */
  lemma WideHigh(M: u32, a: int, m: int, n: u32)
    requires (a == 0 || a == 1) && m == M + a * W32
    ensures HighWordU(M, n) + a * n == Shr(m * n, 32)
  {
    Pow2Low();
    assert m * n == M * n + W32 * (a * n);
    DivAddMultiple(M * n, W32, a * n);
  }

  /** With the carry kept, every unsigned sequence is floor division for every
      dividend. */
  lemma CalcUWideExact(d: u32, n: u32)
    requires d >= 1
    ensures var mu := MagicUSpec(d);
            mu.s < 64 && (mu.a == 0 ==> mu.s < 32)
    ensures var mu := MagicUSpec(d);
            CalcUWide(mu.M, mu.a, mu.s, n, d) == Ok(n / d)
  {
    var mu := MagicUSpec(d);
    MagicUAccepted(d);
    if CaseU(mu.a, d) == Ok(MulHighAddU) {
      WideAddExact(d, n);
      WidePath(mu.M, mu.a, mu.s, n, d);
    } else {
      CalcUExact(d, n);
      NarrowPath(mu.M, mu.a, mu.s, n, d);
    }
  }

  /** The a == 1 sequence with the carry kept returns the shifted sum. */
  lemma WidePath(M: u32, a: int, s: nat, n: u32, d: u32)
    requires d >= 1 && s < 64 && CaseU(a, d) == Ok(MulHighAddU)
    requires a == 1 ==> Shr(HighWordU(M, n) + n, s) == n / d
    ensures CalcUWide(M, a, s, n, d) == Ok(n / d)
  {
    DivShrinks(n, d);
  }

  /** The other sequences are calculate_kdivu's. */
  lemma NarrowPath(M: u32, a: int, s: nat, n: u32, d: u32)
    requires d >= 1 && s < 64 && (a == 0 ==> s < 32) && CaseU(a, d).Ok? && CaseU(a, d) != Ok(MulHighAddU)
    requires CalcU(M, a, s, n, d) == Ok(n / d)
    ensures CalcUWide(M, a, s, n, d) == Ok(n / d)
  {
  }

  lemma WideAddExact(d: u32, n: u32)
    requires d >= 1
    ensures var mu := MagicUSpec(d);
            mu.a == 1 ==> Shr(HighWordU(mu.M, n) + n, mu.s) == n / d
  {
    var mu := MagicUSpec(d);
    var p := ExitP(d, FirstP);
    var m := ExactMU(d);
    MagicUMultiplier(d);
    if mu.a == 1 {
      MagicUExact(d, n);
      HighShift(mu.M, 1, m, mu.s, p, n, n / d);
    }
  }

  /** The high word, plus n when a == 1 (carry kept), shifted by s is the
      shift of the product by the exact multiplier m = M + a * 2^32. */
  lemma HighShift(M: u32, a: int, m: int, s: nat, p: nat, n: u32, q: int)
    requires (a == 0 || a == 1) && m == M + a * W32 && p == 32 + s && Shr(m * n, p) == q
    ensures Shr(HighWordU(M, n) + a * n, s) == q
  {
    WideHigh(M, a, m, n);
    ShrShr(m * n, 32, s);
  }

  /** magicu(7) gives the 33-bit multiplier 0x1_2492_4925 (M = 0x2492_4925,
      a = 1, s = 3). For n = 2^32 - 1 the add q + n wraps, and the sequence
      answers 0x0492_4924 instead of (2^32 - 1) / 7 = 0x2492_4924. */
  lemma LostCarry()
    ensures MagicUSpec(7) == Mu(0x2492_4925, 1, 3)
    ensures CalcU(0x2492_4925, 1, 3, W32 - 1, 7) == Ok(0x0492_4924)
    ensures (W32 - 1) / 7 == 0x2492_4924
  {
    MagicUSeven();
    SevenWraps();
  }

  /** The a == 1 sequence on magicu(7)'s constants, evaluated at n = 2^32 - 1. */
  lemma SevenWraps()
    ensures CalcU(0x2492_4925, 1, 3, W32 - 1, 7) == Ok(0x0492_4924)
    ensures (W32 - 1) / 7 == 0x2492_4924
  {
    var M: u32 := 0x2492_4925;
    Pow2Low();
    DivModUnique(M * (W32 - 1), W32, M - 1, W32 - M);
    assert HighWordU(M, W32 - 1) == M - 1;
    assert !IsPowOf2(7);
    assert CaseU(1, 7) == Ok(MulHighAddU);
    DivModUnique(M - 1 + (W32 - 1), W32, 1, M - 2);
    assert Pow2(3) == 8;
    DivModUnique(M - 2, 8, 0x0492_4924, 3);
    DivModUnique(W32 - 1, 7, 0x2492_4924, 3);
  }

  // ----- signed -----

  /** A signed divisor passes `ispowof2((unsigned)d)` exactly when it is a
      positive power of two (-2^31 being excluded). */
  lemma PowOfTwoSigned(d: i32)
    requires d != -W31
    ensures IsPowOf2(ToU32(d)) <==> d >= 1 && Pow2(CeilLog2(d)) == d
  {
    if d < 0 {
      NegativeDivisorIsPowOf2(d);
    }
  }

  /** The signed sequence for divisor d: shifts for 1, -1 and the positive powers
      of two, the multiply-high sequence otherwise. */
  function CaseS(d: i32): (c: EmissionCase)
    requires d != -W31
    ensures c == ShiftS <==> d == 1 || d == -1 || (d >= 2 && Pow2(CeilLog2(d)) == d)
    ensures c == ShiftS || c == MulHighS
  {
    PowOfTwoSigned(d);
    if d == 1 || d == -1 || IsPowOf2(ToU32(d)) then ShiftS else MulHighS
  }

  /** For a divisor d >= 2 that is a power of two, `log2ceil(ABS(d))` is its
      exponent k, with 1 <= k <= 30. */
  lemma ShiftExponent(d: i32)
    requires 2 <= d && Pow2(CeilLog2(d)) == d
    ensures var k := CeilLog2(Abs(d));
            1 <= k <= 30 && Pow2(k) == d
  {
    var k := CeilLog2(d);
    Pow2Constants();
    if k > 30 {
      Pow2Monotone(31, k);
    }
  }

  /** The end of the power-of-two sequence: `t = n + u; q = t >> k;` and
      `q = -q` for a negative divisor. */
  function ShiftPath(n: i32, d: i32, k: nat, u: int): i32
  {
    var q := ToS32(Shr(n + u, k));
    if d < 0 then ToS32(-(q as int)) else q
  }

  /** `mulhs`: the high word of the signed 64-bit product, assigned to an `int`. */
  function HighWordS(M: i32, n: i32): i32
  {
    ToS32(Shr(M * n, 32))
  }

  /** The correction term: add n when d > 0 and M < 0, subtract it when d < 0 and M > 0. */
  function AddSub(q: i32, M: i32, n: i32, d: i32): i32
  {
    if d > 0 && M < 0 then ToS32(q + n)
    else if d < 0 && M > 0 then ToS32(q - n)
    else q
  }

  /** The multiply-high sequence with sign term c: `q = q >> s; q = q + c;` and,
      for a negative divisor, `q = q + (n != 0)`. Adding the `unsigned int` c
      to the `int` q is done modulo 2^32 and read back as an `int`. */
  function MulHighPath(M: i32, s: nat, n: i32, d: i32, c: u32): i32
  {
    var q := AddSub(HighWordS(M, n), M, n, d);
    ShrBounds(q, s);
    var q := ToS32(Shr(q, s) + c);
    if d < 0 then ToS32(q + (if n != 0 then 1 else 0)) else q
  }

  /** `calculate_kdivs(M, s, n, d, 32)`. `log2ceil(ABS(d))` runs first and ends
      the program when d == 0. The sign term `c = n >> (W-1)` shifts the `int`
      n arithmetically, so c is 0 or 0xFFFF_FFFF. */
  function CalcS(M: i32, s: nat, n: i32, d: i32): (r: Result<i32>)
    requires d != -W31 && (d == -1 ==> n != -W31) && (d != 0 && CaseS(d) == MulHighS ==> s < 32)
    ensures r.Exit? <==> d == 0
  {
    if d == 0 then Exit(Log2OfZero)
    else
      var k := CeilLog2(Abs(d));
      if CaseS(d) == ShiftS then
        if d == 1 then Ok(n)
        else if d == -1 then Ok(-n)
        else
          ShiftExponent(d);
          var t := Shr(n, k - 1);
          Ok(ShiftPath(n, d, k, Shr(t, 32 - k)))
      else
        Ok(MulHighPath(M, s, n, d, ToU32(Shr(n, 31))))
  }

  /** `(unsigned)n >> 31`: the sign bit of n, read by a logical shift. */
  function SignBit(n: i32): (c: u32)
    ensures c == if n < 0 then 1 else 0
  {
    SignBitValue(n);
    Shr(ToU32(n), 31)
  }

  lemma SignBitValue(n: i32)
    ensures Shr(ToU32(n), 31) == if n < 0 then 1 else 0
  {
    Pow2Low();
    if n < 0 {
      DivBetween(ToU32(n), W31, 1);
    } else {
      DivBetween(n, W31, 0);
    }
  }

  /** calculate_kdivs with the shifts the comments name as logical (`shri`) made
      logical: u is the 32-bit word t shifted right logically, and for d > 0
      the sign term is the sign bit of n. For d < 0 the sign term is left as
      written, which is already right there. */
  function CalcSLogical(M: i32, s: nat, n: i32, d: i32): (r: Result<i32>)
    requires d != -W31 && (d == -1 ==> n != -W31) && (d != 0 && CaseS(d) == MulHighS ==> s < 32)
    ensures r.Exit? <==> d == 0
    ensures n >= 0 || d < 0 ==> r == CalcS(M, s, n, d)
  {
    if d == 0 then Exit(Log2OfZero)
    else
      var k := CeilLog2(Abs(d));
      if CaseS(d) == ShiftS then
        if d == 1 then Ok(n)
        else if d == -1 then Ok(-n)
        else
          ShiftExponent(d);
          var t := Shr(n, k - 1);
          LogicalShiftAgrees(n, k);
          Ok(ShiftPath(n, d, k, Shr(ToU32(t), 32 - k)))
      else
        SignShift(n);
        Ok(MulHighPath(M, s, n, d, if d > 0 then SignBit(n) else ToU32(Shr(n, 31))))
  }

  /** For n >= 0 the logical and the arithmetic shift of t agree. */
  lemma LogicalShiftAgrees(n: i32, k: nat)
    requires 1 <= k <= 31
    ensures n >= 0 ==> Shr(ToU32(Shr(n, k - 1)), 32 - k) == Shr(Shr(n, k - 1), 32 - k)
  {
    ShrBounds(n, k - 1);
  }

  // ----- what the signed sequences compute -----

  /** The exact multiplier 2^p/|d| + 1 at magic's exit exponent, with the sign of d. */
  function SignedM(d: int): int
    requires Divisor(d)
  {
    var m := ExactM(d);
    if d < 0 then -m else m
  }

  /** Conversion to `int` of a value within 2^32 of zero. */
  lemma ToS32Window(x: int)
    requires -W32 < x < W32
    ensures ToS32(x) == if x >= W31 then x - W32 else if x < -W31 then x + W32 else x
  {
    if x >= W31 {
      SmallMod(x);
    } else if x < -W31 {
      DivModUnique(x, W32, -1, x + W32);
    }
  }

  /** A factor below 2^32 in magnitude times an `int` stays below 2^31 * 2^32. */
  lemma ProductBound(x: int, n: int)
    requires -W32 < x < W32 && -W31 <= n < W31
    ensures -W31 * W32 <= x * n < W31 * W32
  {
    var ax := if x < 0 then -x else x;
    var an := if n < 0 then -n else n;
    MulMonotone(ax, an, W31);
    MulMonotone(W31, ax, W32 - 1);
    assert x * n == ax * an || x * n == -(ax * an);
  }

  /** mulhs followed by the add|sub correction yields the high word of mm * n,
      where M is mm read as an `int` and mm carries the divisor's sign. */
  lemma CorrectionTerm(M: i32, mm: int, n: i32, d: i32)
    requires d != 0 && (d > 0 ==> 1 <= mm < W32) && (d < 0 ==> -W32 < mm <= -1)
    requires M == ToS32(mm)
    ensures AddSub(HighWordS(M, n), M, n, d) == Shr(mm * n, 32)
  {
    var H := Shr(mm * n, 32);
    ProductBound(mm, n);
    HighFits(mm * n);
    ToS32Window(mm);
    if d > 0 && mm >= W31 {
      AddCorrection(M, mm, n, H);
    } else if d < 0 && mm < -W31 {
      SubCorrection(M, mm, n, H);
    } else {
      assert M == mm;
    }
  }

  /** A multiplier mm >= 2^31 reads as M = mm - 2^32; adding n back restores
      the high word of mm * n. */
  lemma AddCorrection(M: i32, mm: int, n: i32, H: int)
    requires M == mm - W32 && H == Shr(mm * n, 32) && -W31 <= H < W31
    ensures ToS32(HighWordS(M, n) + n) == H
  {
    WrappedHigh(M, mm, n, -1);
    var y := -(n as int);
    assert HighWordS(M, n) == ToS32(H + y);
    UnwrapHigh(H, y);
  }

  /** A multiplier mm < -2^31 reads as M = mm + 2^32; subtracting n restores
      the high word of mm * n. */
  lemma SubCorrection(M: i32, mm: int, n: i32, H: int)
    requires M == mm + W32 && H == Shr(mm * n, 32) && -W31 <= H < W31
    ensures ToS32(HighWordS(M, n) - n) == H
  {
    WrappedHigh(M, mm, n, 1);
    assert HighWordS(M, n) == ToS32(H + n);
    UnwrapHigh(H, n);
  }

  /** Reading a multiplier w * 2^32 away from mm moves the high word of the
      product by w * n. */
  lemma WrappedHigh(M: int, mm: int, n: int, w: int)
    requires M == mm + w * W32
    ensures Shr(M * n, 32) == Shr(mm * n, 32) + w * n
  {
    Pow2Low();
    assert M * n == mm * n + W32 * (w * n);
    DivAddMultiple(mm * n, W32, w * n);
  }

  /** Converting H + y to `int` and then undoing y gives H back. */
  lemma UnwrapHigh(H: int, y: int)
    requires -W31 <= H < W31
    ensures ToS32(ToS32(H + y) - y) == H
  {
    ToS32Congruent(ToS32(H + y) - y, H);
  }

  /** The multiply-high sequence with M the `int` reading of mm and p = 32 + s
      computes floor(mm * n / 2^p) + c, plus 1 for a negative divisor and n != 0. */
  lemma MulHighPathValue(M: i32, s: nat, n: i32, d: i32, c: u32, mm: int, p: nat)
    requires d != 0 && (d > 0 ==> 1 <= mm < W32) && (d < 0 ==> -W32 < mm <= -1)
    requires M == ToS32(mm) && p == 32 + s
    ensures MulHighPath(M, s, n, d, c)
            == ToS32(Shr(mm * n, p) + c + (if d < 0 && n != 0 then 1 else 0))
  {
    CorrectionTerm(M, mm, n, d);
    ShrShr(mm * n, 32, s);
    PathFromHigh(M, s, n, d, c, Shr(mm * n, 32));
  }

  /** The multiply-high sequence, once the corrected high word A is known: the
      shift, the sign term and, for d < 0, the final +1. */
  lemma PathFromHigh(M: i32, s: nat, n: i32, d: i32, c: u32, A: int)
    requires AddSub(HighWordS(M, n), M, n, d) == A
    ensures MulHighPath(M, s, n, d, c) == ToS32(Shr(A, s) + c + (if d < 0 && n != 0 then 1 else 0))
  {
    var x := Shr(A, s) + c;
    if d < 0 {
      var b := if n != 0 then 1 else 0;
      ToS32Congruent(ToS32(x) + b, x + b);
    }
  }

  /** magic's output read as the signed exact multiplier: M is SignedM(d) as an
      `int`, and s + 32 is the exit exponent. */
  lemma MagicSMultiplier(d: int)
    requires Divisor(d) && AD(d) >= 2
    ensures var ms := MagicSSpec(d);
            var mm := SignedM(d);
            ms.M == ToS32(mm) && ms.s + 32 == ExitExp(d) && 0 <= ms.s <= 30
            && (d > 0 ==> 1 <= mm < W32) && (d < 0 ==> -W32 < mm <= -1)
  {
    var m := ExactM(d);
    SignedMultiplier(d);
    if d < 0 {
      NegToS32(m);
    }
  }

  /** With magic's output the multiply-high sequence computes
      floor(mm * n / 2^p) + c, plus 1 for a negative divisor and n != 0. */
  lemma MulHighValue(d: i32, n: i32, c: u32)
    requires Divisor(d) && AD(d) >= 2
    ensures var ms := MagicSSpec(d);
            ms.s < 32
            && MulHighPath(ms.M, ms.s, n, d, c)
               == ToS32(Shr(SignedM(d) * n, ExitExp(d)) + c + (if d < 0 && n != 0 then 1 else 0))
  {
    var ms := MagicSSpec(d);
    MagicSMultiplier(d);
    MulHighPathValue(ms.M, ms.s, n, d, c, SignedM(d), ExitExp(d));
  }

  /** The power-of-two sequence shifts n right by 31 in two steps: u is the sign
      of n, 0 or -1. */
  lemma ShiftSign(n: i32, k: nat)
    requires 1 <= k <= 31
    ensures Shr(Shr(n, k - 1), 32 - k) == if n < 0 then -1 else 0
  {
    ShrShr(n, k - 1, 32 - k);
    SignShift(n);
  }

  /** floor((-a - 1) / D) is one below -(a / D). */
  lemma FloorBelowNegative(a: int, D: int)
    requires a >= 0 && D >= 1
    ensures (-a - 1) / D == -(a / D) - 1
  {
    var q, r := a / D, a % D;
    assert -a - 1 == D * (-q - 1) + (D - 1 - r);
    DivModUnique(-a - 1, D, -q - 1, D - 1 - r);
  }

  /** floor((-a + D - 1) / D) is -(a / D): the rounding toward zero of -a / D. */
  lemma CeilNegative(a: int, D: int)
    requires a >= 0 && D >= 1
    ensures (-a + D - 1) / D == -(a / D)
  {
    var q, r := a / D, a % D;
    assert -a + D - 1 == D * -q + (D - 1 - r);
    DivModUnique(-a + D - 1, D, -q, D - 1 - r);
  }

  /** A quotient by at least 2 of a magnitude up to 2^31 stays below 2^31 - 2. */
  lemma HalfQuotient(a: int, D: int)
    requires 0 <= a <= W31 && D >= 2
    ensures 0 <= a / D < W31 - 2
  {
    MulMonotone(W31 - 2, 2, D);
    DivNonNegative(a, D);
    QuotientBelow(a, D, W31 - 2);
  }

  /** The multiplier's high word for a dividend n: with q = |n| / |d|, it is q
      when n and d have the same sign, -q - 1 when their signs differ, and 0
      for n == 0. */
  lemma SignedHigh(d: i32, n: i32)
    requires Divisor(d) && AD(d) >= 2
    ensures var H := Shr(SignedM(d) * n, ExitExp(d));
            var q := Abs(n) / AD(d);
            if n == 0 then H == 0 else if (n < 0) == (d < 0) then H == q else H == -q - 1
  {
    if d > 0 && n == -W31 {
      SignedQuotientAtT(d);
      HighAtT(SignedM(d), ExactM(d), n, ExitExp(d), AD(d));
    } else {
      HighBelowT(d, n);
    }
  }

  /** The high word for n = -2^31 and a positive divisor, from the bracket at t. */
  lemma HighAtT(mm: int, m: int, n: int, P: nat, D: int)
    requires mm == m && n == -W31 && D >= 1 && Shr(-(m * W31), P) == -(W31 / D) - 1
    ensures Shr(mm * n, P) == -(Abs(n) / D) - 1
  {
    assert mm * n == -(m * W31);
  }

  /** SignedHigh for the magnitudes below t, where SignedQuotient applies. */
  lemma HighBelowT(d: i32, n: i32)
    requires Divisor(d) && AD(d) >= 2 && (d > 0 ==> n != -W31)
    ensures var H := Shr(SignedM(d) * n, ExitExp(d));
            var q := Abs(n) / AD(d);
            if n == 0 then H == 0 else if (n < 0) == (d < 0) then H == q else H == -q - 1
  {
    var m, a, p := ExactM(d), Abs(n), ExitExp(d);
    var q := a / AD(d);
    assert Shr(m * a, p) == q && (n != 0 ==> Shr(-(m * a), p) == -q - 1) by {
      SignedQuotient(d, a);
    }
    SignCases(SignedM(d), m, n, a, d < 0, p, q);
  }

  /** Reading the bracket of SignedQuotient for the signs of n and d. */
  lemma SignCases(mm: int, m: int, n: int, a: int, negd: bool, P: nat, q: int)
    requires mm == (if negd then -m else m) && a == Abs(n)
    requires Shr(m * a, P) == q && (n != 0 ==> Shr(-(m * a), P) == -q - 1)
    ensures var H := Shr(mm * n, P);
            if n == 0 then H == 0 else if (n < 0) == negd then H == q else H == -q - 1
  {
    var x := m * a;
    if n == 0 {
      assert mm * n == 0;
    } else if n < 0 {
      NegProduct(m, a);
      if negd {
        assert mm * n == (-m) * (-a);
        assert mm * n == x;
      } else {
        assert mm * n == m * (-a);
        assert mm * n == -x;
      }
    } else {
      NegProduct(m, a);
      if negd {
        assert mm * n == (-m) * a;
        assert mm * n == -x;
      } else {
        assert mm * n == x;
      }
    }
  }

  lemma NegProduct(m: int, a: int)
    ensures (-m) * (-a) == m * a && m * (-a) == -(m * a) && (-m) * a == -(m * a)
  {
  }

  /** The power-of-two sequence as written: floor((n + u) / 2^k) with u the sign
      of n. */
  lemma ShiftValue(M: i32, s: nat, n: i32, d: i32)
    requires s < 32 && d >= 2 && Pow2(CeilLog2(d)) == d
    ensures CalcS(M, s, n, d) == Ok(ToS32(Shr(n + (if n < 0 then -1 else 0), CeilLog2(d))))
  {
    ShiftExponent(d);
    ShiftSign(n, CeilLog2(d));
  }

  /** The power-of-two sequence with the logical shift: floor((n + r) / 2^k)
      with r = 2^k - 1 for negative n. */
  lemma LogicalShiftAt(M: i32, s: nat, n: i32, d: i32, k: nat, r: int)
    requires s < 32 && d >= 2 && k == CeilLog2(d) && Pow2(k) == d && r == if n < 0 then d - 1 else 0
    ensures CalcSLogical(M, s, n, d) == Ok(ToS32(Shr(n + r, k)))
  {
    LogicalShiftPath(M, s, n, d);
    var u := Shr(ToU32(Shr(n, k - 1)), 32 - k);
    LogicalShiftTerm(n, k);
    PositiveShiftPath(n, d, k, u, r);
  }

  /** For a positive divisor the power-of-two sequence is the shift of n plus
      its rounding term. */
  lemma PositiveShiftPath(n: i32, d: i32, k: nat, u: int, r: int)
    requires d > 0 && u == r
    ensures ShiftPath(n, d, k, u) == ToS32(Shr(n + r, k))
  {
  }

  /** The logical `shri t, t, W-k` of the 32-bit t = n >> (k-1) is the
      rounding term: 2^k - 1 for negative n, 0 otherwise. */
  lemma LogicalShiftTerm(n: i32, k: nat)
    requires 1 <= k <= 31
    ensures Shr(ToU32(Shr(n, k - 1)), 32 - k) == if n < 0 then Pow2(k) - 1 else 0
  {
    if n < 0 {
      LogicalShiftNegative(n, k);
    } else {
      ShiftSign(n, k);
      LogicalShiftAgrees(n, k);
    }
  }

  /** For a positive power of two, CalcSLogical takes the shift path with the
      logically shifted bias. */
  lemma LogicalShiftPath(M: i32, s: nat, n: i32, d: i32)
    requires s < 32 && d >= 2 && Pow2(CeilLog2(d)) == d
    ensures 1 <= CeilLog2(d) <= 30
    ensures var k := CeilLog2(d);
            CalcSLogical(M, s, n, d) == Ok(ShiftPath(n, d, k, Shr(ToU32(Shr(n, k - 1)), 32 - k)))
  {
    ShiftExponent(d);
    assert CaseS(d) == ShiftS;
    assert Abs(d) == d;
  }

  /** calculate_kdivs with magic's output is C's division (rounding toward zero)
      for every non-negative dividend, and for every dividend when d < 0 or
      d == 1. */
  lemma CalcSExact(d: i32, n: i32)
    requires Divisor(d) && (d == -1 ==> n != -W31)
    requires n >= 0 || d < 0 || d == 1
    ensures MagicSSpec(d).s <= 30
    ensures CalcS(MagicSSpec(d).M, MagicSSpec(d).s, n, d) == Ok(TruncDiv(n, d))
  {
    var ms := MagicSSpec(d);
    if d == 1 || d == -1 {
      assert CalcS(ms.M, ms.s, n, d) == Ok(if d == 1 then n else -n);
      TruncDivUnit(n, d);
    } else if CaseS(d) == ShiftS {
      ShiftValue(ms.M, ms.s, n, d);
      NonNegativeShift(n, d, CeilLog2(d));
    } else {
      MulHighExact(d, n);
    }
  }

  /** Division by 1 or -1 rounds nothing away. */
  lemma TruncDivUnit(n: int, d: int)
    requires d == 1 || d == -1
    ensures TruncDiv(n, d) == if d == 1 then n else -n
  {
    var a := if n < 0 then -n else n;
    assert a / 1 == a;
  }

  /** For n >= 0 and d = 2^k, the shift sequence's n >> k is n / d. */
  lemma NonNegativeShift(n: i32, d: i32, k: nat)
    requires n >= 0 && d >= 2 && Pow2(k) == d
    ensures ToS32(Shr(n + (if n < 0 then -1 else 0), k)) == TruncDiv(n, d)
  {
    ShrBounds(n, k);
  }

  lemma MulHighExact(d: i32, n: i32)
    requires Divisor(d) && d != 1 && d != -1 && CaseS(d) == MulHighS && (n >= 0 || d < 0)
    ensures MagicSSpec(d).s <= 30
    ensures var ms := MagicSSpec(d);
            CalcS(ms.M, ms.s, n, d) == Ok(TruncDiv(n, d))
  {
    var ms := MagicSSpec(d);
    MagicSMultiplier(d);
    CalcSMulHigh(ms.M, ms.s, n, d);
    var c := ToU32(Shr(n, 31));
    SignTerm(n);
    var H := Shr(SignedM(d) * n, ExitExp(d));
    var q := Abs(n) / AD(d);
    assert if n == 0 then H == 0 else if (n < 0) == (d < 0) then H == q else H == -q - 1 by {
      SignedHigh(d, n);
    }
    MulHighRounds(ms.M, ms.s, n, d, c, SignedM(d), ExitExp(d), H, q);
  }

  /** The multiply-high sequence, given the high word H of mm * n shifted by p,
      rounds toward zero. */
  lemma MulHighRounds(M: i32, s: nat, n: i32, d: i32, c: u32, mm: int, p: nat, H: int, q: int)
    requires d != 0 && (d > 0 ==> 1 <= mm < W32) && (d < 0 ==> -W32 < mm <= -1)
    requires M == ToS32(mm) && p == 32 + s && H == Shr(mm * n, p)
    requires n >= 0 || d < 0
    requires c == (if n < 0 then W32 - 1 else 0) && Abs(d) >= 2 && q == Abs(n) / Abs(d)
    requires if n == 0 then H == 0 else if (n < 0) == (d < 0) then H == q else H == -q - 1
    ensures MulHighPath(M, s, n, d, c) == TruncDiv(n, d)
  {
    MulHighPathValue(M, s, n, d, c, mm, p);
    SumIsTruncDiv(H, c, n, d, q);
  }

  /** The sign term `c = n >> (W-1)`, stored in an `unsigned int`: 0xFFFF_FFFF
      for negative n, 0 otherwise. */
  lemma SignTerm(n: i32)
    ensures ToU32(Shr(n, 31)) == if n < 0 then W32 - 1 else 0
  {
    SignShift(n);
    if n < 0 {
      DivModUnique(-1, W32, -1, W32 - 1);
    }
  }

  /** Off the shift path, CalcS is the multiply-high sequence with the
      arithmetic sign term. */
  lemma CalcSMulHigh(M: i32, s: nat, n: i32, d: i32)
    requires d != -W31 && d != 0 && d != 1 && d != -1 && CaseS(d) == MulHighS && s < 32
    ensures CalcS(M, s, n, d) == Ok(MulHighPath(M, s, n, d, ToU32(Shr(n, 31))))
  {
  }

  /** The high word H, the sign term c and the final +1 add up, for n >= 0 or
      d < 0, to the quotient rounded toward zero. */
  lemma SumIsTruncDiv(H: int, c: int, n: i32, d: i32, q: int)
    requires d != 0 && (n >= 0 || d < 0)
    requires c == (if n < 0 then W32 - 1 else 0)
    requires Abs(d) >= 2 && q == Abs(n) / Abs(d)
    requires if n == 0 then H == 0 else if (n < 0) == (d < 0) then H == q else H == -q - 1
    ensures ToS32(H + c + (if d < 0 && n != 0 then 1 else 0)) == TruncDiv(n, d)
  {
    HalfQuotient(Abs(n), Abs(d));
    if n < 0 {
      ToS32Congruent(q + W32, q);
    }
  }

  /** As written, a positive divisor that is not a power of two gives, for every
      negative dividend, -2^31 included, two less than C's division: the arithmetic
      `n >> (W-1)` contributes -1 where the rounding correction needs +1. */
  lemma SignTermOffByTwo(d: i32, n: i32)
    requires Divisor(d) && d >= 2 && CaseS(d) == MulHighS && -W31 <= n < 0
    ensures MagicSSpec(d).s <= 30
    ensures CalcS(MagicSSpec(d).M, MagicSSpec(d).s, n, d) == Ok(TruncDiv(n, d) - 2)
  {
    SignShift(n);
    MulHighValue(d, n, W32 - 1);
    var H := Shr(SignedM(d) * n, ExitExp(d));
    var q := Abs(n) / AD(d);
    assert H == -q - 1 by {
      SignedHigh(d, n);
    }
    OffByTwoSum(H, n, d, q);
  }

  /** For d > 0 and n < 0 the high word -q - 1 plus the arithmetic sign term
      0xFFFF_FFFF is C's quotient minus 2. */
  lemma OffByTwoSum(H: int, n: i32, d: i32, q: int)
    requires d >= 2 && -W31 <= n < 0 && q == Abs(n) / d && H == -q - 1
    ensures ToS32(H + (W32 - 1) + (if d < 0 && n != 0 then 1 else 0)) == TruncDiv(n, d) - 2
  {
    HalfQuotient(Abs(n), d);
    ToS32Congruent(-q - 1 + (W32 - 1), -q - 2);
  }

  /** With a negative divisor the logical sign term would be wrong: for n < 0
      its 1 and the `+ (n != 0)` of kdiv.c:643-645 both round up, giving C's
      quotient plus 2. CalcSLogical therefore keeps the arithmetic term there. */
  lemma LogicalSignTermNegativeDivisor(d: i32, n: i32)
    requires Divisor(d) && d <= -2 && n < 0
    ensures MagicSSpec(d).s <= 30
    ensures MulHighPath(MagicSSpec(d).M, MagicSSpec(d).s, n, d, SignBit(n)) == TruncDiv(n, d) + 2
  {
    MulHighValue(d, n, 1);
    var q := Abs(n) / AD(d);
    assert Shr(SignedM(d) * n, ExitExp(d)) == q by {
      SignedHigh(d, n);
    }
    HalfQuotient(Abs(n), AD(d));
  }

  /** As written, a positive power-of-two divisor gives, for every negative
      dividend, one less than C's division: the arithmetic `t >> (W-k)` makes
      the bias u equal to -1 where 2^k - 1 is needed. */
  lemma ShiftNegativeOffByOne(M: i32, s: nat, d: i32, n: i32)
    requires s < 32 && d >= 2 && Pow2(CeilLog2(d)) == d && n < 0
    ensures CalcS(M, s, n, d) == Ok(TruncDiv(n, d) - 1)
  {
    ShiftValue(M, s, n, d);
    FloorShift(n, d, CeilLog2(d));
  }

  /** The arithmetic shift of n - 1 by k rounds a negative n / 2^k down, one
      below C's quotient. */
  lemma FloorShift(n: i32, d: i32, k: nat)
    requires d >= 2 && Pow2(k) == d && n < 0
    ensures ToS32(Shr(n + (if n < 0 then -1 else 0), k)) == TruncDiv(n, d) - 1
  {
    FloorBelowNegative(-(n as int), d);
    HalfQuotient(-(n as int), d);
  }

  /** The logical shifts of the comments give C's division for every dividend,
      the most negative `int` included. */
  lemma CalcSLogicalExact(d: i32, n: i32)
    requires Divisor(d) && (d == -1 ==> n != -W31)
    ensures MagicSSpec(d).s <= 30
    ensures CalcSLogical(MagicSSpec(d).M, MagicSSpec(d).s, n, d) == Ok(TruncDiv(n, d))
  {
    if n >= 0 || d < 0 {
      CalcSExact(d, n);
    } else if d == 1 {
      LogicalUnit(n);
    } else if CaseS(d) == ShiftS {
      LogicalShiftNegativeExact(d, n);
    } else {
      LogicalMulHighNegative(d, n);
    }
  }

  /** Division by 1 returns n unchanged, on either calculator. */
  lemma LogicalUnit(n: i32)
    ensures MagicSSpec(1).s <= 30
    ensures CalcSLogical(MagicSSpec(1).M, MagicSSpec(1).s, n, 1) == Ok(TruncDiv(n, 1))
  {
    CalcSExact(1, 0);
    TruncDivUnit(n, 1);
  }

  /** For a positive power of two and n < 0 the logical bias 2^k - 1 rounds
      toward zero. */
  lemma LogicalShiftNegativeExact(d: i32, n: i32)
    requires Divisor(d) && d >= 2 && CaseS(d) == ShiftS && n < 0
    ensures MagicSSpec(d).s <= 30
    ensures CalcSLogical(MagicSSpec(d).M, MagicSSpec(d).s, n, d) == Ok(TruncDiv(n, d))
  {
    var ms := MagicSSpec(d);
    assert ms.s == ExitExp(d) - 32;
    LogicalShiftRounds(ms.M, ms.s, n, d);
  }

  /** Whatever M and s, the logical power-of-two sequence rounds a negative
      n / 2^k toward zero. */
  lemma LogicalShiftRounds(M: i32, s: nat, n: i32, d: i32)
    requires s < 32 && d >= 2 && Pow2(CeilLog2(d)) == d && n < 0
    ensures CalcSLogical(M, s, n, d) == Ok(TruncDiv(n, d))
  {
    LogicalShiftAt(M, s, n, d, CeilLog2(d), d - 1);
    RoundedShift(n, d, CeilLog2(d));
  }

  /** Adding d - 1 before the arithmetic shift by k rounds a negative n toward
      zero, as C's division does. */
  lemma RoundedShift(n: i32, d: i32, k: nat)
    requires d >= 2 && Pow2(k) == d && n < 0
    ensures ToS32(Shr(n + (d - 1), k)) == TruncDiv(n, d)
  {
    CeilNegative(-(n as int), d);
    HalfQuotient(-(n as int), d);
  }

  lemma LogicalMulHighNegative(d: i32, n: i32)
    requires Divisor(d) && d >= 2 && CaseS(d) == MulHighS && -W31 <= n < 0
    ensures MagicSSpec(d).s <= 30
    ensures var ms := MagicSSpec(d);
            CalcSLogical(ms.M, ms.s, n, d) == Ok(TruncDiv(n, d))
  {
    MulHighValue(d, n, 1);
    var H := Shr(SignedM(d) * n, ExitExp(d));
    var q := Abs(n) / AD(d);
    assert H == -q - 1 by {
      SignedHigh(d, n);
    }
    LogicalSum(H, n, d, q);
  }

  /** For d > 0 and n < 0 the high word -q - 1 plus the logical sign bit 1 is
      C's quotient -q. */
  lemma LogicalSum(H: int, n: i32, d: i32, q: int)
    requires d >= 2 && -W31 <= n < 0 && q == Abs(n) / d && H == -q - 1
    ensures ToS32(H + 1 + (if d < 0 && n != 0 then 1 else 0)) == TruncDiv(n, d)
  {
    HalfQuotient(Abs(n), d);
  }

  /** For a negative n the logical shift of the 32-bit word n >> (k-1) by 32 - k
      is 2^k - 1. */
  lemma LogicalShiftNegative(n: i32, k: nat)
    requires 1 <= k <= 31 && n < 0
    ensures Shr(ToU32(Shr(n, k - 1)), 32 - k) == Pow2(k) - 1
  {
    var t := Shr(n, k - 1);
    ShrBounds(n, k - 1);
    DivModUnique(t, W32, -1, t + W32);
    Pow2Low();
    Pow2Add(32 - k, k);
    DivAddMultiple(t, Pow2(32 - k), Pow2(k));
    ShiftSign(n, k);
  }

  /** For d = 2 and n = -1 the power-of-two sequence answers -1 where C's
      division gives 0, whatever M and s. */
  lemma ShiftNegativeExample(M: i32, s: nat)
    requires s < 32
    ensures CalcS(M, s, -1, 2) == Ok(-1) && TruncDiv(-1, 2) == 0
  {
    assert CeilLog2(2) == 1;
    ShiftNegativeOffByOne(M, s, 2, -1);
  }
}
