# kdiv in Dafny: magic-number division by constants, 32-bit

kdiv derives "magic" multipliers that replace a division by a constant with a
multiply, an optional add or subtract, and shifts (Warren, *Hacker's Delight*,
chapter 10). It then emits that sequence as code and can check it against
native division over a range of dividends. This project models the arithmetic
core of `kdiv.c` and the generated routine `kdiv_s32_p_23` of `test.opt.c`.
The word length is fixed at 32.

- `words.dfy` (`Words`): the C word types as integer ranges. It covers
  `unsigned int`, `int` and `unsigned long long`, the conversions between them
  (`ToU32`, `ToS32`), `>>` as floor division by a power of two (`Shr`), and C's
  truncating `/` (`TruncDiv`). It also holds the fatal exits of the program
  (`Fatal`, `Result`).
- `bits.dfy` (`Bits`): `ispowof2`, `log2ceil` (a loop over an `unsigned int`)
  and `ipowul` (a loop over a 64-bit accumulator).
- `mulshift.dfy` (`MulShift`): the theorem behind both solvers. If
  m·D = 2^P + δ and 2^P > nc·δ, then ⌊m·n / 2^P⌋ = ⌊n / D⌋ for all 0 ≤ n < T;
  when T divides 2^P, ⌊-m·T / 2^P⌋ = -⌊T / D⌋ - 1 as well.
- `magicu.dfy` (`MagicUnsigned`): `magicu`. The method runs the C loop on
  wrapping 32-bit variables. It is proved equal to `MagicUSpec`, which is
  defined from the exact quotients and remainders of 2^p.
- `magics.dfy` (`MagicSigned`): `magic`, modelled the same way.
- `calculators.dfy` (`Calculators`): `calculate_kdivu` and `calculate_kdivs`
  as functions. They dispatch on the five code shapes (`EmissionCase`).
- `selfcheck.dfy` (`SelfCheck`): main's divisor guard, the solver call, and
  the self-check loop, as a method that returns the printed lines.
- `testopt.dfy` (`TestOpt`): `kdiv_s32_p_23` and its relation to `magic(23)`
  and `calculate_kdivs`.

The model follows the C code where its own comments and the NOTES blocks
(kdiv.c:220, kdiv.c:389) say something else:

- In `calculate_kdivu`'s a == 1 path the sum `q + n` of two `unsigned int`s
  wraps before it is widened, so the carry is lost.
- `c = n >> (W-1)` in `calculate_kdivs`, and `c = n >> 31` in the generated
  routine, are arithmetic shifts of an `int`. They give -1 for negative n,
  but the notes at kdiv.c:395 say `shri`, a logical shift.
- `u = t >> (W-k)` on the power-of-two path shifts a signed 64-bit value. It
  gives -1 for negative n, not 2^k - 1.
- `ispowof2` receives a signed divisor converted to `unsigned int`, so the
  negative powers of two take the general path.

These are why exactness is proved for non-negative dividends, for every
dividend when the signed divisor is negative or 1, and on the a == 1 path only
while q + n < 2^32. kdiv.c's header follows Warren, whose multipliers are
exact for every dividend; as written, a signed `-errors` self-check of 7 over
-1000 .. 1000 prints one line per negative dividend
(`SelfCheck.SevenSignedReport`). The corrected signed calculator makes the
shift of t logical as the NOTES do, and the sign term logical for positive
divisors only; negative divisors keep the code's arithmetic sign term, which is
exact there, while a logical one would give C's quotient plus 2
(`Calculators.LogicalSignTermNegativeDivisor`). So corrected, the signed
calculator is exact for every dividend, -2^31 included
(`Calculators.CalcSLogicalExact`).

## Model

| member | source | states |
|---|---|---|
| `Words.TruncDiv` | kdiv.c:867-872 | C's `/` on `int`s rounds toward zero; for n ≥ 0 and d > 0 it is floor division |
| `Words.SignShift` | kdiv.c:638 | `n >> 31` on an `int` is -1 for negative n and 0 otherwise |
| `Bits.IsPowOf2` | kdiv.c:76-81 | `ispowof2(v)` holds iff v ≥ 1 and v is 2 to the power of its ceiling log |
| `Bits.ClearLowestBit` | kdiv.c:79 | `v & (v-1)` is zero exactly when v is a power of two |
| `Bits.PowerOfTwoPasses` | kdiv.c:76-81 | every 2^k with k < 32 passes `ispowof2`, and its ceiling log is k |
| `Bits.NegativeDivisorIsPowOf2` | kdiv.c:601 | a negative `int` converted to `unsigned int` passes `ispowof2` iff it is -2^31 |
| `Bits.CeilLog2` | kdiv.c:87-117 | the result k is the least exponent with 2^k ≥ v |
| `Bits.Log2Ceil` | kdiv.c:87-117 | for 0 < v ≤ 2^31 the loop returns the least k with 2^k ≥ v, which is CeilLog2(v); v = 0 is the fatal "MINUS_INFINITY" exit |
| `Bits.IPowUL` | kdiv.c:122-135 | `ipowul(b, e)` is ((unsigned)b)^e mod 2^64, and 1 when e ≤ 0 |
| `Bits.MaskKeepsWord` | kdiv.c:374-378 | the mask `ipowul(2, 32) - 1` is 2^32 - 1, and `t & mask` is t for every 32-bit t; the masked value is overwritten at kdiv.c:378 anyway, so CalcU leaves the step out |
| `MulShift.Nc` | kdiv.c:148 | nc = T - 1 - (T mod D) is one below a multiple of D and lies in [D - 1, T) |
| `MulShift.BelowMultipleIsAtMostNc` | kdiv.c:148 | nc is the largest n < T with n mod D = D - 1 |
| `MulShift.MagicQuotient` | kdiv.c:170-172 | if m·D = 2^P + δ and 2^P > nc·δ, then (m·n) >> P equals n / D for all 0 ≤ n < T |
| `MulShift.NegatedAtT` | kdiv.c:210-213 | when T·e = 2^P for some e ≥ 1, the negated product at n = T itself floors to -(T / D) - 1, the gap condition holding non-strictly there |
| `MagicUnsigned.NcComputed` | kdiv.c:148 | `-1 - (-d)%d` in `unsigned int` arithmetic is 2^32 - 1 - (2^32 mod d) |
| `MagicUnsigned.Initial` | kdiv.c:149-153 | the initial q1, r1, q2, r2 are 2^31 div/mod nc and (2^31 - 1) div/mod d, and a = 0 |
| `MagicUnsigned.UpdateQ1` | kdiv.c:156-161 | the q1/r1 update of one pass, on `unsigned int`s, as the step StepQ1U that StepExactQ1 shows to be exact |
| `MagicUnsigned.StepExactQ1` | kdiv.c:156-161 | from q1 = ⌊2^p / nc⌋ mod 2^32 and r1 = 2^p mod nc, one update gives the same quantities for 2^(p+1) |
| `MagicUnsigned.UpdateQ2` | kdiv.c:162-169 | the q2/r2/`magu.a` update of one pass, as the step StepQ2U; `magu.M` and `magu.s` are left unchanged |
| `MagicUnsigned.StepExactQ2` | kdiv.c:162-169 | from q2 = ⌊(2^p - 1)/d⌋ mod 2^32, r2 = (2^p - 1) mod d and the flag at p, one update gives the same quantities and the flag for p + 1 |
| `MagicUnsigned.TrackExactU` | kdiv.c:154-170 | after each pass, q1 = ⌊2^p / nc⌋ mod 2^32, r1 = 2^p mod nc, q2 = ⌊(2^p - 1)/d⌋ mod 2^32, r2 = (2^p - 1) mod d, and a = 1 iff the exact q2 + 1 ≥ 2^32 |
| `MagicUnsigned.StepQ2` | kdiv.c:162-169 | both branches of the update, and the flag tests on the wrapped q2 (≥ 0x7FFFFFFF, ≥ 0x80000000), agree with the exact quotient, remainder and flag at p + 1 |
| `MagicUnsigned.AFlagSticky` | kdiv.c:163-167 | once set, `magu.a` is never cleared at a later exponent |
| `MagicUnsigned.ExitP` | kdiv.c:154-172 | the exit exponent lies in [p, 64], the test fails there and passes at every exponent before it |
| `MagicUnsigned.SearchU` | kdiv.c:149-172 | the loop stops at the first p in [32, 64] where its test fails, with q2 and `magu.a` as the replayed loop gives them |
| `MagicUnsigned.MagicU` | kdiv.c:141-177 | `magicu(d)` returns MagicUSpec(d) for every 1 ≤ d < 2^32 |
| `MagicUnsigned.ExitU` | kdiv.c:170-176 | where the loop stops, the returned (M, a, s) is MagicUSpec(d) |
| `MagicUnsigned.StopExact` | kdiv.c:171-172 | where the loop stops, 2^p > nc·δ, even where q1 has wrapped |
| `MagicUnsigned.MagicUCriterion` | kdiv.c:170-175 | the exit p satisfies 32 ≤ p ≤ 64, s = p - 32, and 2^p > nc·δ |
| `MagicUnsigned.MagicUExact` | kdiv.c:141-177 | with the exact multiplier (2^p - 1)/d + 1, (m·n) >> p = n / d for every 32-bit n |
| `MagicUnsigned.MagicUMultiplier` | kdiv.c:163-174 | the exact multiplier is below 2^33, M is it mod 2^32, a = 1 iff it needs 33 bits, and s = 32 forces a = 1 |
| `MagicUnsigned.MagicUShiftBound` | kdiv.c:171-175 | for d ≤ 2^31 the loop stops by p = 63, so s ≤ 31 |
| `MagicUnsigned.MagicUSeven` | kdiv.c:141-177 | magicu(7) = (0x24924925, a = 1, s = 3) |
| `MagicSigned.T` | kdiv.c:191 | t is 2^31 for d > 0 and 2^31 + 1 for d < 0, and exceeds \|d\| |
| `MagicSigned.Anc` | kdiv.c:190-192 | anc = t - 1 - t mod \|d\| lies in [2, 2^31] and is Nc(t, \|d\|) |
| `MagicSigned.InitialC` | kdiv.c:193-197 | the initial q1, r1, q2, r2 are 2^31 div/mod anc and 2^31 div/mod \|d\| |
| `MagicSigned.DoubleStepC` | kdiv.c:200-209 | each pair update doubles the quotient and remainder with one carry, in `unsigned int` arithmetic (DoubleCarry) |
| `MagicSigned.DoubleCarryExact` | kdiv.c:200-209 | from q = ⌊X / D⌋ mod 2^32 and r = X mod D, the doubling step gives ⌊2X / D⌋ mod 2^32 and 2X mod D |
| `MagicSigned.ExitC` | kdiv.c:210-216 | where the loop stops, the returned (M, s) is MagicSSpec(d) |
| `MagicSigned.TrackExact` | kdiv.c:198-209 | after each pass, q1 = ⌊2^p / anc⌋ mod 2^32, r1 = 2^p mod anc, q2 = ⌊2^p/\|d\|⌋ mod 2^32, r2 = 2^p mod \|d\| |
| `MagicSigned.ExitStopsS` | kdiv.c:198-211 | the uncapped loop stops by p = 62 |
| `MagicSigned.ExitExp` | kdiv.c:198-215 | the loop runs at least once and stops with 32 ≤ p ≤ 62, so 0 ≤ s ≤ 30 |
| `MagicSigned.SearchC` | kdiv.c:193-211 | the loop stops at the first p where its test fails, with q2 as the replayed loop gives it |
| `MagicSigned.Magic` | kdiv.c:183-217 | `magic(d)` returns MagicSSpec(d): M = ⌊2^p/\|d\|⌋ + 1 as an `int`, negated iff d < 0, and s = p - 32 |
| `MagicSigned.SignedMultiplier` | kdiv.c:210-213 | for \|d\| ≥ 2, 1 ≤ m < 2^32, m·\|d\| = 2^p + δ with 1 ≤ δ ≤ \|d\|, and 2^p > anc·δ |
| `MagicSigned.SignedQuotient` | kdiv.c:183-217 | for 0 ≤ n < t, (m·n) >> p = n / \|d\|, and for n > 0 (-(m·n)) >> p = -(n / \|d\|) - 1 |
| `MagicSigned.SignedQuotientAtT` | kdiv.c:183-217 | for d > 0 the negated bracket also holds at n = t = 2^31: (-(m·2^31)) >> p = -(2^31 / d) - 1 |
| `Calculators.CaseU` | kdiv.c:355-384 | the shift-only shape is chosen iff d is a power of two; the fatal exit is taken iff d is not a power of two and a is neither 0 nor 1; otherwise one of the two multiply-high shapes |
| `Calculators.HighWordU` | kdiv.c:363-364 | the high word of M·n is at most M and at most n |
| `Calculators.CalcU` | kdiv.c:350-386 | `calculate_kdivu` takes the "Unsupported constant division" exit exactly when the shape selection does, and returns a 32-bit quotient otherwise |
| `Calculators.MagicUAccepted` | kdiv.c:355-384 | magicu's output always takes one of the three unsigned shapes, never the fatal exit |
| `Calculators.CalcUExact` | kdiv.c:350-386 | with magicu's output the calculator returns n / d, provided q + n < 2^32 on the a == 1 shape |
| `Calculators.LostCarry` | kdiv.c:371-378 | for d = 7 and n = 2^32 - 1 the calculator returns 0x04924924, not 0x24924924 |
| `Calculators.CalcUWide` | kdiv.c:373-378 | the a == 1 shape with the carry kept agrees with CalcU on every other shape |
| `Calculators.CalcUWideExact` | kdiv.c:350-386 | with the carry kept, every unsigned shape returns n / d for every 32-bit n |
| `Calculators.PowOfTwoSigned` | kdiv.c:601 | a signed divisor other than -2^31 passes `ispowof2((unsigned)d)` iff it is a positive power of two |
| `Calculators.CaseS` | kdiv.c:593-617 | the shift shape is chosen iff d is 1, -1 or a positive power of two |
| `Calculators.ShiftExponent` | kdiv.c:592-610 | for a positive power-of-two divisor, 1 ≤ log2ceil(\|d\|) ≤ 30 and 2^k = d |
| `Calculators.CalcS` | kdiv.c:585-649 | `calculate_kdivs` fails only for d = 0, through log2ceil's exit |
| `Calculators.ShiftPath` | kdiv.c:603-615 | the end of the power-of-two shape, `t = n + u; q = t >> k`, negated for d < 0; ShiftValue (u = -1 as written) and LogicalShiftAt (u = 2^k - 1 with `shri`) give its value |
| `Calculators.MulHighPath` | kdiv.c:623-646 | the general shape `mulhs`, add/sub, `>> s`, `+ c`, `+ (n != 0)` for d < 0; MulHighPathValue proves it is ⌊mm·n / 2^p⌋ + c, plus 1 when d < 0 and n ≠ 0 |
| `Calculators.SignBit` | kdiv.c:395 | the logical `shri` of n by 31 is 1 for negative n and 0 otherwise |
| `Calculators.SignTerm` | kdiv.c:638-640 | the C's sign term, stored in an `unsigned int`, is 0xFFFFFFFF for negative n and 0 otherwise |
| `Calculators.CorrectionTerm` | kdiv.c:623-634 | mulhs plus the add or sub correction gives the high word of the exact signed multiplier times n |
| `Calculators.MulHighValue` | kdiv.c:623-646 | with magic's output the general shape computes ⌊mm·n / 2^p⌋ + c, plus 1 when d < 0 and n ≠ 0 |
| `Calculators.SignedHigh` | kdiv.c:624-636 | for every `int` n, -2^31 included, the shifted product is \|n\|/\|d\| when n and d have the same sign, one below its negation when the signs differ, and 0 for n = 0 |
| `Calculators.ShiftValue` | kdiv.c:603-615 | the power-of-two shape as written is ⌊(n + u) / 2^k⌋, with u = -1 for negative n |
| `Calculators.CalcSExact` | kdiv.c:585-649 | with magic's output the calculator equals C's `n / d` for every n ≥ 0, and for every n when d < 0 or d = 1 |
| `Calculators.SignTermOffByTwo` | kdiv.c:636-640 | for d ≥ 2 not a power of two and every n < 0, -2^31 included, the result is C's `n / d` minus 2 |
| `Calculators.ShiftNegativeOffByOne` | kdiv.c:604-610 | for a positive power-of-two d and n < 0, the result is C's `n / d` minus 1 |
| `Calculators.ShiftNegativeExample` | kdiv.c:604-610 | for d = 2 and n = -1 the calculator returns -1 where C's division gives 0 |
| `Calculators.CalcSLogical` | kdiv.c:395-401 | with the shift of t logical and, for positive divisors only, the logical sign term of the notes (negative divisors keep the code's arithmetic term, exact there), the calculator agrees with CalcS for n ≥ 0 or d < 0 |
| `Calculators.LogicalSignTermNegativeDivisor` | kdiv.c:636-645 | for d ≤ -2 and n < 0 a logical sign term plus `+ (n != 0)` would give C's `n / d` plus 2, so the arithmetic term is the right one for negative divisors |
| `Calculators.LogicalShiftNegative` | kdiv.c:400-401 | for n < 0 the logical `shri` of the 32-bit t by 32 - k is 2^k - 1 |
| `Calculators.CalcSLogicalExact` | kdiv.c:585-649 | with logical shifts, every dividend, -2^31 included, gives C's `n / d` |
| `SelfCheck.CheckDivisor` | kdiv.c:798-807 | the divisor passes iff it is nonzero, and positive in unsigned mode; otherwise the matching fatal exit |
| `SelfCheck.Solve` | kdiv.c:836-859 | the solver's output is always accepted by the calculator of the mode |
| `SelfCheck.CheckRange` | kdiv.c:862-903 | the loop prints the Lines of lo .. hi, in order |
| `SelfCheck.SelfCheck` | kdiv.c:836-903 | with the constants magicu or magic derives, the printed lines are Report(cfg) |
| `SelfCheck.Quotients` | kdiv.c:864-873 | the two quotients of dividend j form exactly its Outcome: the calculator's value and C's `j / d`, unsigned or signed by mode |
| `SelfCheck.Outcome` | kdiv.c:864-873 | the line for dividend j carries j, the calculator's value and C's `j / d` for the mode; OutcomeExact proves the two equal for j ≥ 0 or a signed divisor that is negative or 1, NegativeDividendReported that they differ by 2 for j < 0 and d > 0 not a power of two |
| `SelfCheck.PrintLine` | kdiv.c:874-902 | the line is appended iff approx ≠ exact agrees with the `-errors` flag; otherwise the output is unchanged |
| `SelfCheck.AllExact` | kdiv.c:874-902 | with the solver's constants and lo ≥ 0 (or a signed divisor that is negative or 1), every dividend's line is printed iff `-errors` is off |
| `SelfCheck.PrintedPrefix` | kdiv.c:862-903 | over a .. e - 1, when exactly the dividends below `mid` are printed, the output has mid - a lines, each the Outcome of a dividend in a .. mid - 1 |
| `SelfCheck.LinesExactly` | kdiv.c:874-903 | a line is printed iff its dividend is in range and it is a mismatch in `-errors` mode (a match otherwise); lines come once each, in increasing dividend order |
| `SelfCheck.LinesSplit` | kdiv.c:862 | the lines of a range are the lines of its two halves |
| `SelfCheck.LinesNone` | kdiv.c:862-903 | when no dividend of a range is printed, the range prints no lines |
| `SelfCheck.LinesAll` | kdiv.c:862-903 | when every dividend of a range is printed, the range prints one line per dividend |
| `SelfCheck.OutcomeExact` | kdiv.c:864-873 | approx = exact = C's `j / d` for j ≥ 0, and for every j when the signed divisor is negative or main's default 1 |
| `SelfCheck.NoMismatch` | kdiv.c:862-903 | on such ranges (any range for the signed default divisor 1) `-errors` prints nothing, and the default mode prints hi - lo + 1 lines |
| `SelfCheck.DefaultRangeExact` | kdiv.c:42 | over the default range 0 .. 65535, `-errors` prints nothing for every divisor main accepts |
| `SelfCheck.NegativeDividendReported` | kdiv.c:889-896 | for a signed positive divisor that is not a power of two, each negative dividend, -2^31 included, is a mismatch, 2 below C's `j / d` |
| `SelfCheck.NegativeRangeReported` | kdiv.c:862-896 | for such a divisor and lo < 0 ≤ hi, `-errors` prints exactly -lo lines, all for negative dividends |
| `SelfCheck.SevenSignedReport` | kdiv.c:862-903 | signed d = 7 over -1000 .. 1000 with `-errors` prints 1000 lines |
| `TestOpt.HighWord23` | test.opt.c:8-10 | the high word of M·n lies between -n and 0, so `q + n` cannot overflow an `int` |
| `TestOpt.KdivS32P23` | test.opt.c:4-15 | the routine's value is negative iff n is; MatchesCalculator ties it to calculate_kdivs for d = 23 |
| `TestOpt.MagicS23` | test.opt.c:6-11 | magic(23) returns M = -1307163959 and s = 4, the routine's constants |
| `TestOpt.GeneralCase23` | kdiv.c:601 | 23 takes calculate_kdivs's general (multiply-high) shape |
| `TestOpt.MatchesCalculator` | test.opt.c:4-15 | for every n the routine equals `calculate_kdivs(-1307163959, 4, n, 23, 32)` |
| `TestOpt.RoutinePath` | test.opt.c:8-13 | the routine's steps (high word, `+ n`, `>> 4`, `+ (n >> 31)`) are calculate_kdivs's multiply-high path for d = 23 with its sign term |
| `TestOpt.NonNegativeExact` | test.opt.c:8-14 | for n ≥ 0 the routine returns n / 23 |
| `TestOpt.NegativeOffByTwo` | test.opt.c:12-13 | for every n < 0, -2^31 included, the routine returns C's `n / 23` minus 2 |
| `TestOpt.Examples` | test.opt.c:4-15 | n = 100 gives 4, n = -1 gives -2 (C: 0), and n = -23 gives -3 (C: -1) |
| `TestOpt.LogicalSignTermExact` | test.opt.c:12 | with a logical sign shift, the same constants give C's `n / 23` for every n |

## Findings

| source | as written | input that shows it | evidently intended | confidence | as-written member | corrected member |
|---|---|---|---|---|---|---|
| kdiv.c:374 | `t = q + n` adds two `unsigned int`s, so the carry is lost before the sum is widened | d = 7 (M = 0x24924925, a = 1, s = 3), n = 2^32 - 1: result 0x04924924, exact 0x24924924 | the carry feeds the extended shift `shrxi` (kdiv.c:376-377) | not executed | `Calculators.LostCarry` | `Calculators.CalcUWideExact` |
| kdiv.c:638 | `c = n >> (W-1)` is an arithmetic shift of an `int`, giving -1 for negative n | d = 23, n = -1: result -2, C's `n / d` is 0 | the logical `shri` of the notes (kdiv.c:395), giving +1 | not executed | `Calculators.SignTermOffByTwo` | `Calculators.CalcSLogicalExact` |
| kdiv.c:606 | `u = t >> (W-k)` shifts a signed 64-bit value arithmetically, giving u = -1 for negative n | d = 2, n = -1: result -1, C's `n / d` is 0 | the logical `shri` of the 32-bit t (kdiv.c:401), giving u = 2^k - 1 | not executed | `Calculators.ShiftNegativeOffByOne` | `Calculators.CalcSLogicalExact` |
| test.opt.c:12 | the emitted `c = n >> 31` into a signed `int` c is arithmetic | n = -1: returns -2, C's `-1 / 23` is 0 | a logical shift of n, adding the sign bit 1 | not executed | `TestOpt.NegativeOffByTwo` | `TestOpt.LogicalSignTermExact` |

The self-check (`SelfCheck`) and `kdiv_s32_p_23` (`TestOpt.KdivS32P23`) model
the code as written, since that is what the program prints and returns. The
corrected calculators `CalcUWide` and `CalcSLogical` sit beside the as-written
ones in `Calculators`.

## Left out

- The four emitters (`emit_kdivu_nac`, `emit_kdivu_ansic`, `emit_kdivs_nac`,
  `emit_kdivs_ansic`): they only format text to a file. The choice of code
  shape they share with the calculators is `Calculators.EmissionCase`.
- Argument parsing, `atoi`, output-file naming, `malloc`/`fopen`/`fclose`,
  `print_usage`, `print_spaces` and `pfprintf`: I/O. Only the divisor guard is
  kept (`SelfCheck.CheckDivisor`), and settings are passed in as a `Config`.
- The text of the self-check's lines: each line is a `Line` value holding the
  dividend, the calculator's quotient and C's quotient.
- The `EMIT_TABLES` block and `main` of test.opt.c: printing only.
- Word lengths other than 32: the solvers hard-code 2^31 and 2^32. The
  calculators take no W parameter.
- The `inpval < 0` branch of `log2ceil`: it cannot be taken on an
  `unsigned int`.
- Bits.Log2Ceil: requires v ≤ 2^31. Above that, `max` wraps to 0 and the C loop
  never ends.
- C undefined behaviour is excluded by preconditions. This covers `abs` and
  `ABS` of -2^31, `-n` and `n / -1` for n = -2^31, `j++` past 2^31 - 1, and a
  shift of an `unsigned int` by 32. The last is ruled out by CalcU's
  requirement that s < 32 when a = 0.
- MagicSigned.Magic: accepts |d| = 1 as well as 2 ≤ |d| < 2^31, because main
  calls `magic` for d = ±1 too. The loop terminates there as well.
- SelfCheck.CheckRange: requires constants the calculator accepts. With other
  constants, `calculate_kdivu` would take its fatal exit; CalcU models that
  exit, but the loop does not.
- Calculators.CalcUExact: requires q + n < 2^32 on the a == 1 shape, because
  beyond it the result is wrong (first finding).
- Calculators.CalcSExact: covers negative dividends only for negative
  divisors and d = 1, because for positive divisors other than 1 they are
  wrong (second and third findings).
