/** The self-check of `main` in kdiv.c (enabled by `-d`): for every dividend j
    from lo to hi it compares the value the calculator gives with the magic
    constants against C's division `j/divisor_val`, and prints one line per
    dividend, either only the mismatches (`-errors`) or only the matches.

    The printed lines are modelled as the sequence of Line values, in the order
    they are printed; the text of each line is left out. */
module SelfCheck {
  import opened Words
  import opened Bits
  import opened MagicUnsigned
  import opened MagicSigned
  import opened Calculators

  /** The settings main works with: `divisor_val`, `lo_val`, `hi_val`, the
      signedness (`enable_signed`, exclusive with `enable_unsigned`) and
      `enable_errors`. The word length is 32. */
  datatype Config = Config(divisor: i32, lo: i32, hi: i32, signedMode: bool, errors: bool)

  /** The defaults of kdiv.c: divisor 1, range 0 .. 65535, unsigned, all lines. */
  const Defaults: Config := Config(1, 0, 65535, false, false)

  /** main's guard on the divisor, checked before any output is produced. */
  function CheckDivisor(divisor: i32, signedMode: bool): (r: Result<i32>)
    ensures r.Ok? <==> divisor != 0 && (signedMode || divisor > 0)
    ensures r.Ok? ==> r.value == divisor
    ensures divisor == 0 ==> r == Exit(DivisionByZero)
    ensures divisor < 0 && !signedMode ==> r == Exit(NegativeUnsignedDivisor)
  {
    if divisor == 0 then Exit(DivisionByZero)
    else if !signedMode && divisor < 0 then Exit(NegativeUnsignedDivisor)
    else Ok(divisor)
  }

  /** The settings under which the loop runs with defined behaviour: the divisor
      passed main's guard; `abs(-2^31)` in magic, `j++` past 2^31 - 1, and
      `-n` or `n / -1` for n = -2^31 are undefined in C. */
  predicate Valid(cfg: Config)
  {
    CheckDivisor(cfg.divisor, cfg.signedMode).Ok?
    && cfg.divisor != -W31 && cfg.hi < W31 - 1
    && (cfg.signedMode && cfg.divisor == -1 ==> cfg.lo > -W31)
  }

  /** The locals `magu` and `mags` of main: the solver for the mode fills one
      of them, the other is not used. */
  datatype Magics = Magics(magu: Mu, mags: Ms)

  /** Magic constants the calculator of the mode accepts: for calculate_kdivu,
      a shift below 32 and an add indicator of 0 or 1 unless the divisor is a
      power of two; for calculate_kdivs, a shift below 32. */
  predicate Accepts(cfg: Config, m: Magics)
  {
    if !cfg.signedMode then 0 < cfg.divisor && 0 <= m.magu.s < 32 && CaseU(m.magu.a, cfg.divisor).Ok?
    else 0 <= m.mags.s < 32
  }

  /** The solver call of main (kdiv.c:836-850): magicu in unsigned mode, magic
      in signed mode. Its output is always accepted by the calculator. */
  function Solve(cfg: Config): (m: Magics)
    requires Valid(cfg)
    ensures Accepts(cfg, m)
  {
    if !cfg.signedMode then
      MagicUShiftBound(cfg.divisor);
      MagicUAccepted(cfg.divisor);
      Magics(MagicUSpec(cfg.divisor), Ms(0, 0))
    else
      Magics(Mu(0, 0, 0), MagicSSpec(cfg.divisor))
  }

  /** One dividend's pair of quotients: `uquotapprox`/`uquotexact` or
      `squotapprox`/`squotexact`. */
  datatype Line = Line(j: int, approx: int, exact: int)

  /** The quotients compared for dividend j. In unsigned mode the calculator
      receives j converted to `unsigned int`, while `j/divisor_val` is a
      division of two `int`s whose result is then stored in an `unsigned int`. */
  function Outcome(cfg: Config, m: Magics, j: i32): (l: Line)
    requires Valid(cfg) && Accepts(cfg, m) && (cfg.signedMode && cfg.divisor == -1 ==> j != -W31)
    ensures l.j == j
  {
    if !cfg.signedMode then
      var mu := m.magu;
      Line(j, CalcU(mu.M, mu.a, mu.s, ToU32(j), cfg.divisor).value, ToU32(TruncDiv(j, cfg.divisor)))
    else
      var ms := m.mags;
      Line(j, CalcS(ms.M, ms.s, j, cfg.divisor).value, TruncDiv(j, cfg.divisor))
  }

  /** A line is printed when it is a mismatch in `-errors` mode, or a match
      otherwise. */
  predicate Printed(cfg: Config, l: Line)
  {
    (l.approx != l.exact) == cfg.errors
  }

  /** The lines printed for the dividends a .. e - 1, in order. */
  function Lines(cfg: Config, m: Magics, a: int, e: int): seq<Line>
    requires Valid(cfg) && Accepts(cfg, m) && cfg.lo <= a && (e <= cfg.hi + 1 || e <= a)
    decreases e - a
  {
    if e <= a then []
    else
      var l := Outcome(cfg, m, e - 1);
      Lines(cfg, m, a, e - 1) + (if Printed(cfg, l) then [l] else [])
  }

  /** Extending a range by one dividend appends that dividend's line if printed. */
  lemma LinesStep(cfg: Config, m: Magics, a: int, e: int)
    requires Valid(cfg) && Accepts(cfg, m) && cfg.lo <= a <= e <= cfg.hi
    ensures var l := Outcome(cfg, m, e);
            Lines(cfg, m, a, e + 1) == Lines(cfg, m, a, e) + (if Printed(cfg, l) then [l] else [])
  {
  }

  /** The loop of main (kdiv.c:862-903): the lines it prints, in order. */
  method CheckRange(cfg: Config, m: Magics) returns (lines: seq<Line>)
    requires Valid(cfg) && Accepts(cfg, m)
    ensures lines == Lines(cfg, m, cfg.lo, cfg.hi + 1)
  {
    lines := [];
    var j: int := cfg.lo;
    while j <= cfg.hi
      invariant cfg.lo <= j && (j <= cfg.hi + 1 || j == cfg.lo)
      invariant lines == Lines(cfg, m, cfg.lo, j)
    {
      var approx, exact := Quotients(cfg, m, j);
      LinesStep(cfg, m, cfg.lo, j);
      lines := PrintLine(cfg.errors, lines, Line(j, approx, exact));
      j := j + 1;
    }
  }

  /** The printing of one dividend's line (kdiv.c:874-902): a mismatch in
      `-errors` mode, or a match otherwise, is appended to the output. */
  method PrintLine(errors: bool, lines: seq<Line>, l: Line) returns (out: seq<Line>)
    ensures out == lines + (if (l.approx != l.exact) == errors then [l] else [])
  {
    out := lines;
    if l.approx != l.exact {
      if errors {
        out := out + [l];
      }
    } else {
      if !errors {
        out := out + [l];
      }
    }
  }

  /** One iteration's two quotients: the calculator's result for dividend j
      and C's `j/divisor_val` (kdiv.c:864-873). */
  method Quotients(cfg: Config, m: Magics, j: int) returns (approx: int, exact: int)
    requires Valid(cfg) && Accepts(cfg, m) && cfg.lo <= j <= cfg.hi
    ensures Line(j, approx, exact) == Outcome(cfg, m, j)
  {
    if !cfg.signedMode {
      approx := CalcU(m.magu.M, m.magu.a, m.magu.s, ToU32(j), cfg.divisor).value;
      exact := ToU32(TruncDiv(j, cfg.divisor));
    } else {
      approx := CalcS(m.mags.M, m.mags.s, j, cfg.divisor).value;
      exact := TruncDiv(j, cfg.divisor);
    }
  }

  /** The self-check of main with the solver call before it: the lines printed
      with the constants magicu or magic derives. */
  method SelfCheck(cfg: Config) returns (lines: seq<Line>)
    requires Valid(cfg)
    ensures lines == Report(cfg)
  {
    var magu := Mu(0, 0, 0);
    var mags := Ms(0, 0);
    if !cfg.signedMode {
      magu := MagicU(cfg.divisor);
    } else {
      mags := Magic(cfg.divisor);
    }
    assert Magics(magu, mags) == Solve(cfg);
    lines := CheckRange(cfg, Magics(magu, mags));
  }

  /** The lines the self-check prints. */
  function Report(cfg: Config): seq<Line>
    requires Valid(cfg)
  {
    Lines(cfg, Solve(cfg), cfg.lo, cfg.hi + 1)
  }

  // ----- what the printed lines say -----

  /** The printed lines are exactly the lines of the dividends in range whose
      outcome the mode selects, each once, in increasing order of dividend. */
  lemma {:induction false} LinesExactly(cfg: Config, m: Magics, a: int, e: int)
    requires Valid(cfg) && Accepts(cfg, m) && cfg.lo <= a && e <= cfg.hi + 1
    ensures forall l :: l in Lines(cfg, m, a, e) ==>
              a <= l.j < e && l == Outcome(cfg, m, l.j) && Printed(cfg, l)
    ensures forall j :: a <= j < e && Printed(cfg, Outcome(cfg, m, j)) ==>
              Outcome(cfg, m, j) in Lines(cfg, m, a, e)
    ensures forall i, k :: 0 <= i < k < |Lines(cfg, m, a, e)| ==>
              Lines(cfg, m, a, e)[i].j < Lines(cfg, m, a, e)[k].j
    decreases e - a
  {
    if a < e {
      LinesExactly(cfg, m, a, e - 1);
      var init := Lines(cfg, m, a, e - 1);
      var l := Outcome(cfg, m, e - 1);
      var last := if Printed(cfg, l) then [l] else [];
      assert Lines(cfg, m, a, e) == init + last;
      forall j | a <= j < e && Printed(cfg, Outcome(cfg, m, j))
        ensures Outcome(cfg, m, j) in Lines(cfg, m, a, e)
      {
        if j < e - 1 {
          assert Outcome(cfg, m, j) in init;
        } else {
          assert Outcome(cfg, m, j) in last;
        }
      }
      var all := init + last;
      forall i, k | 0 <= i < k < |all|
        ensures all[i].j < all[k].j
      {
        if k >= |init| {
          assert all[i] == init[i] && init[i] in init;
        }
      }
    }
  }

  /** The lines of a range are those of its two halves. */
  lemma {:induction false} LinesSplit(cfg: Config, m: Magics, a: int, mid: int, e: int)
    requires Valid(cfg) && Accepts(cfg, m) && cfg.lo <= a <= mid <= e && e <= cfg.hi + 1
    ensures Lines(cfg, m, a, e) == Lines(cfg, m, a, mid) + Lines(cfg, m, mid, e)
    decreases e - mid
  {
    if mid < e {
      LinesSplit(cfg, m, a, mid, e - 1);
    }
  }

  /** When no dividend of a range is printed, its lines are empty. */
  lemma {:induction false} LinesNone(cfg: Config, m: Magics, a: int, e: int)
    requires Valid(cfg) && Accepts(cfg, m) && cfg.lo <= a <= e && e <= cfg.hi + 1
    requires forall j :: a <= j < e ==> !Printed(cfg, Outcome(cfg, m, j))
    ensures Lines(cfg, m, a, e) == []
    decreases e - a
  {
    if a < e {
      LinesNone(cfg, m, a, e - 1);
      LinesStep(cfg, m, a, e - 1);
    }
  }

  /** When every dividend of a range is printed, there is one line per dividend. */
  lemma {:induction false} LinesAll(cfg: Config, m: Magics, a: int, e: int)
    requires Valid(cfg) && Accepts(cfg, m) && cfg.lo <= a <= e && e <= cfg.hi + 1
    requires forall j :: a <= j < e ==> Printed(cfg, Outcome(cfg, m, j))
    ensures |Lines(cfg, m, a, e)| == e - a
    decreases e - a
  {
    if a < e {
      LinesAll(cfg, m, a, e - 1);
      LinesStep(cfg, m, a, e - 1);
    }
  }

  /** The property the self-check is built to confirm: with the constants of the
      solver, the calculator agrees with C's division for every non-negative
      dividend, and in signed mode with a negative divisor or main's default
      divisor 1 for every dividend.
      In unsigned mode the lost carry of the a == 1 sequence does not show,
      because the divisor is a positive `int` and q + j <= 2 * j < 2^32. */
  lemma OutcomeExact(cfg: Config, j: i32)
    requires Valid(cfg) && (cfg.signedMode && cfg.divisor == -1 ==> j != -W31)
    requires j >= 0 || (cfg.signedMode && (cfg.divisor < 0 || cfg.divisor == 1))
    ensures var l := Outcome(cfg, Solve(cfg), j);
            l.approx == l.exact == TruncDiv(j, cfg.divisor)
  {
    var d := cfg.divisor;
    if !cfg.signedMode {
      var mu := MagicUSpec(d);
      assert HighWordU(mu.M, j) <= j;
      CalcUExact(d, j);
      DivShrinks(j, d);
    } else {
      CalcSExact(d, j);
    }
  }

  /** Over a range of non-negative dividends (or any range, for a negative
      signed divisor or the signed divisor 1), `-errors` prints nothing and the default mode prints one
      line per dividend. */
  lemma NoMismatch(cfg: Config)
    requires Valid(cfg) && (cfg.lo >= 0 || (cfg.signedMode && (cfg.divisor < 0 || cfg.divisor == 1)))
    ensures cfg.errors ==> Report(cfg) == []
    ensures !cfg.errors && cfg.lo <= cfg.hi ==> |Report(cfg)| == cfg.hi - cfg.lo + 1
  {
    var m := Solve(cfg);
    AllExact(cfg);
    if cfg.lo <= cfg.hi {
      if cfg.errors {
        LinesNone(cfg, m, cfg.lo, cfg.hi + 1);
      } else {
        LinesAll(cfg, m, cfg.lo, cfg.hi + 1);
      }
    }
  }

  /** Under NoMismatch's conditions every dividend in range is a match. */
  lemma AllExact(cfg: Config)
    requires Valid(cfg) && (cfg.lo >= 0 || (cfg.signedMode && (cfg.divisor < 0 || cfg.divisor == 1)))
    ensures forall j :: cfg.lo <= j < cfg.hi + 1 ==> Printed(cfg, Outcome(cfg, Solve(cfg), j)) == !cfg.errors
  {
    forall j | cfg.lo <= j < cfg.hi + 1
      ensures Printed(cfg, Outcome(cfg, Solve(cfg), j)) == !cfg.errors
    {
      OutcomeExact(cfg, j);
    }
  }

  /** With the default range 0 .. 65535, `-errors` prints nothing for any
      divisor main accepts. */
  lemma DefaultRangeExact(divisor: i32, signedMode: bool)
    requires CheckDivisor(divisor, signedMode).Ok? && divisor != -W31
    ensures var cfg := Defaults.(divisor := divisor, signedMode := signedMode, errors := true);
            Valid(cfg) && Report(cfg) == []
  {
    NoMismatch(Defaults.(divisor := divisor, signedMode := signedMode, errors := true));
  }

  /** As written, a signed positive divisor that is not a power of two reports a
      mismatch for every negative dividend, -2^31 included: the calculator's
      result is two below C's. */
  lemma NegativeDividendReported(cfg: Config, j: i32)
    requires Valid(cfg) && cfg.signedMode && cfg.divisor >= 2 && CaseS(cfg.divisor) == MulHighS
    requires j < 0
    ensures var l := Outcome(cfg, Solve(cfg), j);
            l.approx == l.exact - 2
  {
    SignTermOffByTwo(cfg.divisor, j);
  }

  /** As written, for a signed positive divisor that is not a power of two and
      a range from lo < 0 up to hi >= 0, `-errors` prints exactly one line per
      negative dividend, each two below C's quotient. */
  lemma NegativeRangeReported(cfg: Config)
    requires Valid(cfg) && cfg.signedMode && cfg.errors
    requires cfg.divisor >= 2 && CaseS(cfg.divisor) == MulHighS
    requires cfg.lo < 0 <= cfg.hi
    ensures |Report(cfg)| == -(cfg.lo as int)
    ensures forall l :: l in Report(cfg) ==> l.j < 0 && l.approx == l.exact - 2
  {
    var m := Solve(cfg);
    forall j | cfg.lo <= j < 0
      ensures Printed(cfg, Outcome(cfg, m, j))
    {
      NegativeDividendReported(cfg, j);
    }
    forall j | 0 <= j < cfg.hi + 1
      ensures !Printed(cfg, Outcome(cfg, m, j))
    {
      OutcomeExact(cfg, j);
    }
    PrintedPrefix(cfg, m, cfg.lo, 0, cfg.hi + 1);
    forall l | l in Report(cfg)
      ensures l.j < 0 && l.approx == l.exact - 2
    {
      var j: i32 := l.j;
      assert l == Outcome(cfg, m, j);
      NegativeDividendReported(cfg, j);
    }
  }

  /** When exactly the dividends a .. mid - 1 of a .. e - 1 are printed, the
      lines are theirs, one each. */
  lemma PrintedPrefix(cfg: Config, m: Magics, a: int, mid: int, e: int)
    requires Valid(cfg) && Accepts(cfg, m) && cfg.lo <= a <= mid <= e <= cfg.hi + 1
    requires forall j :: a <= j < mid ==> Printed(cfg, Outcome(cfg, m, j))
    requires forall j :: mid <= j < e ==> !Printed(cfg, Outcome(cfg, m, j))
    ensures |Lines(cfg, m, a, e)| == mid - a
    ensures forall l :: l in Lines(cfg, m, a, e) ==> a <= l.j < mid && l == Outcome(cfg, m, l.j)
  {
    LinesAll(cfg, m, a, mid);
    LinesNone(cfg, m, mid, e);
    LinesSplit(cfg, m, a, mid, e);
    LinesExactly(cfg, m, a, e);
  }

  /** Signed division by 7 over -1000 .. 1000 with `-errors`. */
  const SevenCheck: Config := Config(7, -1000, 1000, true, true)

  /** The self-check for SevenCheck prints 1000 lines, one per negative
      dividend, each two below C's quotient. */
  lemma SevenSignedReport()
    ensures Valid(SevenCheck) && |Report(SevenCheck)| == 1000
    ensures forall l :: l in Report(SevenCheck) ==> l.j < 0 && l.approx == l.exact - 2
  {
    assert CaseS(7) == MulHighS by {
      assert Pow2(2) == 4 && Pow2(3) == 8;
      BetweenPowers(7, 2);
    }
    NegativeRangeReported(SevenCheck);
  }
}
