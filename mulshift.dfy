/** The arithmetic fact behind both magic-number solvers (Warren, Hacker's
    Delight, chapter 10): if a multiplier m satisfies m*D == 2^P + delta and
    2^P > Nc*delta, where Nc is the largest n below T with n mod D == D - 1,
    then floor(m*n / 2^P) == floor(n / D) for every n in [0, T).

    The unsigned solver uses it with T = 2^32, the signed solver with
    T = 2^31 (positive divisors) or T = 2^31 + 1 (negative divisors). */
module MulShift {
  import opened Words

  /** `nc`/`anc` of the solvers: T - 1 - (T mod D). */
  function Nc(T: int, D: int): (nc: int)
    requires 1 <= D <= T
    ensures nc % D == D - 1 && D - 1 <= nc < T
  {
    NcShape(T, D);
    T - 1 - T % D
  }

  lemma NcShape(T: int, D: int)
    requires 1 <= D <= T
    ensures (T - 1 - T % D) % D == D - 1 && D - 1 <= T - 1 - T % D
  {
    var q, r := T / D, T % D;
    assert T == D * q + r;
    assert D * q > 0;
    assert q >= 1;
    assert T - 1 - r == D * (q - 1) + (D - 1);
    DivModUnique(T - 1 - r, D, q - 1, D - 1);
    MulMonotone(D, 1, q);
  }

  lemma MulCancel(D: int, x: int, y: int)
    requires D > 0 && D * x <= D * y
    ensures x <= y
  {
    if x > y {
      MulMonotone(D, y + 1, x);
    }
  }

  lemma MulCancelStrict(D: int, x: int, y: int)
    requires D > 0 && D * x < D * y
    ensures x < y
  {
    if x >= y {
      MulMonotone(D, y, x);
    }
  }

  /** Nc is the largest n < T one below a multiple of D. */
  lemma BelowMultipleIsAtMostNc(T: int, D: int, n: int)
    requires 1 <= D <= T && 0 <= n < T && n % D == D - 1
    ensures n <= Nc(T, D)
  {
    var q, r := T / D, T % D;
    var k := n / D + 1;
    assert T == D * q + r;
    assert n + 1 == D * k;
    if k > q {
      MulMonotone(D, q + 1, k);
      assert false;
    }
    MulMonotone(D, k, q);
  }

  /** The error term n*delta stays below the distance to the next multiple of D,
      scaled by 2^P. */
  lemma {:induction false} ErrorBelowGap(T: int, D: int, P: nat, delta: int, n: int)
    requires 1 <= D <= T && delta >= 0 && Pow2(P) > Nc(T, D) * delta
    requires 0 <= n < T
    ensures n * delta < (D - n % D) * Pow2(P)
  {
    var nc := Nc(T, D);
    var j := n % D;
    if j == D - 1 {
      BelowMultipleIsAtMostNc(T, D, n);
      MulMonotone(delta, n, nc);
    } else {
      assert T % D <= nc;
      SpreadBelowGap(n, delta, nc, Pow2(P), D - j);
    }
  }

  /** Away from the last residue the gap D - n % D is at least 2, and n is at
      most 2 * nc, so the error still fits. */
  lemma SpreadBelowGap(n: int, delta: int, nc: int, pp: int, g: int)
    requires 0 <= n <= 2 * nc && delta >= 0 && pp > nc * delta && g >= 2
    ensures n * delta < g * pp
  {
    MulMonotone(delta, n, 2 * nc);
    assert delta * (2 * nc) == 2 * (nc * delta);
    MulMonotone(pp, 2, g);
  }

  /** Multiply-and-shift brackets the true quotient: m*n lies in
      [k*2^P, (k+1)*2^P) for k = n / D, strictly above k*2^P when n and delta
      are both positive. */
  lemma MagicBracket(T: int, D: int, P: nat, m: int, delta: int, n: int)
    requires 1 <= D <= T && delta >= 0 && m * D == Pow2(P) + delta
    requires Pow2(P) > Nc(T, D) * delta
    requires 0 <= n < T
    ensures (n / D) * Pow2(P) <= m * n < (n / D + 1) * Pow2(P)
    ensures n > 0 && delta > 0 ==> (n / D) * Pow2(P) < m * n
  {
    ErrorBelowGap(T, D, P, delta, n);
    ScaledBracket(D, Pow2(P), m, delta, n);
  }

  /** The bracket, once the error term is known to be below the gap. */
  lemma ScaledBracket(D: int, pp: int, m: int, delta: int, n: int)
    requires D >= 1 && pp >= 1 && delta >= 0 && n >= 0 && m * D == pp + delta
    requires n * delta < (D - n % D) * pp
    ensures (n / D) * pp <= m * n < (n / D + 1) * pp
    ensures n > 0 && delta > 0 ==> (n / D) * pp < m * n
  {
    var k, j := n / D, n % D;
    assert n == D * k + j;
    var x := m * n;
    assert D * x == n * pp + n * delta by {
      assert D * x == (m * D) * n;
      assert (pp + delta) * n == n * pp + n * delta;
    }
    assert D * (k * pp) == n * pp - j * pp by {
      assert (D * k) * pp == (n - j) * pp;
    }
    assert 0 <= j * pp;
    assert 0 <= n * delta;
    MulCancel(D, k * pp, x);
    if n > 0 && delta > 0 {
      assert n * delta > 0 by { MulMonotone(n, 1, delta); }
      MulCancelStrict(D, k * pp, x);
    }
    assert D * ((k + 1) * pp) == n * pp + (D - j) * pp by {
      assert (D * k + D) * pp == (n - j + D) * pp;
    }
    MulCancelStrict(D, x, (k + 1) * pp);
  }

  /** Warren's criterion: the shifted product is the floor quotient. */
  lemma MagicQuotient(T: int, D: int, P: nat, m: int, delta: int, n: int)
    requires 1 <= D <= T && delta >= 0 && m * D == Pow2(P) + delta
    requires Pow2(P) > Nc(T, D) * delta
    requires 0 <= n < T
    ensures Shr(m * n, P) == n / D
  {
    MagicBracket(T, D, P, m, delta, n);
    var q, pp := n / D, Pow2(P);
    assert pp * q == q * pp && pp * (q + 1) == (q + 1) * pp;
    DivBetween(m * n, pp, q);
  }

  /** At n = T itself the bracket still holds with the upper end closed, when T
      is a power of two dividing 2^P (as 2^31 does for the signed solver's
      positive divisors): T * delta <= (D - T mod D) * 2^P. */
  lemma GapAtT(T: int, D: int, P: nat, m: int, delta: int, e: int)
    requires 2 <= D <= T && 1 <= delta <= D && m * D == Pow2(P) + delta
    requires Pow2(P) > Nc(T, D) * delta
    requires e >= 1 && T * e == Pow2(P)
    ensures T * delta <= (D - T % D) * Pow2(P)
  {
    var nc, g := Nc(T, D), D - T % D;
    if g >= 2 {
      TwiceNc(T, D);
      SpreadBelowGap(T, delta, nc, Pow2(P), g);
    } else {
      DeltaAtMostE(T, D, Pow2(P), m, delta, e);
      MulMonotone(T, delta, e);
    }
  }

  /** Unless T is one below a multiple of D, T is at most 2 * Nc. */
  lemma TwiceNc(T: int, D: int)
    requires 2 <= D <= T && T % D <= D - 2
    ensures T <= 2 * Nc(T, D)
  {
    assert T == D * (T / D) + T % D;
    MulMonotone(D, 1, T / D);
  }

  /** When D divides T + 1, 2^P = T * e is e below a multiple of D, and so is
      2^P + delta = m * D less delta: delta and e agree modulo D, and
      1 <= delta <= D forces delta <= e. */
  lemma DeltaAtMostE(T: int, D: int, pp: int, m: int, delta: int, e: int)
    requires 2 <= D <= T && T % D == D - 1 && 1 <= delta <= D && m * D == pp + delta
    requires e >= 1 && T * e == pp
    ensures delta <= e
  {
    var j := T / D + 1;
    assert T + 1 == D * j;
    assert pp + e == D * (j * e) by {
      assert (T + 1) * e == T * e + e;
      assert (D * j) * e == D * (j * e);
    }
    if e < delta {
      var k := j * e - m;
      assert e - delta == D * k;
      if k >= 0 {
        MulMonotone(D, 0, k);
      } else {
        MulMonotone(D, k, -1);
      }
    }
  }

  /** The bracket at n = T: floor(-(m * T) / 2^P) is -(T / D) - 1. */
  lemma NegatedAtT(T: int, D: int, P: nat, m: int, delta: int, e: int)
    requires 2 <= D <= T && 1 <= delta <= D && m * D == Pow2(P) + delta
    requires Pow2(P) > Nc(T, D) * delta
    requires e >= 1 && T * e == Pow2(P)
    ensures Shr(-(m * T), P) == -(T / D) - 1
  {
    GapAtT(T, D, P, m, delta, e);
    ClosedBracket(D, Pow2(P), m, delta, T);
    NegFloor(m * T, Pow2(P), T / D);
  }

  /** A value above k and at most k + 1 multiples of pp has a negation whose
      floor quotient is -k - 1. */
  lemma NegFloor(x: int, pp: int, k: int)
    requires pp >= 1 && k * pp < x <= (k + 1) * pp
    ensures (-x) / pp == -k - 1
  {
    assert pp * (-k - 1) == -((k + 1) * pp);
    assert pp * (-k) == -(k * pp);
    DivBetween(-x, pp, -k - 1);
  }

  /** ScaledBracket with the gap condition not strict: k * pp < m * n <= (k + 1) * pp. */
  lemma ClosedBracket(D: int, pp: int, m: int, delta: int, n: int)
    requires D >= 1 && pp >= 1 && delta >= 1 && n >= 1 && m * D == pp + delta
    requires n * delta <= (D - n % D) * pp
    ensures (n / D) * pp < m * n <= (n / D + 1) * pp
  {
    var k, j := n / D, n % D;
    assert n == D * k + j;
    var x := m * n;
    assert D * x == n * pp + n * delta by {
      assert D * x == (m * D) * n;
      assert (pp + delta) * n == n * pp + n * delta;
    }
    assert D * (k * pp) == n * pp - j * pp by {
      assert (D * k) * pp == (n - j) * pp;
    }
    assert 0 <= j * pp;
    assert n * delta > 0 by { MulMonotone(n, 1, delta); }
    MulCancelStrict(D, k * pp, x);
    assert D * ((k + 1) * pp) == n * pp + (D - j) * pp by {
      assert (D * k + D) * pp == (n - j + D) * pp;
    }
    MulCancel(D, x, (k + 1) * pp);
  }

  // ----- quotient and remainder steps shared by the two solvers -----

  /** Doubling x (and adding b) doubles its quotient and remainder by D, with
      one carry from the remainder into the quotient. */
  lemma DoubleStep(x: int, b: int, D: int)
    requires x >= 0 && D >= 1 && 0 <= b <= 1
    ensures var q, r := x / D, x % D;
            if 2 * r + b >= D
            then (2 * x + b) / D == 2 * q + 1 && (2 * x + b) % D == 2 * r + b - D
            else (2 * x + b) / D == 2 * q && (2 * x + b) % D == 2 * r + b
  {
    var q, r := x / D, x % D;
    assert 2 * x + b == D * (2 * q) + (2 * r + b);
    if 2 * r + b >= D {
      DivModUnique(2 * x + b, D, 2 * q + 1, 2 * r + b - D);
    } else {
      DivModUnique(2 * x + b, D, 2 * q, 2 * r + b);
    }
  }

  /** Doubling commutes with reduction modulo m. */
  lemma ModDouble(x: int, b: int, m: int)
    requires m > 0
    ensures (2 * (x % m) + b) % m == (2 * x + b) % m
  {
    var q := x / m;
    assert 2 * x + b == (2 * (x % m) + b) + m * (2 * q);
    DivAddMultiple(2 * (x % m) + b, m, 2 * q);
    DivModUnique(2 * x + b, m, (2 * (x % m) + b) / m + 2 * q, (2 * (x % m) + b) % m);
  }

  lemma InitialQuotient(x: int, D: int)
    requires 0 <= x < W32 && D >= 1
    ensures 0 <= x / D <= x && x - x / D * D == x % D && 0 <= x % D < W32
  {
    var q := x / D;
    assert x == D * q + x % D;
    assert q >= 0;
    MulMonotone(q, 1, D);
  }

  /** One doubling step of a quotient/remainder pair by D whose quotient is kept
      modulo 2^32: X = q*D + r becomes 2*X + b. */
  lemma WrappedStep(X: int, D: int, b: int, q: int, r: int)
    requires X >= 0 && 1 <= D < W32 && 0 <= b <= 1
    requires q == (X / D) % W32 && r == X % D
    ensures if 2 * r + b >= D
            then (2 * q + 1) % W32 == ((2 * X + b) / D) % W32 && (2 * r + b - D) % W32 == (2 * X + b) % D
            else (2 * q) % W32 == ((2 * X + b) / D) % W32 && (2 * r + b) % W32 == (2 * X + b) % D
  {
    DoubleStep(X, b, D);
    var Y := 2 * X + b;
    if 2 * r + b >= D {
      ModDouble(X / D, 1, W32);
      assert Y / D == 2 * (X / D) + 1 && Y % D == 2 * r + b - D;
      SmallMod(2 * r + b - D);
    } else {
      ModDouble(X / D, 0, W32);
      assert Y / D == 2 * (X / D) && Y % D == 2 * r + b;
      SmallMod(2 * r + b);
    }
  }

  lemma DivNonNegative(x: int, D: int)
    requires x >= 0 && D >= 1
    ensures x / D >= 0
  {
    assert x == D * (x / D) + x % D;
    if x / D < 0 {
      MulMonotone(D, x / D, -1);
    }
  }

  lemma ModInc(x: int)
    ensures (x % W32 + 1) % W32 == (x + 1) % W32
  {
    DivModUnique(x + 1, W32, (x % W32 + 1) / W32 + x / W32, (x % W32 + 1) % W32);
  }

  /** For x = Q*nc + R, the C comparison "Q < delta, or Q == delta and R == 0"
      is the test x <= nc * delta. */
  lemma QuotientCompare(x: int, nc: int, delta: int)
    requires x >= 0 && nc >= 1 && delta >= 0
    ensures (x / nc < delta || (x / nc == delta && x % nc == 0)) <==> x <= nc * delta
  {
    var q, r := x / nc, x % nc;
    assert x == nc * q + r;
    if q < delta {
      MulMonotone(nc, q + 1, delta);
    } else if q > delta {
      MulMonotone(nc, delta + 1, q);
    }
  }

  lemma ShapeOf(x: int, d: int)
    requires d >= 1
    ensures (x / d + 1) * d == x + 1 + (d - 1 - x % d) && 0 <= d - 1 - x % d < d
  {
    var q, r := x / d, x % d;
    assert x == d * q + r;
    assert (q + 1) * d == d * q + d;
  }

  /** x < D * k implies x / D < k. */
  lemma QuotientBelow(x: int, D: int, k: int)
    requires x >= 0 && D >= 1 && x < D * k
    ensures x / D < k
  {
    assert x == D * (x / D) + x % D;
    if x / D >= k {
      MulMonotone(D, k, x / D);
    }
  }
}
