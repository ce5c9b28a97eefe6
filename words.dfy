/** Fixed-width word arithmetic for the 32-bit C types that kdiv.c works on.

    The C program manipulates `unsigned int` (32 bits), `int` (32 bits, two's
    complement), `unsigned long long` and `signed long long` (64 bits). Dafny's
    integers are unbounded, so every wrap-around, conversion and shift of the
    source is written out here explicitly. */
module Words {

  /** 2^32, 2^31 and 2^64: the moduli of the C word types. */
  const W32: int := 0x1_0000_0000
  const W31: int := 0x8000_0000
  const W64: int := 0x1_0000_0000_0000_0000
  const W62: int := 0x4000_0000_0000_0000

  /** `unsigned int` and `int` as integer ranges. */
  type u32 = x: int | 0 <= x < W32
  type i32 = x: int | -W31 <= x < W31
  /** `unsigned long long`. */
  type u64 = x: int | 0 <= x < W64

  /** The process-terminating error exits of kdiv.c, each with its diagnostic. */
  datatype Fatal =
    | Log2OfZero                   // "Result of log2 computation is MINUS_INFINITY."
    | UnsupportedConstantDivision  // "Unsupported constant division."
    | DivisionByZero               // "Requested division by zero."
    | NegativeUnsignedDivisor      // "Divisor must be positive for unsigned division."

  /** A value, or the fatal exit that replaces it. */
  datatype Result<T> = Ok(value: T) | Exit(reason: Fatal)

  /** 2^k. */
  function Pow2(k: nat): (r: nat)
    ensures r >= 1
  {
    if k == 0 then 1 else 2 * Pow2(k - 1)
  }

  /** Conversion of any integer value to `unsigned int` (reduction modulo 2^32). */
  function ToU32(x: int): (r: u32)
    ensures (r - x) % W32 == 0
    ensures 0 <= x < W32 ==> r == x
  {
    x % W32
  }

  /** Conversion to `int`: the two's-complement reading of the low 32 bits (what
      the C compilers kdiv targets do for out-of-range conversions). */
  function ToS32(x: int): (r: i32)
    ensures (r - x) % W32 == 0
    ensures -W31 <= x < W31 ==> r == x
  {
    var u := x % W32;
    if u >= W31 then u - W32 else u
  }

  /** `x >> k`: the arithmetic shift of a signed value (floor division by 2^k);
      on a non-negative value it is also the logical shift. */
  function Shr(x: int, k: nat): int
  {
    x / Pow2(k)
  }

  /** The magnitude of an integer: the `ABS` macro of kdiv.c, and C's `abs`
      on every `int` other than -2^31. */
  function Abs(x: int): (a: nat)
    ensures a == x || a == -x
  {
    if x > 0 then x else -x
  }

  /** C's `/` on integers: the quotient rounded toward zero. */
  function TruncDiv(n: int, d: int): (q: int)
    requires d != 0
    ensures n >= 0 && d > 0 ==> q == n / d
  {
    var q := Abs(n) / Abs(d);
    if (n < 0) != (d < 0) then -q else q
  }

  // ----- arithmetic facts used by the proofs -----

  lemma {:induction false} Pow2Add(a: nat, b: nat)
    ensures Pow2(a + b) == Pow2(a) * Pow2(b)
  {
    if a > 0 {
      Pow2Add(a - 1, b);
    }
  }

  lemma {:induction false} Pow2Monotone(a: nat, b: nat)
    requires a <= b
    ensures Pow2(a) <= Pow2(b)
  {
    if a < b {
      Pow2Monotone(a, b - 1);
    }
  }

  lemma Pow2StrictMonotone(a: nat, b: nat)
    requires a < b
    ensures Pow2(a) < Pow2(b)
  {
    Pow2Monotone(a, b - 1);
  }

  /** Comparing powers of two compares their exponents. */
  lemma Pow2Order(a: nat, b: nat)
    ensures a < b <==> Pow2(a) < Pow2(b)
    ensures a <= b <==> Pow2(a) <= Pow2(b)
  {
    if a < b {
      Pow2StrictMonotone(a, b);
    } else {
      Pow2Monotone(b, a);
      if b < a {
        Pow2StrictMonotone(b, a);
      }
    }
  }

  lemma Pow2Constants()
    ensures Pow2(31) == W31 && Pow2(32) == W32 && Pow2(64) == W64 && Pow2(62) == W62
  {
    Pow2Low();
    Pow2Add(32, 32);
    Pow2Add(31, 31);
  }

  /** 2^31 and 2^32. */
  lemma Pow2Low()
    ensures Pow2(31) == W31 && Pow2(32) == W32
  {
    assert Pow2(4) == 16;
    Pow2Add(4, 4);
    Pow2Add(8, 8);
    Pow2Add(16, 15);
    Pow2Add(16, 16);
  }


  /** Division is determined by the quotient/remainder decomposition. */
  lemma DivModUnique(x: int, d: int, q: int, r: int)
    requires d > 0 && x == d * q + r && 0 <= r < d
    ensures x / d == q && x % d == r
  {
    var q0, r0 := x / d, x % d;
    assert x == d * q0 + r0;
    if q0 > q {
      assert d * q0 >= d * q + d by { MulMonotone(d, q + 1, q0); }
      assert false;
    } else if q0 < q {
      assert d * q >= d * q0 + d by { MulMonotone(d, q0 + 1, q); }
      assert false;
    }
  }

  lemma MulMonotone(d: nat, a: int, b: int)
    requires a <= b
    ensures d * a <= d * b
  {
  }

  /** Two successive floor divisions are one floor division by the product. */
  lemma DivDiv(x: int, a: int, b: int)
    requires a > 0 && b > 0
    ensures x / a / b == x / (a * b)
  {
    var q, r := x / a, x % a;
    var q2, r2 := q / b, q % b;
    assert x == a * q + r;
    assert q == b * q2 + r2;
    assert x == (a * b) * q2 + (a * r2 + r) by {
      assert a * q == a * (b * q2) + a * r2;
    }
    assert 0 <= a * r2 + r < a * b by {
      MulMonotone(a, r2, b - 1);
    }
    DivModUnique(x, a * b, q2, a * r2 + r);
  }

  /** Shifting by a and then by b is shifting by a + b. */
  lemma ShrShr(x: int, a: nat, b: nat)
    ensures Shr(Shr(x, a), b) == Shr(x, a + b)
  {
    Pow2Add(a, b);
    DivDiv(x, Pow2(a), Pow2(b));
  }

  /** Adding a multiple of the divisor adds to the quotient. */
  lemma DivAddMultiple(x: int, d: int, k: int)
    requires d > 0
    ensures (x + d * k) / d == x / d + k
  {
    DivModUnique(x + d * k, d, x / d + k, x % d);
  }

  /** Reducing a factor modulo m before multiplying does not change the product modulo m. */
  lemma MulMod(x: int, b: int, m: int)
    requires m > 0
    ensures (x % m) * b % m == x * b % m
  {
    var q := x / m;
    assert x * b == (x % m) * b + m * (q * b) by {
      assert x == m * q + x % m;
    }
    DivAddMultiple((x % m) * b, m, q * b);
  }

  /** Bounds on a value give bounds on its quotient. */
  lemma DivBetween(x: int, d: int, k: int)
    requires d > 0 && d * k <= x < d * (k + 1)
    ensures x / d == k
  {
    DivModUnique(x, d, k, x - d * k);
  }

  /** Conversion to `int` depends only on the value modulo 2^32. */
  lemma ToS32Congruent(x: int, y: int)
    requires (x - y) % W32 == 0
    ensures ToS32(x) == ToS32(y)
  {
    var k := (x - y) / W32;
    assert x == y + W32 * k;
    DivAddMultiple(y, W32, k);
    DivModUnique(x, W32, y / W32 + k, y % W32);
  }

  /** Negating after converting to `int` is converting the negation. */
  lemma NegToS32(x: int)
    ensures ToS32(-(ToS32(x) as int)) == ToS32(-x)
  {
    var k := (ToS32(x) - x) / W32;
    assert ToS32(x) - x == W32 * k;
    assert -(ToS32(x) as int) - -x == W32 * -k;
    DivModUnique(-(ToS32(x) as int) - -x, W32, -k, 0);
    ToS32Congruent(-(ToS32(x) as int), -x);
  }

  /** A value already in `unsigned int` range is its own reduction. */
  lemma SmallMod(x: int)
    requires 0 <= x < W32
    ensures x % W32 == x
  {
    DivModUnique(x, W32, 0, x);
  }

  /** A right shift moves a value toward zero without crossing it. */
  lemma ShrBounds(x: int, k: nat)
    ensures x >= 0 ==> 0 <= Shr(x, k) <= x
    ensures x < 0 ==> x <= Shr(x, k) < 0
  {
    var P := Pow2(k);
    if x >= 0 {
      MulMonotone(x + 1, 1, P);
      DivRange(x, P, 0, x + 1);
    } else {
      MulMonotone(-x, 1, P);
      DivRange(x, P, x, 0);
    }
  }

  /** `n >> 31` on an `int` is -1 for negative n and 0 otherwise. */
  lemma SignShift(n: i32)
    ensures Shr(n, 31) == if n < 0 then -1 else 0
  {
    Pow2Low();
    if n < 0 {
      DivBetween(n, W31, -1);
    } else {
      DivBetween(n, W31, 0);
    }
  }

  /** The high word of a product of a 32-bit value and an `int` fits in an `int`. */
  lemma HighFits(x: int)
    requires -W31 * W32 <= x < W31 * W32
    ensures -W31 <= Shr(x, 32) < W31
  {
    Pow2Low();
    DivRange(x, W32, -W31, W31);
  }

  /** Bounds on a value, as multiples of the divisor, bound its quotient. */
  lemma DivRange(x: int, D: int, lo: int, hi: int)
    requires D > 0 && D * lo <= x < D * hi
    ensures lo <= x / D < hi
  {
    var q := x / D;
    assert x == D * q + x % D;
    if q < lo {
      MulMonotone(D, q + 1, lo);
    }
    if q >= hi {
      MulMonotone(D, hi, q);
    }
  }

  /** Dividing a non-negative value by a positive divisor does not increase it. */
  lemma DivShrinks(x: int, D: int)
    requires x >= 0 && D >= 1
    ensures 0 <= x / D <= x
  {
    MulMonotone(x + 1, 1, D);
    DivRange(x, D, 0, x + 1);
  }
}
