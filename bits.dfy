/** The bit utilities of kdiv.c: `ispowof2`, `log2ceil` and `ipowul`. */
module Bits {
  import opened Words

  /** The bitwise `&` of two non-negative integers, taken bit by bit from the
      least significant end. */
  function BitAnd(x: nat, y: nat): (r: nat)
    ensures r <= x && r <= y
  {
    if x == 0 || y == 0 then 0
    else 2 * BitAnd(x / 2, y / 2) + (if x % 2 == 1 && y % 2 == 1 then 1 else 0)
  }

  /** `ispowof2(v)`: `v && !(v & (v-1))` on an `unsigned int`. It answers 1
      exactly for the powers of two 2^0 .. 2^31. */
  function IsPowOf2(v: u32): (r: bool)
    ensures r <==> v >= 1 && Pow2(CeilLog2(v)) == v
  {
    v != 0 && (ClearLowestBit(v); BitAnd(v, ToU32(v - 1)) == 0)
  }

  /** The ceiling of the binary logarithm: the least k with 2^k >= v. */
  function CeilLog2(v: nat): (k: nat)
    requires v >= 1
    ensures Pow2(k) >= v
    ensures k == 0 || Pow2(k - 1) < v
    decreases v
  {
    if v == 1 then 0 else 1 + CeilLog2((v + 1) / 2)
  }

  /** The two ensures of CeilLog2 pin down a single exponent. */
  lemma CeilLog2Unique(v: nat, k: nat)
    requires v >= 1
    requires Pow2(k) >= v && (k == 0 || Pow2(k - 1) < v)
    ensures CeilLog2(v) == k
  {
    var c := CeilLog2(v);
    if c < k {
      Pow2Order(c, k - 1);
    } else if k < c {
      Pow2Order(k, c - 1);
    }
  }

  /** `log2ceil(inpval)`: counts doublings of `max`, an `unsigned int`, until it
      reaches `inpval`. Zero is a fatal error. Above 2^31 the doubling of `max`
      wraps to 0 and the loop never ends, so such inputs are excluded. */
  method Log2Ceil(inpval: u32) returns (r: Result<nat>)
    requires inpval <= W31
    ensures inpval == 0 <==> r == Exit(Log2OfZero)
    ensures inpval != 0 ==> r.Ok? && Pow2(r.value) >= inpval
    ensures inpval != 0 ==> r.Ok? && (r.value == 0 || Pow2(r.value - 1) < inpval)
    ensures inpval != 0 ==> r == Ok(CeilLog2(inpval))
  {
    if inpval == 0 {
      return Exit(Log2OfZero);
    }
    var max: u32 := 1;
    var logval: u32 := 0;
    while max < inpval
      invariant logval <= 31 && max == Pow2(logval)
      invariant logval == 0 || Pow2(logval - 1) < inpval
      decreases 31 - logval
    {
      DoublingFits(logval);
      logval := logval + 1;
      max := (max * 2) % W32;
    }
    CeilLog2Unique(inpval, logval);
    r := Ok(logval);
  }

  /** Below 2^31, a power of two doubles without leaving 32 bits. */
  lemma DoublingFits(k: nat)
    requires Pow2(k) < W31
    ensures k < 31 && 2 * Pow2(k) <= W31 && (2 * Pow2(k)) % W32 == Pow2(k + 1)
  {
    var e: nat := 31;
    Pow2Low();
    assert Pow2(e) == W31;
    Pow2Order(k, e);
    Pow2Order(k + 1, e);
    SmallMod(2 * Pow2(k));
  }

  lemma {:induction false} BitAndSelf(w: nat)
    ensures BitAnd(w, w) == w
  {
    if w > 0 {
      BitAndSelf(w / 2);
    }
  }

  /** `v & (v-1)` is zero exactly when v is a power of two. */
  lemma {:induction false} ClearLowestBit(v: nat)
    requires v >= 1
    ensures BitAnd(v, v - 1) == 0 <==> Pow2(CeilLog2(v)) == v
    decreases v
  {
    if v == 1 {
    } else if v % 2 == 1 {
      var w := v / 2;
      assert (v - 1) / 2 == w && (v - 1) % 2 == 0;
      BitAndSelf(w);
      assert BitAnd(v, v - 1) == 2 * w;
      Pow2Even(CeilLog2(v));
    } else {
      var w := v / 2;
      assert v == 2 * w && (v - 1) / 2 == w - 1 && (v - 1) % 2 == 1 && (v + 1) / 2 == w;
      ClearLowestBit(w);
      assert BitAnd(v, v - 1) == 2 * BitAnd(w, w - 1);
      assert CeilLog2(v) == 1 + CeilLog2(w);
    }
  }

  lemma Pow2Even(k: nat)
    requires k >= 1
    ensures Pow2(k) % 2 == 0
  {
    DivModUnique(Pow2(k), 2, Pow2(k - 1), 0);
  }

  /** Every 2^k that fits in 32 bits passes ispowof2, and its log2ceil is k. */
  lemma PowerOfTwoPasses(k: nat)
    requires k < 32
    ensures Pow2(k) < W32 && IsPowOf2(Pow2(k)) && CeilLog2(Pow2(k)) == k
  {
    Pow2Low();
    Pow2Order(k, 32);
    if k > 0 {
      Pow2Order(k - 1, k);
    }
    CeilLog2Unique(Pow2(k), k);
  }

  /** A signed divisor handed to ispowof2 is first converted to `unsigned int`:
      of the negative divisors, only -2^31 is then seen as a power of two. */
  lemma NegativeDivisorIsPowOf2(d: i32)
    requires d < 0
    ensures IsPowOf2(ToU32(d)) <==> d == -W31
  {
    var v := ToU32(d);
    assert v == d + W32;
    TopHalfPowOf2(v);
  }

  /** Of 2^31 .. 2^32 - 1, only 2^31 is a power of two. */
  lemma TopHalfPowOf2(v: u32)
    requires v >= W31
    ensures IsPowOf2(v) <==> v == W31
  {
    if v == W31 {
      TopIsPowOf2(v);
    } else {
      TopIsNotPowOf2(v);
    }
  }

  lemma TopIsPowOf2(v: nat)
    requires v == W31
    ensures Pow2(CeilLog2(v)) == v
  {
    Pow2Low();
    Pow2Order(30, 31);
    CeilLog2Unique(v, 31);
  }

  lemma TopIsNotPowOf2(v: nat)
    requires W31 < v < W32
    ensures Pow2(CeilLog2(v)) != v
  {
    Pow2Low();
    BetweenPowers(v, 31);
  }

  /** A value strictly between two consecutive powers of two is not one. */
  lemma BetweenPowers(v: nat, k: nat)
    requires Pow2(k) < v < Pow2(k + 1)
    ensures Pow2(CeilLog2(v)) != v
  {
    var c := CeilLog2(v);
    if Pow2(c) == v {
      Pow2Order(k, c);
      Pow2Order(c, k + 1);
    }
  }

  /** Integer power b^e. */
  function Pow(b: nat, e: nat): nat
  {
    if e == 0 then 1 else b * Pow(b, e - 1)
  }

  /** Powers of 2 computed by Pow agree with Pow2. */
  lemma {:induction false} PowTwo(e: nat)
    ensures Pow(2, e) == Pow2(e)
  {
    if e > 0 {
      PowTwo(e - 1);
    }
  }

  lemma PowStepMod(b: nat, i: nat)
    ensures (Pow(b, i) % W64) * b % W64 == Pow(b, i + 1) % W64
  {
    assert Pow(b, i + 1) == b * Pow(b, i);
    MulMod(Pow(b, i), b, W64);
  }

  /** `ipowul(base, exponent)`: repeated multiplication of an `unsigned long long`
      accumulator by `(unsigned int)base`; no iteration runs when exponent <= 0. */
  method IPowUL(base: i32, exponent: i32) returns (r: u64)
    ensures r == Pow(ToU32(base), if exponent <= 0 then 0 else exponent) % W64
  {
    var b := ToU32(base);
    var temp: u64 := 1;
    var i: i32 := 0;
    while i < exponent
      invariant if exponent > 0 then 0 <= i <= exponent else i == 0
      invariant temp == Pow(b, i) % W64
    {
      PowStepMod(b, i);
      temp := (temp * b) % W64;
      i := i + 1;
    }
    r := temp;
  }

  /** The mask `ipowul(2, W) - 1` of calculate_kdivu's a == 1 sequence, for
      W = 32, leaves every 32-bit value unchanged: `t & mask` is t. */
  lemma MaskKeepsWord(t: nat)
    requires t < W32
    ensures Pow(ToU32(2), 32) % W64 - 1 == W32 - 1 && BitAnd(t, W32 - 1) == t
  {
    PowTwo(32);
    Pow2Low();
    LowMask(t, 32);
  }

  /** `&` with 2^k - 1 keeps the k low bits, so a value below 2^k is unchanged. */
  lemma {:induction false} LowMask(t: nat, k: nat)
    requires t < Pow2(k)
    ensures BitAnd(t, Pow2(k) - 1) == t
  {
    if t > 0 {
      var m := Pow2(k) - 1;
      assert k >= 1;
      assert m / 2 == Pow2(k - 1) - 1 && m % 2 == 1;
      LowMask(t / 2, k - 1);
    }
  }
}
