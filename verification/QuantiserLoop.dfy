/**
 The quantisation loop of jcdctmgr.c. Every element but the least one of its width is divided with rounding.
 The least 16-bit element has no negation of its width; here is for which divisors it still comes out right.
 */
module QuantiserLoop {
  import opened Powers
  import opened Quantiser

  // ----- the least element -----

  const LEAST: int := -32768

  /** The divisors that quantise the least 16-bit element correctly. */
  predicate LeastFits(d: int)
  {
    || d == 1 || d == 257 || 513 <= d <= 516 || 1025 <= d <= 1040 || 2049 <= d <= 2114 || 4097 <= d <= 4369
    || 8193 <= d <= 9362 || 16385 <= d <= 21845 || (32769 <= d <= 65535 && d != 65534)
  }

  /** With b + 1 bits, the divisor is a little above 2 to the b: its s - 1 fold fits in 65536. */
  predicate Narrow(d: int, s: int)
  {
    d * (s - 1) <= 65536 && d != 65534
  }

  /** The divisors above p, one window for each number of bits. */
  lemma Window(d: int, b: nat)
    requires 1 <= b <= 15 && Pow2(b) < d < Pow2(b + 1)
    ensures Narrow(d, Pow2(16 - b)) <==> LeastFits(d)
  {
    hide Pow2;
    SmallPowers();
    WindowOf(d, b, Pow2(b), Pow2(16 - b));
  }

  lemma WindowOf(d: int, b: nat, p: int, s: int)
    requires 1 <= b <= 15 && p < d < 2 * p
    requires b == 1 ==> p == 2 && s == 32768
    requires b == 2 ==> p == 4 && s == 16384
    requires b == 3 ==> p == 8 && s == 8192
    requires b == 4 ==> p == 16 && s == 4096
    requires b == 5 ==> p == 32 && s == 2048
    requires b == 6 ==> p == 64 && s == 1024
    requires b == 7 ==> p == 128 && s == 512
    requires b == 8 ==> p == 256 && s == 256
    requires b == 9 ==> p == 512 && s == 128
    requires b == 10 ==> p == 1024 && s == 64
    requires b == 11 ==> p == 2048 && s == 32
    requires b == 12 ==> p == 4096 && s == 16
    requires b == 13 ==> p == 8192 && s == 8
    requires b == 14 ==> p == 16384 && s == 4
    requires b == 15 ==> p == 32768 && s == 2
    ensures Narrow(d, s) <==> LeastFits(d)
  {
  }

  /** The product of the least element, taken modulo 2 to the 32, divided by D: s is 2 to the 32 divided by D. */
  lemma WrappedQuotient(x: int, g: int, s: int, bigD: int, k: int)
    requires 0 <= x <= 32768 && 0 <= g < 65536 && bigD >= 1 && s * bigD == Pow2(32)
    requires (k - 1) * bigD < x * g <= k * bigD && 1 <= k
    ensures Unsigned(Unsigned(-x, 32) * g, 32) / bigD == s - k
  {
    hide Pow2;
    var m := x * g;
    MulMonotone(0, k - 1, bigD);
    NextMultiple(k, bigD);
    Apart(s, k, bigD);
    WrappedProduct(x, g);
    DivIs(Pow2(32) - m, bigD, s - k, k * bigD - m);
  }

  lemma WrappedProduct(x: int, g: int)
    requires 0 <= x <= 32768 && 0 <= g < 65536 && x * g >= 1
    ensures Unsigned(Unsigned(-x, 32) * g, 32) == Pow2(32) - x * g
  {
    hide Pow2;
    var t := Pow2(32);
    Pow2Add(16, 16);
    SmallPowers();
    MulMonotone(x, 32768, g);
    assert x >= 1;
    DivIs(-x, t, -1, t - x);
    Scale(t, x, g);
    DivIs((t - x) * g, t, g - 1, t - x * g);
  }

  lemma Scale(t: int, x: int, g: int)
    ensures (t - x) * g == (g - 1) * t + (t - x * g)
  {
  }

  lemma Apart(s: int, k: int, m: int)
    ensures (s - k) * m == s * m - k * m
  {
  }

  lemma Cancel(d: int, a: int, b: int)
    requires d >= 1 && d * a < d * b
    ensures a < b
  {
    if a >= b {
      MulMonotone(b, a, d);
    }
  }

  /** What the rounded-down reciprocal makes of x: the quotient rounded up. */
  lemma CeilingDown(x: int, d: int, p: int, f: int, fr: int, k: int)
    requires 1 <= x <= 32767 && p < d < 2 * p && f * d == 65536 * p - fr && 0 < fr <= d / 2 && f >= 0
    requires (k - 1) * d < x <= k * d
    ensures 1 <= k && (k - 1) * (65536 * p) < x * f <= k * (65536 * p)
  {
    var bigD := 65536 * p;
    MulMonotone(x, 32767, fr);
    Above(x, d, bigD, f, -fr, k);
    Positive(x, d, k);
    MulMonotone(x, k * d, f);
    MulMonotone(f * d, bigD, k);
    Swap(k, d, f);
  }

  lemma Swap(k: int, d: int, f: int)
    ensures k * d * f == f * d * k
  {
  }

  lemma Positive(x: int, d: int, k: int)
    requires d >= 1 && 1 <= x <= k * d
    ensures k >= 1
  {
    if k <= 0 {
      MulMonotone(k, 0, d);
    }
  }

  /** A product with g, which is bigD over d up to the error e over d, from below. */
  lemma Above(x: int, d: int, bigD: int, g: int, e: int, k: int)
    requires d >= 1 && bigD >= 1 && g * d == bigD + e && x * e + bigD > 0
    requires (k - 1) * d < x
    ensures (k - 1) * bigD < x * g
  {
    Products(x, d, bigD, g, e);
    MulMonotone((k - 1) * d + 1, x, bigD);
    Bracket(k - 1, d, bigD);
    Cancel(d, (k - 1) * bigD, x * g);
  }

  lemma Products(x: int, d: int, bigD: int, g: int, e: int)
    requires g * d == bigD + e
    ensures d * (x * g) == x * bigD + x * e
  {
    assert d * (x * g) == x * (g * d);
    assert x * (bigD + e) == x * bigD + x * e;
  }

  lemma Bracket(k: int, d: int, bigD: int)
    ensures (k * d + 1) * bigD == d * (k * bigD) + bigD && (k * d - 1) * bigD == d * (k * bigD) - bigD
    ensures k * d * bigD == d * (k * bigD)
  {
    assert k * d * bigD == d * (k * bigD);
    NextMultiple(k * d, bigD);
  }

  /** What the rounded-up reciprocal makes of x: one more than the quotient. */
  lemma CeilingUp(x: int, d: int, p: int, g: int, e: int, k: int)
    requires 1 <= x <= 32768 && p < d < 2 * p && g * d == 65536 * p + e && 0 < e && 2 * e < d
    requires (k - 1) * d <= x < k * d
    ensures 1 <= k && (k - 1) * (65536 * p) < x * g <= k * (65536 * p)
  {
    var bigD := 65536 * p;
    Positive(x, d, k);
    Products(x, d, bigD, g, e);
    MulMonotone(1, x, e);
    MulMonotone(x, 32768, e);
    MulMonotone((k - 1) * d, x, bigD);
    Bracket(k - 1, d, bigD);
    Cancel(d, (k - 1) * bigD, x * g);
    MulMonotone(x, k * d - 1, bigD);
    Bracket(k, d, bigD);
    NotAbove(d, x * g, k * bigD);
  }

  lemma NotAbove(d: int, a: int, b: int)
    requires d >= 1 && d * a <= d * b
    ensures a <= b
  {
    if a > b {
      MulMonotone(b + 1, a, d);
      NextMultiple(b, d);
    }
  }

  /** When a quotient reaches c. */
  lemma QuotientAt(v: int, d: int, c: int)
    requires d >= 1
    ensures v / d >= c <==> v >= c * d
  {
    DivSum(v, d);
    FloorAt(v, d, v / d + 1, c);
  }

  lemma FloorAt(x: int, d: int, k: int, c: int)
    requires d >= 1 && (k - 1) * d <= x < k * d
    ensures k > c <==> x >= c * d
  {
    if k > c {
      MulMonotone(c, k - 1, d);
    } else {
      MulMonotone(k, c, d);
    }
  }

  lemma CeilingAt(x: int, d: int, k: int, c: int)
    requires d >= 1 && (k - 1) * d < x <= k * d
    ensures k > c <==> x > c * d
  {
    if k > c {
      MulMonotone(c, k - 1, d);
    } else {
      MulMonotone(k, c, d);
    }
  }

  /** With d (s - 1) that close below 65536, the fraction is above one half, but for one divisor. */
  lemma NoGap(d: int, p: int, s: int, f: int, fr: int, j: int)
    requires p < d < 2 * p && p * s == 65536 && s >= 2 && s % 2 == 0
    requires 0 <= j <= 3 && d * (s - 1) == 65536 - j
    requires f * d == 65536 * p - fr && 0 < fr <= d / 2
    ensures d == 65534
  {
    var c := f - (s - 1) * p;
    assert c * d == j * p - fr by {
      Minus(f, (s - 1) * p, d);
      Swap(s - 1, p, d);
      Swap(d, s - 1, p);
      assert (65536 - j) * p == 65536 * p - j * p;
    }
    MultipleOf(c, d, p, fr, j, c * d, j * p);
    assert p * (s - 1) == 65536 - p by {
      Minus(s, 1, p);
    }
    if j == 2 {
      MulMonotone(4 * p, 3 * d, s - 1);
      Times(4, p, s - 1);
      Times(3, d, s - 1);
      if s >= 4 {
        MulMonotone(4, s, p);
      }
    } else {
      MulMonotone(2 * d, 3 * p, s - 1);
      MulMonotone(6 * p, 5 * d, s - 1);
      Times(2, d, s - 1);
      Times(3, p, s - 1);
      Times(6, p, s - 1);
      Times(5, d, s - 1);
      if s >= 6 {
        MulMonotone(6, s, p);
      }
    }
  }

  lemma Minus(a: int, b: int, d: int)
    ensures (a - b) * d == a * d - b * d && d * (a - b) == d * a - d * b
  {
  }

  /** Which multiples of d can be that far from a multiple of p. */
  lemma MultipleOf(c: int, d: int, p: int, fr: int, j: int, cd: int, jp: int)
    requires p < d < 2 * p && 0 <= j <= 3 && 0 < fr <= d / 2 && cd == c * d && jp == j * p && cd == jp - fr
    ensures (j == 2 && 4 * p <= 3 * d) || (j == 3 && 2 * d < 3 * p && 6 * p <= 5 * d)
  {
    if c <= -1 {
      MulMonotone(c, -1, d);
    } else if c >= 3 {
      MulMonotone(3, c, d);
    }
    assert j == 0 || j == 1 || j == 2 || j == 3;
    assert c == 0 || c == 1 || c == 2;
  }

  lemma Times(c: int, v: int, m: int)
    ensures c * v * m == c * (v * m)
  {
  }

  /** The two quotients make up 2t when both are t: the rounded one of 32768 by d, and k. */
  lemma Balance(d: int, t: int, td: int, q: int, k: int, s: int)
    requires 2 <= d < 65536 && 65536 < 2 * td && td == t * d && s == 2 * t
    requires q >= t <==> 32768 + d / 2 >= td
    requires q >= t + 1 <==> 32768 + d / 2 >= td + d
    requires k <= t
    requires 2 * td - d <= 65536 ==> (k > t - 1 <==> d != 65534)
    ensures q + k == s <==> Narrow(d, s)
  {
    assert d * (s - 1) == 2 * td - d by {
      Minus(s, 1, d);
      Times(2, t, d);
    }
  }

  lemma HalfProduct(d: int, p: int, s: int)
    requires p < d && p * s == 65536 && s >= 2 && s % 2 == 0
    ensures 65536 < 2 * (s / 2 * d) == d * s
  {
    MulMonotone(p + 1, d, s);
    NextMultiple(p, s);
    Times(2, s / 2, d);
  }

  /** With a fraction at most one half, k is the ceiling of x / d. */
  lemma BalanceDown(d: int, p: int, s: int, f: int, fr: int, k: int)
    requires p < d < 2 * p && p * s == 65536 && s >= 2 && s % 2 == 0 && 2 <= d < 65536
    requires f * d == 65536 * p - fr && 0 < fr <= d / 2
    requires (k - 1) * d < 32767 - d / 2 <= k * d
    ensures (32768 + d / 2) / d + k == s <==> Narrow(d, s)
  {
    var t := s / 2;
    HalfProduct(d, p, s);
    NextMultiple(t, d);
    QuotientAt(32768 + d / 2, d, t);
    QuotientAt(32768 + d / 2, d, t + 1);
    CeilingAt(32767 - d / 2, d, k, t);
    CeilingAt(32767 - d / 2, d, k, t - 1);
    Minus(s, 1, d);
    if 65533 <= d * (s - 1) <= 65536 {
      NoGap(d, p, s, f, fr, 65536 - d * (s - 1));
    }
    Balance(d, t, t * d, (32768 + d / 2) / d, k, s);
  }

  /** With a fraction above one half, k is one more than the quotient. */
  lemma BalanceUp(d: int, p: int, s: int, k: int)
    requires p < d < 2 * p && p * s == 65536 && s >= 2 && s % 2 == 0 && 2 <= d < 65536 && d != 65534
    requires (k - 1) * d <= 32768 - d / 2 < k * d
    ensures (32768 + d / 2) / d + k == s <==> Narrow(d, s)
  {
    var t := s / 2;
    HalfProduct(d, p, s);
    NextMultiple(t, d);
    QuotientAt(32768 + d / 2, d, t);
    QuotientAt(32768 + d / 2, d, t + 1);
    FloorAt(32768 - d / 2, d, k, t);
    FloorAt(32768 - d / 2, d, k, t - 1);
    Balance(d, t, t * d, (32768 + d / 2) / d, k, s);
  }

  /** What the loop makes of the least element, from the quotient q of the wrapped product. */
  lemma LeastResult(d: int, recip: int, corr: int, shift: int, q: int)
    requires 1 <= d < 65536 && 16 + shift >= 0 && 0 <= corr <= 32768
    requires Unsigned(Unsigned(-(32768 - corr), 32) * recip, 32) / Pow2(16 + shift) == q
    requires -32768 < q < 32768
    ensures QuantizeOne(16, LEAST, recip, corr, shift) == -q
    ensures Signed(RoundedDiv(LEAST, d), 16) == -((32768 + d / 2) / d)
  {
    hide Pow2, Signed, Unsigned;
    SmallPowers();
    SignedFits(q, 16);
    SignedFits(-q, 16);
    Wrapped();
    QuotientFits(32768, d);
    SignedFits(-((32768 + d / 2) / d), 16);
  }

  lemma Wrapped()
    ensures Signed(32768, 16) == LEAST
  {
    hide Pow2;
    SmallPowers();
    DivIs(32768 + 32768, 65536, 1, 0);
  }

  /** Powers of two: the quotient is off by half the range. */
  lemma LeastOfPower(d: int, b: nat)
    requires 1 <= b <= 15 && d == Pow2(b)
    ensures !LeastFits(d)
    ensures QuantizeOne(16, LEAST, Pow2(15), d / 2, b - 1) != Signed(RoundedDiv(LEAST, d), 16)
  {
    hide Pow2, QuantizeOne;
    SmallPowers();
    var t, bigD := Pow2(15 - b), Pow2(15 + b);
    Pow2Add(15 - b, b);
    Pow2Add(15, b);
    Pow2Add(17 - b, 15 + b);
    assert Pow2(17 - b) == 4 * t by {
      Pow2Add(15 - b, 2);
    }
    NotPowers(d, b);
    var x, g := 32768 - d / 2, Pow2(15);
    Minus(t, 1, d);
    PowerBounds(x, d, g, t, bigD);
    WrappedQuotient(x, g, 4 * t, bigD, t);
    DivIs(32768 + d / 2, d, t, d / 2);
    if b == 1 {
      PowerOfOne();
    } else {
      PowersApart(15 - b, 14);
      LeastResult(d, g, d / 2, b - 1, 3 * t);
    }
  }

  lemma PowerBounds(x: int, d: int, g: int, t: int, bigD: int)
    requires d >= 2 && g >= 1 && t * d == 32768 && x == 32768 - d / 2 && bigD == g * d
    ensures (t - 1) * bigD < x * g <= t * bigD
  {
    MulMonotone(x, t * d, g);
    Swap(t, d, g);
    Minus(t, 1, d);
    MulMonotone((t - 1) * d + 1, x, g);
    Swap(t - 1, d, g);
    NextMultiple((t - 1) * d, g);
    assert g * d * t == t * bigD && g * d * (t - 1) == (t - 1) * bigD;
  }

  lemma NotPowers(d: int, b: nat)
    requires 1 <= b <= 15 && d == Pow2(b)
    ensures !LeastFits(d) && d % 2 == 0 && 2 <= d <= 32768
  {
    hide Pow2;
    SmallPowers();
    assert b == 1 || b == 2 || b == 3 || b == 4 || b == 5 || b == 6 || b == 7 || b == 8 || b == 9 || b == 10
      || b == 11 || b == 12 || b == 13 || b == 14 || b == 15;
  }

  /** Half of the least element comes out positive. */
  lemma PowerOfOne()
    ensures QuantizeOne(16, LEAST, Pow2(15), 1, 0) == 16384 && Signed(RoundedDiv(LEAST, 2), 16) == -16384
  {
    hide Pow2;
    SmallPowers();
    Pow2Add(16, 16);
    var t := Pow2(32);
    DivIs(32768 + 32768, 65536, 1, 0);
    assert Signed(32768, 16) == LEAST;
    DivIs(-32767, t, -1, t - 32767);
    DivIs((t - 32767) * 32768, t, 32767, 3221258240);
    DivIs(3221258240, 65536, 49152, 32768);
    DivIs(49152 + 32768, 65536, 1, 16384);
    assert Signed(49152, 16) == -16384;
    SignedFits(16384, 16);
    SignedFits(-16384, 16);
  }

  /** Dividing the least element by one. */
  lemma LeastOfOne()
    ensures QuantizeOne(16, LEAST, 1, 0, -16) == LEAST == Signed(RoundedDiv(LEAST, 1), 16)
  {
    hide Pow2;
    SmallPowers();
    Pow2Add(16, 16);
    var t := Pow2(32);
    DivIs(32768 + 32768, 65536, 1, 0);
    assert Signed(32768, 16) == LEAST;
    DivIs(-32768, t, -1, t - 32768);
    DivIs((t - 32768) * 1, t, 0, t - 32768);
    DivIs(t - 32768, 1, t - 32768, 0);
    DivIs(t - 32768 + 32768, 65536, 65536, 0);
    assert Signed(t - 32768, 16) == LEAST;
    DivIs(32768, 1, 32768, 0);
    SignedFits(LEAST, 16);
  }

  /** A divisor with a fraction of at most one half. */
  lemma LeastOfDown(d: int, b: nat, f: int, fr: int)
    requires Divided(16, d, b, f, fr) && 0 < fr <= d / 2
    ensures QuantizeOne(16, LEAST, f, d / 2 + 1, b) == Signed(RoundedDiv(LEAST, d), 16) <==> LeastFits(d)
  {
    hide Pow2, QuantizeOne, Signed, RoundedDiv, Unsigned, LeastFits, Narrow;
    var p, s, x := Pow2(b), Pow2(16 - b), 32767 - d / 2;
    Scales(d, b, f, fr);
    FractionRange(16, d, b, f, fr);
    LargestDivisors(d, b, f, fr);
    if x == 0 {
      LeastLost(d, b, f);
    } else {
      var k := (x - 1) / d + 1;
      DivSum(x - 1, d);
      DivShrinks(x - 1, d);
      NextMultiple(k, d);
      CeilingDown(x, d, p, f, fr, k);
      WrappedQuotient(x, f, s, 65536 * p, k);
      BalanceDown(d, p, s, f, fr, k);
      Window(d, b);
      LeastResult(d, f, d / 2 + 1, b, s - k);
    }
  }

  /** The two largest divisors: one has a small fraction, the other a large one. */
  lemma LargestDivisors(d: int, b: nat, f: int, fr: int)
    requires Divided(16, d, b, f, fr) && fr != 0
    ensures d == 65535 ==> fr > d / 2
    ensures d == 65534 ==> fr <= d / 2
  {
    hide Pow2;
    Scales(d, b, f, fr);
    if d == 65535 {
      DivIs(65536 * 32768, d, 32768, 32768);
    } else if d == 65534 {
      DivIs(65536 * 32768, d, 32769, 2);
    }
  }

  /** With divisor 65534 the correction cancels the least element. */
  lemma LeastLost(d: int, b: nat, f: int)
    requires d == 65534 && b <= 15 && 0 <= f < 65536
    ensures QuantizeOne(16, LEAST, f, d / 2 + 1, b) != Signed(RoundedDiv(LEAST, d), 16) && !LeastFits(d)
  {
    hide Pow2, QuantizeOne, Signed;
    DivIs(0, Pow2(32), 0, 0);
    DivIs(0, Pow2(16 + b), 0, 0);
    LeastResult(d, f, d / 2 + 1, b, 0);
    DivIs(32768 + d / 2, d, 1, 1);
  }

  /** A divisor with a fraction above one half. */
  lemma LeastOfUp(d: int, b: nat, f: int, fr: int)
    requires Divided(16, d, b, f, fr) && fr > d / 2
    ensures QuantizeOne(16, LEAST, f + 1, d / 2, b) == Signed(RoundedDiv(LEAST, d), 16) <==> LeastFits(d)
  {
    hide Pow2, QuantizeOne, Signed, RoundedDiv, Unsigned, LeastFits, Narrow;
    var p, s, x := Pow2(b), Pow2(16 - b), 32768 - d / 2;
    Scales(d, b, f, fr);
    FractionRange(16, d, b, f, fr);
    LargestDivisors(d, b, f, fr);
    NextMultiple(f, d);
    var k := x / d + 1;
    DivSum(x, d);
    DivShrinks(x, d);
    NextMultiple(k, d);
    CeilingUp(x, d, p, f + 1, d - fr, k);
    WrappedQuotient(x, f + 1, s, 65536 * p, k);
    BalanceUp(d, p, s, k);
    Window(d, b);
    LeastResult(d, f + 1, d / 2, b, s - k);
  }

  lemma Scales(d: int, b: nat, f: int, fr: int)
    requires Divided(16, d, b, f, fr) && fr != 0
    ensures 1 <= b && Pow2(b) < d < 2 * Pow2(b) && Pow2(16 + b) == 65536 * Pow2(b)
    ensures Pow2(b) * Pow2(16 - b) == 65536 && Pow2(16 - b) % 2 == 0 && 2 <= Pow2(16 - b) <= 32768
    ensures Pow2(16 - b) * (65536 * Pow2(b)) == Pow2(32) && f * d == 65536 * Pow2(b) - fr
    ensures Pow2(16) == 65536 && (b == 15 ==> Pow2(b) == 32768)
    ensures d >= 32768 ==> b == 15
  {
    hide Pow2;
    SmallPowers();
    Pow2Add(16, b);
    if b == 0 || d == Pow2(b) {
      assert d == Pow2(b);
      PowerOfTwoExact(16, b);
    }
    DivSum(Pow2(16 + b), d);
    ScaleOf(b);
  }

  lemma ScaleOf(b: nat)
    requires b <= 15
    ensures Pow2(b) * Pow2(16 - b) == 65536 && Pow2(b + 1) == 2 * Pow2(b)
    ensures Pow2(16 - b) * (65536 * Pow2(b)) == Pow2(32)
    ensures Pow2(16 - b) % 2 == 0 && 2 <= Pow2(16 - b) && (b >= 1 ==> Pow2(16 - b) <= 32768)
    ensures b < 15 ==> 2 * Pow2(b) <= 32768
  {
    hide Pow2;
    SmallPowers();
    Pow2Add(b, 16 - b);
    Pow2Add(16, b);
    Pow2Add(16 - b, 16 + b);
    Pow2Add(1, 15 - b);
    Pow2Add(1, b);
    if 1 <= b && 15 - b < 14 {
      PowersApart(15 - b, 14);
    }
    if b < 15 {
      PowersApart(b, 15);
    }
  }

  /**
   The least 16-bit element is quantised correctly by exactly these divisors. (With 32-bit elements, negating
   the least one is undefined in C.)
   */
  lemma LeastElement(d: int)
    requires 1 <= d < 65536
    ensures var e := EntryFor(16, d);
      e.shift >= -16 && (QuantizeOne(16, LEAST, e.recip, e.corr, e.shift) == Signed(RoundedDiv(LEAST, d), 16)
        <==> LeastFits(d))
  {
    hide Pow2, NBits, QuantizeOne, Signed, RoundedDiv, EntryFor;
    if d == 1 {
      OneEntry(16);
      LeastOfOne();
    } else {
      DivisorBits(d);
      var b := NBits(d) - 1;
      EntrySteps(16, d, b);
      var f, fr := Pow2(16 + b) / d, Pow2(16 + b) % d;
      if fr == 0 {
        NoFraction(d, 16 + b, b);
        ExactPowerOfTwo(16, d, b, f, fr);
        LeastOfPower(d, b);
      } else if fr <= d / 2 {
        LeastOfDown(d, b, f, fr);
      } else {
        LeastOfUp(d, b, f, fr);
      }
    }
  }

  // ----- the loop -----

  /**
   quantize: every coefficient becomes the rounded quotient, cast to a 16-bit coefficient, and the least
   element does so exactly for the divisors that fit it.
   */
  method Quantize(w: nat, coefBlock: array<int>, divisors: array<int>, workspace: array<int>, ghost ds: seq<int>)
    requires IsWidth(w) && coefBlock.Length == workspace.Length == |ds| == DCTSIZE2 && divisors.Length == 4 * DCTSIZE2
    requires coefBlock != divisors && coefBlock != workspace
    requires forall i :: 0 <= i < DCTSIZE2 ==> 1 <= ds[i] < 65536 && Holds(w, divisors[..], i, EntryFor(w, ds[i]))
    requires forall i :: 0 <= i < DCTSIZE2 ==> IsElement(w, workspace[i])
    modifies coefBlock
    ensures forall i :: 0 <= i < DCTSIZE2 ==>
      ((coefBlock[i] == Signed(RoundedDiv(workspace[i], ds[i]), 16))
        <==> (workspace[i] != LEAST || w == 32 || LeastFits(ds[i])))
  {
    hide Pow2, Signed, Unsigned, RoundedDiv, Holds, EntryFor, LeastFits, IsElement;
    var i := 0;
    while i < DCTSIZE2
      invariant 0 <= i <= DCTSIZE2
      invariant forall k :: 0 <= k < i ==>
        ((coefBlock[k] == Signed(RoundedDiv(workspace[k], ds[k]), 16))
          <==> (workspace[k] != LEAST || w == 32 || LeastFits(ds[k])))
    {
      var temp := workspace[i];
      var recip, corr := Unsigned(divisors[i], w), Unsigned(divisors[i + DCTSIZE2], w);
      var shift := divisors[i + 3 * DCTSIZE2];
      ElementExact(w, divisors[..], i, ds[i], temp);
      if temp < 0 {
        temp := Signed(-temp, w);
        var product := Unsigned(Unsigned(temp + corr, 32) * recip, 2 * w);
        product := product / Pow2(shift + w);
        temp := Signed(product, w);
        temp := Signed(-temp, w);
      } else {
        var product := Unsigned(Unsigned(temp + corr, 32) * recip, 2 * w);
        product := product / Pow2(shift + w);
        temp := Signed(product, w);
      }
      coefBlock[i] := Signed(temp, 16);
      i := i + 1;
    }
  }

  /** An element of the workspace. With 32 bits the least value is left out: negating it is undefined in C. */
  predicate IsElement(w: nat, v: int)
    requires IsWidth(w)
  {
    -1 * Pow2(w - 1) <= v < Pow2(w - 1) && (w == 32 ==> v != -1 * Pow2(31))
  }

  /** What the loop body makes of an element with the entry stored for d. */
  lemma ElementExact(w: nat, table: seq<int>, i: nat, d: int, temp: int)
    requires IsWidth(w) && |table| == 4 * DCTSIZE2 && i < DCTSIZE2 && 1 <= d < 65536 && IsElement(w, temp)
    requires Holds(w, table, i, EntryFor(w, d))
    ensures var recip, corr := Unsigned(table[i], w), Unsigned(table[i + DCTSIZE2], w);
      var shift := table[i + 3 * DCTSIZE2];
      && w + shift >= 0
      && ((QuantizeOne(w, temp, recip, corr, shift) == Signed(RoundedDiv(temp, d), 16))
          <==> (temp != LEAST || w == 32 || LeastFits(d)))
  {
    hide Pow2, Signed, RoundedDiv, EntryFor, LeastFits, QuantizeOne;
    EntryDivides(w, d);
    var e := EntryFor(w, d);
    Halves(w, 0);
    StoredUnsigned(e.recip, w);
    StoredUnsigned(e.corr, w);
    SmallPowers();
    if w == 16 && temp == LEAST {
      LeastElement(d);
    } else {
      QuantizeOneRounds(w, d, temp, e.recip, e.corr, e.shift);
    }
  }
}
