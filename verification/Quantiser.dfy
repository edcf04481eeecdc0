/**
 Quantisation by reciprocal multiplication (jcdctmgr.c, 8-bit samples): the table of reciprocals and the
 loop that uses it compute properly rounded division. W is the width of a DCT element, 16 or 32 bits.
 */
module Quantiser {
  import opened Powers

  const DCTSIZE2: nat := 64

  predicate IsWidth(w: nat) { w == 16 || w == 32 }

  /** v cast to a signed or unsigned integer of w bits. */
  function Unsigned(v: int, w: nat): int { v % Pow2(w) }

  function Signed(v: int, w: nat): int
    requires w >= 1
  {
    (v + Pow2(w - 1)) % Pow2(w) - Pow2(w - 1)
  }

  lemma SignedFits(v: int, w: nat)
    requires w >= 1
    requires 0 <= v + Pow2(w - 1) < Pow2(w)
    ensures Signed(v, w) == v
  {
    DivIs(v + Pow2(w - 1), Pow2(w), 0, v + Pow2(w - 1));
  }

  /** Storing an unsigned value in a signed cell and reading it back. */
  lemma StoredUnsigned(v: int, w: nat)
    requires w >= 1 && 0 <= v < Pow2(w)
    ensures Unsigned(Signed(v, w), w) == v
  {
    assert Pow2(w) == 2 * Pow2(w - 1);
    if v < Pow2(w - 1) {
      SignedFits(v, w);
      DivIs(v, Pow2(w), 0, v);
    } else {
      DivIs(v + Pow2(w - 1), Pow2(w), 1, v - Pow2(w - 1));
      DivIs(v - Pow2(w), Pow2(w), -1, v);
    }
  }

  // ----- what is computed -----

  /** x / d rounded to the nearest integer, ties away from zero. */
  function RoundedDiv(x: int, d: int): int
    requires d >= 1
  {
    if x < 0 then -((-x + d / 2) / d) else (x + d / 2) / d
  }

  /** The rounded quotient is the one integer that close to x / d. */
  lemma RoundedDivNearest(x: int, d: int, q: int)
    requires d >= 1
    ensures x >= 0 ==> (q == RoundedDiv(x, d) <==> -d <= 2 * (x - q * d) < d)
    ensures x < 0 ==> (q == RoundedDiv(x, d) <==> -d < 2 * (x - q * d) <= d)
  {
    if x >= 0 {
      NearestNonnegative(x, d, q);
    } else {
      NearestNonnegative(-x, d, -q);
      assert -x - -q * d == -(x - q * d);
    }
  }

  lemma NearestNonnegative(x: int, d: int, q: int)
    requires d >= 1 && x >= 0
    ensures q == (x + d / 2) / d <==> -d <= 2 * (x - q * d) < d
  {
    var y := x + d / 2;
    assert y / d * d + y % d == y;
    if -d <= 2 * (x - q * d) < d {
      DivIs(y, d, q, y - q * d);
    }
  }

  // ----- the reciprocals -----

  /** Multiplying by recip after adding corr, and shifting, divides with rounding, within 2w bits. */
  ghost predicate Exact(w: nat, d: int, recip: int, corr: int, shift: int)
  {
    && w >= 1 && d >= 1 && 0 <= recip < Pow2(w) && 0 <= corr <= Pow2(w - 1) && w + shift >= 0
    && forall n :: 0 <= n < Pow2(w - 1) ==> ExactAt(w, d, recip, corr, shift, n)
  }

  ghost predicate ExactAt(w: nat, d: int, recip: int, corr: int, shift: int, n: int)
    requires d >= 1 && w + shift >= 0
  {
    && 0 <= (n + corr) * recip < Pow2(2 * w)
    && (n + corr) * recip / Pow2(w + shift) == (n + d / 2) / d
  }

  /** Floor division recognised from bounds. */
  lemma QuotientIs(p: int, m: int, q: int, qm: int)
    requires m >= 1 && qm == q * m && qm <= p < qm + m
    ensures p / m == q
  {
    DivIs(p, m, q, p - qm);
  }

  lemma Expand(q: int, d: int, t: int, f: int)
    ensures (q * d + t) * f == q * (f * d) + t * f
  {
    assert (q * d + t) * f == q * d * f + t * f;
    assert q * d * f == q * (f * d);
  }

  lemma Distribute(q: int, a: int, b: int)
    ensures q * (a + b) == q * a + q * b && q * (a - b) == q * a - q * b && (q + 1) * b == q * b + b
  {
  }

  /** Fraction at most one half: the reciprocal f is rounded down, and one is added to the dividend. */
  lemma RoundedDown(p: int, d: int, f: int, fr: int, y: int)
    requires d >= 2 && p == f * d + fr && 0 < fr <= d / 2 && 0 <= y <= 2 * f
    ensures (y + 1) * f / p == y / d
  {
    var q, t := y / d, y % d + 1;
    DivSum(y, d);
    Expand(q, d, t, f);
    Distribute(q, f * d, fr);
    SmallError(q, d, f, fr, y);
    BetweenOneAnd(t, d, f);
    FromParts(p, q, f, fr, f * d, t * f, q * (f * d), q * fr, (y + 1) * f);
  }

  lemma BetweenOneAnd(t: int, d: int, f: int)
    requires 1 <= t <= d && f >= 0
    ensures f <= t * f <= f * d
  {
    MulMonotone(1, t, f);
    MulMonotone(t, d, f);
  }

  /** The same comparison on the products. */
  lemma FromParts(p: int, q: int, f: int, fr: int, fd: int, tf: int, qfd: int, qfr: int, n: int)
    requires p == fd + fr && p >= 1 && fr > 0 && q * p == qfd + qfr && n == qfd + tf
    requires 0 <= qfr <= f && f <= tf <= fd
    ensures n / p == q
  {
    QuotientIs(n, p, q, q * p);
  }

  lemma SmallError(q: int, d: int, f: int, fr: int, y: int)
    requires d >= 1 && q == y / d && 0 <= 2 * fr <= d && 0 <= y <= 2 * f
    ensures 0 <= q * fr <= f
  {
    DivSum(y, d);
    MulMonotone(2 * fr, d, q);
    MulMonotone(0, fr, q);
    assert q * (2 * fr) == 2 * (q * fr);
  }

  /** Fraction above one half: the reciprocal g is rounded up. */
  lemma RoundedUp(p: int, d: int, g: int, e: int, y: int, q: int)
    requires d >= 2 && g * d == p + e && p >= 1 && 0 < e && y >= 0 && g >= 0
    requires q >= 0 && q * d <= y < q * d + d
    requires (q + 1) * e < g || (d <= y < 2 * d && y * g < 2 * p)
    ensures y * g / p == q && y / d == q
  {
    var s := y - q * d;
    DivIs(y, d, q, s);
    Expand(q, d, s, g);
    Distribute(q, g * d, e);
    MulMonotone(0, s, g);
    MulMonotone(s, d - 1, g);
    NextMultiple(d, g);
    MulMonotone(0, q, e);
    if (q + 1) * e >= g {
      DivIs(y, d, 1, y - d);
    }
    QuotientIs(y * g, p, q, q * (g * d) - q * e);
  }

  // ----- the four cases -----

  lemma {:induction false} DivisorOfPower(d: int, q: int, k: nat) returns (j: nat)
    requires d >= 1 && d * q == Pow2(k)
    ensures d == Pow2(j)
    decreases k
  {
    if k == 0 {
      UnitFactor(d, q);
      j := 0;
    } else if d % 2 == 0 {
      HalfProduct(d, q);
      var i := DivisorOfPower(d / 2, q, k - 1);
      j := i + 1;
    } else {
      OddProduct(d, q);
      HalfProduct(q, d);
      assert d * (q / 2) == q / 2 * d && q * d == d * q;
      j := DivisorOfPower(d, q / 2, k - 1);
    }
  }

  lemma UnitFactor(d: int, q: int)
    requires d >= 1 && d * q == 1
    ensures d == 1
  {
    if q >= 1 {
      MulMonotone(1, q, d);
    } else {
      MulMonotone(q, 0, d);
    }
  }

  lemma HalfProduct(d: int, q: int)
    requires d % 2 == 0
    ensures d * q == 2 * (d / 2 * q)
  {
    assert 2 * (d / 2) * q == 2 * (d / 2 * q);
  }

  lemma OddProduct(d: int, q: int)
    requires d % 2 == 1
    ensures (d * q) % 2 == q % 2
  {
    assert d * q == 2 * (d / 2 * q) + q by {
      assert (2 * (d / 2) + 1) * q == 2 * (d / 2) * q + q;
      assert 2 * (d / 2) * q == 2 * (d / 2 * q);
    }
  }

  /** No fraction means the divisor is the power of two its bit count tells. */
  lemma NoFraction(d: int, k: nat, b: nat)
    requires Pow2(b) <= d < Pow2(b + 1) && Pow2(k) % d == 0
    ensures d == Pow2(b)
  {
    hide Pow2;
    assert d * (Pow2(k) / d) == Pow2(k) by {
      assert Pow2(k) / d * d + Pow2(k) % d == Pow2(k);
    }
    var j := DivisorOfPower(d, Pow2(k) / d, k);
    if j < b {
      PowersApart(j, b);
    } else if j > b {
      if j > b + 1 {
        PowersApart(b + 1, j);
      }
    }
  }

  /** A reciprocal with a fraction fits its cell, rounded down or up, and is at least half the range. */
  lemma ReciprocalRange(half: int, e: int, d: int)
    requires half >= 32768 && e >= 1 && e < d < 2 * e && d < 65536
    ensures var p := 2 * half * e; half <= p / d && p / d + 1 < 2 * half
  {
    var p := 2 * half * e;
    var f, fr := p / d, p % d;
    assert f * d + fr == p;
    QuotientAtLeast(p, d, half) by {
      MulMonotone(d, 2 * e, half);
      assert 2 * e * half == p && d * half == half * d;
    }
    assert (f + 1) * d == p - fr + d;
    assert p + 2 * half <= 2 * half * d by {
      MulMonotone(e + 1, d, 2 * half);
      assert (e + 1) * (2 * half) == p + 2 * half;
      assert d * (2 * half) == 2 * half * d;
    }
    if f + 1 >= 2 * half {
      MulMonotone(2 * half, f + 1, d);
    }
  }

  /** The multiplication for a dividend n stays within twice the word. */
  lemma NoOverflow(w: nat, a: int, r: int)
    requires 0 <= a < Pow2(w) && 0 <= r < Pow2(w)
    ensures 0 <= a * r < Pow2(2 * w)
  {
    hide Pow2;
    Pow2Add(w, w);
    assert 2 * w == w + w;
    MulMonotone(0, a, r);
    MulMonotone(a, Pow2(w) - 1, r);
    if r > 0 {
      MulMonotone(r, Pow2(w) - 1, Pow2(w) - 1);
      assert (Pow2(w) - 1) * (Pow2(w) - 1) < Pow2(w) * Pow2(w);
    } else {
      assert Pow2(w) * Pow2(w) >= 1 by {
        MulMonotone(1, Pow2(w), Pow2(w));
      }
    }
  }

  /** Fraction above one half: the error of the rounded-up reciprocal stays below it. */
  lemma SmallErrorUp(half: int, d: int, e: int, y: int, g: int, q: int)
    requires half >= 32768 && 2 <= d < 65536 && 1 <= e && 2 * e < d && 0 <= y <= half - 1 + d / 2 && g > half
    requires q >= 0 && q * d <= y < q * d + d
    ensures (q + 1) * e < g || d <= y < 2 * d
    ensures (q + 1) * e >= g ==> d > half
  {
    var qd, qe := q * d, (q + 1) * e;
    if q == 0 {
      assert qe == e && qd == 0;
    } else if q == 1 {
      assert qe == 2 * e && qd == d;
    } else {
      assert qd >= 2 * d by {
        MulMonotone(2, q, d);
      }
      assert 2 * qe <= qd + d by {
        TwiceError(q, d, e);
      }
    }
  }

  lemma TwiceError(q: int, d: int, e: int)
    requires q >= 0 && 2 * e < d
    ensures 2 * ((q + 1) * e) <= q * d + d
  {
    MulMonotone(2 * e, d, q + 1);
    assert 2 * ((q + 1) * e) == (q + 1) * (2 * e);
    NextMultiple(q, d);
  }

  /** The divisor has b + 1 bits, and f and fr are what is left of 2 to the w + b by it. */
  ghost predicate Divided(w: nat, d: int, b: nat, f: int, fr: int)
  {
    && IsWidth(w) && 2 <= d < 65536 && b <= 15 && Pow2(b) <= d < Pow2(b + 1)
    && f == Pow2(w + b) / d && fr == Pow2(w + b) % d
  }

  lemma Halves(w: nat, b: nat)
    requires IsWidth(w)
    ensures Pow2(w) == 2 * Pow2(w - 1) && Pow2(w - 1) >= 32768 && Pow2(w + b) == 2 * Pow2(w - 1) * Pow2(b)
    ensures Pow2(b + 1) == 2 * Pow2(b)
  {
    Pow2Add(w, b);
    Pow2At16();
    if w == 32 {
      PowersApart(15, 31);
    }
  }

  lemma FractionRange(w: nat, d: int, b: nat, f: int, fr: int)
    requires Divided(w, d, b, f, fr) && fr != 0
    ensures Pow2(w - 1) <= f && f + 1 < Pow2(w)
  {
    hide Pow2;
    Halves(w, b);
    PowerOfTwoExact(w, b);
    ReciprocalRange(Pow2(w - 1), Pow2(b), d);
  }

  lemma PowerOfTwoExact(w: nat, b: nat)
    ensures Pow2(w + b) % Pow2(b) == 0
  {
    Pow2Add(w, b);
    DivIs(Pow2(w + b), Pow2(b), Pow2(w), 0);
  }

  /** Power of two: shifting alone divides. */
  lemma ExactPowerOfTwo(w: nat, d: int, b: nat, f: int, fr: int)
    requires Divided(w, d, b, f, fr) && fr == 0
    ensures f / 2 == Pow2(w - 1) && Exact(w, d, f / 2, d / 2, b - 1)
  {
    hide Pow2;
    Halves(w, b);
    NoFraction(d, w + b, b);
    DivIs(Pow2(w + b), d, Pow2(w), 0);
    var h, corr, shift := Pow2(w - 1), d / 2, b - 1;
    Pow2Add(w - 1, b);
    forall n | 0 <= n < h ensures ExactAt(w, d, h, corr, shift, n) {
      NoOverflow(w, n + d / 2, h);
      var y := n + d / 2;
      assert w + (b - 1) == w - 1 + b;
      CancelFactor(y, d, h);
    }
  }

  lemma CancelFactor(y: int, d: int, h: int)
    requires d >= 1 && h >= 1 && y >= 0
    ensures h * d >= 1 && y * h / (h * d) == y / d
  {
    var q, r := y / d, y % d;
    MulMonotone(1, d, h);
    Expand(q, d, r, h);
    assert h * d == d * h;
    MulMonotone(0, r, h);
    MulMonotone(r, d - 1, h);
    assert (d - 1) * h == d * h - h;
    QuotientIs(y * h, h * d, q, q * (h * d));
  }

  lemma ExactRoundedDown(w: nat, d: int, b: nat, f: int, fr: int)
    requires Divided(w, d, b, f, fr) && 0 < fr <= d / 2
    ensures Exact(w, d, f, d / 2 + 1, b)
  {
    hide Pow2;
    Halves(w, b);
    FractionRange(w, d, b, f, fr);
    var corr := d / 2 + 1;
    forall n | 0 <= n < Pow2(w - 1) ensures ExactAt(w, d, f, corr, b, n) {
      NoOverflow(w, n + (d / 2 + 1), f);
      RoundedDown(Pow2(w + b), d, f, fr, n + d / 2);
      assert n + (d / 2 + 1) == n + d / 2 + 1;
    }
  }

  lemma ExactRoundedUp(w: nat, d: int, b: nat, f: int, fr: int)
    requires Divided(w, d, b, f, fr) && fr > d / 2
    ensures Exact(w, d, f + 1, d / 2, b)
  {
    hide Pow2, ExactAt;
    Halves(w, b);
    FractionRange(w, d, b, f, fr);
    DivSum(Pow2(w + b), d);
    NextMultiple(f, d);
    var g, corr := f + 1, d / 2;
    forall n | 0 <= n < Pow2(w - 1) ensures ExactAt(w, d, g, corr, b, n) {
      RoundedUpAt(w, d, b, g, d - fr, n);
    }
  }

  lemma RoundedUpAt(w: nat, d: int, b: nat, g: int, e: int, n: int)
    requires IsWidth(w) && 2 <= d < 65536 && b <= 15 && d < Pow2(b + 1) && 0 <= n < Pow2(w - 1)
    requires g * d == Pow2(w + b) + e && Pow2(w - 1) < g < Pow2(w) && 1 <= e && 2 * e < d
    ensures ExactAt(w, d, g, d / 2, b, n)
  {
    hide Pow2;
    Halves(w, b);
    var y := n + d / 2;
    NoOverflow(w, y, g);
    var q := y / d;
    assert q * d <= y < q * d + d && q >= 0 by {
      DivSum(y, d);
    }
    SmallErrorUp(Pow2(w - 1), d, e, y, g, q);
    if d > Pow2(w - 1) {
      WideDivisor(w, d, b, y, g);
    }
    RoundedUp(Pow2(w + b), d, g, e, y, q);
  }

  /** A divisor of 16 bits, with 16-bit elements: the product is below twice the scale anyway. */
  lemma WideDivisor(w: nat, d: int, b: nat, y: int, g: int)
    requires IsWidth(w) && Pow2(w - 1) < d < 65536 && b <= 15 && d < Pow2(b + 1)
    requires 0 <= y < Pow2(w) && 0 <= g < Pow2(w)
    ensures y * g < 2 * Pow2(w + b)
  {
    hide Pow2;
    Pow2At16();
    if w == 32 {
      PowersApart(16, 31);
    }
    if b < 15 {
      PowersApart(b, 15);
      Halves(w, b);
    }
    NoOverflow(w, y, g);
    Halves(w, b);
    Pow2Add(16, 16);
    Pow2Add(16, 15);
  }

  // ----- the table -----

  /** Number of significant bits, by binary search. */
  method Flss(val0: int) returns (bit: nat)
    requires 0 <= val0 < 65536
    ensures val0 == 0 ==> bit == 0
    ensures val0 > 0 ==> 1 <= bit <= 16 && Pow2(bit - 1) <= val0 < Pow2(bit)
  {
    SmallPowers();
    var val := val0;
    bit := 16;
    if val == 0 {
      return 0;
    }
    if val < 0x100 {
      bit := bit - 8;
      val := val * 0x100;
    }
    if val < 0x1000 {
      bit := bit - 4;
      val := val * 0x10;
    }
    if val < 0x4000 {
      bit := bit - 2;
      val := val * 4;
    }
    if val < 0x8000 {
      bit := bit - 1;
      val := val * 2;
    }
    assert val == val0 * Pow2(16 - bit);
  }

  lemma SmallPowers()
    ensures Pow2(0) == 1 && Pow2(1) == 2 && Pow2(2) == 4 && Pow2(3) == 8 && Pow2(4) == 16 && Pow2(5) == 32
    ensures Pow2(6) == 64 && Pow2(7) == 128 && Pow2(8) == 256 && Pow2(9) == 512 && Pow2(10) == 1024
    ensures Pow2(11) == 2048 && Pow2(12) == 4096 && Pow2(13) == 8192 && Pow2(14) == 16384
    ensures Pow2(15) == 32768 && Pow2(16) == 65536
  {
    assert Pow2(3) == 8;
    assert Pow2(6) == 64;
    assert Pow2(9) == 512;
    assert Pow2(12) == 4096;
    assert Pow2(14) == 16384;
  }

  /** What is stored for a divisor: reciprocal, correction, scale (for SIMD code) and shift. */
  datatype Entry = Entry(recip: int, corr: int, scale: int, shift: int)

  function EntryFor(w: nat, d: int): (e: Entry)
    requires IsWidth(w) && 1 <= d < 65536
  {
    if d == 1 then Entry(1, 0, 1, 0 - w)
    else
      DivisorBits(d);
      var b := NBits(d) - 1;
      var f, fr := Pow2(w + b) / d, Pow2(w + b) % d;
      if fr == 0 then Entry(f / 2, d / 2, ScaleFor(w, w + b - 1), b - 1)
      else if fr <= d / 2 then Entry(f, d / 2 + 1, ScaleFor(w, w + b), b)
      else Entry(f + 1, d / 2, ScaleFor(w, w + b), b)
  }

  /** The scale that stands for a right shift by r. */
  function ScaleFor(w: nat, r: nat): int
    requires r <= 2 * w
  {
    if w == 16 then Pow2(2 * w - r) else 1
  }

  lemma DivisorBits(d: int)
    requires 2 <= d < 65536
    ensures 2 <= NBits(d) <= 16
    ensures Pow2(NBits(d) - 1) <= d < Pow2(NBits(d))
  {
    hide Pow2, NBits;
    SmallPowers();
    var n := NBits(d);
    if n > 17 {
      PowersApart(16, n - 1);
    }
  }

  /** The entry of every divisor divides exactly. */
  lemma EntryDivides(w: nat, d: int)
    requires IsWidth(w) && 1 <= d < 65536
    ensures var e := EntryFor(w, d);
      Exact(w, d, e.recip, e.corr, e.shift)
  {
    hide Pow2, NBits, Exact;
    if d == 1 {
      ExactOne(w);
    } else {
      DivisorBits(d);
      var b := NBits(d) - 1;
      var f, fr := Pow2(w + b) / d, Pow2(w + b) % d;
      if fr == 0 {
        ExactPowerOfTwo(w, d, b, f, fr);
      } else if fr <= d / 2 {
        ExactRoundedDown(w, d, b, f, fr);
      } else {
        ExactRoundedUp(w, d, b, f, fr);
      }
    }
  }

  /** Shifting by r is taking the high half of a product with the scale, after dropping the low half. */
  lemma ScaleShifts(y: int, r: nat)
    requires 0 <= y && 16 <= r <= 32
    ensures y / Pow2(16) * ScaleFor(16, r) / Pow2(16) == y / Pow2(r)
  {
    hide Pow2;
    Pow2Add(16, r - 16);
    Pow2Add(32 - r, r - 16);
    var p, m, half := Pow2(r - 16), Pow2(32 - r), Pow2(16);
    DivTwice(y, half, p);
    CancelFactor(y / half, p, m);
  }

  lemma DivTwice(y: int, a: int, b: int)
    requires a >= 1 && b >= 1 && y >= 0
    ensures y / (a * b) == y / a / b
  {
    var q, r := y / a, y % a;
    var q2, r2 := q / b, q % b;
    DivSum(y, a);
    DivSum(q, b);
    Expand(q2, b, r2, a);
    MulMonotone(r2, b - 1, a);
    MulMonotone(0, r2, a);
    NextMultiple(b, a);
    QuotientIs(y, a * b, q2, q2 * (a * b));
  }

  /** Entry i of a divisor table holds e. Its four quarters hold reciprocals, corrections, scales and shifts. */
  predicate Holds(w: nat, table: seq<int>, i: nat, e: Entry)
    requires |table| == 4 * DCTSIZE2 && i < DCTSIZE2 && w >= 1
  {
    && table[i] == Signed(e.recip, w) && table[i + DCTSIZE2] == Signed(e.corr, w)
    && table[i + 2 * DCTSIZE2] == Signed(e.scale, w) && table[i + 3 * DCTSIZE2] == e.shift
  }

  lemma ExactOne(w: nat)
    requires IsWidth(w)
    ensures Exact(w, 1, 1, 0, 0 - w)
  {
    hide Pow2;
    SmallPowers();
    Halves(w, 0);
    var d, shift := 1, 0 - w;
    forall n | 0 <= n < Pow2(w - 1) ensures ExactAt(w, d, 1, 0, shift, n) {
      NoOverflow(w, n, 1);
    }
  }

  /** The shift is at most 16 only for the divisors 1 and 2. */
  lemma ShiftRange(w: nat, d: int, b: nat, f: int, fr: int)
    requires Divided(w, d, b, f, fr)
    ensures b >= 1 && (fr == 0 ==> d == Pow2(b)) && (d == 2 ==> b == 1 && fr == 0)
  {
    hide Pow2;
    SmallPowers();
    if fr == 0 {
      NoFraction(d, w + b, b);
    }
    if b > 1 {
      PowersApart(1, b);
    } else {
      PowerOfTwoExact(w, b);
    }
  }

  /**
   compute_reciprocal for entry i. The result says whether the SIMD quantiser could use the entry, which
   needs a shift of more than 16.
   */
  method ComputeReciprocal(w: nat, divisor: int, dtbl: array<int>, i: nat) returns (simd: int)
    requires IsWidth(w) && 1 <= divisor < 65536 && dtbl.Length == 4 * DCTSIZE2 && i < DCTSIZE2
    modifies dtbl
    ensures Holds(w, dtbl[..], i, EntryFor(w, divisor))
    ensures forall k :: 0 <= k < 4 * DCTSIZE2 && k % DCTSIZE2 != i ==> dtbl[k] == old(dtbl[k])
    ensures simd == 0 <==> divisor == 1 || (w == 16 && divisor == 2)
  {
    hide Pow2, NBits, Signed, EntryFor, Holds;
    if divisor == 1 {
      OneEntry(w);
      Store(w, dtbl, i, 1, 0, 1, 0 - w);
      return 0;
    }
    SmallPowers();
    var bits := Flss(divisor);
    var b := bits - 1;
    var r := w + b;
    var fq, fr := Pow2(r) / divisor, Pow2(r) % divisor;
    ShiftRange(w, divisor, b, fq, fr);
    EntrySteps(w, divisor, b);
    var c := divisor / 2;
    if fr == 0 {
      fq := fq / 2;
      r := r - 1;
    } else if fr <= divisor / 2 {
      c := c + 1;
    } else {
      fq := fq + 1;
    }
    Store(w, dtbl, i, fq, c, if w == 16 then Pow2(2 * w - r) else 1, r - w);
    simd := if r <= 16 then 0 else 1;
  }

  /** The four stores of an entry. */
  method Store(w: nat, dtbl: array<int>, i: nat, recip: int, corr: int, scale: int, shift: int)
    requires IsWidth(w) && dtbl.Length == 4 * DCTSIZE2 && i < DCTSIZE2
    modifies dtbl
    ensures Holds(w, dtbl[..], i, Entry(recip, corr, scale, shift))
    ensures forall k :: 0 <= k < 4 * DCTSIZE2 && k % DCTSIZE2 != i ==> dtbl[k] == old(dtbl[k])
  {
    hide Pow2, Signed;
    dtbl[i] := Signed(recip, w);
    dtbl[i + DCTSIZE2] := Signed(corr, w);
    dtbl[i + 2 * DCTSIZE2] := Signed(scale, w);
    dtbl[i + 3 * DCTSIZE2] := shift;
  }

  lemma OneEntry(w: nat)
    requires IsWidth(w)
    ensures EntryFor(w, 1) == Entry(1, 0, 1, 0 - w)
  {
  }

  /** The entry in terms of the bit count that flss finds. */
  lemma EntrySteps(w: nat, d: int, b: nat)
    requires IsWidth(w) && 2 <= d < 65536 && Pow2(b) <= d < Pow2(b + 1) && b <= 15
    ensures var f, fr := Pow2(w + b) / d, Pow2(w + b) % d;
      EntryFor(w, d) ==
        if fr == 0 then Entry(f / 2, d / 2, ScaleFor(w, w + b - 1), b - 1)
        else if fr <= d / 2 then Entry(f, d / 2 + 1, ScaleFor(w, w + b), b)
        else Entry(f + 1, d / 2, ScaleFor(w, w + b), b)
  {
    hide Pow2, NBits;
    NBitsIs(d, b + 1);
  }

  // ----- the loop -----

  /** The quotient is no larger than the dividend, so it fits the element. */
  lemma QuotientFits(n: int, d: int)
    requires n >= 0 && d >= 1
    ensures 0 <= (n + d / 2) / d <= n
  {
    var q := (n + d / 2) / d;
    DivSum(n + d / 2, d);
    NextMultiple(n, d);
    MulMonotone(1, d, n);
    assert n * d == d * n;
    if q >= n + 1 {
      MulMonotone(n + 1, q, d);
    }
    if q < 0 {
      MulMonotone(q, -1, d);
    }
  }

  /**
   One element: what the loop body computes, with the casts of the source. The element added to the
   correction is promoted to 32 bits, whichever width it has.
   */
  function QuantizeOne(w: nat, temp: int, recip: int, corr: int, shift: int): int
    requires IsWidth(w) && w + shift >= 0
  {
    var n := if temp < 0 then Signed(-temp, w) else temp;
    var product := Unsigned(Unsigned(n + corr, 32) * recip, 2 * w);
    var q := Signed(product / Pow2(w + shift), w);
    Signed(if temp < 0 then Signed(-q, w) else q, 16)
  }

  lemma QuantizeOneRounds(w: nat, d: int, temp: int, recip: int, corr: int, shift: int)
    requires IsWidth(w) && Exact(w, d, recip, corr, shift)
    requires -1 * Pow2(w - 1) < temp < Pow2(w - 1)
    ensures QuantizeOne(w, temp, recip, corr, shift) == Signed(RoundedDiv(temp, d), 16)
  {
    hide Pow2, Signed;
    Halves(w, 0);
    var n := Abs(temp);
    if temp < 0 {
      SignedFits(n, w);
    }
    assert ExactAt(w, d, recip, corr, shift, n);
    NoPromotionWrap(w, n + corr);
    DivIs((n + corr) * recip, Pow2(2 * w), 0, (n + corr) * recip);
    QuotientFits(n, d);
    SignedFits((n + d / 2) / d, w);
    SignedFits(-((n + d / 2) / d), w);
  }

  lemma NoPromotionWrap(w: nat, v: int)
    requires IsWidth(w) && 0 <= v < Pow2(w)
    ensures Unsigned(v, 32) == v
  {
    hide Pow2;
    if w == 16 {
      PowersApart(16, 32);
    }
    DivIs(v, Pow2(32), 0, v);
  }
}
