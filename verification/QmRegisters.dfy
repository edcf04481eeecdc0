/**
 What the registers of the arithmetic encoder stand for: the exact low end of the coding interval,
 split over the bytes already written, a run of pending zero bytes, one byte that may still take a
 carry, a run of stacked 0xFF bytes, and the code register.
 */
module QmRegisters {
  import opened ByteStreams
  import opened QmExact

  datatype Registers = Registers(c: int, a: int, sc: int, zc: int, ct: int, buffer: int)

  function Waiting(buffer: int): (r: seq<int>)
    requires -1 <= buffer < 256
  {
    if buffer >= 0 then [buffer] else []
  }

  /** All bytes the coder has determined, apart from a carry that may still come. */
  function Determined(digits: seq<int>, r: Registers): seq<int>
    requires r.zc >= 0 && r.sc >= 0 && -1 <= r.buffer < 256
  {
    digits + Repeat(0, r.zc) + Waiting(r.buffer) + Repeat(255, r.sc)
  }

  /** The last byte written, if any, is not zero (bytes are counted before stuffing). */
  predicate NoTrailingZero(digits: seq<int>)
  {
    digits != [] ==> digits[|digits| - 1] != 0
  }

  ghost predicate Represents(r: Registers, digits: seq<int>, x: Coder)
  {
    && r.sc >= 0 && r.zc >= 0 && r.c >= 0 && 0 <= r.ct <= 11
    && -1 <= r.buffer <= 0xFE
    && (r.buffer < 0 ==> r.zc == 0 && digits == [])
    && NoTrailingZero(digits)
    && r.a == x.iv.a && 0 < r.a <= 0x10000
    && Shl(r.c + r.a, r.ct) <= 0x9000000
    && var ds := Determined(digits, r);
       && x.iv.low == Shl(Val(ds), 27 - r.ct) + r.c
       && 16 + x.iv.n == 27 - r.ct + 8 * |ds|
  }

  /** The registers at the start of a segment. */
  predicate Initial(r: Registers)
  {
    r.c == 0 && r.a == 0x10000 && r.sc == 0 && r.zc == 0 && r.ct == 11 && r.buffer == -1
  }

  predicate Whole(iv: Interval) { iv.low == 0 && iv.a == 0x10000 && iv.n == 0 }

  lemma InitialState(r: Registers, digits: seq<int>, x: Coder)
    requires Initial(r) && digits == [] && Whole(x.iv)
    ensures Represents(r, digits, x) && BelowOne(x.iv) && r.ct >= 1
  {
    assert Determined(digits, r) == [];
    ShlOfZero(16);
    Power16();
    ShlSplit(1, 16, 11);
    Shl8(0x10000);
    ShlSplit(0x10000, 8, 3);
    var v := 0x1000000;
    assert Shl(v, 1) == 2 * v && Shl(v, 2) == 4 * v && Shl(v, 3) == 8 * v;
  }

  lemma {:induction false} ShlOfZero(k: nat)
    ensures Shl(0, k) == 0
  {
    if k > 0 {
      ShlOfZero(k - 1);
    }
  }

  lemma Power16()
    ensures Shl(1, 16) == 0x10000
  {
    Shl8(1);
    Shl8(256);
    ShlSplit(1, 8, 8);
  }

  lemma RegisterBounds(r: Registers, digits: seq<int>, x: Coder)
    requires Represents(r, digits, x)
    ensures r.sc >= 0 && r.zc >= 0 && r.c >= 0 && 0 <= r.ct <= 11 && -1 <= r.buffer <= 0xFE
    ensures r.a == x.iv.a && 0 < r.a <= 0x10000
    ensures NoTrailingZero(digits)
    ensures r.buffer < 0 ==> r.zc == 0 && digits == []
  {
  }

  /** Narrowing the interval moves the base by less than the interval it came from. */
  lemma NarrowRegisters(r: Registers, digits: seq<int>, x: Coder, offset: nat, width: nat, stats: seq<int>)
    requires Represents(r, digits, x)
    requires 0 < width && offset + width <= x.iv.a
    ensures r.a == x.iv.a
    ensures Represents(r.(c := r.c + offset, a := width), digits,
                       Coder(Interval(x.iv.low + offset, width, x.iv.n), stats))
  {
    ShlMonotone(r.c + offset + width, r.c + r.a, r.ct);
    assert Determined(digits, r.(c := r.c + offset, a := width)) == Determined(digits, r);
  }

  /** One renormalisation shift. */
  lemma ShiftRegisters(r: Registers, digits: seq<int>, x: Coder)
    requires Represents(r, digits, x) && r.ct > 0 && r.a < 0x8000
    ensures Represents(r.(c := 2 * r.c, a := 2 * r.a, ct := r.ct - 1), digits,
                       x.(iv := Interval(2 * x.iv.low, 2 * x.iv.a, x.iv.n + 1)))
  {
    var s := r.(c := 2 * r.c, a := 2 * r.a, ct := r.ct - 1);
    assert Determined(digits, s) == Determined(digits, r);
    ShlSplit(r.c + r.a, 1, r.ct - 1);
    assert Shl(r.c + r.a, 1) == 2 * (r.c + r.a);
  }

  /** A carry can only arrive when there is a byte to take it. */
  lemma CarryHasTarget(r: Registers, digits: seq<int>, x: Coder)
    requires Represents(r, digits, x) && BelowOne(x.iv)
    requires Shl(r.c, r.ct) >= 0x8000000
    ensures r.buffer >= 0
  {
    if r.buffer < 0 {
      var ds := Determined(digits, r);
      assert ds == Repeat(255, r.sc);
      AllFF(r.sc);
      var k := 27 - r.ct;
      Power27();
      ShlSplit(1, k, r.ct);
      ShlSplit(1, 8 * r.sc, k);
      ShlAdd(Val(ds), 1, k);
      if r.c < Shl(1, k) {
        ShlStrict(r.c, Shl(1, k), r.ct);
        assert false;
      }
    }
  }

  lemma {:induction false} ShlStrict(v: int, w: int, k: nat)
    requires v < w
    ensures Shl(v, k) < Shl(w, k)
  {
    if k > 0 {
      ShlStrict(v, w, k - 1);
    }
  }

  lemma Power27()
    ensures Shl(1, 27) == 0x8000000
  {
    ShlSplit(1, 8, 19);
    Shl8(1);
    Shl19(256);
  }

  /**
   Splitting the top byte off the code register. next is what is determined afterwards, with any
   carry already added in.
   */
  lemma TopByte(ds: seq<int>, next: seq<int>, c: nat, low: nat)
    requires low == Shl(Val(ds), 27) + c
    requires Val(next) == 256 * Val(ds) + c / 0x80000
    ensures low == Shl(Val(next), 19) + c % 0x80000
  {
    Shl27(Val(ds));
    Shl19(Val(next));
  }

  /** The registers after the top byte has been taken off. */
  function Rest(r: Registers, sc: int, zc: int, buffer: int): Registers
  {
    Registers(r.c % 0x80000, r.a, sc, zc, 8, buffer)
  }

  lemma AfterTopByte(r: Registers, digits: seq<int>, x: Coder,
                     s: Registers, digits': seq<int>)
    requires Represents(r, digits, x) && r.ct == 0
    requires s.c == r.c % 0x80000 && s.a == r.a && s.ct == 8
    requires s.sc >= 0 && s.zc >= 0 && 0 <= s.buffer + 1 <= 0xFF && NoTrailingZero(digits')
    requires s.buffer < 0 ==> s.zc == 0 && digits' == []
    requires |Determined(digits', s)| == |Determined(digits, r)| + 1
    requires Val(Determined(digits', s)) == 256 * Val(Determined(digits, r)) + r.c / 0x80000
    ensures Represents(s, digits', x)
  {
    TopByte(Determined(digits, r), Determined(digits', s), r.c, x.iv.low);
    Shl8(s.c + s.a);
  }

  /** The final code value f carries out of the register only when a byte can take the carry. */
  lemma FinalCarry(r: Registers, digits: seq<int>, x: Coder, f: nat)
    requires Represents(r, digits, x) && BelowOne(x.iv)
    requires r.c <= f < r.c + r.a
    ensures Shl(f, r.ct) < 0x9000000
    ensures Shl(f, r.ct) >= 0x8000000 ==> r.buffer >= 0
  {
    ShlStrict(f, r.c + r.a, r.ct);
    if Shl(f, r.ct) >= 0x8000000 {
      var offset, width := f - r.c, r.c + r.a - f;
      NarrowRegisters(r, digits, x, offset, width, x.stats);
      CarryHasTarget(r.(c := f, a := width), digits, x.(iv := Interval(x.iv.low + offset, width, x.iv.n)));
    }
  }

  /** Case 1 of output: a carry goes into the waiting byte and turns stacked 0xFF bytes to zero. */
  lemma OutputCarry(r: Registers, digits: seq<int>, x: Coder)
    requires Represents(r, digits, x) && BelowOne(x.iv) && r.ct == 0 && r.c / 0x80000 > 0xFF
    ensures r.buffer >= 0 && r.c / 0x80000 - 256 < 0x20
    ensures Represents(Rest(r, 0, r.sc, r.c / 0x80000 - 256),
                       digits + Repeat(0, r.zc) + [r.buffer + 1], x)
  {
    CarryHasTarget(r, digits, x);
    var t := r.c / 0x80000 - 256;
    var s := Rest(r, 0, r.sc, t);
    var head := digits + Repeat(0, r.zc);
    var carried := head + [r.buffer + 1] + Repeat(0, r.sc);
    CarryThroughFF(head, r.buffer, r.sc);
    assert Determined(digits, r) == head + [r.buffer] + Repeat(255, r.sc);
    assert Determined(head + [r.buffer + 1], s) == carried + [t];
    ValSnoc(carried, t);
    AfterTopByte(r, digits, x, s, head + [r.buffer + 1]);
  }

  /** Case 2: a new 0xFF byte is stacked. */
  lemma OutputFF(r: Registers, digits: seq<int>, x: Coder)
    requires Represents(r, digits, x) && r.ct == 0 && r.c / 0x80000 == 0xFF
    ensures Represents(Rest(r, r.sc + 1, r.zc, r.buffer), digits, x)
  {
    var s := Rest(r, r.sc + 1, r.zc, r.buffer);
    assert Determined(digits, s) == Determined(digits, r) + [255];
    ValSnoc(Determined(digits, r), 255);
    AfterTopByte(r, digits, x, s, digits);
  }

  /** Case 3: everything stacked is final; out and zc are what is written and what stays pending. */
  lemma OutputPlain(r: Registers, digits: seq<int>, x: Coder, out: seq<int>, zc: nat)
    requires Represents(r, digits, x) && r.ct == 0 && r.c / 0x80000 < 0xFF
    requires NoTrailingZero(out) && out + Repeat(0, zc) == Determined(digits, r)
    ensures Represents(Rest(r, 0, zc, r.c / 0x80000), out, x)
  {
    var t := r.c / 0x80000;
    var s := Rest(r, 0, zc, t);
    assert Determined(out, s) == Determined(digits, r) + [t];
    ValSnoc(Determined(digits, r), t);
    AfterTopByte(r, digits, x, s, out);
  }

  // ----- termination of a segment (section D.1.8) -----

  /** The value in [c, c + a) with the most trailing zero bits. */
  lemma FinalCode(c: nat, a: nat)
    requires 0x8000 <= a <= 0x10000
    ensures var t := (a - 1 + c) / 0x10000 * 0x10000;
      var f := if t < c then t + 0x8000 else t;
      c <= f < c + a && f % 0x8000 == 0
  {
    var q := (a - 1 + c) / 0x10000;
    assert q * 0x10000 == 2 * q * 0x8000;
    assert (2 * q * 0x8000) % 0x8000 == 0 && ((2 * q + 1) * 0x8000) % 0x8000 == 0;
  }

  /**
   The bytes left when a segment ends: what is determined, with the final carry added, followed by
   the two top bytes of the chosen code value f, name a fraction inside the interval.
   */
  lemma FinalFraction(r: Registers, digits: seq<int>, x: Coder, f: nat, ds: seq<int>)
    requires Represents(r, digits, x) && r.ct >= 1
    requires r.c <= f < r.c + r.a && f % 0x8000 == 0
    requires |ds| == |Determined(digits, r)|
    requires Val(ds) == Val(Determined(digits, r)) + Shl(f, r.ct) / 0x8000000
    ensures var c := Shl(f, r.ct) % 0x8000000;
      In(x.iv, Frac(ds + [c / 0x80000, (c / 0x800) % 256]))
  {
    var c := Shl(f, r.ct) % 0x8000000;
    FinalLow(r, digits, x, f, ds);
    ScaledBack(ds + [c / 0x80000, (c / 0x800) % 256], x.iv.low - r.c + f, 16 + x.iv.n, r.ct);
  }

  lemma FinalLow(r: Registers, digits: seq<int>, x: Coder, f: nat, ds: seq<int>)
    requires Represents(r, digits, x) && r.ct >= 1 && f % 0x8000 == 0
    requires Val(ds) == Val(Determined(digits, r)) + Shl(f, r.ct) / 0x8000000
    ensures var c := Shl(f, r.ct) % 0x8000000;
      Shl(x.iv.low - r.c + f, r.ct) == 2048 * Val(ds + [c / 0x80000, (c / 0x800) % 256])
  {
    EvenShift(f, r.ct);
    FinalValue(ds, Shl(f, r.ct));
    var d := Val(Determined(digits, r));
    ShlAdd(Shl(d, 27 - r.ct), f, r.ct);
    ShlSplit(d, 27 - r.ct, r.ct);
    Shl27(d);
  }

  /** The two bytes below the determined ones hold every bit of the code value that is set. */
  lemma FinalValue(ds: seq<int>, w: nat)
    requires w % 0x10000 == 0
    ensures var c := w % 0x8000000;
      2048 * Val(ds + [c / 0x80000, (c / 0x800) % 256]) == 0x8000000 * (Val(ds) - w / 0x8000000) + w
  {
    hide Val;
    var c := w % 0x8000000;
    var b1, b2 := c / 0x80000, (c / 0x800) % 256;
    CodeBits(w);
    assert ds + [b1, b2] == (ds + [b1]) + [b2];
    ValSnoc(ds, b1);
    ValSnoc(ds + [b1], b2);
  }

  lemma CodeBits(w: nat)
    requires w % 0x10000 == 0
    ensures var c := w % 0x8000000;
      c == c / 0x80000 * 0x80000 + (c / 0x800) % 256 * 0x800
  {
    var q := w / 0x10000;
    assert w == q * 0x10000 && w % 0x8000000 == (q % 0x800) * 0x10000;
    LowBits(q % 0x800);
  }

  lemma LowBits(q: nat)
    requires q < 0x800
    ensures var c := q * 0x10000;
      c == c / 0x80000 * 0x80000 + (c / 0x800) % 256 * 0x800
  {
    var c := q * 0x10000;
    assert c / 0x800 == 32 * q;
    assert c / 0x80000 == q / 8;
    assert (32 * q) % 256 == 32 * (q % 8);
  }

  lemma ScaledBack(all: seq<int>, low: int, k: nat, ct: nat)
    requires k + ct == 8 * |all| + 11 && Shl(low, ct) == 2048 * Val(all)
    ensures Dbl(Frac(all), k) == low as real
  {
    Shl11(Val(all));
    FracScaled(all, 11);
    DblSplit(Frac(all), k, ct);
    DblOfInt(low, ct);
    DblInjective(Dbl(Frac(all), k), low as real, ct);
  }

  lemma FracScaled(ds: seq<int>, k: nat)
    ensures Dbl(Frac(ds), 8 * |ds| + k) == Shl(Val(ds), k) as real
  {
    DblHlv(Val(ds) as real, 8 * |ds|);
    DblSplit(Frac(ds), 8 * |ds|, k);
    DblOfInt(Val(ds), k);
  }

  lemma Shl27(v: int)
    ensures Shl(v, 27) == 0x8000000 * v
  {
    Shl8(v);
    Shl19(256 * v);
    ShlSplit(v, 8, 19);
  }

  lemma Shl11(v: int)
    ensures Shl(v, 11) == 2048 * v
  {
    Shl8(v);
    ShlSplit(v, 8, 3);
    var w := 256 * v;
    assert Shl(w, 1) == 2 * w && Shl(w, 2) == 4 * w && Shl(w, 3) == 8 * w;
  }

  lemma {:induction false} EvenShift(f: int, k: nat)
    requires f % 0x8000 == 0 && k >= 1
    ensures Shl(f, k) % 0x10000 == 0
  {
    if k > 1 {
      EvenShift(f, k - 1);
    } else {
      assert Shl(f, 1) == 2 * f;
    }
  }
}
