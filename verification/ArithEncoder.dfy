/**
 The arithmetic entropy encoder of jcarith.c: registers, statistics bytes and output.
 */
module ArithEncoder {
  import opened Powers
  import opened ByteStreams
  import opened QmTable
  import opened QmExact
  import opened QmRegisters

  class Encoder {
    var c: int
    var a: int
    var sc: int
    var zc: int
    var ct: int
    var buffer: int
    const stats: array<int>
    var output: seq<int>

    ghost var sent: seq<int>         // output before the current entropy-coded segment
    ghost var digits: seq<int>       // bytes of the current segment, before stuffing
    ghost var start: Coder            // the coder at the start of the segment
    ghost var trace: seq<Decision>    // decisions coded since then

    ghost function Regs(): Registers
      reads this
    {
      Registers(c, a, sc, zc, ct, buffer)
    }

    ghost predicate Written()
      reads this
    {
      output == sent + Stuff(digits) && IsBytes(output)
    }

    ghost predicate Valid()
      reads this, stats
    {
      && Whole(start.iv) && BelowOne(start.iv) && Stats(start.stats)
      && InRange(trace, |start.stats|)
      && 1 <= ct
      && Written()
      && var x := Run(start, trace);
         && x.stats == stats[..]
         && Represents(Regs(), digits, x)
    }

    constructor (n: nat)
      ensures Valid() && trace == [] && sent == [] && output == []
      ensures start == Coder(Interval(0, 0x10000, 0), stats[..])
      ensures stats.Length == n && forall i :: 0 <= i < n ==> stats[i] == 0
      ensures fresh(stats)
    {
      stats := new int[n](i => 0);
      output := [];
      new;
      StartSegment();
    }

    /** Empty registers: nothing has been coded and no byte is waiting. */
    method ResetRegisters()
      modifies `c, `a, `sc, `zc, `ct, `buffer
      ensures Initial(Regs())
    {
      c, a, sc, zc, ct, buffer := 0, 0x10000, 0, 0, 11, -1;
    }

    method StartSegment()
      requires Stats(stats[..]) && IsBytes(output)
      modifies this
      ensures Valid() && trace == [] && sent == output == old(output)
      ensures start == Coder(Interval(0, 0x10000, 0), stats[..])
    {
      ResetRegisters();
      sent, digits, trace := output, [], [];
      start := Coder(Interval(0, 0x10000, 0), stats[..]);
      InitialState(Regs(), digits, start);
    }

    // ----- bytes -----

    method EmitByte(b: int)
      requires IsByte(b)
      modifies `output
      ensures output == old(output) + [b]
      ensures IsBytes(old(output)) ==> IsBytes(output)
    {
      output := output + [b];
    }

    /** A data byte: a 0xFF is followed by a stuffed zero. */
    method EmitStuffed(b: int)
      requires Written() && IsByte(b)
      modifies `output, `digits
      ensures Written() && digits == old(digits) + [b]
    {
      hide Stuff, IsBytes;
      StuffSnoc(digits, b);
      digits := digits + [b];
      EmitByte(b);
      if b == 0xFF {
        EmitByte(0x00);
      }
    }

    method EmitPendingZeros()
      requires Written() && zc >= 0
      modifies `output, `digits, `zc
      ensures Written() && zc == 0
      ensures digits == old(digits) + Repeat(0, old(zc))
    {
      hide Stuff, IsBytes;
      assert digits == digits + Repeat(0, 0);
      while zc > 0
        invariant 0 <= zc <= old(zc) && Written()
        invariant digits == old(digits) + Repeat(0, old(zc) - zc)
      {
        EmitStuffed(0x00);
        zc := zc - 1;
        assert Repeat(0, old(zc) - zc) == Repeat(0, old(zc) - zc - 1) + [0];
      }
    }

    method EmitStackedFFs()
      requires Written() && zc >= 0 && sc >= 0
      modifies `output, `digits, `zc, `sc
      ensures Written() && sc == 0
      ensures old(sc) == 0 ==> digits == old(digits) && zc == old(zc)
      ensures old(sc) > 0 ==> digits == old(digits) + Repeat(0, old(zc)) + Repeat(255, old(sc)) && zc == 0
    {
      hide Stuff, IsBytes;
      if sc > 0 {
        EmitPendingZeros();
        ghost var before := digits;
        assert digits == before + Repeat(255, 0);
        while sc > 0
          invariant 0 <= sc <= old(sc) && Written() && zc == 0
          invariant digits == before + Repeat(255, old(sc) - sc)
        {
          EmitStuffed(0xFF);
          sc := sc - 1;
          assert Repeat(255, old(sc) - sc) == Repeat(255, old(sc) - sc - 1) + [255];
        }
      }
    }

    /** The waiting byte becomes final: a zero only joins the pending zeros. */
    method EmitWaiting()
      requires Written() && zc >= 0 && -1 <= buffer <= 0xFE && NoTrailingZero(digits)
      modifies `output, `digits, `zc
      ensures Written() && zc >= 0 && NoTrailingZero(digits)
      ensures digits + Repeat(0, zc) == old(digits) + Repeat(0, old(zc)) + Waiting(buffer)
    {
      hide Stuff, IsBytes;
      if buffer == 0 {
        zc := zc + 1;
      } else if buffer >= 0 {
        EmitPendingZeros();
        EmitStuffed(buffer);
      }
    }

    /** The carry reaches the waiting byte, and the stacked 0xFF bytes become zeros. */
    method EmitCarry()
      requires Written() && zc >= 0 && sc >= 0 && 0 <= buffer <= 0xFE
      modifies `output, `digits, `zc, `sc
      ensures Written() && zc == old(sc) && sc == 0
      ensures digits == old(digits) + Repeat(0, old(zc)) + [buffer + 1]
    {
      EmitPendingZeros();
      EmitStuffed(buffer + 1);
      zc := zc + sc;
      sc := 0;
    }

    /** Takes the top byte off the code register (section D.1.6). */
    method OutputTopByte(ghost x: Coder)
      requires Represents(Regs(), digits, x) && BelowOne(x.iv) && ct == 0 && Written()
      modifies `output, `digits, `zc, `sc, `c, `ct, `buffer
      ensures Represents(Regs(), digits, x) && ct == 8 && Written()
    {
      hide Represents, Stuff, Shl, IsBytes;
      ghost var r, ds := Regs(), digits;
      RegisterBounds(r, ds, x);
      var temp := c / 0x80000;
      if temp > 0xFF {
        OutputCarry(r, ds, x);
        EmitCarry();
        buffer := temp - 256;
      } else if temp == 0xFF {
        OutputFF(r, ds, x);
        sc := sc + 1;
      } else {
        EmitWaiting();
        EmitStackedFFs();
        assert digits + Repeat(0, zc) == Determined(ds, r);
        OutputPlain(r, ds, x, digits, zc);
        buffer := temp;
      }
      c := c % 0x80000;
      ct := ct + 8;
    }

    // ----- coding one decision -----

    /**
     Codes one binary decision in statistics bin st. The registers then stand for exactly the
     interval that the unbounded coder reaches after the same decisions.
     */
    method Encode(st: nat, val: bool)
      requires Valid() && st < stats.Length
      modifies this, stats
      ensures Valid() && start == old(start) && sent == old(sent)
      ensures trace == old(trace) + [Decision(st, val)]
    {
      hide Represents, Run, Step, Narrow, Renorm, BelowOne, Qe, NextStat, Shl, Stuff, IsBytes;
      ghost var x, d := Run(start, trace), Decision(st, val);
      var sv := stats[st];
      var qe := Qe(sv);
      var lps := val != Mps(sv);
      ghost var sub := Narrow(x.iv, qe, lps);
      RunBelowOne(start, trace);
      StepBelowOne(x, d);
      StepParts(x, d);
      ghost var y := Step(x, d);
      NarrowRegisters(Regs(), digits, x, sub.low - x.iv.low, sub.a, y.stats);
      RunSnoc(start, trace, d);
      a := a - qe;
      if lps {
        if a >= qe {
          c := c + a;
          a := qe;
        }
        stats[st] := NextStat(sv, true);
      } else {
        if a >= 0x8000 {
          assert stats[..] == y.stats;
          trace := trace + [d];
          return;
        }
        if a < qe {
          c := c + a;
          a := qe;
        }
        stats[st] := NextStat(sv, false);
      }
      assert stats[..] == y.stats;
      trace := trace + [d];
      Renormalise(Coder(sub, y.stats));
    }

    method Renormalise(ghost sub: Coder)
      requires Represents(Regs(), digits, sub) && BelowOne(sub.iv) && sub.iv.a < 0x8000
      requires 1 <= ct && Written()
      modifies `output, `digits, `zc, `sc, `c, `a, `ct, `buffer
      ensures Represents(Regs(), digits, sub.(iv := Renorm(sub.iv))) && 1 <= ct && Written()
    {
      hide Represents, Narrow, BelowOne, Shl, Stuff, IsBytes;
      RegisterBounds(Regs(), digits, sub);
      ghost var x := sub;
      while true
        invariant 0 < x.iv.a < 0x8000 && Renorm(x.iv) == Renorm(sub.iv) && x.stats == sub.stats
        invariant Represents(Regs(), digits, x) && BelowOne(x.iv) && 1 <= ct && Written()
        decreases 0x8000 - x.iv.a
      {
        RegisterBounds(Regs(), digits, x);
        ShiftRegisters(Regs(), digits, x);
        DoubleBelowOne(x.iv);
        a := 2 * a;
        c := 2 * c;
        ct := ct - 1;
        x := x.(iv := Interval(2 * x.iv.low, 2 * x.iv.a, x.iv.n + 1));
        if ct == 0 {
          OutputTopByte(x);
        }
        if a >= 0x8000 {
          break;
        }
      }
    }

    // ----- ending a segment -----

    /**
     Ends the entropy-coded segment: what was written names a fraction inside the exact interval
     of the whole run, and no data byte at the end is zero.
     */
    method FinishPass()
      requires Valid()
      modifies this
      ensures start == old(start) && trace == old(trace) && sent == old(sent)
      ensures Written() && NoTrailingZero(digits) && Stats(stats[..])
      ensures In(Run(start, trace).iv, Frac(digits))
    {
      hide Represents, Run, BelowOne, Shl, Stuff, Val, Frac, In, IsBytes;
      ghost var r, ds, x := Regs(), digits, Run(start, trace);
      RegisterBounds(r, ds, x);
      RunBelowOne(start, trace);
      FinalCode(c, a);
      var temp := (a - 1 + c) / 0x10000 * 0x10000;
      c := if temp < c then temp + 0x8000 else temp;
      ghost var f := c;
      FinalCarry(r, ds, x, f);
      c := Shl(c, ct);
      ghost var head: seq<int>;
      if c / 0x8000000 % 32 != 0 {
        EmitCarry();
        head := digits + Repeat(0, zc);
        CarryThroughFF(ds + Repeat(0, r.zc), r.buffer, r.sc);
        assert Determined(ds, r) == ds + Repeat(0, r.zc) + [r.buffer] + Repeat(255, r.sc);
      } else {
        EmitWaiting();
        EmitStackedFFs();
        head := digits + Repeat(0, zc);
        assert head == Determined(ds, r);
      }
      FinalFraction(r, ds, x, f, head);
      EmitLastBytes(head);
    }

    method EmitLastBytes(ghost head: seq<int>)
      requires Written() && zc >= 0 && c >= 0 && NoTrailingZero(digits)
      requires head == digits + Repeat(0, zc)
      modifies `output, `digits, `zc
      ensures Written() && NoTrailingZero(digits)
      ensures var w := c % 0x8000000;
        Frac(digits) == Frac(head + [w / 0x80000, (w / 0x800) % 256])
    {
      ghost var w := c % 0x8000000;
      var b1, b2 := (c / 0x80000) % 256, (c / 0x800) % 256;
      LastBytes(c);
      assert head + [b1, b2] == (head + [b1]) + [b2];
      if (c / 0x800) % 0x10000 != 0 {
        EmitPendingZeros();
        EmitStuffed(b1);
        if b2 != 0 {
          EmitStuffed(b2);
        } else {
          FracTrailingZero(digits);
        }
      } else {
        FracTrailingZeros(digits, zc);
        FracTrailingZero(head);
        FracTrailingZero(head + [0]);
      }
    }
  }

  lemma LastBytes(c: nat)
    ensures var w := c % 0x8000000;
      var b1, b2 := (c / 0x80000) % 256, (c / 0x800) % 256;
      && b1 == w / 0x80000 && b2 == (w / 0x800) % 256
      && ((c / 0x800) % 0x10000 == 0 <==> b1 == 0 && b2 == 0)
  {
    var w, q := c % 0x8000000, c / 0x800;
    var t := q % 0x10000;
    EightBitsUp(c);
    EightBitsUp(w);
    LowPart(c);
    TwoBytes(q);
    SplitBytes(t, (q / 256) % 256, q % 256);
  }

  lemma EightBitsUp(c: nat)
    ensures c / 0x80000 == c / 0x800 / 256
  {
  }

  lemma LowPart(c: nat)
    ensures (c % 0x8000000) / 0x800 == (c / 0x800) % 0x10000
  {
    var a, w := c / 0x8000000, c % 0x8000000;
    var b, r := w / 0x800, w % 0x800;
    DivIs(c, 0x800, a * 0x10000 + b, r);
    DivIs(a * 0x10000 + b, 0x10000, a, b);
  }

  lemma SplitBytes(t: nat, b1: nat, b2: nat)
    requires t == 256 * b1 + b2 && b1 < 256 && b2 < 256
    ensures t / 256 == b1 && t % 256 == b2 && (t == 0 <==> b1 == 0 && b2 == 0)
  {
  }

  lemma TwoBytes(q: nat)
    ensures var t := q % 0x10000;
      t == 256 * ((q / 256) % 256) + q % 256
  {
    var h := q / 256;
    assert q == 256 * h + q % 256;
    assert h == 256 * (h / 256) + h % 256;
  }
}
