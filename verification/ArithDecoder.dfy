/**
 The arithmetic decoder of jdarith.c reading a stuffed byte stream, and its agreement with the
 exact decoder.
 */
module ArithDecoder {
  import opened ByteStreams
  import opened QmTable
  import opened QmExact

  /** The first n bytes of ds followed by zeros for ever. */
  function Padded(ds: seq<int>, n: nat): (r: seq<int>)
    ensures |r| == n
  {
    if n <= |ds| then ds[..n] else ds + Repeat(0, n - |ds|)
  }

  function Digit(ds: seq<int>, i: nat): int { if i < |ds| then ds[i] else 0 }

  lemma PaddedSnoc(ds: seq<int>, n: nat)
    ensures Padded(ds, n + 1) == Padded(ds, n) + [Digit(ds, n)]
  {
    if n >= |ds| {
      assert Repeat(0, n + 1 - |ds|) == Repeat(0, n - |ds|) + [0];
      if n == |ds| {
        assert ds[..n] == ds == ds + Repeat(0, 0);
      }
    }
  }

  /** The value of the first n bytes is the fraction's integer part at that scale. */
  lemma {:induction false} PaddedFloor(ds: seq<int>, n: nat)
    requires IsBytes(ds)
    ensures Val(Padded(ds, n)) as real <= Dbl(Frac(ds), 8 * n) < (Val(Padded(ds, n)) + 1) as real
    decreases if n < |ds| then |ds| - n else 0
  {
    if n == |ds| {
      assert Padded(ds, n) == ds;
      DblHlv(Val(ds) as real, 8 * n);
    } else if n > |ds| {
      FloorExact(ds, n);
    } else {
      PaddedFloor(ds, n + 1);
      PaddedSnoc(ds, n);
      ValSnoc(Padded(ds, n), Digit(ds, n));
      DblSplit(Frac(ds), 8 * n, 8);
      Dbl8(Dbl(Frac(ds), 8 * n));
    }
  }

  lemma Dbl8(v: real)
    ensures Dbl(v, 8) == 256.0 * v
  {
    assert Dbl(v, 1) == 2.0 * v;
    assert Dbl(v, 2) == 4.0 * v;
    assert Dbl(v, 3) == 8.0 * v;
    assert Dbl(v, 4) == 16.0 * v;
    assert Dbl(v, 5) == 32.0 * v;
    assert Dbl(v, 6) == 64.0 * v;
    assert Dbl(v, 7) == 128.0 * v;
  }

  lemma {:induction false} FloorExact(ds: seq<int>, n: nat)
    requires n >= |ds|
    ensures Val(Padded(ds, n)) as real == Dbl(Frac(ds), 8 * n)
  {
    hide Dbl, Hlv, Val;
    if n == |ds| {
      assert Padded(ds, n) == ds;
      DblHlv(Val(ds) as real, 8 * n);
    } else {
      FloorExact(ds, n - 1);
      PaddedSnoc(ds, n - 1);
      ValSnoc(Padded(ds, n - 1), 0);
      DblSplit(Frac(ds), 8 * (n - 1), 8);
      Dbl8(Dbl(Frac(ds), 8 * (n - 1)));
    }
  }

  // ----- the registers of the decoder -----

  /** c holds the bytes read so far less the base of the interval, ct bits of it below the unit. */
  ghost predicate Follows16(c: int, a: int, ct: int, n: nat, ds: seq<int>, iv: Interval)
  {
    && 0 <= ct <= 7 && a == iv.a && 0 < a <= 0x10000
    && 16 + iv.n + ct == 8 * n
    && c == Val(Padded(ds, n)) - Shl(iv.low, ct)
    && In(iv, Frac(ds))
  }

  /** One renormalisation shift, with a new byte when the bit buffer is empty. */
  lemma ShiftDecoder(c: int, a: int, ct: int, n: nat, ds: seq<int>, iv: Interval)
    requires Follows16(c, a, ct, n, ds, iv) && a < 0x8000
    ensures var next := Interval(2 * iv.low, 2 * iv.a, iv.n + 1);
      if ct > 0 then Follows16(c, 2 * a, ct - 1, n, ds, next)
      else Follows16(256 * c + Digit(ds, n), 2 * a, 7, n + 1, ds, next)
  {
    var next := Interval(2 * iv.low, 2 * iv.a, iv.n + 1);
    assert In(next, Frac(ds));
    if ct > 0 {
      ShlSplit(iv.low, 1, ct - 1);
      assert Shl(iv.low, 1) == 2 * iv.low;
    } else {
      PaddedSnoc(ds, n);
      ValSnoc(Padded(ds, n), Digit(ds, n));
      ShlSplit(iv.low, 1, 7);
      assert Shl(iv.low, 1) == 2 * iv.low;
      Shl8(iv.low);
    }
  }

  /** The comparison the decoder makes on its register is the comparison of the exact decoder. */
  lemma CompareExact(c: int, a: int, ct: int, n: nat, ds: seq<int>, iv: Interval, t: nat)
    requires IsBytes(ds) && Follows16(c, a, ct, n, ds, iv)
    ensures c >= Shl(t, ct) <==> Residue(iv, Frac(ds)) >= t as real
  {
    hide Frac, Val, Padded, Shl, Dbl;
    var v, k := Frac(ds), iv.low + t;
    ShlAdd(iv.low, t, ct);
    PaddedFloor(ds, n);
    DblSplit(v, 16 + iv.n, ct);
    DblOfInt(k, ct);
    DblOrder(Dbl(v, 16 + iv.n), k as real, ct);
  }

  lemma {:induction false} DblOrder(v: real, w: real, k: nat)
    ensures v >= w <==> Dbl(v, k) >= Dbl(w, k)
  {
    if k > 0 {
      DblOrder(v, w, k - 1);
    }
  }

  /** Taking the upper part subtracts its offset from the register. */
  lemma TakePart(c: int, a: int, ct: int, n: nat, ds: seq<int>, iv: Interval, qe: nat, lps: bool)
    requires Follows16(c, a, ct, n, ds, iv) && 0 < qe < a
    requires In(Narrow(iv, qe, lps), Frac(ds))
    ensures var upper := lps != Exchanged(a, qe);
      Follows16(if upper then c - Shl(a - qe, ct) else c, if upper then qe else a - qe,
                ct, n, ds, Narrow(iv, qe, lps))
  {
    hide Frac, In, Val, Padded;
    ShlAdd(iv.low, a - qe, ct);
  }

  /** The register comparison selects the symbol, the interval and the statistics of DecodeBit. */
  lemma DecideExact(c: int, a: int, ct: int, n: nat, ds: seq<int>, iv: Interval,
                    stats: seq<int>, st: nat) returns (lps: bool)
    requires IsBytes(ds) && Stats(stats) && st < |stats|
    requires Follows16(c, a, ct, n, ds, iv) && a >= 0x8000
    ensures 0 <= ct <= 7 && a <= 0x10000
    ensures var sv := stats[st];
      var qe := Qe(sv);
      var upper := c >= Shl(a - qe, ct);
      var sub := Narrow(iv, qe, lps);
      var a' := if upper then qe else a - qe;
      var stat := if a' < 0x8000 then NextStat(sv, lps) else sv;
      && qe < a == iv.a && lps == (upper != (a - qe < qe))
      && Follows16(if upper then c - Shl(a - qe, ct) else c, a', ct, n, ds, sub)
      && DecodeBit(Tracking(Coder(iv, stats), Frac(ds)), st)
         == (lps != Mps(sv), Tracking(Coder(Renorm(sub), stats[st := stat]), Frac(ds)))
  {
    hide DecodeBit, Tracking, Step, Qe, NextStat, Residue, In;
    DecoderBounds(c, a, ct, n, ds, iv);
    var x, qe := Coder(iv, stats), Qe(stats[st]);
    CompareExact(c, a, ct, n, ds, iv, a - qe);
    lps := (c >= Shl(a - qe, ct)) != Exchanged(a, qe);
    var d := Decision(st, lps != Mps(stats[st]));
    InNarrow(iv, qe, lps, Frac(ds));
    TakePart(c, a, ct, n, ds, iv, qe, lps);
    StepParts(x, d);
    InRenorm(Narrow(iv, qe, lps), Frac(ds));
    DecodeStep(x, d, Frac(ds));
  }

  lemma FracBelowOne(ds: seq<int>)
    requires IsBytes(ds)
    ensures In(Interval(0, 0x10000, 0), Frac(ds))
  {
    PaddedFloor(ds, 2);
    PaddedBound(ds, 2);
    Shl8(1);
    Shl8(256);
    ShlSplit(1, 8, 8);
  }

  lemma {:induction false} PaddedBound(ds: seq<int>, n: nat)
    requires IsBytes(ds)
    ensures 0 <= Val(Padded(ds, n)) < Shl(1, 8 * n)
  {
    if n > 0 {
      PaddedBound(ds, n - 1);
      PaddedSnoc(ds, n - 1);
      ValSnoc(Padded(ds, n - 1), Digit(ds, n - 1));
      ShlSplit(1, 8 * (n - 1), 8);
      Shl8(Shl(1, 8 * (n - 1)));
    }
  }

  // ----- the decoder -----

  class ByteDecoder {
    const input: seq<int>
    var pos: nat
    var unreadMarker: int
    var c: int
    var a: int
    var ct: int
    const stats: array<int>

    ghost var n: nat          // data bytes taken so far, counting the zeros after the end
    ghost var iv: Interval    // the interval followed so far, perhaps not yet renormalised

    ghost function Data(): seq<int> { Unstuff(input) }

    ghost predicate Delivered()
      reads `pos, `unreadMarker, `n
    {
      && pos <= |input|
      && if unreadMarker == 0 then n <= |Data()| && Data()[n..] == Unstuff(input[pos..])
         else n >= |Data()|
    }

    ghost predicate Unprimed()
      reads this
    {
      && c == Val(Padded(Data(), n)) && a == 0 && n <= 1 && ct == 8 * n - 16
      && iv == Interval(0, 0x10000, 0)
    }

    ghost predicate Valid()
      reads this, stats
    {
      && Delivered() && IsBytes(Data()) && Stats(stats[..])
      && ((Unprimed() && n == 0) || Follows16(c, a, ct, n, Data(), iv))
    }

    /** The exact decoder that has read the same decisions. */
    ghost function Exact(): (dec: Decoder)
      requires Valid()
      reads this, stats
      ensures DecoderOk(dec) && dec.stats == stats[..]
    {
      Tracking(Coder(Renorm(iv), stats[..]), Frac(Data()))
    }

    constructor (input: seq<int>, bins: nat)
      requires IsBytes(input)
      ensures Valid() && this.input == input
      ensures Exact() == Tracking(Coder(Interval(0, 0x10000, 0), stats[..]), Frac(Unstuff(input)))
      ensures stats.Length == bins && forall i :: 0 <= i < bins ==> stats[i] == 0
      ensures fresh(stats)
    {
      this.input := input;
      pos, unreadMarker, c, a, ct := 0, 0, 0, 0, -16;
      stats := new int[bins](i => 0);
      n, iv := 0, Interval(0, 0x10000, 0);
      new;
      UnstuffBytes(input);
      assert Padded(Data(), 0) == [];
      assert input[0..] == input;
    }

    /** Setting one statistics bin before decoding. */
    method SetStat(bin: nat, sv: int)
      requires Valid() && bin < stats.Length && IsStat(sv)
      modifies stats
      ensures Valid() && stats[..] == old(stats[..])[bin := sv]
      ensures Exact() == old(Exact()).(stats := stats[..])
    {
      stats[bin] := sv;
    }

    /** The next data byte: stuffed zeros are dropped, and zeros are supplied after a marker. */
    method NextByte() returns (data: int)
      requires Delivered()
      modifies `pos, `unreadMarker, `n
      ensures Delivered() && n == old(n) + 1 && data == Digit(Data(), old(n))
    {
      ghost var was, n0 := input[pos..], n;
      n := n + 1;
      if unreadMarker != 0 {
        return 0;
      }
      if pos == |input| {
        unreadMarker := 0xD9;
        return 0;
      }
      data := input[pos];
      pos := pos + 1;
      assert was[1..] == input[pos..];
      if data != 0xFF {
        assert Unstuff(was) == [data] + Unstuff(input[pos..]);
      } else {
        SkipFill();
        ghost var t := SkipFF(was[1..]);
        assert t == input[pos..];
        if pos == |input| {
          unreadMarker := 0xD9;
          data := 0;
        } else {
          data := input[pos];
          pos := pos + 1;
          assert input[pos - 1..][1..] == input[pos..];
          if data == 0 {
            data := 0xFF;
            assert Unstuff(was) == [data] + Unstuff(input[pos..]);
          } else {
            unreadMarker := data;
            data := 0;
          }
        }
      }
      if unreadMarker == 0 {
        TakeOne(Data(), n0, data, Unstuff(input[pos..]));
      }
    }

    method SkipFill()
      requires pos <= |input|
      modifies `pos
      ensures pos <= |input| && input[pos..] == SkipFF(input[old(pos)..])
    {
      while pos < |input| && input[pos] == 0xFF
        invariant pos <= |input| && SkipFF(input[pos..]) == SkipFF(input[old(pos)..])
      {
        assert input[pos..][1..] == input[pos + 1..];
        pos := pos + 1;
      }
    }

    /** Reads one decision, as the exact decoder does. */
    method ArithDecode(st: nat) returns (val: bool)
      requires Valid() && st < stats.Length
      modifies this, stats
      ensures Valid()
      ensures DecodeBit(old(Exact()), st) == (val, Exact())
    {
      hide Follows16, Data, Frac, Narrow, Qe, NextStat, IsBytes, DecodeBit, Tracking, Shl, Renorm;
      Renormalise();
      ghost var before := stats[..];
      assert before == old(stats[..]);
      var sv := stats[st];
      var qe := Qe(sv);
      ghost var lps := DecideExact(c, a, ct, n, Data(), iv, before, st);
      iv := Narrow(iv, qe, lps);
      val := Mps(sv);
      a := a - qe;
      var temp := Shl(a, ct);
      if c >= temp {
        c := c - temp;
        if a < qe {
          stats[st] := NextStat(sv, false);
        } else {
          stats[st] := NextStat(sv, true);
          val := !val;
        }
        a := qe;
      } else if a < 0x8000 {
        if a < qe {
          stats[st] := NextStat(sv, true);
          val := !val;
        } else {
          stats[st] := NextStat(sv, false);
        }
      }
      assert stats[..] == before[st := stats[st]];
    }

    /** Counts one bit off; when none is left, takes in the next byte. */
    method ShiftIn()
      requires Delivered() && (0 <= ct <= 7 || ct == 8 * n - 16 < 0)
      modifies `pos, `unreadMarker, `c, `a, `ct, `n
      ensures Delivered()
      ensures old(ct) > 0 ==> c == old(c) && a == old(a) && ct == old(ct) - 1 && n == old(n)
      ensures old(ct) <= 0 ==> c == 256 * old(c) + Digit(Data(), old(n)) && n == old(n) + 1
      ensures old(ct) == 0 ==> ct == 7 && a == old(a)
      ensures old(ct) < 0 ==> ct == old(ct) + 8 && a == if old(n) == 1 then 0x8000 else old(a)
    {
      ct := ct - 1;
      if ct < 0 {
        var data := NextByte();
        c := 256 * c + data;
        ct := ct + 8;
        if ct < 0 {
          ct := ct + 1;
          if ct == 0 {
            a := 0x8000;
          }
        }
      }
    }

    /** Renormalisation and data input (section D.2.6), put off until the next decision. */
    method Renormalise()
      requires Valid()
      modifies `pos, `unreadMarker, `c, `a, `ct, `n, `iv
      ensures Delivered() && Follows16(c, a, ct, n, Data(), iv)
      ensures iv == old(Renorm(iv)) && a >= 0x8000
    {
      hide Follows16, Unstuff, IsBytes, Padded, Val, Data, Delivered, Renorm;
      if !Unprimed() {
        DecoderBounds(c, a, ct, n, Data(), iv);
      }
      while a < 0x8000
        invariant Delivered() && IsBytes(Data())
        invariant Unprimed() || Follows16(c, a, ct, n, Data(), iv)
        invariant iv.a > 0 && Renorm(iv) == old(Renorm(iv))
        decreases if a == 0 then 2 - n else 0, if a < 0x8000 then 0x8000 - a else 0
      {
        if !Unprimed() {
          DecoderBounds(c, a, ct, n, Data(), iv);
          ShiftDecoder(c, a, ct, n, Data(), iv);
          RenormStep(iv);
          iv := Interval(2 * iv.low, 2 * iv.a, iv.n + 1);
        } else {
          Prime(c, n, Data());
        }
        ShiftIn();
        a := 2 * a;
      }
      DecoderBounds(c, a, ct, n, Data(), iv);
      RenormStep(iv);
    }
  }

  /** One shift of a renormalisation. */
  lemma RenormStep(iv: Interval)
    requires iv.a > 0
    ensures Renorm(iv) == if iv.a < 0x8000 then Renorm(Interval(2 * iv.low, 2 * iv.a, iv.n + 1)) else iv
  {
  }

  /** The first two bytes fill the register. */
  lemma Prime(c: int, n: nat, ds: seq<int>)
    requires IsBytes(ds) && c == Val(Padded(ds, n)) && n <= 1
    ensures 256 * c + Digit(ds, n) == Val(Padded(ds, n + 1))
    ensures n == 1 ==> Follows16(256 * c + Digit(ds, n), 0x10000, 0, 2, ds, Interval(0, 0x10000, 0))
  {
    PaddedSnoc(ds, n);
    ValSnoc(Padded(ds, n), Digit(ds, n));
    FracBelowOne(ds);
  }

  lemma DecoderBounds(c: int, a: int, ct: int, n: nat, ds: seq<int>, iv: Interval)
    requires Follows16(c, a, ct, n, ds, iv)
    ensures 0 <= ct <= 7 && a == iv.a && 0 < a <= 0x10000 && In(iv, Frac(ds))
  {
  }

  lemma TakeOne(ds: seq<int>, n: nat, data: int, rest: seq<int>)
    requires n <= |ds| && ds[n..] == [data] + rest
    ensures n < |ds| && ds[n] == data && ds[n + 1..] == rest
  {
    assert ds[n] == ds[n..][0];
    assert ds[n..][1..] == ds[n + 1..];
  }
}
