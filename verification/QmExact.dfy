/**
 The arithmetic coder of annex D of ITU-T T.81 in unbounded precision, and its decoder.

 A coding interval is [low, low + a) in units of 2^-(16+n). Coding a decision keeps one of the two
 parts of the interval; renormalisation doubles the unit until a is back in [0x8000, 0x10000].
 */
module QmExact {
  import opened ByteStreams
  import opened QmTable

  datatype Decision = Decision(bin: nat, bit: bool)

  datatype Interval = Interval(low: nat, a: nat, n: nat)

  datatype Coder = Coder(iv: Interval, stats: seq<int>)

  // ----- one decision -----

  /** Does the less probable symbol get the lower part (conditional exchange, section D.1.5)? */
  predicate Exchanged(a: nat, qe: nat) { a - qe < qe }

  /** The lower part is [0, a - qe), the upper part is [a - qe, a). */
  function Part(a: nat, qe: nat, upper: bool): (nat, nat)
    requires qe <= a
  {
    if upper then (a - qe, qe) else (0, a - qe)
  }

  function Renorm(iv: Interval): (r: Interval)
    requires iv.a > 0
    ensures r.n >= iv.n
    ensures r.low == Shl(iv.low, r.n - iv.n) && r.a == Shl(iv.a, r.n - iv.n)
    ensures iv.a <= 0x10000 ==> 0x8000 <= r.a <= 0x10000
    decreases 0x8000 - iv.a
  {
    if iv.a >= 0x8000 then iv
    else
      var next := Interval(2 * iv.low, 2 * iv.a, iv.n + 1);
      var r := Renorm(next);
      ShlSplit(iv.low, 1, r.n - next.n);
      ShlSplit(iv.a, 1, r.n - next.n);
      assert Shl(iv.low, 1) == 2 * iv.low && Shl(iv.a, 1) == 2 * iv.a;
      r
  }

  /** The sub-interval of a decision, before renormalisation. */
  function Narrow(iv: Interval, qe: nat, lps: bool): (r: Interval)
    requires 0 < qe < iv.a
    ensures r.n == iv.n && r.a > 0
    ensures iv.low <= r.low && r.low + r.a <= iv.low + iv.a
  {
    var (offset, width) := Part(iv.a, qe, lps != Exchanged(iv.a, qe));
    Interval(iv.low + offset, width, iv.n)
  }

  /** Statistics adapt only when the interval is renormalised. */
  function Adapt(sv: int, lps: bool, width: nat): (r: int)
    requires IsStat(sv)
    ensures IsStat(r)
  {
    if width < 0x8000 then NextStat(sv, lps) else sv
  }

  predicate Normal(iv: Interval) { 0x8000 <= iv.a <= 0x10000 }

  predicate Stats(stats: seq<int>) { forall i :: 0 <= i < |stats| ==> IsStat(stats[i]) }

  predicate CoderOk(x: Coder) { Normal(x.iv) && Stats(x.stats) }

  /** Everything coded so far is a fraction below one. */
  ghost predicate BelowOne(iv: Interval) { iv.low + iv.a <= Shl(1, 16 + iv.n) }

  function Step(x: Coder, d: Decision): (y: Coder)
    requires CoderOk(x) && d.bin < |x.stats|
    ensures CoderOk(y) && |y.stats| == |x.stats|
  {
    var sv := x.stats[d.bin];
    var lps := d.bit != Mps(sv);
    var sub := Narrow(x.iv, Qe(sv), lps);
    Coder(Renorm(sub), x.stats[d.bin := Adapt(sv, lps, sub.a)])
  }

  /** The two outcomes of a decision, spelled out. */
  lemma StepParts(x: Coder, d: Decision)
    requires CoderOk(x) && d.bin < |x.stats|
    ensures var sv := x.stats[d.bin];
      var qe := Qe(sv);
      var lps := d.bit != Mps(sv);
      var sub := Narrow(x.iv, qe, lps);
      var upper := lps != (x.iv.a - qe < qe);
      && sub == Interval(if upper then x.iv.low + x.iv.a - qe else x.iv.low,
                         if upper then qe else x.iv.a - qe, x.iv.n)
      && Step(x, d) == Coder(if sub.a < 0x8000 then Renorm(sub) else sub,
                             x.stats[d.bin := if sub.a < 0x8000 then NextStat(sv, lps) else sv])
  {
  }

  // ----- a run -----

  predicate InRange(ds: seq<Decision>, bins: nat)
  {
    forall i :: 0 <= i < |ds| ==> ds[i].bin < bins
  }

  function Run(x: Coder, ds: seq<Decision>): (y: Coder)
    requires CoderOk(x) && InRange(ds, |x.stats|)
    ensures CoderOk(y) && |y.stats| == |x.stats|
  {
    if ds == [] then x else Step(Run(x, ds[..|ds| - 1]), ds[|ds| - 1])
  }

  lemma RunSnoc(x: Coder, ds: seq<Decision>, d: Decision)
    requires CoderOk(x) && InRange(ds, |x.stats|) && d.bin < |x.stats|
    ensures InRange(ds + [d], |x.stats|)
    ensures Run(x, ds + [d]) == Step(Run(x, ds), d)
  {
    assert (ds + [d])[..|ds|] == ds;
  }

  lemma {:induction false} RunConcat(x: Coder, a: seq<Decision>, b: seq<Decision>)
    requires CoderOk(x) && InRange(a + b, |x.stats|)
    ensures InRange(a, |x.stats|) && InRange(b, |x.stats|)
    ensures Run(x, a + b) == Run(Run(x, a), b)
  {
    assert forall i :: 0 <= i < |a| ==> a[i] == (a + b)[i];
    assert forall i :: 0 <= i < |b| ==> b[i] == (a + b)[|a| + i];
    if b == [] {
      assert a + b == a;
    } else {
      var c := b[..|b| - 1];
      assert (a + b)[..|a + b| - 1] == a + c;
      RunConcat(x, a, c);
    }
  }

  lemma NarrowBelowOne(iv: Interval, qe: nat, lps: bool)
    requires 0 < qe < iv.a && BelowOne(iv)
    ensures BelowOne(Renorm(Narrow(iv, qe, lps)))
  {
    var sub := Narrow(iv, qe, lps);
    var r := Renorm(sub);
    var k := r.n - sub.n;
    ShlAdd(sub.low, sub.a, k);
    ShlMonotone(sub.low + sub.a, Shl(1, 16 + iv.n), k);
    ShlSplit(1, 16 + iv.n, k);
  }

  lemma {:induction false} ShlMonotone(v: int, w: int, k: nat)
    requires v <= w
    ensures Shl(v, k) <= Shl(w, k)
  {
    if k > 0 {
      ShlMonotone(v, w, k - 1);
    }
  }

  lemma DoubleBelowOne(iv: Interval)
    requires BelowOne(iv)
    ensures BelowOne(Interval(2 * iv.low, 2 * iv.a, iv.n + 1))
  {
  }

  lemma StepBelowOne(x: Coder, d: Decision)
    requires CoderOk(x) && d.bin < |x.stats| && BelowOne(x.iv)
    ensures var sv := x.stats[d.bin];
      BelowOne(Narrow(x.iv, Qe(sv), d.bit != Mps(sv)))
    ensures BelowOne(Step(x, d).iv)
  {
    hide Qe, Mps, Adapt, Narrow, Renorm;
    var sv := x.stats[d.bin];
    NarrowBelowOne(x.iv, Qe(sv), d.bit != Mps(sv));
  }

  /** The interval never leaves [0, 1). */
  lemma {:induction false} RunBelowOne(x: Coder, ds: seq<Decision>)
    requires CoderOk(x) && InRange(ds, |x.stats|) && BelowOne(x.iv)
    ensures BelowOne(Run(x, ds).iv)
  {
    if ds != [] {
      var y := Run(x, ds[..|ds| - 1]);
      var d := ds[|ds| - 1];
      RunBelowOne(x, ds[..|ds| - 1]);
      StepBelowOne(y, d);
    }
  }

  // ----- the decoder -----

  /** v as a fraction lies in the coding interval. */
  predicate In(iv: Interval, v: real)
  {
    iv.low as real <= Dbl(v, 16 + iv.n) < (iv.low + iv.a) as real
  }

  /**
   The decoder of section D.2: it keeps the interval size and the distance r of the code value from
   the interval's base, never the base itself.
   */
  datatype Decoder = Decoder(r: real, a: nat, stats: seq<int>)

  function DecRenorm(r: real, a: nat): (p: (real, nat))
    requires a > 0
    ensures a <= 0x10000 ==> 0x8000 <= p.1 <= 0x10000
    decreases 0x8000 - a
  {
    if a >= 0x8000 then (r, a) else DecRenorm(2.0 * r, 2 * a)
  }

  predicate DecoderOk(dec: Decoder) { 0x8000 <= dec.a <= 0x10000 && Stats(dec.stats) }

  function DecodeBit(dec: Decoder, bin: nat): (p: (bool, Decoder))
    requires DecoderOk(dec) && bin < |dec.stats|
    ensures DecoderOk(p.1) && |p.1.stats| == |dec.stats|
  {
    var sv := dec.stats[bin];
    var qe := Qe(sv);
    var upper := dec.r >= (dec.a - qe) as real;
    var lps := upper != Exchanged(dec.a, qe);
    var (r, a) := DecPart(dec.r, dec.a, qe, upper);
    (lps != Mps(sv), Decoder(r, a, dec.stats[bin := Adapt(sv, lps, Part(dec.a, qe, upper).1)]))
  }

  function DecPart(r: real, a: nat, qe: nat, upper: bool): (p: (real, nat))
    requires 0 < qe < a <= 0x10000
    ensures 0x8000 <= p.1 <= 0x10000
  {
    var (offset, width) := Part(a, qe, upper);
    DecRenorm(r - offset as real, width)
  }

  /** The state of a decoder reading the fraction v that has followed the coder so far. */
  function Tracking(x: Coder, v: real): Decoder
  {
    Decoder(Residue(x.iv, v), x.iv.a, x.stats)
  }

  lemma {:induction false} DecRenormTracks(iv: Interval, v: real)
    requires iv.a > 0
    ensures var r := Renorm(iv);
      DecRenorm(Residue(iv, v), iv.a) == (Residue(r, v), r.a)
    decreases 0x8000 - iv.a
  {
    if iv.a < 0x8000 {
      var next := Interval(2 * iv.low, 2 * iv.a, iv.n + 1);
      DecRenormTracks(next, v);
      assert 2.0 * Residue(iv, v) == Residue(next, v);
    }
  }

  lemma {:induction false} InRenorm(iv: Interval, v: real)
    requires iv.a > 0
    ensures In(Renorm(iv), v) == In(iv, v)
    decreases 0x8000 - iv.a
  {
    if iv.a < 0x8000 {
      InRenorm(Interval(2 * iv.low, 2 * iv.a, iv.n + 1), v);
    }
  }

  /** How far v lies above the base of the interval, in the interval's units. */
  function Residue(iv: Interval, v: real): real { Dbl(v, 16 + iv.n) - iv.low as real }

  lemma InNarrow(iv: Interval, qe: nat, lps: bool, v: real)
    requires 0 < qe < iv.a
    ensures In(Narrow(iv, qe, lps), v) <==>
      In(iv, v) && (Residue(iv, v) >= (iv.a - qe) as real) == (lps != Exchanged(iv.a, qe))
  {
  }

  /**
   The sub-intervals of the two values of a decision partition the interval, whatever the
   statistics and whether or not the symbols are exchanged.
   */
  lemma Partition(x: Coder, bin: nat, v: real)
    requires CoderOk(x) && bin < |x.stats|
    ensures In(x.iv, v) <==>
      In(Step(x, Decision(bin, false)).iv, v) || In(Step(x, Decision(bin, true)).iv, v)
    ensures !(In(Step(x, Decision(bin, false)).iv, v) && In(Step(x, Decision(bin, true)).iv, v))
  {
    var qe := Qe(x.stats[bin]);
    forall lps: bool
      ensures In(Renorm(Narrow(x.iv, qe, lps)), v) == In(Narrow(x.iv, qe, lps), v)
    {
      InRenorm(Narrow(x.iv, qe, lps), v);
    }
    InNarrow(x.iv, qe, false, v);
    InNarrow(x.iv, qe, true, v);
  }

  /** A value in the sub-interval of d makes the decoder read d and keep following the coder. */
  lemma DecodeStep(x: Coder, d: Decision, v: real)
    requires CoderOk(x) && d.bin < |x.stats| && In(Step(x, d).iv, v)
    ensures DecodeBit(Tracking(x, v), d.bin) == (d.bit, Tracking(Step(x, d), v))
  {
    var qe := Qe(x.stats[d.bin]);
    var lps := d.bit != Mps(x.stats[d.bin]);
    InRenorm(Narrow(x.iv, qe, lps), v);
    InNarrow(x.iv, qe, lps, v);
    DecPartTracks(x.iv, qe, lps, v);
  }

  lemma DecPartTracks(iv: Interval, qe: nat, lps: bool, v: real)
    requires 0 < qe < iv.a <= 0x10000
    ensures var end := Renorm(Narrow(iv, qe, lps));
      DecPart(Residue(iv, v), iv.a, qe, lps != Exchanged(iv.a, qe)) == (Residue(end, v), end.a)
  {
    var sub := Narrow(iv, qe, lps);
    DecRenormTracks(sub, v);
    assert Residue(iv, v) - Part(iv.a, qe, lps != Exchanged(iv.a, qe)).0 as real == Residue(sub, v);
  }

  /** The decoder reads exactly the decisions ds, asking for the same bins in the same order. */
  predicate Follows(dec: Decoder, ds: seq<Decision>)
    requires DecoderOk(dec)
    decreases |ds|
  {
    ds == [] ||
    (ds[0].bin < |dec.stats| &&
     var (bit, dec') := DecodeBit(dec, ds[0].bin);
     bit == ds[0].bit && Follows(dec', ds[1..]))
  }

  function After(dec: Decoder, ds: seq<Decision>): (r: Decoder)
    requires DecoderOk(dec) && Follows(dec, ds)
    ensures DecoderOk(r) && |r.stats| == |dec.stats|
    decreases |ds|
  {
    if ds == [] then dec else After(DecodeBit(dec, ds[0].bin).1, ds[1..])
  }

  /**
   Round trip: any value in the final interval of a run makes the decoder recover every decision
   and end with the coder's statistics.
   */
  lemma {:induction false} RoundTrip(x: Coder, ds: seq<Decision>, v: real)
    requires CoderOk(x) && InRange(ds, |x.stats|) && In(Run(x, ds).iv, v)
    ensures In(x.iv, v)
    ensures Follows(Tracking(x, v), ds)
    ensures After(Tracking(x, v), ds) == Tracking(Run(x, ds), v)
    decreases |ds|
  {
    if ds != [] {
      var rest := ds[1..];
      assert ds == [ds[0]] + rest;
      RunConcat(x, [ds[0]], rest);
      assert [ds[0]][..0] == [];
      assert Run(x, [ds[0]]) == Step(x, ds[0]);
      RoundTrip(Step(x, ds[0]), rest, v);
      Partition(x, ds[0].bin, v);
      DecodeStep(x, ds[0], v);
    }
  }

  /** The first decision of a list that is followed. */
  lemma FollowsHead(dec: Decoder, d: Decision, rest: seq<Decision>)
    requires DecoderOk(dec) && Follows(dec, [d] + rest)
    ensures d.bin < |dec.stats|
    ensures var (bit, next) := DecodeBit(dec, d.bin);
      && bit == d.bit && Follows(next, rest)
      && After(dec, [d] + rest) == After(next, rest)
  {
    assert ([d] + rest)[1..] == rest;
  }

  /** Following a concatenation is following its parts one after the other. */
  lemma {:induction false} FollowsConcat(dec: Decoder, a: seq<Decision>, b: seq<Decision>)
    requires DecoderOk(dec)
    ensures Follows(dec, a + b) <==> Follows(dec, a) && Follows(After(dec, a), b)
    ensures Follows(dec, a + b) ==> After(dec, a + b) == After(After(dec, a), b)
    decreases |a|
  {
    if a == [] {
      assert a + b == b;
    } else {
      assert (a + b)[1..] == a[1..] + b;
      if a[0].bin < |dec.stats| {
        FollowsConcat(DecodeBit(dec, a[0].bin).1, a[1..], b);
      }
    }
  }
}
