/**
 A sequential arithmetic-coded scan as a whole (encode_mcu and finish_pass of jcarith.c, decode_mcu of
 jdarith.c): the bytes of all its MCUs decode to their blocks.
 */
module ArithSequential {
  import opened Wrappers
  import opened ByteStreams
  import opened QmTable
  import opened QmExact
  import opened QmRegisters
  import opened ArithModel
  import opened ArithEncoder
  import opened ArithDecoder
  import opened ArithScan
  import opened ArithTheorems

  /** Blocks of an MCU, in the order of its members. */
  type Mcu = seq<seq<int>>

  predicate ScanOk(comps: seq<Comp>, member: seq<nat>, mcus: seq<Mcu>)
  {
    && |comps| <= MAX_COMPS_IN_SCAN && (forall i :: 0 <= i < |comps| ==> CompOk(comps[i]))
    && (forall i :: 0 <= i < |member| ==> member[i] < |comps|)
    && forall m :: 0 <= m < |mcus| ==> McuOk(comps, member, mcus[m])
  }

  predicate StatesOk(s: seq<DcState>)
  {
    |s| == MAX_COMPS_IN_SCAN && forall i :: 0 <= i < |s| ==> IsContext(s[i].ctx)
  }

  /** The decisions of all MCUs, each with the predictions the one before leaves. */
  function ScanDecisions(comps: seq<Comp>, member: seq<nat>, mcus: seq<Mcu>, s: seq<DcState>): seq<Decision>
    requires ScanOk(comps, member, mcus) && StatesOk(s)
  {
    if mcus == [] then []
    else
      var (ds, next) := McuDecisions(comps, member, mcus[0], s);
      ds + ScanDecisions(comps, member, mcus[1..], next)
  }

  /** Every DC difference is one a decoder accepts. */
  predicate ScanSmall(comps: seq<Comp>, member: seq<nat>, mcus: seq<Mcu>, s: seq<DcState>)
    requires ScanOk(comps, member, mcus) && StatesOk(s)
  {
    mcus == [] || (SmallDiffs(comps, member, mcus[0], s)
      && ScanSmall(comps, member, mcus[1..], McuDecisions(comps, member, mcus[0], s).1))
  }

  /** Reading n MCUs. */
  function DecScan(dec: Decoder, comps: seq<Comp>, member: seq<nat>, s: seq<DcState>, n: nat): Option<seq<Mcu>>
    requires Reads(dec) && ScanOk(comps, member, []) && StatesOk(s)
    decreases n
  {
    if n == 0 then Some([])
    else
      match DecMcu(dec, comps, member, s)
      case None => None
      case Some((zzs, next, dec1)) =>
        if !StatesOk(next) then None
        else
          match DecScan(dec1, comps, member, next, n - 1)
          case None => None
          case Some(more) => Some([zzs] + more)
  }

  /** The blocks of a scan in zigzag order. */
  function ZigzagMcus(comps: seq<Comp>, member: seq<nat>, mcus: seq<Mcu>): (r: seq<Mcu>)
    requires ScanOk(comps, member, mcus)
    ensures |r| == |mcus|
  {
    seq(|mcus|, m requires 0 <= m < |mcus| => ZigzagBlocks(mcus[m]))
  }

  lemma {:induction false} ScanRoundTrip(dec: Decoder, comps: seq<Comp>, member: seq<nat>, mcus: seq<Mcu>, s: seq<DcState>)
    requires Reads(dec) && ScanOk(comps, member, mcus) && StatesOk(s) && ScanSmall(comps, member, mcus, s)
    requires Follows(dec, ScanDecisions(comps, member, mcus, s))
    ensures DecScan(dec, comps, member, s, |mcus|) == Some(ZigzagMcus(comps, member, mcus))
    decreases |mcus|
  {
    hide Follows, McuDecisions, DecMcu, SmallDiffs, ZigzagBlocks;
    if mcus != [] {
      var next := McuDecisions(comps, member, mcus[0], s).1;
      McuRoundTrip(dec, comps, member, mcus[0], s, ScanDecisions(comps, member, mcus[1..], next));
      var dec1 := DecMcu(dec, comps, member, s).value.2;
      ScanRoundTrip(dec1, comps, member, mcus[1..], next);
      assert ZigzagMcus(comps, member, mcus) == [ZigzagBlocks(mcus[0])] + ZigzagMcus(comps, member, mcus[1..]);
    }
  }

  /** No prediction, no conditioning. */
  function ZeroStates(): (s: seq<DcState>)
    ensures StatesOk(s) && forall i :: 0 <= i < |s| ==> s[i] == DcState(0, 0)
  {
    [DcState(0, 0), DcState(0, 0), DcState(0, 0), DcState(0, 0)]
  }

  /** All MCUs of a scan, one after the other. */
  method EncodeMcus(e: ScanEncoder, comps: seq<Comp>, member: seq<nat>, mcus: seq<Mcu>)
    requires e.Valid() && ScanOk(comps, member, mcus) && Predicted(comps, e.State())
    modifies e.enc, e.enc.stats, e.lastDcVal, e.dcContext
    ensures e.Valid() && e.enc.start == old(e.enc.start) && e.enc.sent == old(e.enc.sent)
    ensures e.enc.trace == old(e.enc.trace) + ScanDecisions(comps, member, mcus, old(e.State()))
  {
    hide Encoder.Valid, McuDecisions, Predicted;
    var m := 0;
    ghost var goal := ScanDecisions(comps, member, mcus, e.State());
    assert mcus[0..] == mcus;
    while m < |mcus|
      invariant 0 <= m <= |mcus| && e.Valid() && e.enc.start == old(e.enc.start) && e.enc.sent == old(e.enc.sent)
      invariant Predicted(comps, e.State()) && ScanOk(comps, member, mcus[m..])
      invariant e.enc.trace + ScanDecisions(comps, member, mcus[m..], e.State()) == old(e.enc.trace) + goal
    {
      ghost var t, s := e.enc.trace, e.State();
      assert mcus[m..][0] == mcus[m] && mcus[m..][1..] == mcus[m + 1..];
      e.EncodeMcu(comps, member, mcus[m]);
      ghost var ds := McuDecisions(comps, member, mcus[m], s).0;
      ghost var rest := ScanDecisions(comps, member, mcus[m + 1..], e.State());
      assert t + (ds + rest) == e.enc.trace + rest;
      m := m + 1;
    }
    assert e.enc.trace + [] == e.enc.trace;
  }

  /** The coder at the start of a scan: the whole interval, and zero statistics but for the fixed bin. */
  function ScanStart(): (x: Coder)
    ensures Whole(x.iv) && |x.stats| == ALL_BINS
  {
    Coder(Interval(0, 0x10000, 0), seq(ALL_BINS, i => if i == FIXED_BIN then 113 else 0))
  }

  lemma ScanStartOk()
    ensures Stats(ScanStart().stats)
  {
    assert IsStat(113) && IsStat(0);
  }

  /** A scan encoder that has coded nothing yet. */
  method OpenEncoder() returns (e: ScanEncoder)
    ensures e.Valid() && e.enc.trace == [] && e.enc.sent == [] && e.enc.start == ScanStart()
    ensures e.State() == ZeroStates()
    ensures fresh(e.enc) && fresh(e.enc.stats) && fresh(e.lastDcVal) && fresh(e.dcContext)
  {
    hide Encoder.Valid;
    e := new ScanEncoder();
    assert e.State() == ZeroStates();
    assert e.enc.stats[..] == ScanStart().stats;
  }

  /** The end of a scan: its bytes are stuffed digits that name a fraction in the interval of its decisions. */
  method FinishScan(e: ScanEncoder) returns (out: seq<int>, ghost digits: seq<int>)
    requires e.Valid() && e.enc.sent == [] && e.enc.start == ScanStart()
    modifies e.enc
    ensures out == Stuff(digits) && IsBytes(out) && Stats(ScanStart().stats)
    ensures var ds := old(e.enc.trace); InRange(ds, ALL_BINS) && In(Run(ScanStart(), ds).iv, Frac(digits))
  {
    hide Encoder.Valid, Run, Frac, In, Stuff;
    StartOk(e.enc);
    e.enc.FinishPass();
    WrittenBytes(e.enc);
    out, digits := e.enc.output, e.enc.digits;
    assert out == [] + Stuff(digits) == Stuff(digits);
  }

  /** A decoder at the start of a scan. */
  method OpenDecoder(input: seq<int>) returns (d: ByteDecoder)
    requires IsBytes(input)
    ensures d.Valid() && d.input == input && Stats(ScanStart().stats)
    ensures d.Exact() == Tracking(ScanStart(), Frac(Unstuff(input)))
  {
    hide ByteDecoder.Valid, ByteDecoder.Exact, Frac, Unstuff;
    ScanStartOk();
    d := new ByteDecoder(input, ALL_BINS);
    d.SetStat(FIXED_BIN, 113);
    assert d.stats[..] == ScanStart().stats;
  }

  /** A decoder opened on the bytes of a scan, up to the marker that follows, has its decisions in front of it. */
  method OpenScan(out: seq<int>, ghost digits: seq<int>, ghost ds: seq<Decision>, tail: seq<int>) returns (d: ByteDecoder)
    requires out == Stuff(digits) && IsBytes(out) && (tail == [] || StartsMarker(tail)) && IsBytes(tail)
    requires Stats(ScanStart().stats) && InRange(ds, ALL_BINS) && In(Run(ScanStart(), ds).iv, Frac(digits))
    ensures d.Valid() && d.input == out + tail && Reads(d.Exact()) && Follows(d.Exact(), ds)
  {
    hide ByteDecoder.Valid, ByteDecoder.Exact, Run, Frac, In, Stuff, Unstuff, Follows, InRange;
    SegmentRoundTrip(ScanStart(), ds, digits, tail);
    BytesConcat(out, tail);
    d := OpenDecoder(out + tail);
  }

  /**
   A whole scan: a decoder opened on its bytes, up to the marker that follows, reads the blocks of all MCUs.
   */
  method EncodeSequential(comps: seq<Comp>, member: seq<nat>, mcus: seq<Mcu>, tail: seq<int>)
    returns (out: seq<int>, d: ByteDecoder)
    requires ScanOk(comps, member, mcus) && ScanSmall(comps, member, mcus, ZeroStates())
    requires (tail == [] || StartsMarker(tail)) && IsBytes(tail)
    ensures d.Valid() && d.input == out + tail && Reads(d.Exact())
    ensures DecScan(d.Exact(), comps, member, ZeroStates(), |mcus|) == Some(ZigzagMcus(comps, member, mcus))
  {
    hide Encoder.Valid, ByteDecoder.Valid, ByteDecoder.Exact, ScanDecisions, ScanSmall, DecScan, Run, Frac, In, Stuff,
      Follows, ZigzagMcus, InRange;
    var e := OpenEncoder();
    EncodeMcus(e, comps, member, mcus);
    ghost var ds := ScanDecisions(comps, member, mcus, ZeroStates());
    assert e.enc.trace == ds;
    ghost var digits;
    out, digits := FinishScan(e);
    d := OpenScan(out, digits, ds, tail);
    ScanRoundTrip(d.Exact(), comps, member, mcus, ZeroStates());
  }

  lemma BytesConcat(a: seq<int>, b: seq<int>)
    requires IsBytes(a) && IsBytes(b)
    ensures IsBytes(a + b)
  {
  }

  lemma StartOk(e: Encoder)
    requires e.Valid()
    ensures Whole(e.start.iv) && Stats(e.start.stats) && InRange(e.trace, |e.start.stats|)
  {
  }

  lemma WrittenBytes(e: Encoder)
    requires e.Written()
    ensures e.output == e.sent + Stuff(e.digits) && IsBytes(e.output)
  {
  }
}
