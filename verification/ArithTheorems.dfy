/**
 What the arithmetic encoder promises as a whole: its bytes decode to the decisions, and through
 the statistical model to the coefficients.
 */
module ArithTheorems {
  import opened Powers
  import opened Wrappers
  import opened ByteStreams
  import opened QmExact
  import opened QmRegisters
  import opened ArithModel
  import opened ArithEncoder
  import opened ArithDecoder
  import opened ArithScan
  import opened Zigzag

  /**
   A finished segment, followed by a marker or by nothing, makes a decoder that starts with the
   coder's statistics read every decision of the segment.
   */
  lemma SegmentRoundTrip(start: Coder, trace: seq<Decision>, digits: seq<int>, tail: seq<int>)
    requires Whole(start.iv) && Stats(start.stats) && InRange(trace, |start.stats|)
    requires In(Run(start, trace).iv, Frac(digits))
    requires tail == [] || StartsMarker(tail)
    ensures var dec := Tracking(start, Frac(Unstuff(Stuff(digits) + tail)));
      Follows(dec, trace) && After(dec, trace) == Tracking(Run(start, trace), Frac(digits))
  {
    UnstuffStuff(digits, tail);
    RoundTrip(start, trace, Frac(digits));
  }

  /** Any decisions, encoded to bytes and decoded from those bytes, come back. */
  method EncodeThenDecode(ds: seq<Decision>, bins: nat) returns (bits: seq<bool>)
    requires InRange(ds, bins)
    ensures |bits| == |ds| && forall i :: 0 <= i < |ds| ==> bits[i] == ds[i].bit
  {
    hide Encoder.Valid, ByteDecoder.Valid, Run, Frac, In, DecodeBit, Stuff, Unstuff, Follows, Tracking;
    var e := new Encoder(bins);
    ghost var start := e.start;
    assert Stats(start.stats);
    var i := 0;
    while i < |ds|
      invariant 0 <= i <= |ds| && e.Valid() && e.stats.Length == bins && fresh(e) && fresh(e.stats)
      invariant e.trace == ds[..i] && e.start == start && e.sent == []
    {
      e.Encode(ds[i].bin, ds[i].bit);
      i := i + 1;
    }
    assert ds[..|ds|] == ds;
    e.FinishPass();
    SegmentRoundTrip(start, ds, e.digits, []);
    var d := new ByteDecoder(e.output, bins);
    assert e.output == Stuff(e.digits) + [];
    assert d.stats[..] == start.stats;
    assert ds[0..] == ds;
    i, bits := 0, [];
    while i < |ds|
      invariant 0 <= i <= |ds| && d.Valid() && d.stats.Length == bins && fresh(d) && fresh(d.stats)
      invariant |bits| == i && forall j :: 0 <= j < i ==> bits[j] == ds[j].bit
      invariant Follows(d.Exact(), ds[i..])
    {
      assert ds[i..] == [ds[i]] + ds[i + 1..];
      FollowsHead(d.Exact(), ds[i], ds[i + 1..]);
      var bit := d.ArithDecode(ds[i].bin);
      bits := bits + [bit];
      i := i + 1;
    }
  }

  // ----- sequential scans -----

  /** A DC difference comes back exactly when it fits the decoder's 15 magnitude categories. */
  lemma DcDecodable(dec: Decoder, tbl: nat, ctx: nat, v: int, rest: seq<Decision>)
    requires Reads(dec) && tbl < NUM_ARITH_TBLS && IsContext(ctx)
    requires Follows(dec, DcDecisions(tbl, ctx, v) + rest)
    ensures var r := DecDc(dec, tbl, ctx);
      && (r.Some? <==> -0x8000 <= v <= 0x8000)
      && (r.Some? ==> r.value.0 == v)
  {
    if IsSmallDiff(v) {
      DcRoundTrip(dec, tbl, ctx, v, rest);
    } else {
      DcOverflow(dec, tbl, ctx, v, rest);
    }
  }

  /** Decodes one block; the DC coefficient is the prediction plus the difference read. */
  function DecBlock(dec: Decoder, c: Comp, s: DcState): (r: Option<(seq<int>, Decoder)>)
    requires Reads(dec) && CompOk(c) && IsContext(s.ctx)
    ensures r.Some? ==> Reads(r.value.1) && |r.value.0| > 0
  {
    match DecDc(dec, c.dcTbl, s.ctx)
    case None => None
    case Some((v, dec1)) => Prepend(s.last + v, DecAc(dec1, Band(c.acTbl, c.kx, 63), 1))
  }

  function DecMcu(dec: Decoder, comps: seq<Comp>, member: seq<nat>, s: seq<DcState>):
    (r: Option<(seq<seq<int>>, seq<DcState>, Decoder)>)
    requires Reads(dec) && |comps| <= |s| == MAX_COMPS_IN_SCAN
    requires forall i :: 0 <= i < |comps| ==> CompOk(comps[i])
    requires forall i :: 0 <= i < |member| ==> member[i] < |comps|
    requires forall i :: 0 <= i < |s| ==> IsContext(s[i].ctx)
    ensures r.Some? ==> Reads(r.value.2)
    decreases |member|
  {
    if member == [] then Some(([], s, dec))
    else
      var ci := member[0];
      match DecBlock(dec, comps[ci], s[ci])
      case None => None
      case Some((zz, dec1)) =>
        match DecMcu(dec1, comps, member[1..], s[ci := AfterBlock(comps[ci], s[ci], zz[0])])
        case None => None
        case Some((zzs, s', dec2)) => Some(([zz] + zzs, s', dec2))
  }

  function ZigzagBlocks(blocks: seq<seq<int>>): (r: seq<seq<int>>)
    requires AllBlocks(blocks)
    ensures |r| == |blocks|
  {
    seq(|blocks|, i requires 0 <= i < |blocks| => Transformed(blocks[i], 0))
  }

  /** The DC differences of an MCU, along its chain of predictions, that a decoder accepts. */
  predicate SmallDiffs(comps: seq<Comp>, member: seq<nat>, blocks: seq<seq<int>>, s: seq<DcState>)
    requires McuOk(comps, member, blocks) && |s| == MAX_COMPS_IN_SCAN
    decreases |blocks|
  {
    blocks == [] ||
    var ci, dc := member[0], blocks[0][0];
    && IsSmallDiff(dc - s[ci].last)
    && SmallDiffs(comps, member[1..], blocks[1..], s[ci := AfterBlock(comps[ci], s[ci], dc)])
  }

  lemma TransformedIsBlock(block: seq<int>, al: nat)
    requires IsCoefBlock(block)
    ensures IsBlock(Transformed(block, al))
  {
    forall k: nat | k < 64
      ensures IsCoef(Transformed(block, al)[k])
    {
      var v := block[NaturalOrder(k)];
      TransformedAt(block, al, k);
      ShiftAcBound(v, al);
      if v >= 0 {
        DivShrinks(v, Pow2(al));
      }
    }
  }

  /** Without a point transform the zigzag sequence holds the block's own coefficients. */
  lemma Untransformed(block: seq<int>, k: nat)
    requires |block| == 64 && k < 64
    ensures Transformed(block, 0)[k] == block[NaturalOrder(k)]
  {
    TransformedAt(block, 0, k);
  }

  lemma BlockRoundTrip(dec: Decoder, c: Comp, s: DcState, block: seq<int>, rest: seq<Decision>)
    requires Reads(dec) && CompOk(c) && IsContext(s.ctx) && IsCoefBlock(block)
    requires IsSmallDiff(block[0] - s.last)
    requires Follows(dec, BlockDecisions(c, s, block) + rest)
    ensures var r := DecBlock(dec, c, s);
      && r.Some? && r.value.0 == Transformed(block, 0) && Follows(r.value.1, rest)
      && After(dec, BlockDecisions(c, s, block) + rest) == After(r.value.1, rest)
  {
    hide Follows, After, DecDc, DecAc, DcDecisions, AcDecisions, Transformed, LastNonzero, IsBlock;
    var zz, b := Transformed(block, 0), Band(c.acTbl, c.kx, 63);
    var dc, ac := DcDecisions(c.dcTbl, s.ctx, block[0] - s.last), AcDecisions(b, zz, LastNonzero(zz, 63), 1);
    assert (dc + ac) + rest == dc + (ac + rest);
    DcRoundTrip(dec, c.dcTbl, s.ctx, block[0] - s.last, ac + rest);
    TransformedIsBlock(block, 0);
    AcRoundTrip(DecDc(dec, c.dcTbl, s.ctx).value.1, b, zz, LastNonzero(zz, 63), 1, rest);
    Untransformed(block, 0);
    assert zz == [zz[0]] + zz[1..64];
  }

  /** Every block of an MCU, and the prediction state after it, come back. */
  lemma {:induction false} McuRoundTrip(dec: Decoder, comps: seq<Comp>, member: seq<nat>,
                                        blocks: seq<seq<int>>, s: seq<DcState>, rest: seq<Decision>)
    requires Reads(dec) && McuOk(comps, member, blocks) && |s| == MAX_COMPS_IN_SCAN
    requires forall i :: 0 <= i < |s| ==> IsContext(s[i].ctx)
    requires SmallDiffs(comps, member, blocks, s)
    requires Follows(dec, McuDecisions(comps, member, blocks, s).0 + rest)
    ensures var r := DecMcu(dec, comps, member, s);
      && r.Some? && r.value.0 == ZigzagBlocks(blocks)
      && r.value.1 == McuDecisions(comps, member, blocks, s).1
      && Follows(r.value.2, rest)
    decreases |blocks|
  {
    hide Follows, DecBlock, BlockDecisions, Transformed, NextContext;
    if blocks == [] {
      assert McuDecisions(comps, member, blocks, s).0 + rest == rest;
    } else {
      var ci, block := member[0], blocks[0];
      var next := s[ci := AfterBlock(comps[ci], s[ci], block[0])];
      var more := McuDecisions(comps, member[1..], blocks[1..], next).0 + rest;
      assert McuDecisions(comps, member, blocks, s).0 + rest == BlockDecisions(comps[ci], s[ci], block) + more;
      BlockRoundTrip(dec, comps[ci], s[ci], block, more);
      Untransformed(block, 0);
      McuRoundTrip(DecBlock(dec, comps[ci], s[ci]).value.1, comps, member[1..], blocks[1..], next, rest);
      assert ZigzagBlocks(blocks) == [Transformed(block, 0)] + ZigzagBlocks(blocks[1..]);
    }
  }

  // ----- successive approximation -----

  /** A decoder's block after a pass has delivered coefficients ss..se. */
  function Hold(held: seq<int>, coefs: seq<int>, ss: nat): (r: seq<int>)
    requires ss + |coefs| <= |held|
    ensures |r| == |held|
    ensures r[ss..ss + |coefs|] == coefs
  {
    held[..ss] + coefs + held[ss + |coefs|..]
  }

  predicate AllRead(decs: seq<Decoder>)
  {
    forall i :: 0 <= i < |decs| ==> Reads(decs[i])
  }

  /** Decoder i has the data of pass i in front of it. */
  predicate AllFollow(decs: seq<Decoder>, block: seq<int>, b: Band, ss: nat, top: nat)
    requires AllRead(decs) && |decs| <= top + 1
    requires IsCoefBlock(block) && BandOk(b) && 1 <= ss <= b.se
  {
    forall i :: 0 <= i < |decs| ==> Follows(decs[i], PassDecisions(block, b, ss, top, i))
  }

  /** The first pass, then one refinement pass for each further decoder. */
  function DecPasses(decs: seq<Decoder>, b: Band, ss: nat, held: seq<int>): (r: Option<seq<int>>)
    requires |decs| > 0 && AllRead(decs)
    requires BandOk(b) && 1 <= ss <= b.se && |held| == 64
    ensures r.Some? ==> |r.value| == 64
  {
    var n := |decs| - 1;
    if n == 0 then Deliver(DecAc(decs[0], b, ss), b, ss, held)
    else
      match DecPasses(decs[..n], b, ss, held)
      case None => None
      case Some(prev) => Deliver(DecRef(decs[n], b, prev, LastNonzero(prev, b.se), ss), b, ss, prev)
  }

  function Deliver(r: Option<(seq<int>, Decoder)>, b: Band, ss: nat, held: seq<int>): (h: Option<seq<int>>)
    requires BandOk(b) && 1 <= ss <= b.se && |held| == 64
    ensures h.Some? ==> |h.value| == 64
  {
    if r.Some? && |r.value.0| == b.se + 1 - ss then Some(Hold(held, r.value.0, ss)) else None
  }

  /** The decisions of pass i of a band that starts at bit top. */
  function PassDecisions(block: seq<int>, b: Band, ss: nat, top: nat, i: nat): seq<Decision>
    requires IsCoefBlock(block) && BandOk(b) && 1 <= ss <= b.se && i <= top
  {
    var zz := Transformed(block, top - i);
    var ke := LastNonzero(zz, b.se);
    if i == 0 then AcDecisions(b, zz, ke, ss)
    else RefDecisions(b, zz, ke, LastNonzero(Transformed(block, top - i + 1), b.se), ss)
  }

  /** Two ends below the start of the band make no difference to the encoder. */
  lemma {:induction false} SameEnd(b: Band, zz: seq<int>, ke: nat, kex1: nat, kex2: nat, k: nat)
    requires BandOk(b) && |zz| == 64 && ke <= b.se && 1 <= k <= 64 && (ke >= k ==> zz[ke] != 0)
    requires kex1 == kex2 || (kex1 < k && kex2 < k)
    ensures RefDecisions(b, zz, ke, kex1, k) == RefDecisions(b, zz, ke, kex2, k)
    ensures k <= ke ==> RefRun(b, zz, ke, kex1, k) == RefRun(b, zz, ke, kex2, k)
    decreases 64 - k
  {
    if k <= ke {
      SameEnd(b, zz, ke, kex1, kex2, k + 1);
    }
  }

  /** Both sides find the same earlier end of block, or both find it below the band. */
  lemma {:induction false} AgreeOnEnd(p: seq<int>, q: seq<int>, ss: nat, e: nat)
    requires |p| == |q| == 64 && 1 <= ss && e < 64
    requires forall i :: ss <= i <= e ==> p[i] == q[i]
    ensures var x, y := LastNonzero(p, e), LastNonzero(q, e);
      x == y || (x < ss && y < ss)
  {
    if ss <= e {
      AgreeOnEnd(p, q, ss, e - 1);
    }
  }

  /**
   After each pass a decoder holds exactly the coefficients of the band after the point transform
   of that pass; after the pass for bit 0 it holds the coefficients themselves.
   */
  lemma {:induction false} SuccessiveApproximation(decs: seq<Decoder>, block: seq<int>, b: Band,
                                                   ss: nat, top: nat, held: seq<int>)
    requires 0 < |decs| <= top + 1 && AllRead(decs)
    requires IsCoefBlock(block) && BandOk(b) && 1 <= ss <= b.se && |held| == 64
    requires AllFollow(decs, block, b, ss, top)
    ensures var r := DecPasses(decs, b, ss, held);
      && r.Some?
      && r.value[ss..b.se + 1] == Transformed(block, top + 1 - |decs|)[ss..b.se + 1]
  {
    hide Follows, DecAc, DecRef, AcDecisions, RefDecisions, Transformed, LastNonzero, IsBlock, Hold, IsCoef, Reads, After, AllRead, AllFollow;
    var n := |decs| - 1;
    if n == 0 {
      FirstPassHolds(decs, block, b, ss, top, held);
    } else {
      EarlierFollow(decs, block, b, ss, top);
      SuccessiveApproximation(decs[..n], block, b, ss, top, held);
      var prev := DecPasses(decs[..n], b, ss, held).value;
      var ds := PassDecisions(block, b, ss, top, n);
      assert ds + [] == ds;
      RefinePass(decs[n], block, b, ss, top - n, prev, []);
    }
  }

  lemma EarlierFollow(decs: seq<Decoder>, block: seq<int>, b: Band, ss: nat, top: nat)
    requires 1 < |decs| <= top + 1 && AllRead(decs)
    requires IsCoefBlock(block) && BandOk(b) && 1 <= ss <= b.se
    requires AllFollow(decs, block, b, ss, top)
    ensures var n := |decs| - 1;
      && AllRead(decs[..n]) && AllFollow(decs[..n], block, b, ss, top) && Reads(decs[n])
      && Follows(decs[n], PassDecisions(block, b, ss, top, n))
  {
    hide Follows, PassDecisions, Reads;
  }

  lemma FirstPassHolds(decs: seq<Decoder>, block: seq<int>, b: Band, ss: nat, top: nat, held: seq<int>)
    requires |decs| == 1 && AllRead(decs)
    requires IsCoefBlock(block) && BandOk(b) && 1 <= ss <= b.se && |held| == 64
    requires AllFollow(decs, block, b, ss, top)
    ensures var r := DecPasses(decs, b, ss, held);
      && r.Some?
      && r.value[ss..b.se + 1] == Transformed(block, top)[ss..b.se + 1]
  {
    hide Follows, DecAc, AcDecisions, Transformed, LastNonzero, IsBlock, Hold, IsCoef;
    var zz := Transformed(block, top);
    TransformedIsBlock(block, top);
    assert PassDecisions(block, b, ss, top, 0) + [] == PassDecisions(block, b, ss, top, 0);
    assert |zz[ss..b.se + 1]| == b.se + 1 - ss;
    AcRoundTrip(decs[0], b, zz, LastNonzero(zz, b.se), ss, []);
  }

  lemma SameSlice(p: seq<int>, q: seq<int>, lo: nat, hi: nat)
    requires lo <= hi <= |p| && hi <= |q| && p[lo..hi] == q[lo..hi]
    ensures forall i :: lo <= i < hi ==> p[i] == q[i]
  {
    forall i | lo <= i < hi
      ensures p[i] == q[i]
    {
      assert p[i] == p[lo..hi][i - lo] && q[i] == q[lo..hi][i - lo];
    }
  }

  lemma RefinePass(dec: Decoder, block: seq<int>, b: Band, ss: nat, al: nat, prev: seq<int>, rest: seq<Decision>)
    requires Reads(dec) && IsCoefBlock(block) && BandOk(b) && 1 <= ss <= b.se && |prev| == 64
    requires prev[ss..b.se + 1] == Transformed(block, al + 1)[ss..b.se + 1]
    requires var zz := Transformed(block, al);
      Follows(dec, RefDecisions(b, zz, LastNonzero(zz, b.se), LastNonzero(Transformed(block, al + 1), b.se), ss) + rest)
    ensures var r := DecRef(dec, b, prev, LastNonzero(prev, b.se), ss);
      r.Some? && r.value.0 == Transformed(block, al)[ss..b.se + 1] && Follows(r.value.1, rest)
  {
    hide Follows, DecRef, RefDecisions, Transformed, LastNonzero, IsBlock, Half;
    var zz, earlier := Transformed(block, al), Transformed(block, al + 1);
    var ke, kexE, kex := LastNonzero(zz, b.se), LastNonzero(earlier, b.se), LastNonzero(prev, b.se);
    HalvesRefine(block, al, 0, 63);
    SameSlice(prev, earlier, ss, b.se + 1);
    assert Refines(zz, prev, ss, b.se);
    AgreeOnEnd(prev, earlier, ss, b.se);
    SameEnd(b, zz, ke, kexE, kex, ss);
    EndsShrink(zz, earlier, b.se);
    TransformedIsBlock(block, al);
    RefRoundTrip(dec, b, zz, prev, ke, kex, ss, rest);
  }

  /** A coefficient nonzero a bit earlier is nonzero now. */
  lemma EndsShrink(zz: seq<int>, prev: seq<int>, e: nat)
    requires Refines(zz, prev, 0, 63) && e < 64
    ensures LastNonzero(prev, e) <= LastNonzero(zz, e)
  {
    var kex := LastNonzero(prev, e);
    assert kex > 0 ==> prev[kex] == Half(zz[kex]);
  }

  // ----- DC coefficients by successive approximation -----

  function DecDcFirst(dec: Decoder, comps: seq<Comp>, member: seq<nat>, s: seq<DcState>):
    (r: Option<(seq<int>, Decoder)>)
    requires Reads(dec) && |comps| <= |s| == MAX_COMPS_IN_SCAN
    requires forall i :: 0 <= i < |comps| ==> CompOk(comps[i])
    requires forall i :: 0 <= i < |member| ==> member[i] < |comps|
    requires forall i :: 0 <= i < |s| ==> IsContext(s[i].ctx)
    ensures r.Some? ==> Reads(r.value.1)
    decreases |member|
  {
    if member == [] then Some(([], dec))
    else
      var ci := member[0];
      assert CompOk(comps[ci]);
      match DecDc(dec, comps[ci].dcTbl, s[ci].ctx)
      case None => None
      case Some((d, dec1)) =>
        var v := s[ci].last + d;
        Prepend(v, DecDcFirst(dec1, comps, member[1..], s[ci := AfterBlock(comps[ci], s[ci], v)]))
  }

  predicate SmallDcDiffs(comps: seq<Comp>, member: seq<nat>, values: seq<int>, s: seq<DcState>)
    requires |member| == |values| && |comps| <= |s|
    requires forall i :: 0 <= i < |member| ==> member[i] < |comps|
    decreases |values|
  {
    values == [] ||
    var ci := member[0];
    && IsSmallDiff(values[0] - s[ci].last)
    && SmallDcDiffs(comps, member[1..], values[1..], s[ci := AfterBlock(comps[ci], s[ci], values[0])])
  }

  lemma ContextKept(c: Comp, s: DcState, v: int)
    requires CompOk(c) && IsContext(s.ctx)
    ensures IsContext(AfterBlock(c, s, v).ctx)
  {
  }

  /** The first DC pass delivers every DC value after its arithmetic shift. */
  lemma {:induction false} DcFirstRoundTrip(dec: Decoder, comps: seq<Comp>, member: seq<nat>,
                                            values: seq<int>, s: seq<DcState>, rest: seq<Decision>)
    requires Reads(dec) && |comps| <= |s| == MAX_COMPS_IN_SCAN && |member| == |values|
    requires forall i :: 0 <= i < |comps| ==> CompOk(comps[i])
    requires forall i :: 0 <= i < |member| ==> member[i] < |comps|
    requires forall i :: 0 <= i < |s| ==> IsContext(s[i].ctx)
    requires SmallDcDiffs(comps, member, values, s)
    requires Follows(dec, DcFirstDecisions(comps, member, values, s).0 + rest)
    ensures var r := DecDcFirst(dec, comps, member, s);
      r.Some? && r.value.0 == values && Follows(r.value.1, rest)
    decreases |values|
  {
    hide Follows, After, DecDc, DcDecisions, AfterBlock;
    if values == [] {
      assert DcFirstDecisions(comps, member, values, s).0 + rest == rest;
    } else {
      var ci, v := member[0], values[0];
      var next := s[ci := AfterBlock(comps[ci], s[ci], v)];
      ContextKept(comps[ci], s[ci], v);
      var d := DcDecisions(comps[ci].dcTbl, s[ci].ctx, v - s[ci].last);
      var more := DcFirstDecisions(comps, member[1..], values[1..], next).0 + rest;
      assert DcFirstDecisions(comps, member, values, s).0 + rest == d + more;
      DcRoundTrip(dec, comps[ci].dcTbl, s[ci].ctx, v - s[ci].last, more);
      DcFirstRoundTrip(DecDc(dec, comps[ci].dcTbl, s[ci].ctx).value.1, comps, member[1..], values[1..], next, rest);
    }
  }

  /** A refinement pass appends one bit to every DC value held. */
  function DecDcRef(dec: Decoder, prev: seq<int>): (r: (seq<int>, Decoder))
    requires Reads(dec)
    ensures Reads(r.1)
    decreases |prev|
  {
    if prev == [] then ([], dec)
    else
      var (bit, dec1) := DecodeBit(dec, FIXED_BIN);
      var (vs, dec2) := DecDcRef(dec1, prev[1..]);
      ([2 * prev[0] + if bit then 1 else 0] + vs, dec2)
  }

  lemma ShiftDcOnce(v: int, al: nat)
    ensures ShiftDc(v, al) == 2 * ShiftDc(v, al + 1) + ShiftDc(v, al) % 2
  {
    HalfStep(v, Pow2(al));
  }

  lemma {:induction false} DcRefRoundTrip(dec: Decoder, values: seq<int>, prev: seq<int>, rest: seq<Decision>)
    requires Reads(dec) && |values| == |prev|
    requires forall i :: 0 <= i < |values| ==> values[i] == 2 * prev[i] + values[i] % 2
    requires Follows(dec, DcRefDecisions(values) + rest)
    ensures var r := DecDcRef(dec, prev);
      r.0 == values && Follows(r.1, rest)
    decreases |values|
  {
    hide Follows, DecodeBit;
    if values == [] {
      assert DcRefDecisions(values) + rest == rest;
    } else {
      var d, more := Decision(FIXED_BIN, values[0] % 2 == 1), DcRefDecisions(values[1..]) + rest;
      assert DcRefDecisions(values) + rest == [d] + more;
      FollowsHead(dec, d, more);
      DcRefRoundTrip(DecodeBit(dec, FIXED_BIN).1, values[1..], prev[1..], rest);
    }
  }

  /** A decoder holding DC values shifted by al + 1 ends the pass holding them shifted by al. */
  lemma DcSuccessiveApproximation(dec: Decoder, blocks: seq<seq<int>>, al: nat, rest: seq<Decision>)
    requires Reads(dec) && AllBlocks(blocks)
    requires Follows(dec, DcRefDecisions(DcValues(blocks, al)) + rest)
    ensures var r := DecDcRef(dec, DcValues(blocks, al + 1));
      r.0 == DcValues(blocks, al) && Follows(r.1, rest)
  {
    forall i | 0 <= i < |blocks|
      ensures DcValues(blocks, al)[i] == 2 * DcValues(blocks, al + 1)[i] + DcValues(blocks, al)[i] % 2
    {
      ShiftDcOnce(blocks[i][0], al);
    }
    DcRefRoundTrip(dec, DcValues(blocks, al), DcValues(blocks, al + 1), rest);
  }

  /** One refinement pass for each decoder. */
  function DecDcPasses(decs: seq<Decoder>, held: seq<int>): seq<int>
    requires AllRead(decs)
  {
    if decs == [] then held else DecDcRef(decs[|decs| - 1], DecDcPasses(decs[..|decs| - 1], held)).0
  }

  /** After any number of refinement passes a decoder holds the DC values shifted by the current al. */
  lemma {:induction false} DcPasses(decs: seq<Decoder>, blocks: seq<seq<int>>, top: nat)
    requires AllRead(decs) && AllBlocks(blocks) && |decs| <= top
    requires forall i :: 0 <= i < |decs| ==> Follows(decs[i], DcRefDecisions(DcValues(blocks, top - 1 - i)))
    ensures DecDcPasses(decs, DcValues(blocks, top)) == DcValues(blocks, top - |decs|)
  {
    hide Follows, DcRefDecisions, DcValues, DecDcRef;
    if decs != [] {
      var n := |decs| - 1;
      assert forall i :: 0 <= i < n ==> decs[..n][i] == decs[i];
      DcPasses(decs[..n], blocks, top);
      var ds := DcRefDecisions(DcValues(blocks, top - 1 - n));
      assert ds + [] == ds;
      DcSuccessiveApproximation(decs[n], blocks, top - 1 - n, []);
    }
  }
}
