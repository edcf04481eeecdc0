/**
 The statistical model of the arithmetic entropy coder: which binary decisions, in which
 statistics bins, stand for DC differences and AC coefficients (sections F.1.4, G.1.3.2 and
 G.1.3.3 of ITU-T T.81), and how a decoder asks for them back.

 Coefficients are in zigzag order here; index 0 is the DC coefficient.
 */
module ArithModel {
  import opened Powers
  import opened Wrappers
  import opened QmExact

  const DC_STAT_BINS: nat := 64
  const AC_STAT_BINS: nat := 256
  const NUM_ARITH_TBLS: nat := 16
  const FIXED_BIN: nat := 5120
  const ALL_BINS: nat := 5121

  /** The statistics area of a DC table, of an AC table, and the bin with fixed probability. */
  function DcBin(tbl: nat, i: nat): (b: nat)
    requires tbl < NUM_ARITH_TBLS && i < DC_STAT_BINS
    ensures b < 1024
  {
    DC_STAT_BINS * tbl + i
  }

  function AcBin(tbl: nat, i: nat): (b: nat)
    requires tbl < NUM_ARITH_TBLS && i < AC_STAT_BINS
    ensures 1024 <= b < FIXED_BIN
  {
    1024 + AC_STAT_BINS * tbl + i
  }

  // ----- magnitudes -----

  /** Position of the leading one bit. */
  function Log2(w: nat): nat
    requires w >= 1
  {
    if w == 1 then 0 else 1 + Log2(w / 2)
  }

  lemma {:induction false} Log2Bounds(w: nat)
    requires w >= 1
    ensures Pow2(Log2(w)) <= w < 2 * Pow2(Log2(w))
  {
    if w > 1 {
      Log2Bounds(w / 2);
    }
  }

  lemma {:induction false} Log2Limit(w: nat, k: nat)
    requires 1 <= w < Pow2(k)
    ensures Log2(w) < k
  {
    if w > 1 {
      Log2Limit(w / 2, k - 1);
    }
  }

  /** One true decision for each halving of v2 that leaves it nonzero (Figure F.8). */
  function Unary(st: nat, v2: nat): seq<Decision>
    requires v2 >= 1
    decreases v2
  {
    if v2 == 1 then [] else [Decision(st, true)] + Unary(st + 1, v2 / 2)
  }

  /** The k bits of w below its leading one, all in the same bin (Figure F.9). */
  function Pattern(st: nat, k: nat, w: nat): seq<Decision>
    decreases k
  {
    if k == 0 then [] else [Decision(st, (w / Pow2(k - 1)) % 2 == 1)] + Pattern(st, k - 1, w)
  }

  /** Category of v2 from bin st on, then the bits of w. */
  function Tail(st: nat, v2: nat, w: nat): seq<Decision>
    requires v2 >= 1 && w >= 1
  {
    Unary(st, v2) + ([Decision(st + Log2(v2), false)] + Pattern(st + Log2(v2) + 14, Log2(w), w))
  }

  // ----- reading decisions back -----

  predicate Reads(dec: Decoder) { DecoderOk(dec) && |dec.stats| == ALL_BINS }

  /** A decoder gives up on a magnitude category beyond 14 (jdarith.c). */
  const MAX_CATEGORY: nat := 14

  function DecCategory(dec: Decoder, st: nat, k: nat): (r: Option<(nat, Decoder)>)
    requires Reads(dec) && st + MAX_CATEGORY - k < ALL_BINS && k <= MAX_CATEGORY
    ensures r.Some? ==> k <= r.value.0 <= MAX_CATEGORY && Reads(r.value.1)
    decreases MAX_CATEGORY - k
  {
    var (bit, dec1) := DecodeBit(dec, st);
    if !bit then Some((k, dec1))
    else if k == MAX_CATEGORY then None
    else DecCategory(dec1, st + 1, k + 1)
  }

  function DecPattern(dec: Decoder, st: nat, k: nat, m: nat): (r: (nat, Decoder))
    requires Reads(dec) && st < ALL_BINS
    ensures Reads(r.1)
    decreases k
  {
    if k == 0 then (m, dec)
    else
      var (bit, dec1) := DecodeBit(dec, st);
      DecPattern(dec1, st, k - 1, 2 * m + if bit then 1 else 0)
  }

  function DecTail(dec: Decoder, st: nat, k: nat): (r: Option<(nat, Decoder)>)
    requires Reads(dec) && k <= MAX_CATEGORY && st + MAX_CATEGORY + 14 < ALL_BINS
    ensures r.Some? ==> Reads(r.value.1)
  {
    match DecCategory(dec, st, k)
    case None => None
    case Some((cat, dec1)) => Some(DecPattern(dec1, st + (cat - k) + 14, cat, 1))
  }

  lemma {:induction false} CategoryRoundTrip(dec: Decoder, st: nat, v2: nat, k: nat, rest: seq<Decision>)
    requires Reads(dec) && v2 >= 1 && k + Log2(v2) <= MAX_CATEGORY && st + MAX_CATEGORY - k < ALL_BINS
    requires Follows(dec, Unary(st, v2) + ([Decision(st + Log2(v2), false)] + rest))
    ensures var r := DecCategory(dec, st, k);
      && r.Some? && r.value.0 == k + Log2(v2) && Follows(r.value.1, rest)
      && After(dec, Unary(st, v2) + ([Decision(st + Log2(v2), false)] + rest)) == After(r.value.1, rest)
    decreases v2
  {
    hide DecodeBit, Follows, After;
    if v2 == 1 {
      assert Unary(st, v2) + ([Decision(st, false)] + rest) == [Decision(st, false)] + rest;
      FollowsHead(dec, Decision(st, false), rest);
    } else {
      var more := Unary(st + 1, v2 / 2) + ([Decision(st + 1 + Log2(v2 / 2), false)] + rest);
      assert Unary(st, v2) + ([Decision(st + Log2(v2), false)] + rest) == [Decision(st, true)] + more;
      FollowsHead(dec, Decision(st, true), more);
      CategoryRoundTrip(DecodeBit(dec, st).1, st + 1, v2 / 2, k + 1, rest);
    }
  }

  /** The bits of w from bit k up. */
  function Top(w: nat, k: nat): nat
  {
    DivShrinks(w, Pow2(k));
    w / Pow2(k)
  }

  lemma {:induction false} PatternRoundTrip(dec: Decoder, st: nat, k: nat, w: nat)
    requires Reads(dec) && st < ALL_BINS
    requires Follows(dec, Pattern(st, k, w))
    ensures DecPattern(dec, st, k, Top(w, k)) == (w, After(dec, Pattern(st, k, w)))
    decreases k
  {
    hide DecodeBit, Follows;
    if k > 0 {
      var d := Decision(st, (w / Pow2(k - 1)) % 2 == 1);
      FollowsHead(dec, d, Pattern(st, k - 1, w));
      HalfStep(w, Pow2(k - 1));
      PatternRoundTrip(DecodeBit(dec, st).1, st, k - 1, w);
    }
  }

  lemma TailRoundTrip(dec: Decoder, st: nat, v2: nat, w: nat, k: nat)
    requires Reads(dec) && v2 >= 1 && w >= 1
    requires st + MAX_CATEGORY + 14 < ALL_BINS
    requires Log2(w) == k + Log2(v2) && Log2(w) <= MAX_CATEGORY
    requires Follows(dec, Tail(st, v2, w))
    ensures DecTail(dec, st, k) == Some((w, After(dec, Tail(st, v2, w))))
  {
    hide DecodeBit, Follows, After, DecCategory, DecPattern, Unary, Pattern;
    var pat := Pattern(st + Log2(v2) + 14, Log2(w), w);
    CategoryRoundTrip(dec, st, v2, k, pat);
    Log2Bounds(w);
    DivIs(w, Pow2(Log2(w)), 1, w - Pow2(Log2(w)));
    PatternRoundTrip(DecCategory(dec, st, k).value.1, st + Log2(v2) + 14, Log2(w), w);
  }

  /** A category too large for the decoder makes it stop. */
  lemma {:induction false} CategoryOverflow(dec: Decoder, st: nat, v2: nat, k: nat, rest: seq<Decision>)
    requires Reads(dec) && v2 >= 1 && k <= MAX_CATEGORY < k + Log2(v2)
    requires st + MAX_CATEGORY - k < ALL_BINS
    requires Follows(dec, Unary(st, v2) + rest)
    ensures DecCategory(dec, st, k) == None
    decreases v2
  {
    hide DecodeBit, Follows, After;
    assert Unary(st, v2) + rest == [Decision(st, true)] + (Unary(st + 1, v2 / 2) + rest);
    FollowsHead(dec, Decision(st, true), Unary(st + 1, v2 / 2) + rest);
    if k < MAX_CATEGORY {
      CategoryOverflow(DecodeBit(dec, st).1, st + 1, v2 / 2, k + 1, rest);
    }
  }

  lemma {:induction false} Log2AtLeast(w: nat, k: nat)
    requires w >= Pow2(k)
    ensures Log2(w) >= k
  {
    if k > 0 {
      Log2AtLeast(w / 2, k - 1);
    }
  }

  // ----- DC differences -----

  datatype Comp = Comp(dcTbl: nat, acTbl: nat, l: nat, u: nat, kx: nat)

  predicate CompOk(c: Comp) { c.dcTbl < NUM_ARITH_TBLS && c.acTbl < NUM_ARITH_TBLS }

  /** Any difference of two 16-bit values. */
  predicate IsDiff(v: int) { -0xFFFF <= v <= 0xFFFF }

  /** The differences a decoder accepts. */
  predicate IsSmallDiff(v: int) { -0x8000 <= v <= 0x8000 }

  predicate IsContext(ctx: nat) { ctx <= 16 && ctx % 4 == 0 }

  /** The decisions for a DC difference v (Figures F.4 to F.9). */
  function DcDecisions(tbl: nat, ctx: nat, v: int): seq<Decision>
    requires tbl < NUM_ARITH_TBLS && IsContext(ctx)
  {
    var st := DcBin(tbl, ctx);
    if v == 0 then [Decision(st, false)]
    else
      [Decision(st, true), Decision(st + 1, v < 0)] + DcMagnitude(tbl, st + if v > 0 then 2 else 3, Abs(v) - 1)
  }

  function DcMagnitude(tbl: nat, st: nat, w: nat): seq<Decision>
    requires tbl < NUM_ARITH_TBLS
  {
    if w == 0 then [Decision(st, false)]
    else [Decision(st, true)] + Tail(DcBin(tbl, 20), w, w)
  }

  /** The conditioning category for the next difference (section F.1.4.4.1.2). */
  function NextContext(c: Comp, v: int): (ctx: nat)
    ensures IsContext(ctx)
  {
    if v == 0 then 0
    else
      var w := Abs(v) - 1;
      var m := if w == 0 then 0 else Pow2(Log2(w));
      var small := if v > 0 then 4 else 8;
      if m < Pow2(c.l) / 2 then 0
      else if m > Pow2(c.u) / 2 then small + 8
      else small
  }

  lemma LeadingBit(w: nat, k: nat)
    requires w >= 1
    ensures Pow2(Log2(w)) >= Pow2(k) <==> w >= Pow2(k)
  {
    hide Pow2, Log2;
    Log2Bounds(w);
    if Log2(w) < k {
      PowersApart(Log2(w), k);
    } else if k < Log2(w) {
      PowersApart(k, Log2(w));
    }
  }

  /**
   The conditioning category in terms of the difference alone: zero up to half the lower bound, then small or
   large, positive or negative, the large ones beyond the upper bound.
   */
  lemma ContextOf(c: Comp, v: int)
    ensures v == 0 ==> NextContext(c, v) == 0
    ensures v != 0 ==> (NextContext(c, v) == 0 <==> Abs(v) <= Pow2(c.l) / 2)
    ensures v != 0 && Abs(v) > Pow2(c.l) / 2 ==>
      NextContext(c, v) == (if v > 0 then 4 else 8) + if Abs(v) > Pow2(c.u) then 8 else 0
  {
    hide Log2;
    if v != 0 {
      var w := Abs(v) - 1;
      HalfBound(w, c.l);
      HalfBound(w, c.u);
    }
  }

  /** How the leading bit of w compares with half a power of two. */
  lemma HalfBound(w: nat, k: nat)
    ensures var m := if w == 0 then 0 else Pow2(Log2(w));
      && (m < Pow2(k) / 2 <==> w + 1 <= Pow2(k) / 2) && (m > Pow2(k) / 2 <==> w + 1 > Pow2(k))
  {
    hide Log2;
    if k > 0 {
      Pow2Next(k - 1);
      if w > 0 {
        LeadingBit(w, k - 1);
        LeadingBit(w, k);
        NoneBetween(Log2(w), k - 1);
      }
    }
  }

  lemma NoneBetween(j: nat, k: nat)
    ensures Pow2(j) > Pow2(k) <==> Pow2(j) >= Pow2(k + 1)
  {
    hide Pow2;
    Pow2Next(k);
    if k < j {
      PowersApart(k, j);
    } else if j < k {
      PowersApart(j, k);
    }
  }

  /** The magnitude of a nonzero difference, less one. */
  function DecDcMagnitude(dec: Decoder, tbl: nat, st: nat): (r: Option<(nat, Decoder)>)
    requires Reads(dec) && tbl < NUM_ARITH_TBLS && st < ALL_BINS
    ensures r.Some? ==> Reads(r.value.1)
  {
    var (more, dec1) := DecodeBit(dec, st);
    if !more then Some((0, dec1)) else DecTail(dec1, DcBin(tbl, 20), 0)
  }

  function DecDc(dec: Decoder, tbl: nat, ctx: nat): (r: Option<(int, Decoder)>)
    requires Reads(dec) && tbl < NUM_ARITH_TBLS && IsContext(ctx)
    ensures r.Some? ==> Reads(r.value.1)
  {
    var st := DcBin(tbl, ctx);
    var (nonzero, dec1) := DecodeBit(dec, st);
    if !nonzero then Some((0, dec1))
    else
      var (neg, dec2) := DecodeBit(dec1, st + 1);
      match DecDcMagnitude(dec2, tbl, st + if neg then 3 else 2)
      case None => None
      case Some((w, dec3)) => Some((if neg then -(w + 1) else w + 1, dec3))
  }

  lemma DcMagnitudeRoundTrip(dec: Decoder, tbl: nat, st: nat, w: nat, rest: seq<Decision>)
    requires Reads(dec) && tbl < NUM_ARITH_TBLS && st < ALL_BINS && w < 0x8000
    requires Follows(dec, DcMagnitude(tbl, st, w) + rest)
    ensures var r := DecDcMagnitude(dec, tbl, st);
      && r.Some? && r.value.0 == w && Follows(r.value.1, rest)
      && After(dec, DcMagnitude(tbl, st, w) + rest) == After(r.value.1, rest)
  {
    hide DecodeBit, Follows, After, DecTail, Tail, Log2, DcBin;
    if w == 0 {
      FollowsHead(dec, Decision(st, false), rest);
    } else {
      var tail := Tail(DcBin(tbl, 20), w, w);
      assert DcMagnitude(tbl, st, w) + rest == [Decision(st, true)] + (tail + rest);
      FollowsHead(dec, Decision(st, true), tail + rest);
      var dec1 := DecodeBit(dec, st).1;
      FollowsConcat(dec1, tail, rest);
      Pow2At16();
      Log2Limit(w, 15);
      TailRoundTrip(dec1, DcBin(tbl, 20), w, w, 0);
    }
  }

  lemma DcRoundTrip(dec: Decoder, tbl: nat, ctx: nat, v: int, rest: seq<Decision>)
    requires Reads(dec) && tbl < NUM_ARITH_TBLS && IsContext(ctx) && IsSmallDiff(v)
    requires Follows(dec, DcDecisions(tbl, ctx, v) + rest)
    ensures var r := DecDc(dec, tbl, ctx);
      && r.Some? && r.value.0 == v && Follows(r.value.1, rest)
      && After(dec, DcDecisions(tbl, ctx, v) + rest) == After(r.value.1, rest)
  {
    hide DecodeBit, Follows, After, DecDcMagnitude, DcMagnitude, DcBin;
    var st := DcBin(tbl, ctx);
    if v == 0 {
      FollowsHead(dec, Decision(st, false), rest);
    } else {
      var st2 := st + if v > 0 then 2 else 3;
      var mag := DcMagnitude(tbl, st2, Abs(v) - 1);
      var sign := Decision(st + 1, v < 0);
      assert DcDecisions(tbl, ctx, v) + rest == [Decision(st, true)] + ([sign] + (mag + rest));
      FollowsHead(dec, Decision(st, true), [sign] + (mag + rest));
      var dec1 := DecodeBit(dec, st).1;
      FollowsHead(dec1, sign, mag + rest);
      var dec2 := DecodeBit(dec1, st + 1).1;
      DcMagnitudeRoundTrip(dec2, tbl, st2, Abs(v) - 1, rest);
    }
  }

  /** A difference beyond 2^15 in magnitude is coded, but the decoder reports an overflow. */
  lemma DcOverflow(dec: Decoder, tbl: nat, ctx: nat, v: int, rest: seq<Decision>)
    requires Reads(dec) && tbl < NUM_ARITH_TBLS && IsContext(ctx) && !IsSmallDiff(v)
    requires Follows(dec, DcDecisions(tbl, ctx, v) + rest)
    ensures DecDc(dec, tbl, ctx) == None
  {
    hide DecodeBit, Follows, After, Tail;
    var st := DcBin(tbl, ctx);
    var w := Abs(v) - 1;
    var st2 := st + if v > 0 then 2 else 3;
    var sign := Decision(st + 1, v < 0);
    var tail := Tail(DcBin(tbl, 20), w, w);
    assert DcDecisions(tbl, ctx, v) + rest ==
      [Decision(st, true)] + ([sign] + ([Decision(st2, true)] + (tail + rest)));
    FollowsHead(dec, Decision(st, true), [sign] + ([Decision(st2, true)] + (tail + rest)));
    var dec1 := DecodeBit(dec, st).1;
    FollowsHead(dec1, sign, [Decision(st2, true)] + (tail + rest));
    var dec2 := DecodeBit(dec1, st + 1).1;
    FollowsHead(dec2, Decision(st2, true), tail + rest);
    var dec3 := DecodeBit(dec2, st2).1;
    TailOverflow(dec3, DcBin(tbl, 20), w, rest);
  }

  lemma TailOverflow(dec: Decoder, st: nat, w: nat, rest: seq<Decision>)
    requires Reads(dec) && w >= 0x8000 && st + MAX_CATEGORY + 14 < ALL_BINS
    requires Follows(dec, Tail(st, w, w) + rest)
    ensures DecTail(dec, st, 0) == None
  {
    hide DecodeBit, Follows, DecPattern, Pattern;
    Pow2At16();
    Log2AtLeast(w, 15);
    var more := [Decision(st + Log2(w), false)] + Pattern(st + Log2(w) + 14, Log2(w), w) + rest;
    assert Tail(st, w, w) + rest == Unary(st, w) + more;
    CategoryOverflow(dec, st, w, 0, more);
  }

  // ----- AC coefficients -----

  predicate IsCoef(v: int) { -0x8000 <= v <= 0x7FFF }

  predicate IsBlock(zz: seq<int>)
  {
    |zz| == 64 && forall k :: 0 <= k < 64 ==> IsCoef(zz[k])
  }

  /** A band of coefficients: those from ss to se of AC table tbl, with conditioning value kx. */
  datatype Band = Band(tbl: nat, kx: nat, se: nat)

  predicate BandOk(b: Band) { b.tbl < NUM_ARITH_TBLS && b.se < 64 }

  /** The last index up to e with a nonzero coefficient, or 0. */
  function LastNonzero(zz: seq<int>, e: nat): (ke: nat)
    requires e < |zz|
    ensures ke <= e && (ke > 0 ==> zz[ke] != 0)
    ensures forall i :: ke < i <= e ==> zz[i] == 0
  {
    if e == 0 then 0 else if zz[e] != 0 then e else LastNonzero(zz, e - 1)
  }

  /** Bin SE of coefficient k; S0 and SP/SN follow it (section F.1.4.4.2). */
  function AcSlot(b: Band, k: nat, i: nat): nat
    requires BandOk(b) && 1 <= k < 64 && i < 3
  {
    AcBin(b.tbl, 3 * (k - 1) + i)
  }

  function AcMagnitude(b: Band, k: nat, w: nat): seq<Decision>
    requires BandOk(b) && 1 <= k < 64
  {
    var st := AcSlot(b, k, 2);
    if w == 0 then [Decision(st, false)]
    else if w == 1 then [Decision(st, true), Decision(st, false)]
    else [Decision(st, true), Decision(st, true)] + Tail(HighBin(b, k), w / 2, w)
  }

  /** Bins X2... for low and high coefficients. */
  function HighBin(b: Band, k: nat): (st: nat)
    requires BandOk(b)
    ensures st + MAX_CATEGORY + 14 < ALL_BINS
  {
    AcBin(b.tbl, if k <= b.kx then 189 else 217)
  }

  /** The decisions for coefficients k..se when ke is the last nonzero one (Figure F.5). */
  function AcDecisions(b: Band, zz: seq<int>, ke: nat, k: nat): seq<Decision>
    requires BandOk(b) && |zz| == 64 && ke <= b.se && 1 <= k <= 64
    requires ke >= k ==> zz[ke] != 0
    decreases 64 - k, 1
  {
    if k > ke then (if k <= b.se then [Decision(AcSlot(b, k, 0), true)] else [])
    else [Decision(AcSlot(b, k, 0), false)] + AcRun(b, zz, ke, k)
  }

  function AcRun(b: Band, zz: seq<int>, ke: nat, k: nat): seq<Decision>
    requires BandOk(b) && |zz| == 64 && ke <= b.se && 1 <= k <= ke
    requires zz[ke] != 0
    decreases 64 - k, 0
  {
    if zz[k] == 0 then [Decision(AcSlot(b, k, 1), false)] + AcRun(b, zz, ke, k + 1)
    else
      [Decision(AcSlot(b, k, 1), true)] + ([Decision(FIXED_BIN, zz[k] < 0)] +
      (AcMagnitude(b, k, Abs(zz[k]) - 1) + AcDecisions(b, zz, ke, k + 1)))
  }

  function DecAcMagnitude(dec: Decoder, b: Band, k: nat): (r: Option<(nat, Decoder)>)
    requires Reads(dec) && BandOk(b) && 1 <= k < 64
    ensures r.Some? ==> Reads(r.value.1)
  {
    var st := AcSlot(b, k, 2);
    var (more, dec1) := DecodeBit(dec, st);
    if !more then Some((0, dec1))
    else
      var (high, dec2) := DecodeBit(dec1, st);
      if !high then Some((1, dec2)) else DecTail(dec2, HighBin(b, k), 1)
  }

  function Zeros(n: nat): seq<int> { seq(n, i => 0) }

  /** Reads coefficients k..se (section F.2.4.2). */
  function DecAc(dec: Decoder, b: Band, k: nat): (r: Option<(seq<int>, Decoder)>)
    requires Reads(dec) && BandOk(b) && 1 <= k <= b.se + 1
    ensures r.Some? ==> Reads(r.value.1)
    decreases 64 - k, 1
  {
    if k > b.se then Some(([], dec))
    else
      var (eob, dec1) := DecodeBit(dec, AcSlot(b, k, 0));
      if eob then Some((Zeros(b.se + 1 - k), dec1)) else DecAcRun(dec1, b, k)
  }

  function DecAcRun(dec: Decoder, b: Band, k: nat): (r: Option<(seq<int>, Decoder)>)
    requires Reads(dec) && BandOk(b) && 1 <= k <= b.se + 1
    ensures r.Some? ==> Reads(r.value.1)
    decreases 64 - k, 0
  {
    if k > b.se then None
    else
      var (nonzero, dec1) := DecodeBit(dec, AcSlot(b, k, 1));
      if !nonzero then Prepend(0, DecAcRun(dec1, b, k + 1))
      else
        var (neg, dec2) := DecodeBit(dec1, FIXED_BIN);
        match DecAcMagnitude(dec2, b, k)
        case None => None
        case Some((w, dec3)) => Prepend(if neg then -(w + 1) else w + 1, DecAc(dec3, b, k + 1))
  }

  function Prepend(v: int, r: Option<(seq<int>, Decoder)>): (r': Option<(seq<int>, Decoder)>)
    ensures r'.Some? <==> r.Some?
    ensures r.Some? ==> r'.value == ([v] + r.value.0, r.value.1)
  {
    match r
    case None => None
    case Some((vs, dec)) => Some(([v] + vs, dec))
  }

  lemma AcMagnitudeRoundTrip(dec: Decoder, b: Band, k: nat, w: nat, rest: seq<Decision>)
    requires Reads(dec) && BandOk(b) && 1 <= k < 64 && w < 0x8000
    requires Follows(dec, AcMagnitude(b, k, w) + rest)
    ensures var r := DecAcMagnitude(dec, b, k);
      && r.Some? && r.value.0 == w && Follows(r.value.1, rest)
      && After(dec, AcMagnitude(b, k, w) + rest) == After(r.value.1, rest)
  {
    hide DecodeBit, Follows, After, DecTail, Tail;
    var st := AcSlot(b, k, 2);
    if w == 0 {
      FollowsHead(dec, Decision(st, false), rest);
    } else {
      var second := Decision(st, w >= 2);
      var tail := if w == 1 then [] else Tail(HighBin(b, k), w / 2, w);
      assert AcMagnitude(b, k, w) + rest == [Decision(st, true)] + ([second] + (tail + rest));
      FollowsHead(dec, Decision(st, true), [second] + (tail + rest));
      var dec1 := DecodeBit(dec, st).1;
      FollowsHead(dec1, second, tail + rest);
      var dec2 := DecodeBit(dec1, st).1;
      if w == 1 {
        assert tail + rest == rest;
      } else {
        FollowsConcat(dec2, tail, rest);
        Pow2At16();
        Log2Limit(w, 15);
        TailRoundTrip(dec2, HighBin(b, k), w / 2, w, 1);
      }
    }
  }

  /** Every coefficient of the band comes back. */
  lemma {:induction false} AcRoundTrip(dec: Decoder, b: Band, zz: seq<int>, ke: nat, k: nat, rest: seq<Decision>)
    requires Reads(dec) && BandOk(b) && IsBlock(zz) && 1 <= k <= b.se + 1
    requires ke <= b.se && (ke >= k ==> zz[ke] != 0)
    requires forall i :: ke < i <= b.se ==> zz[i] == 0
    requires Follows(dec, AcDecisions(b, zz, ke, k) + rest)
    ensures var r := DecAc(dec, b, k);
      && r.Some? && r.value.0 == zz[k..b.se + 1] && Follows(r.value.1, rest)
      && After(dec, AcDecisions(b, zz, ke, k) + rest) == After(r.value.1, rest)
    decreases 64 - k, 1
  {
    hide DecodeBit, Follows, After, AcRun, DecAcRun;
    if k > ke {
      if k <= b.se {
        FollowsHead(dec, Decision(AcSlot(b, k, 0), true), rest);
        assert zz[k..b.se + 1] == Zeros(b.se + 1 - k);
      } else {
        assert AcDecisions(b, zz, ke, k) + rest == rest;
      }
    } else {
      var d := Decision(AcSlot(b, k, 0), false);
      assert AcDecisions(b, zz, ke, k) + rest == [d] + (AcRun(b, zz, ke, k) + rest);
      FollowsHead(dec, d, AcRun(b, zz, ke, k) + rest);
      AcRunRoundTrip(DecodeBit(dec, d.bin).1, b, zz, ke, k, rest);
    }
  }

  lemma {:induction false} AcRunRoundTrip(dec: Decoder, b: Band, zz: seq<int>, ke: nat, k: nat, rest: seq<Decision>)
    requires Reads(dec) && BandOk(b) && IsBlock(zz) && 1 <= k <= ke <= b.se && zz[ke] != 0
    requires forall i :: ke < i <= b.se ==> zz[i] == 0
    requires Follows(dec, AcRun(b, zz, ke, k) + rest)
    ensures var r := DecAcRun(dec, b, k);
      && r.Some? && r.value.0 == zz[k..b.se + 1] && Follows(r.value.1, rest)
      && After(dec, AcRun(b, zz, ke, k) + rest) == After(r.value.1, rest)
    decreases 64 - k, 0
  {
    hide DecodeBit, Follows, After, DecAc, AcDecisions, AcMagnitude, DecAcMagnitude;
    assert zz[k..b.se + 1] == [zz[k]] + zz[k + 1..b.se + 1];
    if zz[k] == 0 {
      var d := Decision(AcSlot(b, k, 1), false);
      var more := AcRun(b, zz, ke, k + 1) + rest;
      assert AcRun(b, zz, ke, k) + rest == [d] + more;
      FollowsHead(dec, d, more);
      AcRunRoundTrip(DecodeBit(dec, d.bin).1, b, zz, ke, k + 1, rest);
    } else {
      var d1, d2 := Decision(AcSlot(b, k, 1), true), Decision(FIXED_BIN, zz[k] < 0);
      var mag, more := AcMagnitude(b, k, Abs(zz[k]) - 1), AcDecisions(b, zz, ke, k + 1) + rest;
      assert AcRun(b, zz, ke, k) + rest == [d1] + ([d2] + (mag + more));
      FollowsHead(dec, d1, [d2] + (mag + more));
      var dec1 := DecodeBit(dec, d1.bin).1;
      FollowsHead(dec1, d2, mag + more);
      var dec2 := DecodeBit(dec1, d2.bin).1;
      AcMagnitudeRoundTrip(dec2, b, k, Abs(zz[k]) - 1, more);
      AcRoundTrip(DecAcMagnitude(dec2, b, k).value.1, b, zz, ke, k + 1, rest);
    }
  }

  // ----- refinement of AC coefficients (section G.1.3.3) -----

  /** The same coefficient with one low bit less. */
  function Half(v: int): int { if v >= 0 then v / 2 else -((-v) / 2) }

  /** From index lo to hi, prev is zz one bit earlier. */
  predicate Refines(zz: seq<int>, prev: seq<int>, lo: nat, hi: nat)
  {
    |zz| == |prev| == 64 && hi < 64 && forall k :: lo <= k <= hi ==> prev[k] == Half(zz[k])
  }

  /** Decisions refining coefficients k..se; ke and kex end the block now and a stage earlier. */
  function RefDecisions(b: Band, zz: seq<int>, ke: nat, kex: nat, k: nat): seq<Decision>
    requires BandOk(b) && |zz| == 64 && ke <= b.se && 1 <= k <= 64
    requires ke >= k ==> zz[ke] != 0
    decreases 64 - k, 1
  {
    if k > ke then (if k <= b.se then [Decision(AcSlot(b, k, 0), true)] else [])
    else
      (if k > kex then [Decision(AcSlot(b, k, 0), false)] else []) + RefRun(b, zz, ke, kex, k)
  }

  function RefRun(b: Band, zz: seq<int>, ke: nat, kex: nat, k: nat): seq<Decision>
    requires BandOk(b) && |zz| == 64 && ke <= b.se && 1 <= k <= ke
    requires zz[ke] != 0
    decreases 64 - k, 0
  {
    if zz[k] == 0 then [Decision(AcSlot(b, k, 1), false)] + RefRun(b, zz, ke, kex, k + 1)
    else RefCoef(b, k, zz[k]) + RefDecisions(b, zz, ke, kex, k + 1)
  }

  /** A correction bit for a coefficient nonzero before, or a new coefficient with its sign. */
  function RefCoef(b: Band, k: nat, v: int): seq<Decision>
    requires BandOk(b) && 1 <= k < 64
  {
    if Abs(v) / 2 != 0 then [Decision(AcSlot(b, k, 2), Abs(v) % 2 == 1)]
    else [Decision(AcSlot(b, k, 1), true), Decision(FIXED_BIN, v < 0)]
  }

  function DecRef(dec: Decoder, b: Band, prev: seq<int>, kex: nat, k: nat): (r: Option<(seq<int>, Decoder)>)
    requires Reads(dec) && BandOk(b) && |prev| == 64 && 1 <= k <= b.se + 1
    ensures r.Some? ==> Reads(r.value.1)
    decreases 64 - k, 1
  {
    if k > b.se then Some(([], dec))
    else if k > kex then
      var (eob, dec1) := DecodeBit(dec, AcSlot(b, k, 0));
      if eob then Some((Zeros(b.se + 1 - k), dec1)) else DecRefRun(dec1, b, prev, kex, k)
    else DecRefRun(dec, b, prev, kex, k)
  }

  function DecRefRun(dec: Decoder, b: Band, prev: seq<int>, kex: nat, k: nat): (r: Option<(seq<int>, Decoder)>)
    requires Reads(dec) && BandOk(b) && |prev| == 64 && 1 <= k <= b.se + 1
    ensures r.Some? ==> Reads(r.value.1)
    decreases 64 - k, 0
  {
    if k > b.se then None
    else if prev[k] != 0 then
      var (bit, dec1) := DecodeBit(dec, AcSlot(b, k, 2));
      var v := if !bit then 2 * prev[k] else if prev[k] < 0 then 2 * prev[k] - 1 else 2 * prev[k] + 1;
      Prepend(v, DecRef(dec1, b, prev, kex, k + 1))
    else
      var (found, dec1) := DecodeBit(dec, AcSlot(b, k, 1));
      if found then
        var (neg, dec2) := DecodeBit(dec1, FIXED_BIN);
        Prepend(if neg then -1 else 1, DecRef(dec2, b, prev, kex, k + 1))
      else Prepend(0, DecRefRun(dec1, b, prev, kex, k + 1))
  }

  /** A decoder holding the previous stage gets exactly one more bit of every coefficient. */
  lemma {:induction false} RefRoundTrip(dec: Decoder, b: Band, zz: seq<int>, prev: seq<int>,
                                        ke: nat, kex: nat, k: nat, rest: seq<Decision>)
    requires Reads(dec) && BandOk(b) && Refines(zz, prev, k, b.se) && 1 <= k <= b.se + 1
    requires ke <= b.se && (ke >= k ==> zz[ke] != 0)
    requires forall i :: ke < i <= b.se ==> zz[i] == 0
    requires kex <= ke || kex < k
    requires Follows(dec, RefDecisions(b, zz, ke, kex, k) + rest)
    ensures var r := DecRef(dec, b, prev, kex, k);
      && r.Some? && r.value.0 == zz[k..b.se + 1] && Follows(r.value.1, rest)
      && After(dec, RefDecisions(b, zz, ke, kex, k) + rest) == After(r.value.1, rest)
    decreases 64 - k, 1
  {
    hide DecodeBit, Follows, After, RefRun, DecRefRun;
    if k > ke {
      if k <= b.se {
        FollowsHead(dec, Decision(AcSlot(b, k, 0), true), rest);
        assert zz[k..b.se + 1] == Zeros(b.se + 1 - k);
      } else {
        assert RefDecisions(b, zz, ke, kex, k) + rest == rest;
      }
    } else if k > kex {
      var d := Decision(AcSlot(b, k, 0), false);
      assert RefDecisions(b, zz, ke, kex, k) + rest == [d] + (RefRun(b, zz, ke, kex, k) + rest);
      FollowsHead(dec, d, RefRun(b, zz, ke, kex, k) + rest);
      RefRunRoundTrip(DecodeBit(dec, d.bin).1, b, zz, prev, ke, kex, k, rest);
    } else {
      assert RefDecisions(b, zz, ke, kex, k) + rest == RefRun(b, zz, ke, kex, k) + rest;
      RefRunRoundTrip(dec, b, zz, prev, ke, kex, k, rest);
    }
  }

  lemma {:induction false} RefRunRoundTrip(dec: Decoder, b: Band, zz: seq<int>, prev: seq<int>,
                                           ke: nat, kex: nat, k: nat, rest: seq<Decision>)
    requires Reads(dec) && BandOk(b) && Refines(zz, prev, k, b.se) && 1 <= k <= ke <= b.se && zz[ke] != 0
    requires forall i :: ke < i <= b.se ==> zz[i] == 0
    requires kex <= ke || kex < k
    requires Follows(dec, RefRun(b, zz, ke, kex, k) + rest)
    ensures var r := DecRefRun(dec, b, prev, kex, k);
      && r.Some? && r.value.0 == zz[k..b.se + 1] && Follows(r.value.1, rest)
      && After(dec, RefRun(b, zz, ke, kex, k) + rest) == After(r.value.1, rest)
    decreases 64 - k, 0
  {
    hide DecodeBit, Follows, After, RefDecisions, DecRef;
    assert zz[k..b.se + 1] == [zz[k]] + zz[k + 1..b.se + 1];
    if zz[k] == 0 {
      var d := Decision(AcSlot(b, k, 1), false);
      var more := RefRun(b, zz, ke, kex, k + 1) + rest;
      assert RefRun(b, zz, ke, kex, k) + rest == [d] + more;
      FollowsHead(dec, d, more);
      RefRunRoundTrip(DecodeBit(dec, d.bin).1, b, zz, prev, ke, kex, k + 1, rest);
    } else {
      var more := RefDecisions(b, zz, ke, kex, k + 1) + rest;
      assert RefRun(b, zz, ke, kex, k) + rest == RefCoef(b, k, zz[k]) + more;
      var d := RefCoef(b, k, zz[k])[0];
      if prev[k] != 0 {
        assert RefCoef(b, k, zz[k]) == [d];
        FollowsHead(dec, d, more);
        RefRoundTrip(DecodeBit(dec, d.bin).1, b, zz, prev, ke, kex, k + 1, rest);
      } else {
        var d2 := Decision(FIXED_BIN, zz[k] < 0);
        assert RefCoef(b, k, zz[k]) + more == [d] + ([d2] + more);
        FollowsHead(dec, d, [d2] + more);
        var dec1 := DecodeBit(dec, d.bin).1;
        FollowsHead(dec1, d2, more);
        RefRoundTrip(DecodeBit(dec1, d2.bin).1, b, zz, prev, ke, kex, k + 1, rest);
      }
    }
  }
}
