/**
 Encoding MCUs with the arithmetic coder: the loops of jcarith.c that turn DC differences and AC
 coefficients into binary decisions.
 */
module ArithScan {
  import opened Powers
  import opened ByteStreams
  import opened QmTable
  import opened QmExact
  import opened QmRegisters
  import opened ArithModel
  import opened ArithEncoder
  import opened Zigzag

  const MAX_COMPS_IN_SCAN: nat := 4

  /** The point transform of an AC coefficient: division by 2^al, rounding towards zero. */
  function ShiftAc(v: int, al: nat): int
  {
    if v >= 0 then v / Pow2(al) else -((-v) / Pow2(al))
  }

  /** A block in zigzag order after the point transform. */
  function Transformed(block: seq<int>, al: nat): (zz: seq<int>)
    requires |block| == 64
    ensures |zz| == 64
  {
    seq(64, k requires 0 <= k < 64 => ShiftAc(block[NaturalOrder(k)], al))
  }

  lemma TransformedAt(block: seq<int>, al: nat, k: nat)
    requires |block| == 64 && k < 64
    ensures Transformed(block, al)[k] == ShiftAc(block[NaturalOrder(k)], al)
  {
  }

  class ScanEncoder {
    const enc: Encoder
    const lastDcVal: array<int>
    const dcContext: array<int>

    ghost predicate Valid()
      reads this, enc, enc.stats, lastDcVal, dcContext
    {
      && enc.Valid()
      && enc.stats.Length == ALL_BINS
      && lastDcVal.Length == dcContext.Length == MAX_COMPS_IN_SCAN
      && lastDcVal != dcContext && lastDcVal != enc.stats && dcContext != enc.stats
      && forall i :: 0 <= i < MAX_COMPS_IN_SCAN ==> 0 <= dcContext[i] && IsContext(dcContext[i])
    }

    /** Start of a scan: zeroed statistics, except the bin of fixed probability. */
    constructor ()
      ensures Valid() && enc.trace == [] && enc.output == [] && enc.sent == []
      ensures enc.start == Coder(Interval(0, 0x10000, 0), enc.stats[..])
      ensures fresh(enc) && fresh(enc.stats) && fresh(lastDcVal) && fresh(dcContext)
      ensures forall i :: 0 <= i < ALL_BINS ==> enc.stats[i] == if i == FIXED_BIN then 113 else 0
      ensures forall i :: 0 <= i < MAX_COMPS_IN_SCAN ==> lastDcVal[i] == 0 && dcContext[i] == 0
    {
      enc := new Encoder(ALL_BINS);
      lastDcVal := new int[MAX_COMPS_IN_SCAN](i => 0);
      dcContext := new int[MAX_COMPS_IN_SCAN](i => 0);
      new;
      enc.stats[FIXED_BIN] := 113;
      enc.StartSegment();
    }

    /** Figure F.8: one decision for each further bit of the magnitude category. */
    method EncodeCategory(st0: nat, w: nat, m0: nat, ghost j0: nat) returns (st: nat, m: nat)
      requires enc.Valid() && enc.stats.Length == ALL_BINS
      requires w >= 1 && st0 + Log2(w) < ALL_BINS && m0 == Pow2(j0)
      modifies enc, enc.stats
      ensures enc.Valid() && enc.start == old(enc.start) && enc.sent == old(enc.sent)
      ensures enc.trace == old(enc.trace) + Unary(st0, w)
      ensures st == st0 + Log2(w) && m == Pow2(j0 + Log2(w))
    {
      hide Encoder.Valid;
      st, m := st0, m0;
      var v2 := w;
      ghost var j: nat := j0;
      while v2 / 2 != 0
        invariant enc.Valid() && enc.start == old(enc.start) && enc.sent == old(enc.sent)
        invariant v2 >= 1 && st0 <= st && st + Log2(v2) == st0 + Log2(w)
        invariant enc.trace + Unary(st, v2) == old(enc.trace) + Unary(st0, w)
        invariant m == Pow2(j) && j + Log2(v2) == j0 + Log2(w)
        decreases v2
      {
        ghost var t := enc.trace;
        v2 := v2 / 2;
        enc.Encode(st, true);
        m := 2 * m;
        j := j + 1;
        st := st + 1;
        assert t + ([Decision(st - 1, true)] + Unary(st, v2)) == enc.trace + Unary(st, v2);
      }
      assert v2 == 1;
      assert enc.trace + [] == enc.trace;
    }

    /** Figure F.9: the bits of w below its leading one. */
    method EncodePattern(st: nat, m0: nat, w: nat, ghost k0: nat)
      requires enc.Valid() && enc.stats.Length == ALL_BINS
      requires st < ALL_BINS && m0 == Pow2(k0)
      modifies enc, enc.stats
      ensures enc.Valid() && enc.start == old(enc.start) && enc.sent == old(enc.sent)
      ensures enc.trace == old(enc.trace) + Pattern(st, k0, w)
    {
      hide Encoder.Valid;
      var m := m0;
      ghost var k := k0;
      while m / 2 != 0
        invariant enc.Valid() && enc.start == old(enc.start) && enc.sent == old(enc.sent)
        invariant m == Pow2(k)
        invariant enc.trace + Pattern(st, k, w) == old(enc.trace) + Pattern(st, k0, w)
        decreases m
      {
        ghost var t := enc.trace;
        m := m / 2;
        k := k - 1;
        var bit := (w / m) % 2 == 1;
        enc.Encode(st, bit);
        assert t + ([Decision(st, bit)] + Pattern(st, k, w)) == enc.trace + Pattern(st, k, w);
      }
      assert enc.trace + [] == enc.trace;
    }

    /** Figures F.8 and F.9 for a DC difference; m is the leading one bit of w, or 0. */
    method EncodeDcMagnitude(tbl: nat, st0: nat, w: nat) returns (m: nat)
      requires enc.Valid() && enc.stats.Length == ALL_BINS
      requires tbl < NUM_ARITH_TBLS && st0 < ALL_BINS && w <= 0xFFFF
      modifies enc, enc.stats
      ensures enc.Valid() && enc.start == old(enc.start) && enc.sent == old(enc.sent)
      ensures enc.trace == old(enc.trace) + DcMagnitude(tbl, st0, w)
      ensures m == if w == 0 then 0 else Pow2(Log2(w))
    {
      hide Encoder.Valid, Log2, Unary, Pattern;
      ghost var t := enc.trace;
      if w == 0 {
        enc.Encode(st0, false);
        return 0;
      }
      enc.Encode(st0, true);
      m := EncodeTail(DcBin(tbl, 20), w, w, 1, 0);
      assert enc.trace == t + ([Decision(st0, true)] + Tail(DcBin(tbl, 20), w, w));
    }

    /** The category of v2, then the bits of w. */
    method EncodeTail(st0: nat, v2: nat, w: nat, m0: nat, ghost j0: nat) returns (m: nat)
      requires enc.Valid() && enc.stats.Length == ALL_BINS
      requires 1 <= v2 && 1 <= w <= 0xFFFF && st0 + 29 < ALL_BINS
      requires m0 == Pow2(j0) && j0 + Log2(v2) == Log2(w)
      modifies enc, enc.stats
      ensures enc.Valid() && enc.start == old(enc.start) && enc.sent == old(enc.sent)
      ensures enc.trace == old(enc.trace) + Tail(st0, v2, w)
      ensures m == Pow2(Log2(w))
    {
      hide Encoder.Valid, Log2, Pow2, Unary, Pattern;
      ghost var t := enc.trace;
      Log2Fits(w);
      var st;
      st, m := EncodeCategory(st0, v2, m0, j0);
      enc.Encode(st, false);
      EncodePattern(st + 14, m, w, Log2(w));
      ghost var u, d, p := Unary(st0, v2), [Decision(st, false)], Pattern(st + 14, Log2(w), w);
      assert t + u + d + p == t + (u + (d + p));
    }

    /** Codes the DC value of component ci as a difference (sections F.1.4.1 and F.1.4.4.1). */
    method EncodeDc(c: Comp, ci: nat, value: int)
      requires Valid() && CompOk(c) && ci < MAX_COMPS_IN_SCAN && IsDiff(value - lastDcVal[ci])
      modifies enc, enc.stats, lastDcVal, dcContext
      ensures Valid() && enc.start == old(enc.start) && enc.sent == old(enc.sent)
      ensures enc.trace ==
        old(enc.trace) + DcDecisions(c.dcTbl, old(dcContext[ci]), value - old(lastDcVal[ci]))
      ensures lastDcVal[..] == old(lastDcVal[..])[ci := value]
      ensures dcContext[..] == old(dcContext[..])[ci := NextContext(c, value - old(lastDcVal[ci]))]
    {
      hide Encoder.Valid, Log2, Pow2, DcMagnitude;
      var st: nat := DcBin(c.dcTbl, dcContext[ci]);
      var v := value - lastDcVal[ci];
      if v == 0 {
        enc.Encode(st, false);
        dcContext[ci] := 0;
      } else {
        lastDcVal[ci] := value;
        enc.Encode(st, true);
        if v > 0 {
          enc.Encode(st + 1, false);
          st := st + 2;
          dcContext[ci] := 4;
        } else {
          v := -v;
          enc.Encode(st + 1, true);
          st := st + 3;
          dcContext[ci] := 8;
        }
        var m := EncodeDcMagnitude(c.dcTbl, st, v - 1);
        if m < Pow2(c.l) / 2 {
          dcContext[ci] := 0;
        } else if m > Pow2(c.u) / 2 {
          dcContext[ci] := dcContext[ci] + 8;
        }
      }
    }
  
    /** Figure F.8 and F.9 for coefficient k, whose magnitude is w + 1. */
    method EncodeAcMagnitude(b: Band, k: nat, w: nat)
      requires enc.Valid() && enc.stats.Length == ALL_BINS
      requires BandOk(b) && 1 <= k < 64 && w <= 0x7FFF
      modifies enc, enc.stats
      ensures enc.Valid() && enc.start == old(enc.start) && enc.sent == old(enc.sent)
      ensures enc.trace == old(enc.trace) + AcMagnitude(b, k, w)
    {
      hide Encoder.Valid, Unary, Pattern, Tail;
      var st := AcBin(b.tbl, 3 * (k - 1) + 2);
      if w == 0 {
        enc.Encode(st, false);
        return;
      }
      enc.Encode(st, true);
      if w / 2 == 0 {
        enc.Encode(st, false);
      } else {
        enc.Encode(st, true);
        assert Pow2(1) == 2 * Pow2(0);
        var m := EncodeTail(HighBin(b, k), w / 2, w, 2, 1);
      }
    }

    /** The coefficients ss..b.se after the point transform by al (sections F.1.4.2 and G.1.3.2). */
    method EncodeAc(block: seq<int>, b: Band, ss: nat, al: nat)
      requires enc.Valid() && enc.stats.Length == ALL_BINS
      requires IsCoefBlock(block) && BandOk(b) && 1 <= ss <= 64
      modifies enc, enc.stats
      ensures enc.Valid() && enc.start == old(enc.start) && enc.sent == old(enc.sent)
      ensures var zz := Transformed(block, al);
        enc.trace == old(enc.trace) + AcDecisions(b, zz, LastNonzero(zz, b.se), ss)
    {
      hide Encoder.Valid, AcMagnitude, AcRun, Transformed, LastNonzero;
      ghost var zz := Transformed(block, al);
      var ke := FindEnd(block, b.se, al);
      var k := ss;
      ghost var goal := enc.trace + AcDecisions(b, zz, ke, k);
      while k <= ke
        invariant enc.Valid() && enc.start == old(enc.start) && enc.sent == old(enc.sent)
        invariant ss <= k <= 64
        invariant enc.trace + AcDecisions(b, zz, ke, k) == goal
      {
        ghost var t, d, run := enc.trace, Decision(AcSlot(b, k, 0), false), AcRun(b, zz, ke, k);
        assert t + ([d] + run) == goal;
        enc.Encode(AcBin(b.tbl, 3 * (k - 1)), false);
        assert (t + [d]) + run == t + ([d] + run);
        k := EncodeRun(block, b, ke, k, al);
        k := k + 1;
      }
      if k <= b.se {
        enc.Encode(AcBin(b.tbl, 3 * (k - 1)), true);
      }
    }

    /** The zero run from k on and the nonzero coefficient that ends it. */
    method EncodeRun(block: seq<int>, b: Band, ke: nat, k0: nat, al: nat) returns (k: nat)
      requires enc.Valid() && enc.stats.Length == ALL_BINS
      requires IsCoefBlock(block) && BandOk(b) && 1 <= k0 <= ke <= b.se
      requires Transformed(block, al)[ke] != 0
      modifies enc, enc.stats
      ensures enc.Valid() && enc.start == old(enc.start) && enc.sent == old(enc.sent)
      ensures k0 <= k <= ke
      ensures var zz := Transformed(block, al);
        enc.trace + AcDecisions(b, zz, ke, k + 1) == old(enc.trace) + AcRun(b, zz, ke, k0)
    {
      hide Encoder.Valid, AcMagnitude, AcDecisions, ShiftAc, Transformed, NaturalOrder;
      ghost var zz := Transformed(block, al);
      k := k0;
      var v := ShiftAc(block[NaturalOrder(k)], al);
      TransformedAt(block, al, k);
      while v == 0
        invariant enc.Valid() && enc.start == old(enc.start) && enc.sent == old(enc.sent)
        invariant k0 <= k <= ke && v == zz[k]
        invariant enc.trace + AcRun(b, zz, ke, k) == old(enc.trace) + AcRun(b, zz, ke, k0)
        decreases ke - k
      {
        ghost var t, d := enc.trace, Decision(AcSlot(b, k, 1), false);
        enc.Encode(AcBin(b.tbl, 3 * (k - 1) + 1), false);
        k := k + 1;
        v := ShiftAc(block[NaturalOrder(k)], al);
        TransformedAt(block, al, k);
        assert t + ([d] + AcRun(b, zz, ke, k)) == enc.trace + AcRun(b, zz, ke, k);
      }
      ghost var t := enc.trace;
      ghost var d1, d2 := Decision(AcSlot(b, k, 1), true), Decision(FIXED_BIN, v < 0);
      enc.Encode(AcBin(b.tbl, 3 * (k - 1) + 1), true);
      enc.Encode(FIXED_BIN, v < 0);
      TransformedAt(block, al, k);
      ShiftAcBound(block[NaturalOrder(k)], al);
      EncodeAcMagnitude(b, k, Abs(v) - 1);
      ghost var mag, more := AcMagnitude(b, k, Abs(v) - 1), AcDecisions(b, zz, ke, k + 1);
      assert t + ([d1] + ([d2] + (mag + more))) == enc.trace + more;
    }

    /** The end-of-block index: the last coefficient that survives the point transform. */
    method FindEnd(block: seq<int>, se: nat, al: nat) returns (ke: nat)
      requires IsCoefBlock(block) && se < 64
      ensures ke == LastNonzero(Transformed(block, al), se)
    {
      ke := se;
      while ke > 0
        invariant ke <= se
        invariant LastNonzero(Transformed(block, al), ke) == LastNonzero(Transformed(block, al), se)
      {
        if ShiftAc(block[NaturalOrder(ke)], al) != 0 {
          break;
        }
        ke := ke - 1;
      }
    }

    /** Refinement of the coefficients ss..b.se from bit al + 1 to bit al (section G.1.3.3). */
    method RefineAc(block: seq<int>, b: Band, ss: nat, ah: nat, al: nat)
      requires enc.Valid() && enc.stats.Length == ALL_BINS
      requires IsCoefBlock(block) && BandOk(b) && 1 <= ss <= 64 && ah == al + 1
      modifies enc, enc.stats
      ensures enc.Valid() && enc.start == old(enc.start) && enc.sent == old(enc.sent)
      ensures var zz, prev := Transformed(block, al), Transformed(block, ah);
        enc.trace == old(enc.trace) +
          RefDecisions(b, zz, LastNonzero(zz, b.se), LastNonzero(prev, b.se), ss)
    {
      hide Encoder.Valid, RefRun, Transformed, LastNonzero;
      ghost var zz, prev := Transformed(block, al), Transformed(block, ah);
      var ke := FindEnd(block, b.se, al);
      var kex := FindEnd(block, ke, ah);
      HalvesRefine(block, al, 0, 63);
      EarlierEnd(zz, prev, ke, b.se);
      var k := ss;
      ghost var goal := enc.trace + RefDecisions(b, zz, ke, kex, k);
      while k <= ke
        invariant enc.Valid() && enc.start == old(enc.start) && enc.sent == old(enc.sent)
        invariant ss <= k <= 64
        invariant enc.trace + RefDecisions(b, zz, ke, kex, k) == goal
      {
        ghost var t, run := enc.trace, RefRun(b, zz, ke, kex, k);
        ghost var eob := if k > kex then [Decision(AcSlot(b, k, 0), false)] else [];
        assert t + (eob + run) == goal;
        if k > kex {
          enc.Encode(AcBin(b.tbl, 3 * (k - 1)), false);
        }
        assert enc.trace == t + eob;
        assert (t + eob) + run == t + (eob + run);
        k := EncodeRefRun(block, b, ke, kex, k, al);
        k := k + 1;
      }
      if k <= b.se {
        enc.Encode(AcBin(b.tbl, 3 * (k - 1)), true);
      }
    }

    method EncodeRefRun(block: seq<int>, b: Band, ke: nat, ghost kex: nat, k0: nat, al: nat) returns (k: nat)
      requires enc.Valid() && enc.stats.Length == ALL_BINS
      requires IsCoefBlock(block) && BandOk(b) && 1 <= k0 <= ke <= b.se
      requires Transformed(block, al)[ke] != 0
      modifies enc, enc.stats
      ensures enc.Valid() && enc.start == old(enc.start) && enc.sent == old(enc.sent)
      ensures k0 <= k <= ke
      ensures var zz := Transformed(block, al);
        enc.trace + RefDecisions(b, zz, ke, kex, k + 1) == old(enc.trace) + RefRun(b, zz, ke, kex, k0)
    {
      hide Encoder.Valid, RefDecisions, ShiftAc, Transformed, NaturalOrder;
      ghost var zz := Transformed(block, al);
      k := k0;
      var v := ShiftAc(block[NaturalOrder(k)], al);
      TransformedAt(block, al, k);
      while v == 0
        invariant enc.Valid() && enc.start == old(enc.start) && enc.sent == old(enc.sent)
        invariant k0 <= k <= ke && v == zz[k]
        invariant enc.trace + RefRun(b, zz, ke, kex, k) == old(enc.trace) + RefRun(b, zz, ke, kex, k0)
        decreases ke - k
      {
        ghost var t, d := enc.trace, Decision(AcSlot(b, k, 1), false);
        enc.Encode(AcBin(b.tbl, 3 * (k - 1) + 1), false);
        k := k + 1;
        v := ShiftAc(block[NaturalOrder(k)], al);
        TransformedAt(block, al, k);
        assert t + ([d] + RefRun(b, zz, ke, kex, k)) == enc.trace + RefRun(b, zz, ke, kex, k);
      }
      ghost var t, more := enc.trace, RefDecisions(b, zz, ke, kex, k + 1);
      if Abs(v) / 2 != 0 {
        enc.Encode(AcBin(b.tbl, 3 * (k - 1) + 2), Abs(v) % 2 == 1);
      } else {
        enc.Encode(AcBin(b.tbl, 3 * (k - 1) + 1), true);
        enc.Encode(FIXED_BIN, v < 0);
      }
      assert enc.trace == t + RefCoef(b, k, v);
      assert t + (RefCoef(b, k, v) + more) == enc.trace + more;
    }

    // ----- MCUs -----

    /** A block of a sequential scan: its DC difference, then its AC coefficients. */
    method EncodeBlock(c: Comp, ci: nat, block: seq<int>)
      requires Valid() && CompOk(c) && ci < MAX_COMPS_IN_SCAN && IsCoefBlock(block)
      requires IsCoef(lastDcVal[ci])
      modifies enc, enc.stats, lastDcVal, dcContext
      ensures Valid() && enc.start == old(enc.start) && enc.sent == old(enc.sent)
      ensures enc.trace == old(enc.trace) + BlockDecisions(c, old(State())[ci], block)
      ensures State() == old(State())[ci := AfterBlock(c, old(State())[ci], block[0])]
    {
      hide Encoder.Valid, DcDecisions, AcDecisions, NextContext, Transformed, LastNonzero;
      EncodeDc(c, ci, block[0]);
      EncodeAc(block, Band(c.acTbl, c.kx, 63), 1, 0);
    }

    /** One MCU of a sequential scan. */
    method EncodeMcu(comps: seq<Comp>, member: seq<nat>, blocks: seq<seq<int>>)
      requires Valid() && McuOk(comps, member, blocks) && Predicted(comps, State())
      modifies enc, enc.stats, lastDcVal, dcContext
      ensures Valid() && enc.start == old(enc.start) && enc.sent == old(enc.sent)
      ensures Predicted(comps, State())
      ensures var m := McuDecisions(comps, member, blocks, old(State()));
        enc.trace == old(enc.trace) + m.0 && State() == m.1
    {
      hide Encoder.Valid, BlockDecisions, McuDecisions, NextContext;
      var blkn := 0;
      ghost var goal := McuDecisions(comps, member, blocks, State());
      assert member[0..] == member && blocks[0..] == blocks;
      while blkn < |blocks|
        invariant 0 <= blkn <= |blocks|
        invariant Valid() && enc.start == old(enc.start) && enc.sent == old(enc.sent)
        invariant Predicted(comps, State())
        invariant var m := McuDecisions(comps, member[blkn..], blocks[blkn..], State());
          enc.trace + m.0 == old(enc.trace) + goal.0 && m.1 == goal.1
      {
        var ci, block := member[blkn], blocks[blkn];
        ghost var t, s := enc.trace, State();
        McuNext(comps, member, blocks, blkn, s);
        EncodeBlock(comps[ci], ci, block);
        ghost var d := BlockDecisions(comps[ci], s[ci], block);
        ghost var rest := McuDecisions(comps, member[blkn + 1..], blocks[blkn + 1..], State()).0;
        assert t + (d + rest) == enc.trace + rest;
        blkn := blkn + 1;
      }
      McuEnd(comps, State());
      assert enc.trace + [] == enc.trace;
    }

    /** The DC values of an MCU after an arithmetic shift by al (section G.1.3.1). */
    method EncodeMcuDcFirst(comps: seq<Comp>, member: seq<nat>, blocks: seq<seq<int>>, al: nat)
      requires Valid() && McuOk(comps, member, blocks) && Predicted(comps, State())
      modifies enc, enc.stats, lastDcVal, dcContext
      ensures Valid() && enc.start == old(enc.start) && enc.sent == old(enc.sent)
      ensures Predicted(comps, State())
      ensures var m := DcFirstDecisions(comps, member, DcValues(blocks, al), old(State()));
        enc.trace == old(enc.trace) + m.0 && State() == m.1
    {
      hide Encoder.Valid, DcDecisions, DcFirstDecisions, NextContext, ShiftDc;
      var blkn := 0;
      ghost var values := DcValues(blocks, al);
      ghost var goal := DcFirstDecisions(comps, member, values, State());
      assert member[0..] == member && values[0..] == values;
      while blkn < |blocks|
        invariant 0 <= blkn <= |blocks|
        invariant Valid() && enc.start == old(enc.start) && enc.sent == old(enc.sent)
        invariant Predicted(comps, State())
        invariant var m := DcFirstDecisions(comps, member[blkn..], values[blkn..], State());
          enc.trace + m.0 == old(enc.trace) + goal.0 && m.1 == goal.1
      {
        var ci, m := member[blkn], ShiftDc(blocks[blkn][0], al);
        ShiftDcBound(blocks[blkn][0], al);
        ghost var t, s := enc.trace, State();
        DcFirstNext(comps, member, values, blkn, s);
        EncodeDc(comps[ci], ci, m);
        assert State() == s[ci := AfterBlock(comps[ci], s[ci], m)];
        ghost var d := DcDecisions(comps[ci].dcTbl, s[ci].ctx, m - s[ci].last);
        ghost var rest := DcFirstDecisions(comps, member[blkn + 1..], values[blkn + 1..], State()).0;
        assert t + (d + rest) == enc.trace + rest;
        blkn := blkn + 1;
      }
      DcFirstEnd(comps, State());
      assert enc.trace + [] == enc.trace;
    }

    /** Bit al of every DC value of an MCU, at fixed probability. */
    method RefineDc(blocks: seq<seq<int>>, al: nat)
      requires enc.Valid() && enc.stats.Length == ALL_BINS
      requires AllBlocks(blocks)
      modifies enc, enc.stats
      ensures enc.Valid() && enc.start == old(enc.start) && enc.sent == old(enc.sent)
      ensures enc.trace == old(enc.trace) + DcRefDecisions(DcValues(blocks, al))
    {
      hide Encoder.Valid, ShiftDc;
      ghost var values := DcValues(blocks, al);
      var blkn := 0;
      assert values[0..] == values;
      while blkn < |blocks|
        invariant 0 <= blkn <= |blocks|
        invariant enc.Valid() && enc.start == old(enc.start) && enc.sent == old(enc.sent)
        invariant enc.trace + DcRefDecisions(values[blkn..]) == old(enc.trace) + DcRefDecisions(values)
      {
        ghost var t := enc.trace;
        var bit := ShiftDc(blocks[blkn][0], al) % 2 == 1;
        assert values[blkn..][1..] == values[blkn + 1..];
        enc.Encode(FIXED_BIN, bit);
        assert t + ([Decision(FIXED_BIN, bit)] + DcRefDecisions(values[blkn + 1..]))
          == enc.trace + DcRefDecisions(values[blkn + 1..]);
        blkn := blkn + 1;
      }
      assert enc.trace + [] == enc.trace;
    }

    // ----- restart markers -----

    /**
     Ends the segment with restart marker num and starts a new one with fresh statistics and
     predictions for the tables and components of the scan.
     */
    method EmitRestart(comps: seq<Comp>, num: nat, dc: bool, ac: bool) returns (ghost digits: seq<int>)
      requires Valid() && num < 8 && |comps| <= MAX_COMPS_IN_SCAN
      requires forall i :: 0 <= i < |comps| ==> CompOk(comps[i])
      modifies enc, enc.stats, lastDcVal, dcContext
      ensures Valid() && enc.trace == [] && enc.sent == enc.output
      ensures enc.output == old(enc.sent) + Stuff(digits) + [0xFF, 0xD0 + num]
      ensures In(Run(old(enc.start), old(enc.trace)).iv, Frac(digits)) && NoTrailingZero(digits)
      ensures forall i :: 0 <= i < MAX_COMPS_IN_SCAN ==>
        State()[i] == if dc && i < |comps| then DcState(0, 0) else old(State())[i]
      ensures forall j :: 0 <= j < ALL_BINS ==>
        enc.stats[j] == if InTables(comps, dc, ac, j) then 0 else old(enc.stats[j])
    {
      hide Encoder.Valid, Run, Frac, In, NoTrailingZero, Stuff, InTables, IsStat;
      enc.FinishPass();
      digits := enc.digits;
      enc.EmitByte(0xFF);
      enc.EmitByte(0xD0 + num);
      forall j | 0 <= j < ALL_BINS && InTables(comps, dc, ac, j) {
        enc.stats[j] := 0;
      }
      if dc {
        forall i | 0 <= i < |comps| {
          lastDcVal[i] := 0;
        }
        forall i | 0 <= i < |comps| {
          dcContext[i] := 0;
        }
      }
      ZeroIsStat();
      enc.StartSegment();
    }

    ghost function State(): (s: seq<DcState>)
      requires Valid()
      reads this, enc, enc.stats, lastDcVal, dcContext
      ensures |s| == MAX_COMPS_IN_SCAN
      ensures forall i :: 0 <= i < MAX_COMPS_IN_SCAN ==>
        s[i] == DcState(lastDcVal[i], dcContext[i]) && IsContext(s[i].ctx)
    {
      seq(MAX_COMPS_IN_SCAN, i requires 0 <= i < MAX_COMPS_IN_SCAN reads this, lastDcVal, dcContext, enc, enc.stats requires Valid() => DcState(lastDcVal[i], dcContext[i]))
    }
  }

  /** Bin j belongs to a DC table (if dc) or an AC table (if ac) of the scan. */
  predicate InTables(comps: seq<Comp>, dc: bool, ac: bool, j: nat)
  {
    exists i :: 0 <= i < |comps| && (
      || (dc && 64 * comps[i].dcTbl <= j < 64 * comps[i].dcTbl + 64)
      || (ac && 1024 + 256 * comps[i].acTbl <= j < 1024 + 256 * comps[i].acTbl + 256))
  }

  lemma ZeroIsStat()
    ensures IsStat(0)
  {
  }

  /** Prediction and conditioning of a component's DC coefficient. */
  datatype DcState = DcState(last: int, ctx: nat)

  predicate McuOk(comps: seq<Comp>, member: seq<nat>, blocks: seq<seq<int>>)
  {
    && |comps| <= MAX_COMPS_IN_SCAN && |member| == |blocks|
    && (forall i :: 0 <= i < |comps| ==> CompOk(comps[i]))
    && (forall i :: 0 <= i < |member| ==> member[i] < |comps|)
    && AllBlocks(blocks)
  }

  predicate AllBlocks(blocks: seq<seq<int>>)
  {
    forall i :: 0 <= i < |blocks| ==> IsCoefBlock(blocks[i])
  }

  /** The predictions are DC values of earlier blocks. */
  predicate Predicted(comps: seq<Comp>, s: seq<DcState>)
  {
    |comps| <= |s| && forall i :: 0 <= i < |comps| ==> IsCoef(s[i].last)
  }

  function BlockDecisions(c: Comp, s: DcState, block: seq<int>): seq<Decision>
    requires CompOk(c) && IsContext(s.ctx) && |block| == 64
  {
    var zz := Transformed(block, 0);
    DcDecisions(c.dcTbl, s.ctx, block[0] - s.last) +
    AcDecisions(Band(c.acTbl, c.kx, 63), zz, LastNonzero(zz, 63), 1)
  }

  function AfterBlock(c: Comp, s: DcState, dc: int): DcState
  {
    DcState(dc, NextContext(c, dc - s.last))
  }

  /** All decisions of an MCU and the state after it. */
  function McuDecisions(comps: seq<Comp>, member: seq<nat>, blocks: seq<seq<int>>, s: seq<DcState>):
    (r: (seq<Decision>, seq<DcState>))
    requires McuOk(comps, member, blocks) && |s| == MAX_COMPS_IN_SCAN
    requires forall i :: 0 <= i < |s| ==> IsContext(s[i].ctx)
    ensures |r.1| == |s| && forall i :: 0 <= i < |s| ==> IsContext(r.1[i].ctx)
    decreases |blocks|
  {
    if blocks == [] then ([], s)
    else
      var ci, block := member[0], blocks[0];
      var next := s[ci := AfterBlock(comps[ci], s[ci], block[0])];
      var rest := McuDecisions(comps, member[1..], blocks[1..], next);
      (BlockDecisions(comps[ci], s[ci], block) + rest.0, rest.1)
  }

  /** The decisions from block n on begin with those of block n. */
  lemma McuNext(comps: seq<Comp>, member: seq<nat>, blocks: seq<seq<int>>, n: nat, s: seq<DcState>)
    requires McuOk(comps, member, blocks) && n < |blocks| && |s| == MAX_COMPS_IN_SCAN
    requires forall i :: 0 <= i < |s| ==> IsContext(s[i].ctx)
    ensures McuOk(comps, member[n..], blocks[n..]) && McuOk(comps, member[n + 1..], blocks[n + 1..])
    ensures var ci := member[n];
      var next := s[ci := AfterBlock(comps[ci], s[ci], blocks[n][0])];
      var rest := McuDecisions(comps, member[n + 1..], blocks[n + 1..], next);
      McuDecisions(comps, member[n..], blocks[n..], s)
        == (BlockDecisions(comps[ci], s[ci], blocks[n]) + rest.0, rest.1)
  {
    hide BlockDecisions, NextContext;
    assert member[n..][1..] == member[n + 1..] && blocks[n..][1..] == blocks[n + 1..];
  }

  lemma McuEnd(comps: seq<Comp>, s: seq<DcState>)
    requires McuOk(comps, [], []) && |s| == MAX_COMPS_IN_SCAN
    requires forall i :: 0 <= i < |s| ==> IsContext(s[i].ctx)
    ensures McuDecisions(comps, [], [], s) == ([], s)
  {
  }

  /** The point transform of a DC coefficient: an arithmetic shift. */
  function ShiftDc(v: int, al: nat): int { v / Pow2(al) }

  lemma ShiftDcBound(v: int, al: nat)
    requires IsCoef(v)
    ensures IsCoef(ShiftDc(v, al))
  {
    var p := Pow2(al);
    var q := v / p;
    assert q * p + v % p == v;
    if q > 0x7FFF {
      MulMonotone(0x8000, q, p);
      MulMonotone(1, p, 0x8000);
    } else if q < -0x8000 {
      MulMonotone(q, -0x8001, p);
      MulMonotone(1, p, 0x8000);
    }
  }

  function DcValues(blocks: seq<seq<int>>, al: nat): (r: seq<int>)
    requires AllBlocks(blocks)
    ensures |r| == |blocks| && forall i :: 0 <= i < |r| ==> r[i] == ShiftDc(blocks[i][0], al)
  {
    seq(|blocks|, i requires 0 <= i < |blocks| => ShiftDc(blocks[i][0], al))
  }

  function DcFirstDecisions(comps: seq<Comp>, member: seq<nat>, values: seq<int>, s: seq<DcState>):
    (r: (seq<Decision>, seq<DcState>))
    requires |comps| <= MAX_COMPS_IN_SCAN && |member| == |values| && |s| == MAX_COMPS_IN_SCAN
    requires forall i :: 0 <= i < |comps| ==> CompOk(comps[i])
    requires forall i :: 0 <= i < |member| ==> member[i] < |comps|
    requires forall i :: 0 <= i < |s| ==> IsContext(s[i].ctx)
    ensures |r.1| == |s| && forall i :: 0 <= i < |s| ==> IsContext(r.1[i].ctx)
    decreases |values|
  {
    if values == [] then ([], s)
    else
      var ci, v := member[0], values[0];
      var next := s[ci := AfterBlock(comps[ci], s[ci], v)];
      var rest := DcFirstDecisions(comps, member[1..], values[1..], next);
      (DcDecisions(comps[ci].dcTbl, s[ci].ctx, v - s[ci].last) + rest.0, rest.1)
  }

  /** The decisions from value n on begin with those of value n. */
  lemma DcFirstNext(comps: seq<Comp>, member: seq<nat>, values: seq<int>, n: nat, s: seq<DcState>)
    requires |comps| <= MAX_COMPS_IN_SCAN && |member| == |values| && |s| == MAX_COMPS_IN_SCAN && n < |values|
    requires forall i :: 0 <= i < |comps| ==> CompOk(comps[i])
    requires forall i :: 0 <= i < |member| ==> member[i] < |comps|
    requires forall i :: 0 <= i < |s| ==> IsContext(s[i].ctx)
    ensures var ci := member[n];
      var next := s[ci := AfterBlock(comps[ci], s[ci], values[n])];
      var rest := DcFirstDecisions(comps, member[n + 1..], values[n + 1..], next);
      DcFirstDecisions(comps, member[n..], values[n..], s)
        == (DcDecisions(comps[ci].dcTbl, s[ci].ctx, values[n] - s[ci].last) + rest.0, rest.1)
  {
    hide DcDecisions, NextContext;
    assert member[n..][1..] == member[n + 1..] && values[n..][1..] == values[n + 1..];
  }

  lemma DcFirstEnd(comps: seq<Comp>, s: seq<DcState>)
    requires |comps| <= MAX_COMPS_IN_SCAN && |s| == MAX_COMPS_IN_SCAN
    requires forall i :: 0 <= i < |comps| ==> CompOk(comps[i])
    requires forall i :: 0 <= i < |s| ==> IsContext(s[i].ctx)
    ensures DcFirstDecisions(comps, [], [], s) == ([], s)
  {
  }

  function DcRefDecisions(values: seq<int>): seq<Decision>
  {
    if values == [] then []
    else [Decision(FIXED_BIN, values[0] % 2 == 1)] + DcRefDecisions(values[1..])
  }

  predicate IsCoefBlock(block: seq<int>)
  {
    |block| == 64 && forall i :: 0 <= i < 64 ==> IsCoef(block[i])
  }

  lemma ShiftAcBound(v: int, al: nat)
    requires IsCoef(v)
    ensures Abs(ShiftAc(v, al)) <= 0x8000
  {
    hide Pow2;
    DivShrinks(Abs(v), Pow2(al));
    assert ShiftAc(v, al) == Abs(v) / Pow2(al) || ShiftAc(v, al) == -(Abs(v) / Pow2(al));
  }

  /** Shifting one bit further halves the transformed coefficient. */
  lemma ShiftOnce(v: int, al: nat)
    ensures ShiftAc(v, al + 1) == Half(ShiftAc(v, al))
  {
    hide Pow2, Half;
    var w, p := Abs(v), Pow2(al);
    Pow2Next(al);
    HalfDiv(w, p);
    DivShrinks(w, p);
    assert Pow2(al + 1) == 2 * p;
    HalfSigned(v, w / p);
  }

  lemma HalfSigned(v: int, q: int)
    requires q >= 0
    ensures Half(if v >= 0 then q else -q) == if v >= 0 then q / 2 else -(q / 2)
  {
  }

  lemma HalvesRefine(block: seq<int>, al: nat, lo: nat, hi: nat)
    requires |block| == 64 && hi < 64
    ensures Refines(Transformed(block, al), Transformed(block, al + 1), lo, hi)
  {
    forall k | lo <= k <= hi
      ensures Transformed(block, al + 1)[k] == Half(Transformed(block, al)[k])
    {
      ShiftOnce(block[NaturalOrder(k)], al);
    }
  }

  /** Searching for the earlier end below the present one finds it. */
  lemma {:induction false} EarlierEnd(zz: seq<int>, prev: seq<int>, ke: nat, e: nat)
    requires Refines(zz, prev, 0, 63) && ke <= e < 64
    requires forall i :: ke < i <= e ==> zz[i] == 0
    ensures LastNonzero(prev, e) == LastNonzero(prev, ke)
  {
    if ke < e {
      assert prev[e] == Half(zz[e]) == 0;
      EarlierEnd(zz, prev, ke, e - 1);
    }
  }

  lemma Log2Fits(v: nat)
    requires 1 <= v <= 0xFFFF
    ensures Log2(v) <= 15
  {
    Pow2At16();
    Log2Limit(v, 16);
  }
}
