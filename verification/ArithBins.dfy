/**
 Where the statistics bins of the decisions lie: every decision of a DC difference is within the 64 bins of its
 DC table, and every decision of a band of coefficients within the 256 bins of its AC table or the one bin of
 fixed probability, for all values the coder can meet (Tables F.4 and F.5 of ITU-T T.81).
 */
module ArithBins {
  import opened Powers
  import opened QmExact
  import opened ArithModel

  /** Every bin lies from lo up to hi, except for decisions at fixed probability. */
  predicate Within(ds: seq<Decision>, lo: nat, hi: nat)
  {
    forall i :: 0 <= i < |ds| ==> lo <= ds[i].bin < hi || ds[i].bin == FIXED_BIN
  }

  lemma {:induction false} UnaryBins(st: nat, v2: nat)
    requires v2 >= 1
    ensures Within(Unary(st, v2), st, st + Log2(v2))
    decreases v2
  {
    if v2 > 1 {
      UnaryBins(st + 1, v2 / 2);
    }
  }

  lemma {:induction false} PatternBins(st: nat, k: nat, w: nat)
    ensures Within(Pattern(st, k, w), st, st + 1)
    decreases k
  {
    if k > 0 {
      PatternBins(st, k - 1, w);
    }
  }

  lemma TailBins(st: nat, v2: nat, w: nat)
    requires v2 >= 1 && w >= 1
    ensures Within(Tail(st, v2, w), st, st + Log2(v2) + 15)
  {
    hide Unary, Pattern, Log2;
    UnaryBins(st, v2);
    PatternBins(st + Log2(v2) + 14, Log2(w), w);
  }

  /** A DC difference uses the 64 bins of its table. */
  lemma DcDecisionBins(tbl: nat, ctx: nat, v: int)
    requires tbl < NUM_ARITH_TBLS && IsContext(ctx) && IsDiff(v)
    ensures Within(DcDecisions(tbl, ctx, v), DcBin(tbl, 0), DcBin(tbl, 0) + DC_STAT_BINS)
  {
    hide Tail, Log2, Pow2;
    var w := if v == 0 then 0 else Abs(v) - 1;
    if w > 0 {
      Pow2At16();
      Log2Limit(w, 16);
      TailBins(DcBin(tbl, 20), w, w);
    }
  }

  /** The bins of an AC table. */
  predicate InTable(ds: seq<Decision>, tbl: nat)
    requires tbl < NUM_ARITH_TBLS
  {
    Within(ds, AcBin(tbl, 0), AcBin(tbl, 0) + AC_STAT_BINS)
  }

  lemma InTableConcat(x: seq<Decision>, y: seq<Decision>, tbl: nat)
    requires tbl < NUM_ARITH_TBLS && InTable(x, tbl) && InTable(y, tbl)
    ensures InTable(x + y, tbl)
  {
  }

  /** The three bins of coefficient k, and the fixed one. */
  lemma SlotInTable(b: Band, k: nat, i: nat, bit: bool, sign: bool)
    requires BandOk(b) && 1 <= k < 64 && i < 3
    ensures InTable([Decision(AcSlot(b, k, i), bit)], b.tbl)
    ensures InTable([], b.tbl) && InTable([Decision(FIXED_BIN, sign)], b.tbl)
  {
  }

  lemma AcMagnitudeBins(b: Band, k: nat, w: nat)
    requires BandOk(b) && 1 <= k < 64 && w < 0x8000
    ensures InTable(AcMagnitude(b, k, w), b.tbl)
  {
    if w > 1 {
      Pow2At16();
      Log2Limit(w / 2, 14);
      TailBins(HighBin(b, k), w / 2, w);
    }
  }

  /** A band of coefficients uses the 256 bins of its table and the fixed one. */
  lemma {:induction false} AcDecisionBins(b: Band, zz: seq<int>, ke: nat, k: nat)
    requires BandOk(b) && |zz| == 64 && ke <= b.se && 1 <= k <= 64
    requires ke >= k ==> zz[ke] != 0
    requires forall i :: 0 <= i < 64 ==> Abs(zz[i]) <= 0x8000
    ensures InTable(AcDecisions(b, zz, ke, k), b.tbl)
    decreases 64 - k, 1
  {
    hide AcMagnitude, InTable, AcSlot, AcRun;
    if k < 64 {
      SlotInTable(b, k, 0, k > ke, false);
      if k <= ke {
        AcRunBins(b, zz, ke, k);
        InTableConcat([Decision(AcSlot(b, k, 0), false)], AcRun(b, zz, ke, k), b.tbl);
      } else {
        SlotInTable(b, k, 0, true, false);
      }
    } else {
      SlotInTable(b, 1, 0, true, false);
    }
  }

  lemma {:induction false} AcRunBins(b: Band, zz: seq<int>, ke: nat, k: nat)
    requires BandOk(b) && |zz| == 64 && ke <= b.se && 1 <= k <= ke && zz[ke] != 0
    requires forall i :: 0 <= i < 64 ==> Abs(zz[i]) <= 0x8000
    ensures InTable(AcRun(b, zz, ke, k), b.tbl)
    decreases 64 - k, 0
  {
    hide AcMagnitude, InTable, AcSlot, AcDecisions;
    SlotInTable(b, k, 1, zz[k] != 0, zz[k] < 0);
    if zz[k] == 0 {
      AcRunBins(b, zz, ke, k + 1);
      InTableConcat([Decision(AcSlot(b, k, 1), false)], AcRun(b, zz, ke, k + 1), b.tbl);
    } else {
      var mag, rest := AcMagnitude(b, k, Abs(zz[k]) - 1), AcDecisions(b, zz, ke, k + 1);
      AcMagnitudeBins(b, k, Abs(zz[k]) - 1);
      AcDecisionBins(b, zz, ke, k + 1);
      InTableConcat(mag, rest, b.tbl);
      InTableConcat([Decision(FIXED_BIN, zz[k] < 0)], mag + rest, b.tbl);
      InTableConcat([Decision(AcSlot(b, k, 1), true)], [Decision(FIXED_BIN, zz[k] < 0)] + (mag + rest), b.tbl);
    }
  }

  /** So does a refinement of the band. */
  lemma {:induction false} RefDecisionBins(b: Band, zz: seq<int>, ke: nat, kex: nat, k: nat)
    requires BandOk(b) && |zz| == 64 && ke <= b.se && 1 <= k <= 64
    requires ke >= k ==> zz[ke] != 0
    ensures InTable(RefDecisions(b, zz, ke, kex, k), b.tbl)
    decreases 64 - k, 1
  {
    hide InTable, AcSlot, RefRun;
    SlotInTable(b, if k < 64 then k else 1, 0, k > ke, false);
    if k <= ke {
      RefRunBins(b, zz, ke, kex, k);
      InTableConcat(if k > kex then [Decision(AcSlot(b, k, 0), false)] else [], RefRun(b, zz, ke, kex, k), b.tbl);
    }
  }

  lemma {:induction false} RefRunBins(b: Band, zz: seq<int>, ke: nat, kex: nat, k: nat)
    requires BandOk(b) && |zz| == 64 && ke <= b.se && 1 <= k <= ke && zz[ke] != 0
    ensures InTable(RefRun(b, zz, ke, kex, k), b.tbl)
    decreases 64 - k, 0
  {
    hide InTable, RefDecisions, AcSlot, RefCoef;
    if zz[k] == 0 {
      SlotInTable(b, k, 1, false, false);
      RefRunBins(b, zz, ke, kex, k + 1);
      InTableConcat([Decision(AcSlot(b, k, 1), false)], RefRun(b, zz, ke, kex, k + 1), b.tbl);
    } else {
      RefCoefBins(b, k, zz[k]);
      RefDecisionBins(b, zz, ke, kex, k + 1);
      InTableConcat(RefCoef(b, k, zz[k]), RefDecisions(b, zz, ke, kex, k + 1), b.tbl);
    }
  }

  lemma RefCoefBins(b: Band, k: nat, v: int)
    requires BandOk(b) && 1 <= k < 64
    ensures InTable(RefCoef(b, k, v), b.tbl)
  {
    hide AcSlot, InTable;
    SlotInTable(b, k, 2, Abs(v) % 2 == 1, v < 0);
    SlotInTable(b, k, 1, true, v < 0);
    if Abs(v) / 2 == 0 {
      InTableConcat([Decision(AcSlot(b, k, 1), true)], [Decision(FIXED_BIN, v < 0)], b.tbl);
      assert RefCoef(b, k, v) == [Decision(AcSlot(b, k, 1), true)] + [Decision(FIXED_BIN, v < 0)];
    }
  }

  // ----- which decisions share bins -----

  predicate Apart(x: seq<Decision>, y: seq<Decision>)
  {
    forall i, j :: 0 <= i < |x| && 0 <= j < |y| ==> x[i].bin != y[j].bin
  }

  /** Decision i of a unary code: true but for the end, each in a bin of its own. */
  lemma {:induction false} UnaryAt(st: nat, v2: nat, i: nat)
    requires v2 >= 1 && i < |Unary(st, v2)|
    ensures |Unary(st, v2)| == Log2(v2) && Unary(st, v2)[i] == Decision(st + i, true)
    decreases v2
  {
    if i > 0 {
      UnaryAt(st + 1, v2 / 2, i - 1);
    } else if v2 / 2 > 1 {
      UnaryAt(st + 1, v2 / 2, 0);
    }
  }

  lemma {:induction false} UnaryLength(st: nat, v2: nat)
    requires v2 >= 1
    ensures |Unary(st, v2)| == Log2(v2)
    decreases v2
  {
    if v2 > 1 {
      UnaryLength(st + 1, v2 / 2);
    }
  }

  /** Decision i of a pattern: the bit below the i bits given before. */
  lemma {:induction false} PatternAt(st: nat, k: nat, w: nat, i: nat)
    requires i < k
    ensures |Pattern(st, k, w)| == k && Pattern(st, k, w)[i] == Decision(st, (w / Pow2(k - 1 - i)) % 2 == 1)
    decreases k
  {
    if i > 0 {
      PatternAt(st, k - 1, w, i - 1);
    } else if k > 1 {
      PatternAt(st, k - 1, w, 0);
    }
  }

  predicate BitOf(w: nat, i: nat) { (w / Pow2(i)) % 2 == 1 }

  /** Decision i of a tail: the number of bits below the leading one of v2, then the bits of w below its own. */
  lemma TailAt(st: nat, v2: nat, w: nat, i: nat)
    requires v2 >= 1 && w >= 1 && i < Log2(v2) + 1 + Log2(w)
    ensures |Tail(st, v2, w)| == Log2(v2) + 1 + Log2(w)
    ensures Tail(st, v2, w)[i] == if i <= Log2(v2) then Decision(st + i, i < Log2(v2))
      else Decision(st + Log2(v2) + 14, BitOf(w, Log2(v2) + Log2(w) - i))
  {
    hide Unary, Pattern, Log2, Pow2;
    var n, k := Log2(v2), Log2(w);
    UnaryLength(st, v2);
    PatternLength(st + n + 14, k, w);
    if i < n {
      UnaryAt(st, v2, i);
    } else if i > n {
      PatternAt(st + n + 14, k, w, i - 1 - n);
    }
  }

  /** How many decisions a DC difference takes. */
  lemma DcDecisionCount(tbl: nat, ctx: nat, v: int)
    requires tbl < NUM_ARITH_TBLS && IsContext(ctx) && IsDiff(v)
    ensures |DcDecisions(tbl, ctx, v)| == if v == 0 then 1 else if Abs(v) == 1 then 3 else 4 + 2 * Log2(Abs(v) - 1)
  {
    hide Unary, Pattern, Log2, Pow2;
    if Abs(v) > 1 {
      var w := Abs(v) - 1;
      UnaryLength(DcBin(tbl, 20), w);
      PatternLength(DcBin(tbl, 20) + Log2(w) + 14, Log2(w), w);
    }
  }

  /**
   The first decisions for a DC difference (Table F.4), each in a bin that the conditioning chooses: zero or not, sign,
   magnitude above one or not.
   */
  lemma DcFirstThree(tbl: nat, ctx: nat, v: int)
    requires tbl < NUM_ARITH_TBLS && IsContext(ctx) && IsDiff(v)
    ensures var ds := DcDecisions(tbl, ctx, v); |ds| >= 1 && ds[0] == Decision(DcBin(tbl, ctx), v != 0)
    ensures v != 0 ==> |DcDecisions(tbl, ctx, v)| >= 3
    ensures v != 0 ==> DcDecisions(tbl, ctx, v)[1] == Decision(DcBin(tbl, ctx + 1), v < 0)
    ensures v != 0 ==> DcDecisions(tbl, ctx, v)[2] == Decision(DcBin(tbl, ctx + if v > 0 then 2 else 3), Abs(v) > 1)
  {
    hide Tail;
  }

  /**
   The other ones, in bins common to all contexts: the number of bits of the magnitude less one, with a bin for each
   count, and the bits below its leading one, from the top, in a bin for that number.
   */
  lemma DcOthers(tbl: nat, ctx: nat, v: int, i: nat)
    requires tbl < NUM_ARITH_TBLS && IsContext(ctx) && IsDiff(v) && Abs(v) > 1 && i < 1 + 2 * Log2(Abs(v) - 1)
    ensures Log2(Abs(v) - 1) <= 15 && |DcDecisions(tbl, ctx, v)| == 4 + 2 * Log2(Abs(v) - 1)
    ensures var k := Log2(Abs(v) - 1);
      DcDecisions(tbl, ctx, v)[3 + i] == if i <= k then Decision(DcBin(tbl, 20 + i), i < k)
        else Decision(DcBin(tbl, 34 + k), BitOf(Abs(v) - 1, 2 * k - i))
  {
    hide Tail, Log2, BitOf;
    var w := Abs(v) - 1;
    DcDecisionCount(tbl, ctx, v);
    Log2At16(w);
    TailAt(DcBin(tbl, 20), w, w, i);
    assert DcDecisions(tbl, ctx, v)[3 + i] == Tail(DcBin(tbl, 20), w, w)[i];
  }

  /**
   The decisions for the magnitude w + 1 of AC coefficient k (Table F.5): above one or not and above two or not in
   the last bin of the coefficient, then the number of bits and the bits in the pool of low or high coefficients.
   */
  lemma AcMagnitudeAt(b: Band, k: nat, w: nat, i: nat)
    requires BandOk(b) && 1 <= k < 64 && (w > 1 ==> i < 1 + Log2(w / 2) + Log2(w))
    ensures var ds := AcMagnitude(b, k, w); |ds| >= 1 && ds[0] == Decision(AcBin(b.tbl, 3 * k - 1), w > 0)
    ensures w > 0 ==> |AcMagnitude(b, k, w)| >= 2
    ensures w > 0 ==> AcMagnitude(b, k, w)[1] == Decision(AcBin(b.tbl, 3 * k - 1), w > 1)
    ensures w > 1 ==> |AcMagnitude(b, k, w)| == 3 + Log2(w / 2) + Log2(w)
    ensures HighBin(b, k) == AcBin(b.tbl, if k <= b.kx then 189 else 217)
    ensures w > 1 && i <= Log2(w / 2) ==> AcMagnitude(b, k, w)[2 + i] == Decision(HighBin(b, k) + i, i < Log2(w / 2))
    ensures w > 1 && i > Log2(w / 2) ==>
      AcMagnitude(b, k, w)[2 + i] == Decision(HighBin(b, k) + Log2(w / 2) + 14, BitOf(w, Log2(w / 2) + Log2(w) - i))
  {
    hide Tail, Log2, BitOf;
    if w > 1 {
      TailAt(HighBin(b, k), w / 2, w, i);
      assert AcMagnitude(b, k, w)[2 + i] == Tail(HighBin(b, k), w / 2, w)[i];
    }
  }

  /**
   The flags in front of coefficient k of a band (Table F.5): end of block or not in the first of its bins, where the
   run of zeros has not ruled it out; zero or not in the second one; then the sign at fixed probability.
   */
  lemma AcFlags(b: Band, zz: seq<int>, ke: nat, k: nat)
    requires BandOk(b) && |zz| == 64 && 1 <= k <= b.se && ke <= b.se && (ke >= k ==> zz[ke] != 0)
    ensures k > ke ==> AcDecisions(b, zz, ke, k) == [Decision(AcBin(b.tbl, 3 * k - 3), true)]
    ensures k <= ke ==> AcDecisions(b, zz, ke, k) == [Decision(AcBin(b.tbl, 3 * k - 3), false)] + AcRun(b, zz, ke, k)
    ensures k <= ke && zz[k] == 0 ==>
      AcRun(b, zz, ke, k) == [Decision(AcBin(b.tbl, 3 * k - 2), false)] + AcRun(b, zz, ke, k + 1)
    ensures k <= ke && zz[k] != 0 ==> |AcRun(b, zz, ke, k)| >= 3
    ensures k <= ke && zz[k] != 0 ==>
      AcRun(b, zz, ke, k)[..2] == [Decision(AcBin(b.tbl, 3 * k - 2), true), Decision(FIXED_BIN, zz[k] < 0)]
    ensures k <= ke && zz[k] != 0 ==>
      AcRun(b, zz, ke, k)[2..] == AcMagnitude(b, k, Abs(zz[k]) - 1) + AcDecisions(b, zz, ke, k + 1)
  {
    hide AcMagnitude;
    if k <= ke && zz[k] != 0 {
      AcMagnitudeAt(b, k, Abs(zz[k]) - 1, 0);
    }
  }

  /**
   The same for a refinement (section G.1.3.3): no end of block before the one of the stage before, a bit in the third
   bin for a coefficient nonzero before, and the sign for a new one.
   */
  lemma RefFlags(b: Band, zz: seq<int>, ke: nat, kex: nat, k: nat)
    requires BandOk(b) && |zz| == 64 && 1 <= k <= b.se && ke <= b.se && (ke >= k ==> zz[ke] != 0)
    ensures k > ke ==> RefDecisions(b, zz, ke, kex, k) == [Decision(AcBin(b.tbl, 3 * k - 3), true)]
    ensures kex < k <= ke ==>
      RefDecisions(b, zz, ke, kex, k) == [Decision(AcBin(b.tbl, 3 * k - 3), false)] + RefRun(b, zz, ke, kex, k)
    ensures k <= ke && k <= kex ==> RefDecisions(b, zz, ke, kex, k) == RefRun(b, zz, ke, kex, k)
    ensures k <= ke && zz[k] == 0 ==>
      RefRun(b, zz, ke, kex, k) == [Decision(AcBin(b.tbl, 3 * k - 2), false)] + RefRun(b, zz, ke, kex, k + 1)
    ensures k <= ke && Abs(zz[k]) == 1 ==>
      RefRun(b, zz, ke, kex, k)
        == [Decision(AcBin(b.tbl, 3 * k - 2), true), Decision(FIXED_BIN, zz[k] < 0)] + RefDecisions(b, zz, ke, kex, k + 1)
    ensures k <= ke && Abs(zz[k]) > 1 ==>
      RefRun(b, zz, ke, kex, k)
        == [Decision(AcBin(b.tbl, 3 * k - 1), zz[k] % 2 == 1)] + RefDecisions(b, zz, ke, kex, k + 1)
  {
    if k <= ke && Abs(zz[k]) > 1 {
      assert Abs(zz[k]) % 2 == zz[k] % 2;
    }
  }

  lemma Log2At16(w: nat)
    requires 1 <= w <= 0xFFFF
    ensures Log2(w) <= 15
  {
    Pow2At16();
    Log2Limit(w, 16);
  }

  lemma {:induction false} PatternLength(st: nat, k: nat, w: nat)
    ensures |Pattern(st, k, w)| == k
    decreases k
  {
    if k > 0 {
      PatternLength(st, k - 1, w);
    }
  }

  /** Different conditioning, or different tables, means different bins for the first three decisions. */
  lemma ContextsApart(tbl1: nat, ctx1: nat, tbl2: nat, ctx2: nat, i: nat, j: nat)
    requires tbl1 < NUM_ARITH_TBLS && tbl2 < NUM_ARITH_TBLS && IsContext(ctx1) && IsContext(ctx2) && i < 4 && j < 4
    ensures DcBin(tbl1, ctx1 + i) == DcBin(tbl2, ctx2 + j) <==> tbl1 == tbl2 && ctx1 == ctx2 && i == j
    ensures DcBin(tbl1, ctx1 + i) < DcBin(tbl1, 20)
  {
    assert ctx1 == 4 * (ctx1 / 4) && ctx2 == 4 * (ctx2 / 4);
  }

  /** The three bins of a coefficient are its own, and no magnitude bin. */
  lemma SlotsApart(b: Band, k: nat, i: nat, l: nat, j: nat)
    requires BandOk(b) && 1 <= k < 64 && 1 <= l < 64 && i < 3 && j < 3
    ensures AcSlot(b, k, i) == AcSlot(b, l, j) <==> k == l && i == j
    ensures AcSlot(b, k, i) < AcBin(b.tbl, 189)
  {
  }

  /** Coefficients up to kx and those above it keep apart statistics of their magnitudes. */
  lemma PoolsApart(b: Band, k: nat, l: nat, v: nat, w: nat)
    requires BandOk(b) && 1 <= k <= b.kx < l < 64 && v <= 0x7FFF && w <= 0x7FFF
    ensures Apart(AcMagnitude(b, k, v), AcMagnitude(b, l, w))
  {
    hide AcSlot, Tail;
    InPool(b, k, v);
    InPool(b, l, w);
    SlotsApart(b, k, 2, l, 2);
    SlotsApart(b, l, 2, k, 2);
  }

  lemma TailInside(st: nat, v2: nat, w: nat)
    requires v2 >= 1 && w >= 1 && Log2(v2) < 14
    ensures forall i :: 0 <= i < |Tail(st, v2, w)| ==> st <= Tail(st, v2, w)[i].bin < st + 28
  {
    hide Unary, Pattern, Log2;
    var u, p := Unary(st, v2), Pattern(st + Log2(v2) + 14, Log2(w), w);
    UnaryLength(st, v2);
    PatternLength(st + Log2(v2) + 14, Log2(w), w);
    forall i | 0 <= i < |u| ensures st <= u[i].bin < st + 28 {
      UnaryAt(st, v2, i);
    }
    forall i | 0 <= i < |p| ensures st <= p[i].bin < st + 28 {
      PatternAt(st + Log2(v2) + 14, Log2(w), w, i);
    }
    assert Tail(st, v2, w) == u + ([Decision(st + Log2(v2), false)] + p);
  }

  /** Where the statistics of magnitudes lie: the last bin of the coefficient, and the pool it belongs to. */
  lemma InPool(b: Band, k: nat, w: nat)
    requires BandOk(b) && 1 <= k < 64 && w <= 0x7FFF
    ensures forall i :: 0 <= i < |AcMagnitude(b, k, w)| ==>
      var bin := AcMagnitude(b, k, w)[i].bin;
      bin == AcSlot(b, k, 2) || HighBin(b, k) <= bin < HighBin(b, k) + 28
  {
    hide AcSlot, Tail, Log2, Pow2;
    if w > 1 {
      Pow2At16();
      Pow2Next(14);
      Log2Limit(w / 2, 14);
      TailInside(HighBin(b, k), w / 2, w);
      var ds, tail := AcMagnitude(b, k, w), Tail(HighBin(b, k), w / 2, w);
      forall i | 0 <= i < |ds|
        ensures ds[i].bin == AcSlot(b, k, 2) || HighBin(b, k) <= ds[i].bin < HighBin(b, k) + 28
      {
        if i >= 2 {
          assert ds[i] == tail[i - 2];
        }
      }
    }
  }
}
