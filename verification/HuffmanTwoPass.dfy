/**
 Two-pass Huffman coding: gather statistics, build the tables (finish_pass_gather of jchuff.c), then encode.
 The second pass never meets a symbol without a code.
 */
module HuffmanTwoPass {
  import opened Powers
  import opened Wrappers
  import opened ByteStreams
  import opened HuffmanCode
  import opened HuffmanTable
  import opened HuffmanMerge
  import opened HuffmanOptimal
  import opened HuffmanDeep
  import opened HuffmanBits
  import opened HuffmanBlocks
  import opened HuffmanRoundTrip
  import opened HuffmanScan
  import opened HuffmanFlush
  import opened HuffmanGather

  // ----- the symbols of a scan, table by table -----

  /** DC items of the blocks whose component uses DC table k. */
  function DcItemsOf(units: seq<Unit>, comps: seq<Comp>, last: seq<int>, k: nat): seq<Item>
    requires UnitsOk(units, comps) && |last| == |comps|
  {
    if units == [] then []
    else
      var u := units[0];
      (if comps[u.ci].dcNo == k then [Coded(0, u.block[0] - last[u.ci])] else [])
        + DcItemsOf(units[1..], comps, last[u.ci := u.block[0]], k)
  }

  /** AC items of the blocks whose component uses AC table k. */
  function AcItemsOf(units: seq<Unit>, comps: seq<Comp>, k: nat): seq<Item>
    requires UnitsOk(units, comps)
  {
    if units == [] then []
    else
      var u := units[0];
      (if comps[u.ci].acNo == k then AcItems(u.block, 1, 0) else []) + AcItemsOf(units[1..], comps, k)
  }

  predicate AllSmall(units: seq<Unit>, comps: seq<Comp>, last: seq<int>)
    requires UnitsOk(units, comps) && |last| == |comps|
  {
    units == [] ||
    var u := units[0];
    SmallBlock(u.block, last[u.ci]) && AllSmall(units[1..], comps, last[u.ci := u.block[0]])
  }

  // ----- the first pass -----

  /** counts are the base counts plus those of the items done. */
  ghost predicate Counted(base: seq<seq<int>>, counts: seq<seq<int>>, done: seq<seq<Item>>)
  {
    && |base| == |counts| == |done| == NUM_HUFF_TBLS
    && forall k :: 0 <= k < NUM_HUFF_TBLS ==>
      |base[k]| == SYMBOLS && InCounts(done[k]) && counts[k] == Tally(base[k], done[k])
  }

  lemma CountedMore(base: seq<seq<int>>, counts: seq<seq<int>>, done: seq<seq<Item>>, k: nat, items: seq<Item>)
    requires Counted(base, counts, done) && k < NUM_HUFF_TBLS && InCounts(items)
    ensures |counts[k]| == SYMBOLS
    ensures Counted(base, counts[k := Tally(counts[k], items)], done[k := done[k] + items])
  {
    hide Tally, InCounts;
    TallyConcat(base[k], done[k], items);
  }

  /** done are the items before, and the units left hold the rest of all items. */
  ghost predicate DcSplit(all: seq<seq<Item>>, done: seq<seq<Item>>, units: seq<Unit>, comps: seq<Comp>, last: seq<int>)
    requires UnitsOk(units, comps) && |last| == |comps|
  {
    && |all| == |done| == NUM_HUFF_TBLS
    && forall k :: 0 <= k < NUM_HUFF_TBLS ==> done[k] + DcItemsOf(units, comps, last, k) == all[k]
  }

  ghost predicate AcSplit(all: seq<seq<Item>>, done: seq<seq<Item>>, units: seq<Unit>, comps: seq<Comp>)
    requires UnitsOk(units, comps)
  {
    && |all| == |done| == NUM_HUFF_TBLS
    && forall k :: 0 <= k < NUM_HUFF_TBLS ==> done[k] + AcItemsOf(units, comps, k) == all[k]
  }

  lemma DcSplitStep(all: seq<seq<Item>>, done: seq<seq<Item>>, units: seq<Unit>, comps: seq<Comp>, last: seq<int>)
    requires UnitsOk(units, comps) && CompsOk(comps) && |last| == |comps| && units != []
    requires DcSplit(all, done, units, comps, last)
    ensures var u := units[0];
      var k := comps[u.ci].dcNo;
      DcSplit(all, done[k := done[k] + [Coded(0, u.block[0] - last[u.ci])]], units[1..], comps, last[u.ci := u.block[0]])
  {
    var u := units[0];
    var next := last[u.ci := u.block[0]];
    forall k | 0 <= k < NUM_HUFF_TBLS && k != comps[u.ci].dcNo
      ensures DcItemsOf(units, comps, last, k) == DcItemsOf(units[1..], comps, next, k)
    {
    }
    var k := comps[u.ci].dcNo;
    assert done[k] + ([Coded(0, u.block[0] - last[u.ci])] + DcItemsOf(units[1..], comps, next, k))
      == (done[k] + [Coded(0, u.block[0] - last[u.ci])]) + DcItemsOf(units[1..], comps, next, k);
  }

  lemma AcSplitStep(all: seq<seq<Item>>, done: seq<seq<Item>>, units: seq<Unit>, comps: seq<Comp>)
    requires UnitsOk(units, comps) && CompsOk(comps) && units != [] && AcSplit(all, done, units, comps)
    ensures var u := units[0];
      var k := comps[u.ci].acNo;
      AcSplit(all, done[k := done[k] + AcItems(u.block, 1, 0)], units[1..], comps)
  {
    hide AcItems;
    var u := units[0];
    forall k | 0 <= k < NUM_HUFF_TBLS && k != comps[u.ci].acNo
      ensures AcItemsOf(units, comps, k) == AcItemsOf(units[1..], comps, k)
    {
    }
    var k := comps[u.ci].acNo;
    assert done[k] + (AcItems(u.block, 1, 0) + AcItemsOf(units[1..], comps, k))
      == (done[k] + AcItems(u.block, 1, 0)) + AcItemsOf(units[1..], comps, k);
  }

  lemma SmallStep(units: seq<Unit>, comps: seq<Comp>, last: seq<int>)
    requires UnitsOk(units, comps) && |last| == |comps| && units != []
    ensures AllSmall(units, comps, last) <==>
      SmallBlock(units[0].block, last[units[0].ci]) && AllSmall(units[1..], comps, last[units[0].ci := units[0].block[0]])
  {
  }

  ghost function AllDc(units: seq<Unit>, comps: seq<Comp>, last: seq<int>): (r: seq<seq<Item>>)
    requires UnitsOk(units, comps) && |last| == |comps|
    ensures |r| == NUM_HUFF_TBLS && forall k :: 0 <= k < NUM_HUFF_TBLS ==> r[k] == DcItemsOf(units, comps, last, k)
  {
    [DcItemsOf(units, comps, last, 0), DcItemsOf(units, comps, last, 1),
     DcItemsOf(units, comps, last, 2), DcItemsOf(units, comps, last, 3)]
  }

  ghost function AllAc(units: seq<Unit>, comps: seq<Comp>): (r: seq<seq<Item>>)
    requires UnitsOk(units, comps)
    ensures |r| == NUM_HUFF_TBLS && forall k :: 0 <= k < NUM_HUFF_TBLS ==> r[k] == AcItemsOf(units, comps, k)
  {
    [AcItemsOf(units, comps, 0), AcItemsOf(units, comps, 1), AcItemsOf(units, comps, 2), AcItemsOf(units, comps, 3)]
  }

  lemma SplitEnds(units: seq<Unit>, comps: seq<Comp>, last: seq<int>)
    requires UnitsOk(units, comps) && |last| == |comps|
    ensures DcSplit(AllDc(units, comps, last), [[], [], [], []], units, comps, last)
    ensures AcSplit(AllAc(units, comps), [[], [], [], []], units, comps)
  {
    forall k | 0 <= k < NUM_HUFF_TBLS
      ensures [[], [], [], []][k] + DcItemsOf(units, comps, last, k) == AllDc(units, comps, last)[k]
      ensures [[], [], [], []][k] + AcItemsOf(units, comps, k) == AllAc(units, comps)[k]
    {
    }
  }

  lemma SplitDone(dc: seq<seq<Item>>, ac: seq<seq<Item>>, doneDc: seq<seq<Item>>, doneAc: seq<seq<Item>>,
                  comps: seq<Comp>, last: seq<int>)
    requires |last| == |comps| && DcSplit(dc, doneDc, [], comps, last) && AcSplit(ac, doneAc, [], comps)
    ensures doneDc == dc && doneAc == ac
  {
    forall k | 0 <= k < NUM_HUFF_TBLS ensures doneDc[k] == dc[k] && doneAc[k] == ac[k] {
      assert doneDc[k] + DcItemsOf([], comps, last, k) == dc[k];
      assert doneAc[k] + AcItemsOf([], comps, k) == ac[k];
    }
  }

  lemma NothingCounted(base: seq<seq<int>>)
    requires |base| == NUM_HUFF_TBLS && forall k :: 0 <= k < NUM_HUFF_TBLS ==> |base[k]| == SYMBOLS
    ensures Counted(base, base, [[], [], [], []])
  {
    forall k | 0 <= k < NUM_HUFF_TBLS ensures InCounts([[], [], [], []][k]) && base[k] == Tally(base[k], [[], [], [], []][k]) {
      NoneCounted(base[k]);
    }
  }

  /** encode_mcu_gather over a scan: each table's counts grow by exactly the symbols of its items. */
  method GatherUnits(g: Gatherer, units: seq<Unit>, comps: seq<Comp>) returns (ok: bool)
    requires UnitsOk(units, comps) && CompsOk(comps) && g.Valid() && |g.lastDcVal| == |comps|
    modifies g
    ensures ok <==> AllSmall(units, comps, old(g.lastDcVal))
    ensures ok ==> g.Valid()
    ensures ok ==> Counted(old(g.dcCounts), g.dcCounts, AllDc(units, comps, old(g.lastDcVal)))
    ensures ok ==> Counted(old(g.acCounts), g.acCounts, AllAc(units, comps))
  {
    hide Counted, DcSplit, AcSplit, AllSmall, SmallBlock, AllDc, AllAc, AcItems, Tally, InCounts;
    ghost var dcBase, acBase := g.dcCounts, g.acCounts;
    ghost var dcAll, acAll := AllDc(units, comps, g.lastDcVal), AllAc(units, comps);
    ghost var doneDc: seq<seq<Item>>, doneAc: seq<seq<Item>> := [[], [], [], []], [[], [], [], []];
    SplitEnds(units, comps, g.lastDcVal);
    NothingCounted(dcBase);
    NothingCounted(acBase);
    var i := 0;
    assert units[0..] == units;
    while i < |units|
      invariant 0 <= i <= |units| && g.Valid() && |g.lastDcVal| == |comps| && UnitsOk(units[i..], comps)
      invariant DcSplit(dcAll, doneDc, units[i..], comps, g.lastDcVal) && AcSplit(acAll, doneAc, units[i..], comps)
      invariant Counted(dcBase, g.dcCounts, doneDc) && Counted(acBase, g.acCounts, doneAc)
      invariant AllSmall(units, comps, old(g.lastDcVal)) <==> AllSmall(units[i..], comps, g.lastDcVal)
    {
      var ci, block := units[i].ci, units[i].block;
      assert units[i..][0] == units[i] && units[i..][1..] == units[i + 1..];
      SmallStep(units[i..], comps, g.lastDcVal);
      DcSplitStep(dcAll, doneDc, units[i..], comps, g.lastDcVal);
      AcSplitStep(acAll, doneAc, units[i..], comps);
      ghost var dcK, acK := comps[ci].dcNo, comps[ci].acNo;
      ghost var item, items := [Coded(0, block[0] - g.lastDcVal[ci])], AcItems(block, 1, 0);
      ghost var dcBefore, acBefore := g.dcCounts, g.acCounts;
      ok := g.HtestOneBlock(block, g.lastDcVal[ci], comps[ci].dcNo, comps[ci].acNo);
      if !ok {
        return;
      }
      CountedMore(dcBase, dcBefore, doneDc, dcK, item);
      CountedMore(acBase, acBefore, doneAc, acK, items);
      CountedSizes(dcBase, dcBefore, doneDc);
      CountedSizes(acBase, acBefore, doneAc);
      doneDc, doneAc := doneDc[dcK := doneDc[dcK] + item], doneAc[acK := doneAc[acK] + items];
      g.lastDcVal := g.lastDcVal[ci := block[0]];
      i := i + 1;
    }
    assert units[i..] == [];
    SplitDone(dcAll, acAll, doneDc, doneAc, comps, g.lastDcVal);
    NoUnitsSmall(comps, g.lastDcVal);
    ok := true;
  }

  lemma CountedSizes(base: seq<seq<int>>, counts: seq<seq<int>>, done: seq<seq<Item>>)
    requires Counted(base, counts, done)
    ensures |done| == NUM_HUFF_TBLS
  {
  }

  lemma NoUnitsSmall(comps: seq<Comp>, last: seq<int>)
    requires |last| == |comps|
    ensures AllSmall([], comps, last)
  {
  }

  // ----- the tables -----

  /** t has a code for exactly the symbols counted. */
  ghost predicate BuiltFrom(t: Table, maxSymbol: int, counts: seq<int>)
  {
    && IsTable(t, maxSymbol) && CountsOk(counts)
    && (forall s :: 0 <= s < 256 ==> (HasCode(t.derived, s) <==> counts[s] != 0))
    && (AllShort(counts) ==> LengthsAreDepths(counts, t.derived)) && InDepthOrder(counts, t.derived)
  }

  /** Every code is as long as its symbol is deep in Huffman's tree, 0 meaning that there is none. */
  ghost predicate LengthsAreDepths(counts: seq<int>, d: Derived)
    requires CountsOk(counts)
  {
    |d.ehufsi| == 256 && forall s :: 0 <= s < 256 ==> d.ehufsi[s] == CodeDepths(counts)[s]
  }

  /** Limited or not, no symbol has a longer code than a deeper one, or than a larger one of its depth. */
  ghost predicate InDepthOrder(counts: seq<int>, d: Derived)
    requires CountsOk(counts)
  {
    |d.ehufsi| == 256 && forall s, u :: 0 <= s < 256 && 0 <= u < 256 && counts[s] != 0 && counts[u] != 0 ==>
      Precedes(CodeDepths(counts), s, u) ==> d.ehufsi[s] <= d.ehufsi[u]
  }

  lemma ListedHasCode(bits: seq<int>, huffval: seq<int>, maxSymbol: int, d: Derived, s: int)
    requires |bits| == 17 && |huffval| == 256 && Legal(bits, huffval, maxSymbol) && maxSymbol <= 255
    requires IsDerived(bits, huffval, d) && 0 <= s < 256 && Total(bits, 16) >= 0
    ensures HasCode(d, s) <==> s in huffval[..Total(bits, 16)]
  {
    hide Pow2, CodeSum, CodeAt, Total, Counts;
    if s in huffval[..Total(bits, 16)] {
      var p :| 0 <= p < Total(bits, 16) && huffval[p] == s;
      var l := LengthOf(bits, p, 16);
      CodeRange(bits, p, l);
      NotAllOnes(bits, p, l);
    }
  }

  /** With no depth above 16 the code lengths are the depths. */
  lemma ShortLengths(counts: seq<int>, bits: seq<int>, huffval: seq<int>, d: Derived)
    requires CountsOk(counts) && AllShort(counts) && |bits| == 17 && |huffval| == 256 && IsDerived(bits, huffval, d)
    requires forall l :: 1 <= l <= 16 ==> bits[l] == |ListAt(CodeDepths(counts), 256, l)|
    requires 0 <= Total(bits, 16) <= 256 && huffval[..Total(bits, 16)] == Listed(CodeDepths(counts), MAX_CLEN)
    ensures LengthsAreDepths(counts, d)
  {
    hide CodeDepths, Listed, ListAt, Total, At, CodeAt;
    var depths, listed := CodeDepths(counts), huffval[..Total(bits, 16)];
    forall s | 0 <= s < 256 ensures d.ehufsi[s] == depths[s] {
      if s in listed {
        var p :| 0 <= p < |listed| && listed[p] == s;
        ListedStops(depths, MAX_CLEN);
        ListedAtLength(depths, bits, p, 16);
      } else {
        ListedHas(depths, MAX_CLEN);
        DepthsNotNegative(counts, s);
        assert forall p :: 0 <= p < Total(bits, 16) ==> huffval[p] == listed[p];
      }
    }
  }

  /** The codes get longer along the list, which is in the order of the depths. */
  lemma ListedInOrder(counts: seq<int>, bits: seq<int>, huffval: seq<int>, maxSymbol: int, d: Derived)
    requires CountsOk(counts) && |bits| == 17 && |huffval| == 256 && Legal(bits, huffval, maxSymbol) && maxSymbol <= 255
    requires IsDerived(bits, huffval, d) && 0 <= Total(bits, 16) <= 256
    requires huffval[..Total(bits, 16)] == Listed(CodeDepths(counts), MAX_CLEN)
    requires forall s :: 0 <= s < 256 ==> (s in huffval[..Total(bits, 16)] <==> counts[s] != 0)
    ensures InDepthOrder(counts, d)
  {
    hide CodeDepths, Listed, Total, CodeAt, CodeSum, Pow2, Counts, At;
    var depths, listed := CodeDepths(counts), huffval[..Total(bits, 16)];
    ListedHas(depths, MAX_CLEN);
    forall s, u | 0 <= s < 256 && 0 <= u < 256 && counts[s] != 0 && counts[u] != 0 && Precedes(depths, s, u)
      ensures d.ehufsi[s] <= d.ehufsi[u]
    {
      var p :| 0 <= p < |listed| && listed[p] == s;
      var q :| 0 <= q < |listed| && listed[q] == u;
      Positions(depths, listed, p, q);
      var k := LengthOf(bits, p, 16);
      var l := LengthOf(bits, q, 16);
      LengthsGrow(bits, p, q, k, l);
    }
  }

  lemma Positions(cs: seq<int>, listed: seq<int>, p: nat, q: nat)
    requires forall i, j :: 0 <= i < j < |listed| ==> Precedes(cs, listed[i], listed[j])
    requires p < |listed| && q < |listed| && Precedes(cs, listed[p], listed[q])
    ensures p < q
  {
  }

  lemma LengthsGrow(bits: seq<int>, p: int, q: int, k: nat, l: nat)
    requires Counts(bits) && At(bits, p, k) && At(bits, q, l) && p <= q
    ensures k <= l
  {
    hide Total;
    if l < k {
      SumsMonotone(bits, l, k - 1);
    }
  }

  /** jpeg_gen_optimal_table, then jpeg_make_c_derived_tbl on its result. */
  method BuildTable(isDC: bool, counts: seq<int>) returns (r: Option<Table>)
    requires |counts| == SYMBOLS && forall s :: 0 <= s < 256 ==> counts[s] >= 0
    requires 1 <= CountNonzero(counts, 256) <= 254 && Sum(counts, 256) < FREQ_LIMIT
    requires isDC ==> forall s :: 16 <= s < 256 ==> counts[s] == 0
    ensures r.Some? ==> BuiltFrom(r.value, if isDC then 15 else 255, counts)
    ensures r.None? <==> TooDeep(counts)
    ensures r.None? ==> Sum(counts, 256) + 1 >= 9227465
  {
    hide TooDeep, AllShort, LengthsAreDepths, InDepthOrder, ListAt, CodeDepths, Sum, CountNonzero, Total, CodeSum, Pow2, Listed, Counts, IsDerived, HasCode;
    var freq := new int[257](i requires 0 <= i < 257 => counts[i]);
    assert freq[..] == counts;
    var g := GenOptimalTable(freq);
    if g.None? {
      return None;
    }
    var bits, huffval := g.value.0, g.value.1;
    var maxSymbol := if isDC then 15 else 255;
    assert Legal(bits, huffval, maxSymbol) by {
      forall p | 0 <= p < Total(bits, 16) ensures 0 <= huffval[p] <= maxSymbol {
        assert huffval[..Total(bits, 16)][p] in huffval[..Total(bits, 16)];
      }
    }
    var d := MakeDerived(isDC, bits, huffval);
    forall s | 0 <= s < 256 ensures HasCode(d.value, s) <==> counts[s] != 0 {
      ListedHasCode(bits, huffval, maxSymbol, d.value, s);
    }
    if AllShort(counts) {
      ShortLengths(counts, bits, huffval, d.value);
    }
    ListedInOrder(counts, bits, huffval, maxSymbol, d.value);
    r := Some(Table(bits, huffval, d.value));
  }

  // ----- the counts suit the table builder -----

  lemma {:induction false} DcItemsShape(units: seq<Unit>, comps: seq<Comp>, last: seq<int>, k: nat)
    requires UnitsOk(units, comps) && |last| == |comps| && AllSmall(units, comps, last)
    ensures forall i :: 0 <= i < |DcItemsOf(units, comps, last, k)| ==>
      0 <= DcItemsOf(units, comps, last, k)[i].symbol <= MAX_COEF_BITS + 1
    ensures |DcItemsOf(units, comps, last, k)| <= |units|
    ensures (exists i :: 0 <= i < |units| && comps[units[i].ci].dcNo == k) ==> DcItemsOf(units, comps, last, k) != []
  {
    if units != [] {
      hide NBits, Abs, SmallAcs;
      var u := units[0];
      var rest := DcItemsOf(units[1..], comps, last[u.ci := u.block[0]], k);
      DcItemsShape(units[1..], comps, last[u.ci := u.block[0]], k);
      assert DcItemsOf(units, comps, last, k)
        == (if comps[u.ci].dcNo == k then [Coded(0, u.block[0] - last[u.ci])] else []) + rest;
      if i :| 0 <= i < |units| && comps[units[i].ci].dcNo == k {
        if i > 0 {
          assert units[1..][i - 1] == units[i];
        }
      }
    }
  }

  lemma {:induction false} AcItemsShape(units: seq<Unit>, comps: seq<Comp>, last: seq<int>, k: nat)
    requires UnitsOk(units, comps) && |last| == |comps| && AllSmall(units, comps, last)
    ensures SmallItems(AcItemsOf(units, comps, k))
    ensures |AcItemsOf(units, comps, k)| <= 63 * |units|
    ensures (exists i :: 0 <= i < |units| && comps[units[i].ci].acNo == k) ==> AcItemsOf(units, comps, k) != []
  {
    if units != [] {
      hide AcItems;
      var u := units[0];
      AcItemsShape(units[1..], comps, last[u.ci := u.block[0]], k);
      AcItemsSmall(u.block, 1, 0);
      AcItemsLength(u.block, 1, 0);
      SomeAcItem(u.block, 1, 0);
      if i :| 0 <= i < |units| && comps[units[i].ci].acNo == k {
        if i > 0 {
          assert units[1..][i - 1] == units[i];
        }
      }
    }
  }

  /** Counts of some items with symbols below 16 or low nibble at most 10: what the table builder asks for. */
  lemma CountsSuit(base: seq<int>, items: seq<Item>, counts: seq<int>)
    requires |base| == SYMBOLS && (forall s :: 0 <= s < SYMBOLS ==> base[s] == 0)
    requires InCounts(items) && counts == Tally(base, items)
    requires items != [] && SmallItems(items)
    ensures |counts| == SYMBOLS && forall s :: 0 <= s < 256 ==> counts[s] >= 0
    ensures forall s :: 0 <= s < 256 ==>
      (counts[s] != 0 <==> exists i :: 0 <= i < |items| && items[i].symbol == s)
    ensures 1 <= CountNonzero(counts, 256) <= 254 && Sum(counts, 256) == |items|
  {
    hide Tally, Occurrences, Sum, CountNonzero;
    forall s | 0 <= s < 256
      ensures counts[s] >= 0 && (counts[s] != 0 <==> exists i :: 0 <= i < |items| && items[i].symbol == s)
    {
      TallyCounts(base, items, s);
      OccursIff(items, s);
    }
    TallySum(base, items);
    ZeroSum(base, 256);
    SomeNonzero(counts, 256, items[0].symbol);
    assert counts[255] == 0 && counts[254] == 0;
    LastTwo(counts);
  }

  lemma {:induction false} ZeroSum(f: seq<int>, n: nat)
    requires n <= |f| && forall s :: 0 <= s < |f| ==> f[s] == 0
    ensures Sum(f, n) == 0
  {
    if n > 0 {
      ZeroSum(f, n - 1);
    }
  }

  lemma LastTwo(f: seq<int>)
    requires |f| == SYMBOLS && f[254] == 0 && f[255] == 0
    ensures CountNonzero(f, 256) <= 254
  {
    assert CountNonzero(f, 255) == CountNonzero(f, 254);
  }

  // ----- the second pass -----

  /** The tables cover the items of the scan. */
  ghost predicate CoveredDc(units: seq<Unit>, comps: seq<Comp>, t: Tables, last: seq<int>)
    requires UnitsOk(units, comps) && |last| == |comps| && |t.dc| == NUM_HUFF_TBLS
  {
    forall k :: 0 <= k < NUM_HUFF_TBLS ==>
      DcItemsOf(units, comps, last, k) == [] ||
      (IsTable(t.dc[k], 15) && AllCoded(t.dc[k].derived, DcItemsOf(units, comps, last, k)))
  }

  ghost predicate CoveredAc(units: seq<Unit>, comps: seq<Comp>, t: Tables)
    requires UnitsOk(units, comps) && |t.ac| == NUM_HUFF_TBLS
  {
    forall k :: 0 <= k < NUM_HUFF_TBLS ==>
      AcItemsOf(units, comps, k) == [] ||
      (IsTable(t.ac[k], 255) && AllCoded(t.ac[k].derived, AcItemsOf(units, comps, k)))
  }

  lemma CoveredDcStep(units: seq<Unit>, comps: seq<Comp>, t: Tables, last: seq<int>)
    requires UnitsOk(units, comps) && CompsOk(comps) && |last| == |comps| && |t.dc| == NUM_HUFF_TBLS
    requires units != [] && CoveredDc(units, comps, t, last)
    ensures var u := units[0];
      CoveredDc(units[1..], comps, t, last[u.ci := u.block[0]]) && IsTable(t.dc[comps[u.ci].dcNo], 15)
      && HasCode(t.dc[comps[u.ci].dcNo].derived, Coded(0, u.block[0] - last[u.ci]).symbol)
  {
    hide IsTable, HasCode, AllCoded;
    var u := units[0];
    var next := last[u.ci := u.block[0]];
    var it := Coded(0, u.block[0] - last[u.ci]);
    forall k | 0 <= k < NUM_HUFF_TBLS && comps[u.ci].dcNo == k
      ensures IsTable(t.dc[k], 15) && HasCode(t.dc[k].derived, it.symbol)
      ensures AllCoded(t.dc[k].derived, DcItemsOf(units[1..], comps, next, k))
    {
      var more := DcItemsOf(units[1..], comps, next, k);
      assert DcItemsOf(units, comps, last, k) == [it] + more;
      AllCodedConcat(t.dc[k].derived, [it], more);
      Singleton(t.dc[k].derived, it);
    }
    forall k | 0 <= k < NUM_HUFF_TBLS && comps[u.ci].dcNo != k
      ensures DcItemsOf(units, comps, last, k) == DcItemsOf(units[1..], comps, next, k)
    {
    }
  }

  lemma CoveredAcStep(units: seq<Unit>, comps: seq<Comp>, t: Tables)
    requires UnitsOk(units, comps) && CompsOk(comps) && |t.ac| == NUM_HUFF_TBLS
    requires units != [] && CoveredAc(units, comps, t)
    ensures var u := units[0];
      CoveredAc(units[1..], comps, t) && IsTable(t.ac[comps[u.ci].acNo], 255)
      && AllCoded(t.ac[comps[u.ci].acNo].derived, AcItems(u.block, 1, 0))
  {
    hide IsTable, HasCode, AllCoded, AcItems;
    var u := units[0];
    var items := AcItems(u.block, 1, 0);
    SomeAcItem(u.block, 1, 0);
    forall k | 0 <= k < NUM_HUFF_TBLS && comps[u.ci].acNo == k
      ensures IsTable(t.ac[k], 255) && AllCoded(t.ac[k].derived, items)
      ensures AllCoded(t.ac[k].derived, AcItemsOf(units[1..], comps, k))
    {
      var more := AcItemsOf(units[1..], comps, k);
      assert AcItemsOf(units, comps, k) == items + more;
      AllCodedConcat(t.ac[k].derived, items, more);
    }
    forall k | 0 <= k < NUM_HUFF_TBLS && comps[u.ci].acNo != k
      ensures AcItemsOf(units, comps, k) == AcItemsOf(units[1..], comps, k)
    {
    }
  }

  lemma SmallEncodable(b: seq<int>, last: int)
    requires IsBlock(b) && SmallBlock(b, last)
    ensures Encodable(b, last) && NoLeast(b)
  {
    hide NBits, At64;
    forall v | NBits(v) <= MAX_COEF_BITS + 1 ensures v < 0x8000 {
      PowersOrdered(NBits(v), 15);
      Pow2At16();
    }
  }

  /** When the tables cover the items of a scan, every block can be written. */
  lemma {:induction false} CoveredWritable(units: seq<Unit>, comps: seq<Comp>, t: Tables, last: seq<int>)
    requires UnitsOk(units, comps) && Setup(comps, t) && |last| == |comps| && AllSmall(units, comps, last)
    requires CoveredDc(units, comps, t, last) && CoveredAc(units, comps, t)
    ensures Writable(units, comps, t, last) && UnitsNoLeast(units, comps)
  {
    hide IsTable, HasCode, AllCoded, AcItems, CoveredDc, CoveredAc, SmallBlock, Encodable, NoLeast;
    if units != [] {
      var u := units[0];
      CoveredDcStep(units, comps, t, last);
      CoveredAcStep(units, comps, t);
      SmallEncodable(u.block, last[u.ci]);
      CoveredWritable(units[1..], comps, t, last[u.ci := u.block[0]]);
      assert forall i :: 0 < i < |units| ==> units[i] == units[1..][i - 1];
    }
  }

  // ----- both passes -----

  datatype Outcome = Optimal(t: Tables) | BadCoefficient | LengthOverflow

  lemma {:induction false} DcItemsFrom(units: seq<Unit>, comps: seq<Comp>, last: seq<int>, k: nat) returns (i: nat)
    requires UnitsOk(units, comps) && |last| == |comps| && DcItemsOf(units, comps, last, k) != []
    ensures i < |units| && comps[units[i].ci].dcNo == k
  {
    var u := units[0];
    if comps[u.ci].dcNo == k {
      i := 0;
    } else {
      var j := DcItemsFrom(units[1..], comps, last[u.ci := u.block[0]], k);
      i := j + 1;
    }
  }

  lemma {:induction false} AcItemsFrom(units: seq<Unit>, comps: seq<Comp>, k: nat) returns (i: nat)
    requires UnitsOk(units, comps) && AcItemsOf(units, comps, k) != []
    ensures i < |units| && comps[units[i].ci].acNo == k
  {
    if comps[units[0].ci].acNo == k {
      i := 0;
    } else {
      var j := AcItemsFrom(units[1..], comps, k);
      i := j + 1;
    }
  }

  ghost predicate ZeroCounts(counts: seq<seq<int>>)
  {
    && |counts| == NUM_HUFF_TBLS
    && forall k, s :: 0 <= k < NUM_HUFF_TBLS && 0 <= s < SYMBOLS ==> |counts[k]| == SYMBOLS && counts[k][s] == 0
  }

  /** What the counts of one table are after the first pass. */
  ghost predicate CountsOf(counts: seq<int>, items: seq<Item>)
  {
    && |counts| == SYMBOLS && (forall s :: 0 <= s < 256 ==> counts[s] >= 0)
    && (forall s :: 0 <= s < 256 ==> (counts[s] != 0 <==> exists i :: 0 <= i < |items| && items[i].symbol == s))
    && (items != [] ==> 1 <= CountNonzero(counts, 256) <= 254)
    && Sum(counts, 256) == |items| && counts == ItemCounts(items)
    && (forall i :: 0 <= i < |items| ==> 0 <= items[i].symbol < 256)
  }

  lemma CountsOfItems(base: seq<seq<int>>, counts: seq<seq<int>>, all: seq<seq<Item>>, k: nat)
    requires ZeroCounts(base) && Counted(base, counts, all) && k < NUM_HUFF_TBLS && SmallItems(all[k])
    ensures CountsOf(counts[k], all[k])
  {
    hide Tally, Sum, CountNonzero, SmallItems, ItemCounts;
    assert forall s :: 0 <= s < SYMBOLS ==> base[k][s] == 0;
    assert InCounts(all[k]) && counts[k] == Tally(base[k], all[k]);
    TallyFromZero(base[k], all[k]);
    if all[k] == [] {
      NoneCounted(base[k]);
      ZeroSum(base[k], 256);
    } else {
      CountsSuit(base[k], all[k], counts[k]);
    }
  }

  lemma CoveredByCounts(t: Table, maxSymbol: int, counts: seq<int>, items: seq<Item>)
    requires BuiltFrom(t, maxSymbol, counts) && CountsOf(counts, items)
    ensures AllCoded(t.derived, items)
  {
    hide IsTable, HasCode, Sum, CountNonzero;
    forall i | 0 <= i < |items| ensures HasCode(t.derived, items[i].symbol) {
      assert counts[items[i].symbol] != 0;
    }
  }

  /** Everything the first pass leaves for the table builder. */
  ghost predicate Gathered(units: seq<Unit>, comps: seq<Comp>, dcCounts: seq<seq<int>>, acCounts: seq<seq<int>>)
    requires UnitsOk(units, comps)
  {
    && |dcCounts| == |acCounts| == NUM_HUFF_TBLS
    && (forall k :: 0 <= k < NUM_HUFF_TBLS ==> CountsOf(dcCounts[k], DcItemsOf(units, comps, ZeroPredictions(|comps|), k)))
    && (forall k :: 0 <= k < NUM_HUFF_TBLS ==> CountsOf(acCounts[k], AcItemsOf(units, comps, k)))
    && (forall k, s :: 0 <= k < NUM_HUFF_TBLS && 16 <= s < 256 ==> dcCounts[k][s] == 0)
  }

  lemma GatheredAll(units: seq<Unit>, comps: seq<Comp>, zero: seq<seq<int>>, dcCounts: seq<seq<int>>, acCounts: seq<seq<int>>)
    requires UnitsOk(units, comps) && ZeroCounts(zero) && AllSmall(units, comps, ZeroPredictions(|comps|))
    requires Counted(zero, dcCounts, AllDc(units, comps, ZeroPredictions(|comps|)))
    requires Counted(zero, acCounts, AllAc(units, comps))
    ensures Gathered(units, comps, dcCounts, acCounts)
  {
    hide ZeroCounts, AllSmall, CountsOf, Tally, InCounts, AllDc, AllAc, DcItemsOf, AcItemsOf, UnitsOk, ZeroPredictions;
    var last := ZeroPredictions(|comps|);
    forall k | 0 <= k < NUM_HUFF_TBLS ensures CountsOf(dcCounts[k], DcItemsOf(units, comps, last, k)) {
      DcItemsShape(units, comps, last, k);
      CountsOfItems(zero, dcCounts, AllDc(units, comps, last), k);
    }
    forall k | 0 <= k < NUM_HUFF_TBLS ensures CountsOf(acCounts[k], AcItemsOf(units, comps, k)) {
      AcItemsShape(units, comps, last, k);
      CountsOfItems(zero, acCounts, AllAc(units, comps), k);
    }
    forall k, s | 0 <= k < NUM_HUFF_TBLS && 16 <= s < 256 ensures dcCounts[k][s] == 0 {
      DcItemsShape(units, comps, last, k);
      NoSuchSymbol(dcCounts[k], DcItemsOf(units, comps, last, k), s);
    }
  }

  lemma NoSuchSymbol(counts: seq<int>, items: seq<Item>, s: int)
    requires CountsOf(counts, items) && 16 <= s < 256
    requires forall i :: 0 <= i < |items| ==> 0 <= items[i].symbol <= MAX_COEF_BITS + 1
    ensures |counts| == SYMBOLS && counts[s] == 0
  {
  }

  ghost predicate NotTooDeep(counts: seq<int>) { CountsOk(counts) && !TooDeep(counts) }

  /** The symbols of some table of the scan make a Huffman tree deeper than 32. */
  ghost predicate ScanTooDeep(units: seq<Unit>, comps: seq<Comp>)
    requires UnitsOk(units, comps)
  {
    exists c :: 0 <= c < |comps| && ComponentTooDeep(units, comps, c)
  }

  ghost predicate ComponentTooDeep(units: seq<Unit>, comps: seq<Comp>, c: nat)
    requires UnitsOk(units, comps) && c < |comps|
  {
    || TooDeep(ItemCounts(DcItemsOf(units, comps, ZeroPredictions(|comps|), comps[c].dcNo)))
    || TooDeep(ItemCounts(AcItemsOf(units, comps, comps[c].acNo)))
  }

  /** Tables built for the components before c, from the counts. */
  ghost predicate Built(comps: seq<Comp>, c: nat, t: Tables, didDc: seq<bool>, didAc: seq<bool>,
                        dcCounts: seq<seq<int>>, acCounts: seq<seq<int>>)
  {
    && c <= |comps| && CompsOk(comps) && Setup(comps, t)
    && |didDc| == |didAc| == |dcCounts| == |acCounts| == NUM_HUFF_TBLS
    && (forall k :: 0 <= k < NUM_HUFF_TBLS && didDc[k] ==> BuiltFrom(t.dc[k], 15, dcCounts[k]) && NotTooDeep(dcCounts[k]))
    && (forall k :: 0 <= k < NUM_HUFF_TBLS && didAc[k] ==> BuiltFrom(t.ac[k], 255, acCounts[k]) && NotTooDeep(acCounts[k]))
    && (forall i :: 0 <= i < c ==> didDc[comps[i].dcNo] && didAc[comps[i].acNo])
  }

  lemma BuiltCovers(units: seq<Unit>, comps: seq<Comp>, t: Tables, didDc: seq<bool>, didAc: seq<bool>,
                    dcCounts: seq<seq<int>>, acCounts: seq<seq<int>>)
    requires UnitsOk(units, comps) && Built(comps, |comps|, t, didDc, didAc, dcCounts, acCounts)
    requires Gathered(units, comps, dcCounts, acCounts)
    ensures Setup(comps, t)
    ensures CoveredDc(units, comps, t, ZeroPredictions(|comps|)) && CoveredAc(units, comps, t)
  {
    hide BuiltFrom, CountsOf, DcItemsOf, AcItemsOf, AllCoded, IsTable, ZeroPredictions;
    var last := ZeroPredictions(|comps|);
    forall k | 0 <= k < NUM_HUFF_TBLS && DcItemsOf(units, comps, last, k) != []
      ensures IsTable(t.dc[k], 15) && AllCoded(t.dc[k].derived, DcItemsOf(units, comps, last, k))
    {
      var i := DcItemsFrom(units, comps, last, k);
      CoveredByCounts(t.dc[k], 15, dcCounts[k], DcItemsOf(units, comps, last, k));
      BuiltIsTable(t.dc[k], 15, dcCounts[k]);
    }
    forall k | 0 <= k < NUM_HUFF_TBLS && AcItemsOf(units, comps, k) != []
      ensures IsTable(t.ac[k], 255) && AllCoded(t.ac[k].derived, AcItemsOf(units, comps, k))
    {
      var i := AcItemsFrom(units, comps, k);
      CoveredByCounts(t.ac[k], 255, acCounts[k], AcItemsOf(units, comps, k));
      BuiltIsTable(t.ac[k], 255, acCounts[k]);
    }
  }

  /** The counts of the tables of component c, and what too deep a tree means for the scan. */
  lemma BuiltOrDeep(units: seq<Unit>, comps: seq<Comp>, dcCounts: seq<seq<int>>, acCounts: seq<seq<int>>, c: nat)
    requires UnitsOk(units, comps) && CompsOk(comps) && Gathered(units, comps, dcCounts, acCounts) && c < |comps|
    ensures |dcCounts| == |acCounts| == NUM_HUFF_TBLS && comps[c].dcNo < NUM_HUFF_TBLS && comps[c].acNo < NUM_HUFF_TBLS
    ensures CountsOk(dcCounts[comps[c].dcNo]) && CountsOk(acCounts[comps[c].acNo])
    ensures TooDeep(dcCounts[comps[c].dcNo]) || TooDeep(acCounts[comps[c].acNo]) <==> ComponentTooDeep(units, comps, c)
    ensures ComponentTooDeep(units, comps, c) ==> ScanTooDeep(units, comps)
    ensures !TooDeep(dcCounts[comps[c].dcNo]) ==> NotTooDeep(dcCounts[comps[c].dcNo])
    ensures !TooDeep(acCounts[comps[c].acNo]) ==> NotTooDeep(acCounts[comps[c].acNo])
  {
    hide TooDeep, DcItemsOf, AcItemsOf, ItemCounts, Sum, CountNonzero, ZeroPredictions;
    assert CountsOf(dcCounts[comps[c].dcNo], DcItemsOf(units, comps, ZeroPredictions(|comps|), comps[c].dcNo));
    assert CountsOf(acCounts[comps[c].acNo], AcItemsOf(units, comps, comps[c].acNo));
  }

  lemma NoneTooDeep(units: seq<Unit>, comps: seq<Comp>, t: Tables, didDc: seq<bool>, didAc: seq<bool>,
                    dcCounts: seq<seq<int>>, acCounts: seq<seq<int>>)
    requires UnitsOk(units, comps) && Built(comps, |comps|, t, didDc, didAc, dcCounts, acCounts)
    requires Gathered(units, comps, dcCounts, acCounts)
    ensures !ScanTooDeep(units, comps)
  {
    hide TooDeep, Gathered, BuiltFrom, ComponentTooDeep;
    forall c | 0 <= c < |comps| ensures !ComponentTooDeep(units, comps, c) {
      BuiltOrDeep(units, comps, dcCounts, acCounts, c);
      assert NotTooDeep(dcCounts[comps[c].dcNo]) && NotTooDeep(acCounts[comps[c].acNo]);
    }
  }

  lemma BuiltIsTable(t: Table, maxSymbol: int, counts: seq<int>)
    requires BuiltFrom(t, maxSymbol, counts)
    ensures IsTable(t, maxSymbol) && |t.bits| == 17
  {
  }

  /** Counts of a table some block uses are what the builder asks for. */
  lemma CountsReady(counts: seq<int>, items: seq<Item>, n: int)
    requires CountsOf(counts, items) && items != [] && |items| <= n < FREQ_LIMIT
    ensures Ready(counts, n)
  {
  }

  ghost predicate EveryComponentUsed(units: seq<Unit>, comps: seq<Comp>)
  {
    forall c :: 0 <= c < |comps| ==> UsesComponent(units, c)
  }

  ghost predicate UsesComponent(units: seq<Unit>, c: nat)
  {
    exists i :: 0 <= i < |units| && units[i].ci == c
  }

  /** What the table builder asks of counts. */
  ghost predicate Ready(f: seq<int>, n: int)
  {
    && |f| == SYMBOLS && (forall s :: 0 <= s < 256 ==> f[s] >= 0)
    && 1 <= CountNonzero(f, 256) <= 254 && Sum(f, 256) <= n < FREQ_LIMIT
  }

  lemma ReadyDc(units: seq<Unit>, comps: seq<Comp>, dcCounts: seq<seq<int>>, acCounts: seq<seq<int>>, c: nat)
    requires UnitsOk(units, comps) && CompsOk(comps) && EveryComponentUsed(units, comps) && c < |comps|
    requires 64 * |units| < FREQ_LIMIT && AllSmall(units, comps, ZeroPredictions(|comps|))
    requires Gathered(units, comps, dcCounts, acCounts)
    ensures |dcCounts| == |acCounts| == NUM_HUFF_TBLS && comps[c].dcNo < NUM_HUFF_TBLS && comps[c].acNo < NUM_HUFF_TBLS
    ensures Ready(dcCounts[comps[c].dcNo], 63 * |units|) && Ready(acCounts[comps[c].acNo], 63 * |units|)
    ensures forall s :: 16 <= s < 256 ==> dcCounts[comps[c].dcNo][s] == 0
  {
    hide CountsOf, DcItemsOf, AcItemsOf, AllSmall, Sum, CountNonzero, SmallItems, ZeroPredictions, Ready;
    var last := ZeroPredictions(|comps|);
    assert UsesComponent(units, c);
    var i :| 0 <= i < |units| && units[i].ci == c;
    assert comps[units[i].ci].dcNo == comps[c].dcNo && comps[units[i].ci].acNo == comps[c].acNo;
    DcItemsShape(units, comps, last, comps[c].dcNo);
    AcItemsShape(units, comps, last, comps[c].acNo);
    CountsReady(dcCounts[comps[c].dcNo], DcItemsOf(units, comps, last, comps[c].dcNo), 63 * |units|);
    CountsReady(acCounts[comps[c].acNo], AcItemsOf(units, comps, comps[c].acNo), 63 * |units|);
  }

  /** The tables of every component are those of its symbols in the scan. */
  ghost predicate TablesBuilt(units: seq<Unit>, comps: seq<Comp>, t: Tables)
    requires UnitsOk(units, comps) && Setup(comps, t)
  {
    forall c :: 0 <= c < |comps| ==>
      BuiltFrom(t.dc[comps[c].dcNo], 15, ItemCounts(DcItemsOf(units, comps, ZeroPredictions(|comps|), comps[c].dcNo)))
      && BuiltFrom(t.ac[comps[c].acNo], 255, ItemCounts(AcItemsOf(units, comps, comps[c].acNo)))
  }

  lemma AllBuilt(units: seq<Unit>, comps: seq<Comp>, t: Tables, didDc: seq<bool>, didAc: seq<bool>,
                 dcCounts: seq<seq<int>>, acCounts: seq<seq<int>>)
    requires UnitsOk(units, comps) && Built(comps, |comps|, t, didDc, didAc, dcCounts, acCounts)
    requires Gathered(units, comps, dcCounts, acCounts)
    ensures Setup(comps, t) && TablesBuilt(units, comps, t)
  {
    hide BuiltFrom, ItemCounts, DcItemsOf, AcItemsOf, ZeroPredictions, Sum, CountNonzero;
    forall c | 0 <= c < |comps|
      ensures BuiltFrom(t.dc[comps[c].dcNo], 15, ItemCounts(DcItemsOf(units, comps, ZeroPredictions(|comps|), comps[c].dcNo)))
      ensures BuiltFrom(t.ac[comps[c].acNo], 255, ItemCounts(AcItemsOf(units, comps, comps[c].acNo)))
    {
      assert CountsOf(dcCounts[comps[c].dcNo], DcItemsOf(units, comps, ZeroPredictions(|comps|), comps[c].dcNo));
      assert CountsOf(acCounts[comps[c].acNo], AcItemsOf(units, comps, comps[c].acNo));
    }
  }

  // ----- scans whose ends of block are frequent -----

  /** Blocks that use AC table k, and those of them that end in a zero. */
  function BlocksOf(units: seq<Unit>, comps: seq<Comp>, k: nat): nat
    requires UnitsOk(units, comps)
  {
    if units == [] then 0
    else BlocksOf(units[1..], comps, k) + if comps[units[0].ci].acNo == k then 1 else 0
  }

  function EndingOf(units: seq<Unit>, comps: seq<Comp>, k: nat): nat
    requires UnitsOk(units, comps)
  {
    if units == [] then 0
    else
      var ends := comps[units[0].ci].acNo == k && At64(units[0].block, 63) == 0;
      EndingOf(units[1..], comps, k) + if ends then 1 else 0
  }

  lemma {:induction false} EobsCounted(units: seq<Unit>, comps: seq<Comp>, k: nat)
    requires UnitsOk(units, comps)
    ensures Occurrences(AcItemsOf(units, comps, k), 0) == EndingOf(units, comps, k)
    ensures |AcItemsOf(units, comps, k)| <= 63 * BlocksOf(units, comps, k)
  {
    hide AcItems, Occurrences, At64;
    if units == [] {
      NotAmong([], 0);
    } else {
      var b := units[0].block;
      EobsCounted(units[1..], comps, k);
      EobOnce(b, 1, 0);
      AcItemsLength(b, 1, 0);
      OccurrencesConcat(AcItems(b, 1, 0), AcItemsOf(units[1..], comps, k), 0);
      assert [] + AcItemsOf(units[1..], comps, k) == AcItemsOf(units[1..], comps, k);
    }
  }

  /**
   In every AC table of the scan no symbol is deeper than 16, and either no block ends in a zero, or more than 63
   in 144 blocks do.
   */
  ghost predicate EobsOften(units: seq<Unit>, comps: seq<Comp>)
    requires UnitsOk(units, comps)
  {
    forall c :: 0 <= c < |comps| ==>
      var k := comps[c].acNo;
      AllShort(ItemCounts(AcItemsOf(units, comps, k)))
      && (EndingOf(units, comps, k) == 0 || 144 * EndingOf(units, comps, k) > 63 * BlocksOf(units, comps, k) + 1)
  }

  lemma ItemsSum(items: seq<Item>)
    requires InCounts(items)
    ensures Sum(ItemCounts(items), 256) == |items|
  {
    hide Tally, Sum;
    var base := seq(SYMBOLS, s => 0);
    TallyFromZero(base, items);
    TallySum(base, items);
    ZeroSum(base, 256);
  }

  /** Then the end of block gets a code of at most ten bits. */
  lemma OftenShort(units: seq<Unit>, comps: seq<Comp>, t: Tables)
    requires UnitsOk(units, comps) && Setup(comps, t) && TablesBuilt(units, comps, t) && EobsOften(units, comps)
    requires AllSmall(units, comps, ZeroPredictions(|comps|))
    ensures ShortEobs(comps, t)
  {
    hide AllShort, Occurrences, AcItemsOf, DcItemsOf, EndingOf, BlocksOf, IsTable, HasCode, Sum, CodeDepths, ZeroPredictions, AllSmall;
    forall c | 0 <= c < |comps| ensures EobFits(t.ac[comps[c].acNo].derived) {
      var k := comps[c].acNo;
      var items := AcItemsOf(units, comps, k);
      var counts := ItemCounts(items);
      EobsCounted(units, comps, k);
      AcItemsShape(units, comps, ZeroPredictions(|comps|), k);
      ItemsSum(items);
      TenDeep(counts, 0);
      assert BuiltFrom(t.ac[k], 255, counts);
    }
  }

  /**
   The first pass and finish_pass_gather. With the tables they make, every block of the scan can be
   written: each symbol the second pass emits has a code. The pass fails exactly when a coefficient is out of
   range, or some table would need codes of over 32 bits, which takes scans of over 146000 blocks.
   */
  method FirstPass(units: seq<Unit>, comps: seq<Comp>) returns (r: Outcome)
    requires UnitsOk(units, comps) && CompsOk(comps) && EveryComponentUsed(units, comps)
    requires 64 * |units| < FREQ_LIMIT
    ensures r.BadCoefficient? <==> !AllSmall(units, comps, ZeroPredictions(|comps|))
    ensures r.LengthOverflow? <==> AllSmall(units, comps, ZeroPredictions(|comps|)) && ScanTooDeep(units, comps)
    ensures r.LengthOverflow? ==> 63 * |units| + 1 >= 9227465
    ensures r.Optimal? ==> Setup(comps, r.t) && Writable(units, comps, r.t, ZeroPredictions(|comps|))
    ensures r.Optimal? ==> UnitsNoLeast(units, comps) && TablesBuilt(units, comps, r.t)
  {
    hide TablesBuilt, UnitsNoLeast, AllSmall, Gathered, NotTooDeep, TooDeep, DcItemsOf, AcItemsOf, ItemCounts, Built, Counted, BuiltFrom, CoveredDc, CoveredAc, Writable, AllDc, AllAc, ZeroCounts,
      EveryComponentUsed, Sum, CountNonzero, IsTable, UnitsOk, ZeroPredictions;
    var g := new Gatherer(|comps|);
    ghost var zero := g.dcCounts;
    SameZero(g.dcCounts, g.acCounts);
    var ok := GatherUnits(g, units, comps);
    if !ok {
      return BadCoefficient;
    }
    var dcCounts, acCounts := g.dcCounts, g.acCounts;
    GatheredAll(units, comps, zero, dcCounts, acCounts);
    var none := Table(seq(17, i => 0), seq(256, i => 0), Derived([], []));
    var dc, ac := [none, none, none, none], [none, none, none, none];
    var didDc, didAc := [false, false, false, false], [false, false, false, false];
    var ci := 0;
    NothingBuilt(comps, Tables(dc, ac), didDc, didAc, dcCounts, acCounts);
    while ci < |comps|
      invariant 0 <= ci <= |comps| && Built(comps, ci, Tables(dc, ac), didDc, didAc, dcCounts, acCounts)
    {
      var dcNo, acNo := comps[ci].dcNo, comps[ci].acNo;
      ReadyDc(units, comps, dcCounts, acCounts, ci);
      BuiltSizes(comps, ci, Tables(dc, ac), didDc, didAc, dcCounts, acCounts);
      if !didDc[dcNo] {
        var t := BuildTable(true, dcCounts[dcNo]);
        BuiltOrDeep(units, comps, dcCounts, acCounts, ci);
        if t.None? {
          return LengthOverflow;
        }
        BuiltDc(comps, ci, Tables(dc, ac), didDc, didAc, dcCounts, acCounts, dcNo, t.value);
        dc := dc[dcNo := t.value];
        didDc := didDc[dcNo := true];
      }
      if !didAc[acNo] {
        var t := BuildTable(false, acCounts[acNo]);
        BuiltOrDeep(units, comps, dcCounts, acCounts, ci);
        if t.None? {
          return LengthOverflow;
        }
        BuiltAc(comps, ci, Tables(dc, ac), didDc, didAc, dcCounts, acCounts, acNo, t.value);
        ac := ac[acNo := t.value];
        didAc := didAc[acNo := true];
      }
      BuiltNext(comps, ci, Tables(dc, ac), didDc, didAc, dcCounts, acCounts);
      ci := ci + 1;
    }
    var t := Tables(dc, ac);
    BuiltCovers(units, comps, t, didDc, didAc, dcCounts, acCounts);
    AllBuilt(units, comps, t, didDc, didAc, dcCounts, acCounts);
    NoneTooDeep(units, comps, t, didDc, didAc, dcCounts, acCounts);
    CoveredWritable(units, comps, t, ZeroPredictions(|comps|));
    return Optimal(t);
  }

  lemma SameZero(a: seq<seq<int>>, b: seq<seq<int>>)
    requires |a| == |b| == NUM_HUFF_TBLS
    requires forall k :: 0 <= k < NUM_HUFF_TBLS ==> |a[k]| == |b[k]| == SYMBOLS
    requires forall k, s :: 0 <= k < NUM_HUFF_TBLS && 0 <= s < SYMBOLS ==> a[k][s] == b[k][s] == 0
    ensures a == b && ZeroCounts(a)
  {
    forall k | 0 <= k < NUM_HUFF_TBLS ensures a[k] == b[k] {
      assert forall s :: 0 <= s < SYMBOLS ==> a[k][s] == b[k][s];
    }
  }

  lemma NothingBuilt(comps: seq<Comp>, t: Tables, didDc: seq<bool>, didAc: seq<bool>,
                     dcCounts: seq<seq<int>>, acCounts: seq<seq<int>>)
    requires CompsOk(comps) && Setup(comps, t) && |didDc| == |didAc| == |dcCounts| == |acCounts| == NUM_HUFF_TBLS
    requires forall k :: 0 <= k < NUM_HUFF_TBLS ==> !didDc[k] && !didAc[k]
    ensures Built(comps, 0, t, didDc, didAc, dcCounts, acCounts)
  {
  }

  lemma BuiltSizes(comps: seq<Comp>, c: nat, t: Tables, didDc: seq<bool>, didAc: seq<bool>,
                   dcCounts: seq<seq<int>>, acCounts: seq<seq<int>>)
    requires Built(comps, c, t, didDc, didAc, dcCounts, acCounts)
    ensures |t.dc| == |t.ac| == |didDc| == |didAc| == NUM_HUFF_TBLS
  {
  }

  lemma BuiltDc(comps: seq<Comp>, c: nat, t: Tables, didDc: seq<bool>, didAc: seq<bool>,
                dcCounts: seq<seq<int>>, acCounts: seq<seq<int>>, k: nat, built: Table)
    requires Built(comps, c, t, didDc, didAc, dcCounts, acCounts) && k < NUM_HUFF_TBLS
    requires BuiltFrom(built, 15, dcCounts[k]) && NotTooDeep(dcCounts[k])
    ensures Built(comps, c, Tables(t.dc[k := built], t.ac), didDc[k := true], didAc, dcCounts, acCounts)
  {
    hide IsTable, HasCode;
    BuiltIsTable(built, 15, dcCounts[k]);
  }

  lemma BuiltAc(comps: seq<Comp>, c: nat, t: Tables, didDc: seq<bool>, didAc: seq<bool>,
                dcCounts: seq<seq<int>>, acCounts: seq<seq<int>>, k: nat, built: Table)
    requires Built(comps, c, t, didDc, didAc, dcCounts, acCounts) && k < NUM_HUFF_TBLS
    requires BuiltFrom(built, 255, acCounts[k]) && NotTooDeep(acCounts[k])
    ensures Built(comps, c, Tables(t.dc, t.ac[k := built]), didDc, didAc[k := true], dcCounts, acCounts)
  {
    hide IsTable, HasCode;
    BuiltIsTable(built, 255, acCounts[k]);
  }

  lemma BuiltNext(comps: seq<Comp>, c: nat, t: Tables, didDc: seq<bool>, didAc: seq<bool>,
                  dcCounts: seq<seq<int>>, acCounts: seq<seq<int>>)
    requires Built(comps, c, t, didDc, didAc, dcCounts, acCounts) && c < |comps|
    requires comps[c].dcNo < |didDc| && didDc[comps[c].dcNo] && comps[c].acNo < |didAc| && didAc[comps[c].acNo]
    ensures Built(comps, c + 1, t, didDc, didAc, dcCounts, acCounts)
  {
    hide BuiltFrom;
  }

  /**
   Both passes: unless the flush loses bits, the bytes written with the tables of the first pass decode to the
   blocks. It loses none when the tables give the end of block a code of at most ten bits, which they do when
   blocks that end in a zero are frequent.
   */
  method TwoPass(width: nat, units: seq<Unit>, comps: seq<Comp>, ghost tail: seq<int>)
    returns (r: Outcome, out: seq<int>)
    requires width in {32, 64} && UnitsOk(units, comps) && CompsOk(comps) && EveryComponentUsed(units, comps)
    requires 64 * |units| < FREQ_LIMIT && (tail == [] || StartsMarker(tail))
    ensures r.BadCoefficient? <==> !AllSmall(units, comps, ZeroPredictions(|comps|))
    ensures r.LengthOverflow? <==> AllSmall(units, comps, ZeroPredictions(|comps|)) && ScanTooDeep(units, comps)
    ensures r.LengthOverflow? ==> 63 * |units| + 1 >= 9227465
    ensures r.Optimal? ==> Setup(comps, r.t) && Writable(units, comps, r.t, ZeroPredictions(|comps|))
    ensures r.Optimal? ==> BytesBits(Unstuff(out + tail)) == Padded(ScanBits(width, units, comps, r.t))
    ensures r.Optimal? ==> TablesBuilt(units, comps, r.t)
    ensures r.Optimal? && (width == 32 || ShortEobs(comps, r.t) || EobsOften(units, comps)) ==>
      NothingLost(width, units, comps, r.t)
    ensures r.Optimal? && NothingLost(width, units, comps, r.t) ==>
      ReadsBack(units, comps, r.t, BytesBits(Unstuff(out + tail)))
  {
    hide AllSmall, ScanTooDeep, EveryComponentUsed, UnitsOk, Setup, Writable, ReadsBack, BytesBits, Unstuff, ZeroPredictions,
      ShortEobs, NothingLost, ScanBits, Padded, UnitsNoLeast, TablesBuilt, EobsOften;
    r := FirstPass(units, comps);
    out := [];
    if r.Optimal? {
      out := EncodeScan(width, units, comps, r.t, tail);
      SmallEnds(units, comps, r.t, ZeroPredictions(|comps|));
      if EobsOften(units, comps) {
        OftenShort(units, comps, r.t);
      }
      if width == 32 {
        NarrowLosesNothing(units, comps, r.t);
      } else if ShortEobs(comps, r.t) {
        ShortEobsFit(units, comps, r.t);
      }
    }
  }

  lemma NarrowLosesNothing(units: seq<Unit>, comps: seq<Comp>, t: Tables)
    requires UnitsOk(units, comps) && Setup(comps, t) && Writable(units, comps, t, ZeroPredictions(|comps|))
    ensures NothingLost(32, units, comps, t)
  {
  }

  lemma {:induction false} SmallEnds(units: seq<Unit>, comps: seq<Comp>, t: Tables, last: seq<int>)
    requires UnitsOk(units, comps) && Setup(comps, t) && |last| == |comps| && AllSmall(units, comps, last)
    ensures UnitsFewBits(units, comps)
  {
    hide SmallBlock, FewAcBits;
    if units != [] {
      var u := units[0];
      SmallStep(units, comps, last);
      SmallFewBits(u.block, last[u.ci]);
      SmallEnds(units[1..], comps, t, last[u.ci := u.block[0]]);
      assert forall i :: 0 < i < |units| ==> units[i] == units[1..][i - 1];
    }
  }

  lemma SmallFewBits(b: seq<int>, last: int)
    requires IsBlock(b) && SmallBlock(b, last)
    ensures FewAcBits(b)
  {
  }
}
