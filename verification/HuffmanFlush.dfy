/**
 The end of a scan with a 64-bit bit buffer: when the flush of finish_pass_huff keeps every bit, and a scan of
 which it does not.
 */
module HuffmanFlush {
  import opened ByteStreams
  import opened Powers
  import opened Wrappers
  import opened Zigzag
  import opened HuffmanCode
  import opened HuffmanTable
  import opened HuffmanBits
  import opened HuffmanBlocks
  import opened HuffmanRoundTrip
  import opened HuffmanScan

  // ----- scans that lose nothing -----

  /** The code of the end of block has at most ten bits in every table of the scan. */
  predicate ShortEobs(comps: seq<Comp>, t: Tables)
    requires Setup(comps, t)
  {
    forall c :: 0 <= c < |comps| ==> EobFits(t.ac[comps[c].acNo].derived)
  }

  predicate EobFits(d: Derived) { |d.ehufsi| == 256 && d.ehufsi[0] <= 10 }

  /** The AC coefficients of a block have at most ten bits. */
  predicate FewAcBits(b: seq<int>)
    requires IsBlock(b)
  {
    forall k :: 1 <= k < 64 ==> NBits(Abs(At64(b, k))) <= 10
  }

  predicate UnitsFewBits(units: seq<Unit>, comps: seq<Comp>)
    requires UnitsOk(units, comps)
  {
    forall i :: 0 <= i < |units| ==> FewAcBits(units[i].block)
  }

  /** No code with its value bits is longer than 26 bits, which for coefficients of ten bits is always so. */
  predicate ShortCodes(d: Derived)
  {
    EobFits(d) && forall s :: 0 < s < 256 && s % 16 != 0 ==> d.ehufsi[s] + s % 16 <= 26
  }

  /** The last item of a block is its end of block, or a coefficient. */
  predicate EndFits(d: Derived, it: Item)
    requires HasCode(d, it.symbol)
  {
    if it.nbits == 0 then d.ehufsi[it.symbol] <= 10 else d.ehufsi[it.symbol] + it.nbits <= 26
  }

  lemma {:induction false} LastAcItem(b: seq<int>, k: nat, r: nat) returns (i: nat, run: nat)
    requires IsBlock(b) && 1 <= k <= 64 && (k < 64 || r > 0)
    ensures var s := AcItems(b, k, r);
      s != [] && (s[|s| - 1] == EOB
        || (1 <= i < 64 && run < 16 && At64(b, i) != 0 && s[|s| - 1] == Coded(run, At64(b, i))))
    decreases 64 - k
  {
    hide At64, NBits, ValueBits;
    if k == 64 {
      LastItems(b, r);
      i, run := 0, 0;
    } else {
      AcStep(b, k, r);
      if At64(b, k) == 0 {
        i, run := LastAcItem(b, k + 1, r + 1);
      } else if k + 1 == 64 {
        LastItems(b, 0);
        i, run := k, r % 16;
      } else {
        i, run := LastAcItem(b, k + 1, 0);
      }
    }
  }

  /** Ending like that, a block leaves at most 57 bits pending, whatever was pending before. */
  lemma BlockAfterFits(b: seq<int>, last: int, dc: Derived, ac: Derived, n: nat)
    requires IsBlock(b) && BlockCoded(b, last, dc, ac)
    requires var s := AcItems(b, 1, 0); s != [] && EndFits(ac, s[|s| - 1])
    ensures BlockAfter(b, last, dc, ac, n) <= 57
  {
    hide AcItems, NBits, ValueBits;
  }

  /** So does a block whose code for the end of block and whose coefficients are short. */
  lemma BlockEnds(b: seq<int>, last: int, dc: Derived, ac: Derived)
    requires IsBlock(b) && BlockCoded(b, last, dc, ac)
    requires (EobFits(ac) && FewAcBits(b)) || (ShortCodes(ac) && Encodable(b, last) && NoLeast(b))
    ensures var s := AcItems(b, 1, 0); s != [] && HasCode(ac, s[|s| - 1].symbol) && EndFits(ac, s[|s| - 1])
  {
    hide AcItems, NBits, ValueBits, At64;
    var i, run := LastAcItem(b, 1, 0);
    var s := AcItems(b, 1, 0);
    assert HasCode(ac, s[|s| - 1].symbol);
    if s[|s| - 1] != EOB {
      var v := At64(b, i);
      NonzeroBits(v);
      if Abs(v) < 0x8000 {
        FewBits(Abs(v));
        DivIs(16 * run + NBits(Abs(v)), 16, run, NBits(Abs(v)));
      }
    }
  }

  lemma {:induction false} UnitsAfterFits(units: seq<Unit>, comps: seq<Comp>, t: Tables, last: seq<int>, n: nat)
    requires UnitsOk(units, comps) && Setup(comps, t) && |last| == |comps| && Writable(units, comps, t, last)
    requires n <= 57 && UnitsEnd(units, comps, t)
    ensures UnitsAfter(units, comps, t, last, n) <= 57
  {
    hide IsTable, BlockCoded, BlockAfter, Encodable, FewAcBits, NoLeast, ShortCodes, EobFits;
    if units != [] {
      var u := units[0];
      var (dc, ac) := (t.dc[comps[u.ci].dcNo].derived, t.ac[comps[u.ci].acNo].derived);
      BlockEnds(u.block, last[u.ci], dc, ac);
      BlockAfterFits(u.block, last[u.ci], dc, ac, n);
      var after := BlockAfter(u.block, last[u.ci], dc, ac, n);
      assert forall i :: 0 < i < |units| ==> units[i] == units[1..][i - 1];
      UnitsAfterFits(units[1..], comps, t, last[u.ci := u.block[0]], after);
    }
  }

  ghost predicate UnitsEnd(units: seq<Unit>, comps: seq<Comp>, t: Tables)
    requires UnitsOk(units, comps) && Setup(comps, t)
  {
    forall i :: 0 <= i < |units| ==>
      var ac := t.ac[comps[units[i].ci].acNo].derived;
      (EobFits(ac) && FewAcBits(units[i].block)) || (ShortCodes(ac) && NoLeast(units[i].block))
  }

  /** With coefficients of at most ten bits, only the length of the end-of-block codes matters. */
  lemma ShortEobsFit(units: seq<Unit>, comps: seq<Comp>, t: Tables)
    requires UnitsOk(units, comps) && Setup(comps, t) && Writable(units, comps, t, ZeroPredictions(|comps|))
    requires ShortEobs(comps, t) && UnitsFewBits(units, comps)
    ensures NothingLost(64, units, comps, t)
  {
    hide Writable, ZeroPredictions, FewAcBits, NoLeast, ShortCodes, EobFits, UnitsAfter, UnitsBits;
    UnitsAfterFits(units, comps, t, ZeroPredictions(|comps|), 0);
  }

  /** For any coefficients that can be read back, a condition on the tables alone. */
  lemma ShortCodesFit(units: seq<Unit>, comps: seq<Comp>, t: Tables)
    requires UnitsOk(units, comps) && Setup(comps, t) && Writable(units, comps, t, ZeroPredictions(|comps|))
    requires UnitsNoLeast(units, comps)
    requires forall c :: 0 <= c < |comps| ==> ShortCodes(t.ac[comps[c].acNo].derived)
    ensures NothingLost(64, units, comps, t)
  {
    hide Writable, ZeroPredictions, FewAcBits, NoLeast, ShortCodes, EobFits, UnitsAfter, UnitsBits;
    UnitsAfterFits(units, comps, t, ZeroPredictions(|comps|), 0);
  }

  // ----- a scan that loses a bit -----

  /** One code of length a, and one of 16 bits. */
  function TwoLengths(a: nat): (bits: seq<int>)
    ensures |bits| == 17
  {
    seq(17, i => if i == a || i == 16 then 1 else 0)
  }

  function TwoSymbols(x: int, y: int): (huffval: seq<int>)
    ensures |huffval| == 256 && huffval[0] == x && huffval[1] == y
  {
    [x, y] + seq(254, i => 0)
  }

  lemma {:induction false} TwoSums(a: nat, l: nat)
    requires 1 <= a < 16 && l <= 16
    ensures Total(TwoLengths(a), l) == if l < a then 0 else if l < 16 then 1 else 2
    ensures CodeSum(TwoLengths(a), l) == if l < a then 0 else if l < 16 then Pow2(l - a) else Pow2(l - a) + 1
  {
    if l > 0 {
      TwoSums(a, l - 1);
    }
  }

  /** Such a table is legal; its codes are all zeros, and 1 followed by zeros. */
  lemma TwoCodes(a: nat, x: int, y: int, maxSymbol: int)
    requires 1 <= a < 16 && x != y && 0 <= x <= maxSymbol && 0 <= y <= maxSymbol
    ensures Legal(TwoLengths(a), TwoSymbols(x, y), maxSymbol)
    ensures At(TwoLengths(a), 0, a) && CodeAt(TwoLengths(a), 0, a) == 0
    ensures At(TwoLengths(a), 1, 16) && CodeAt(TwoLengths(a), 1, 16) == Pow2(16 - a)
  {
    hide Total, CodeSum, Pow2;
    TwoSums(a, a - 1);
    TwoSums(a, a);
    TwoSums(a, 15);
    TwoSums(a, 16);
    Pow2Next(15 - a);
    if a > 1 {
      PowersApart(16 - a, 15);
    }
    Pow2At16();
  }

  lemma {:induction false} ZeroTail(b: seq<int>, k: nat, r: nat)
    requires IsBlock(b) && 1 <= k <= 64 && (k < 64 || r > 0)
    requires forall i :: k <= i < 64 ==> At64(b, i) == 0
    ensures AcItems(b, k, r) == [EOB]
    decreases 64 - k
  {
    if k < 64 {
      ZeroTail(b, k + 1, r + 1);
    }
  }

  const DIFF: int := 1024
  const COEF: int := 512

  /** A block with a DC difference of 11 bits and one AC coefficient of ten. */
  function LostBlock(): (b: seq<int>)
    ensures IsBlock(b) && b[0] == DIFF && b[1] == COEF
  {
    [DIFF, COEF] + seq(62, i => 0)
  }

  lemma LostItems()
    ensures NBits(DIFF) == 11 && NBits(COEF) == 10
    ensures AcItems(LostBlock(), 1, 0) == [Coded(0, COEF), EOB]
    ensures Encodable(LostBlock(), 0) && NoLeast(LostBlock())
  {
    Pow2At16();
    assert Pow2(8) == 256;
    assert Pow2(11) == 2048;
    NBitsIs(DIFF, 11);
    NBitsIs(COEF, 10);
    var b := LostBlock();
    forall i | 0 <= i < 64 ensures At64(b, i) == if i == 0 then DIFF else if i == 1 then COEF else 0 {
      ZigzagInverse(i);
      ZigzagInverse(1);
      ZigzagInverse(0);
    }
    ZeroTail(b, 2, 0);
    AcStep(b, 1, 0);
    assert ZeroRuns(0) + ([Coded(0, COEF)] + [EOB]) == [Coded(0, COEF), EOB];
  }

  /** The tables of the scan: DC codes for no difference and for one of 11 bits, AC codes for one coefficient and the end. */
  ghost predicate LostTables(dc: Table, ac: Table)
  {
    && IsTable(dc, 15) && dc.bits == TwoLengths(1) && dc.huffval == TwoSymbols(0, 11)
    && IsTable(ac, 255) && ac.bits == TwoLengths(10) && ac.huffval == TwoSymbols(10, 0)
  }

  /** The codes the block uses, with the ends of their lengths. */
  lemma LostCodes(dc: Table, ac: Table)
    requires LostTables(dc, ac)
    ensures dc.derived.ehufsi[11] == 16 && dc.derived.ehufco[11] == Pow2(15) && HasCode(dc.derived, 11)
    ensures ac.derived.ehufsi[10] == 10 && ac.derived.ehufsi[0] == 16
    ensures HasCode(ac.derived, 10) && HasCode(ac.derived, 0)
    ensures |dc.derived.ehufsi| == |ac.derived.ehufsi| == |dc.derived.ehufco| == 256
  {
    hide Total, CodeSum, At, CodeAt, Legal, Pow2;
    TwoCodes(1, 0, 11, 15);
    TwoCodes(10, 10, 0, 255);
    assert At(dc.bits, 1, 16) && At(ac.bits, 0, 10) && At(ac.bits, 1, 16);
    assert dc.huffval[1] == 11 && ac.huffval[0] == 10 && ac.huffval[1] == 0;
    PowersApart(15, 16);
    PowersApart(6, 16);
  }

  /** The block fills the buffer up to 63 bits, and the first of them is a one. */
  lemma LostPending(dc: Table, ac: Table)
    requires LostTables(dc, ac)
    ensures BlockCoded(LostBlock(), 0, dc.derived, ac.derived)
    ensures BlockAfter(LostBlock(), 0, dc.derived, ac.derived, 0) == 63
    ensures var bits := BlockBits(LostBlock(), 0, dc.derived, ac.derived); |bits| == 63 && bits[0]
  {
    hide LostTables, NBits, Pow2, BitsOf, AcItems, ItemsAfter, ItemsBits, AllCoded, HasCode, LostBlock;
    LostItems();
    LostCodes(dc, ac);
    LostAcs(ac.derived);
    HeadBit(Pow2(15), 16);
    DivIs(Pow2(15), Pow2(15), 1, 0);
  }

  lemma LostAcs(d: Derived)
    requires HasCode(d, 10) && HasCode(d, 0) && d.ehufsi[10] == 10 && d.ehufsi[0] == 16 && NBits(COEF) == 10
    ensures AllCoded(d, [Coded(0, COEF), EOB])
    ensures ItemsAfter(d, 27, [Coded(0, COEF), EOB]) == 63
    ensures |ItemsBits(d, [Coded(0, COEF), EOB])| == 36
  {
    hide NBits, Pow2, BitsOf, ItemsAfter, ItemsBits;
    var it := Coded(0, COEF);
    assert it.symbol == 10 && [it] + [EOB] == [it, EOB] && [] + [it] == [it];
    OneMore(d, [], 27, [], it, [EOB]);
    assert [it] + ([EOB] + []) == [it, EOB];
    OneMore(d, [], 27, [it], EOB, []);
    EmptyItems(d, [], 27);
  }

  /** With the first bit cleared, the difference reads as none. */
  lemma LostDifference(dc: Table, ac: Table, last: int, s: seq<bool>)
    requires LostTables(dc, ac) && s != [] && !s[0]
    ensures |dc.bits| == |ac.bits| == 17
    ensures var r := DecodeBlock(dc, ac, last, s); r.Some? ==> r.value.0[0] == last
  {
    hide IsTable, DecodeAc;
    TwoSums(1, 0);
    TwoSums(1, 1);
    assert DecodeFrom(dc.bits, s, 0, 0) == Some((0, s[1..]));
    assert Zeros64()[0 := last + 0][0] == last;
    FirstKept(ac, s[1..], 1, Zeros64()[0 := last + 0]);
  }

  /** Reading AC coefficients leaves the DC coefficient alone. */
  lemma {:induction false} FirstKept(t: Table, s: seq<bool>, k: nat, block: seq<int>)
    requires |t.bits| == 17 && IsBlock(block) && k >= 1
    ensures DecodeAc(t, s, k, block).Some? ==> DecodeAc(t, s, k, block).value.0[0] == block[0]
    decreases |s|
  {
    hide DecodeSym, ReadValue, NaturalOrder;
    if k < 64 && DecodeSym(t, s).Some? {
      var (symbol, rest) := DecodeSym(t, s).value;
      var run, n := symbol / 16, symbol % 16;
      if n == 0 {
        if run == 15 {
          FirstKept(t, rest, k + 16, block);
        }
      } else if ReadValue(rest, n).Some? && run >= 0 && k + run < 64 {
        var (v, rest') := ReadValue(rest, n).value;
        LaterNotFirst(k + run);
        FirstKept(t, rest', k + run + 1, block[NaturalOrder(k + run) := v]);
      }
    }
  }

  const LOST_COMPS: seq<Comp> := [Comp(0, 0)]

  function LostUnits(): (units: seq<Unit>)
    ensures UnitsOk(units, LOST_COMPS)
  {
    [Unit(0, LostBlock())]
  }

  /** The scan of that one block is written with bits missing. */
  lemma LostScan(t: Tables)
    requires Setup(LOST_COMPS, t) && LostTables(t.dc[0], t.ac[0])
    ensures Writable(LostUnits(), LOST_COMPS, t, ZeroPredictions(1))
    ensures !NothingLost(64, LostUnits(), LOST_COMPS, t)
    ensures !ReadsBack(LostUnits(), LOST_COMPS, t, Padded(ScanBits(64, LostUnits(), LOST_COMPS, t)))
  {
    hide LostTables, DecodeBlock, BitsOf, Padded, UnitsBits, UnitsAfter, LostBlock, Writable;
    LostBits(t);
    ClearBits(6);
    var s := Padded(ScanBits(64, LostUnits(), LOST_COMPS, t));
    PaddedFirst(ScanBits(64, LostUnits(), LOST_COMPS, t));
    LostDifference(t.dc[0], t.ac[0], 0, s);
    assert Components(LostUnits()) == [0];
  }

  lemma PaddedFirst(s: seq<bool>)
    requires s != []
    ensures Padded(s) != [] && Padded(s)[0] == s[0]
  {
  }

  lemma LostBits(t: Tables)
    requires Setup(LOST_COMPS, t) && LostTables(t.dc[0], t.ac[0])
    ensures Writable(LostUnits(), LOST_COMPS, t, ZeroPredictions(1))
    ensures var bits := UnitsBits(LostUnits(), LOST_COMPS, t, ZeroPredictions(1)); |bits| == 63 && bits[0]
    ensures UnitsAfter(LostUnits(), LOST_COMPS, t, ZeroPredictions(1), 0) == 63
  {
    hide LostTables, IsTable, BlockBits, BlockAfter, BlockCoded, Encodable, LostBlock;
    var (dc, ac) := (t.dc[0], t.ac[0]);
    LostAreTables(dc, ac);
    LostItems();
    LostPending(dc, ac);
    assert LostUnits()[1..] == [];
  }

  lemma LostAreTables(dc: Table, ac: Table)
    requires LostTables(dc, ac)
    ensures IsTable(dc, 15) && IsTable(ac, 255)
  {
  }

  /** The tables, as jpeg_make_c_derived_tbl accepts them. */
  method MakeLostTables() returns (t: Tables)
    ensures Setup(LOST_COMPS, t) && LostTables(t.dc[0], t.ac[0])
  {
    hide Legal, IsDerived, IsTable, Total, CodeSum, At, CodeAt, LostTables;
    TwoCodes(1, 0, 11, 15);
    TwoCodes(10, 10, 0, 255);
    var dc := MakeDerived(true, TwoLengths(1), TwoSymbols(0, 11));
    var ac := MakeDerived(false, TwoLengths(10), TwoSymbols(10, 0));
    var dcTable := Table(TwoLengths(1), TwoSymbols(0, 11), dc.value);
    var acTable := Table(TwoLengths(10), TwoSymbols(10, 0), ac.value);
    AreTables(dcTable, acTable);
    t := Tables([dcTable, dcTable, dcTable, dcTable], [acTable, acTable, acTable, acTable]);
  }

  /** One block, with legal tables, whose bytes from a 64-bit buffer do not decode to it; from a 32-bit one they do. */
  method FlushLosesBlock() returns (t: Tables, out64: seq<int>, out32: seq<int>)
    ensures Setup(LOST_COMPS, t) && Writable(LostUnits(), LOST_COMPS, t, ZeroPredictions(1))
    ensures !ReadsBack(LostUnits(), LOST_COMPS, t, BytesBits(Unstuff(out64)))
    ensures ReadsBack(LostUnits(), LOST_COMPS, t, BytesBits(Unstuff(out32)))
  {
    hide LostTables, Writable, ReadsBack, ScanBits, BytesBits, Unstuff, UnitsNoLeast, LostBlock, LostUnits;
    t := MakeLostTables();
    LostScan(t);
    var units := LostUnits();
    out64 := EncodeScan(64, units, LOST_COMPS, t, []);
    out32 := EncodeScan(32, units, LOST_COMPS, t, []);
    assert out64 + [] == out64 && out32 + [] == out32;
    LostItems();
    LostReadable();
  }

  lemma LostReadable()
    requires NoLeast(LostBlock())
    ensures UnitsNoLeast(LostUnits(), LOST_COMPS)
  {
  }

  lemma AreTables(dc: Table, ac: Table)
    requires |dc.bits| == |ac.bits| == 17 && |dc.huffval| == |ac.huffval| == 256
    requires dc.bits == TwoLengths(1) && dc.huffval == TwoSymbols(0, 11)
    requires ac.bits == TwoLengths(10) && ac.huffval == TwoSymbols(10, 0)
    requires Legal(dc.bits, dc.huffval, 15) && IsDerived(dc.bits, dc.huffval, dc.derived)
    requires Legal(ac.bits, ac.huffval, 255) && IsDerived(ac.bits, ac.huffval, ac.derived)
    ensures LostTables(dc, ac)
  {
  }
}
