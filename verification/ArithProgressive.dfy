/**
 Progressive arithmetic-coded images as a whole: any scan script that validate_script of jcmaster.c accepts, each
 scan written by the encoder of jcarith.c and read from its bytes by the decoder of jdarith.c, leaves the decoder
 with every coefficient down to the bit the script has sent.
 */
module ArithProgressive {
  import opened Wrappers
  import opened ByteStreams
  import opened QmExact
  import opened ArithModel
  import opened ArithEncoder
  import opened ArithDecoder
  import opened ArithScan
  import opened ArithTheorems
  import opened ArithSequential
  import opened Zigzag

  const MAX_AH_AL: nat := 10

  /** A block of the image and the component it belongs to. */
  datatype Unit = Unit(ci: nat, block: seq<int>)

  /**
   A scan: its components with their table settings, the component of each block of an MCU, the blocks of all MCUs
   by their numbers in the image, and the progression parameters.
   */
  datatype Scan = Scan(comps: seq<Comp>, of: seq<nat>, member: seq<nat>, mcus: seq<seq<nat>>,
                       ss: nat, se: nat, ah: nat, al: nat)

  predicate UnitsOk(units: seq<Unit>)
  {
    forall u :: 0 <= u < |units| ==> IsCoefBlock(units[u].block)
  }

  // ----- which blocks a scan has -----

  predicate InMcus(mcus: seq<seq<nat>>, u: nat)
  {
    exists m :: 0 <= m < |mcus| && u in mcus[m]
  }

  /** Blocks of the right components, each once. */
  predicate McuShaped(sc: Scan, units: seq<Unit>, mcu: seq<nat>)
    requires MembersOk(sc)
  {
    && |mcu| == |sc.member|
    && (forall j :: 0 <= j < |mcu| ==> mcu[j] < |units| && units[mcu[j]].ci == sc.of[sc.member[j]])
    && (forall i, j :: 0 <= i < j < |mcu| ==> mcu[i] != mcu[j])
  }

  predicate MembersOk(sc: Scan)
  {
    && |sc.comps| == |sc.of| <= MAX_COMPS_IN_SCAN && (forall i :: 0 <= i < |sc.comps| ==> CompOk(sc.comps[i]))
    && (forall j :: 0 <= j < |sc.member| ==> sc.member[j] < |sc.comps|)
    && (sc.ss > 0 ==> |sc.comps| == |sc.member| == 1) && sc.ss <= sc.se < 64 && (sc.ss == 0 ==> sc.se == 0)
  }

  predicate McusShaped(sc: Scan, units: seq<Unit>, mcus: seq<seq<nat>>)
    requires MembersOk(sc)
  {
    mcus == [] ||
    (McuShaped(sc, units, mcus[0]) && (forall j :: 0 <= j < |mcus[0]| ==> !InMcus(mcus[1..], mcus[0][j]))
      && McusShaped(sc, units, mcus[1..]))
  }

  /** The MCUs have all blocks of the scan's components, each once. */
  predicate Covers(sc: Scan, units: seq<Unit>)
  {
    && MembersOk(sc) && McusShaped(sc, units, sc.mcus)
    && forall u :: 0 <= u < |units| && units[u].ci in sc.of ==> InMcus(sc.mcus, u)
  }

  // ----- scripts -----

  /** For each component and coefficient the last bit sent, -1 before the first; what a scan may follow. */
  predicate RowAllows(row: seq<int>, sc: Scan)
    requires |row| == 64 && sc.se < 64
  {
    && (sc.ss > 0 ==> row[0] >= 0)
    && forall k :: sc.ss <= k <= sc.se ==> if row[k] < 0 then sc.ah == 0 else sc.ah == row[k] && sc.al == sc.ah - 1
  }

  predicate ScanValid(last: seq<seq<int>>, sc: Scan)
  {
    && MembersOk(sc) && 1 <= |sc.of| && sc.ah <= MAX_AH_AL && sc.al <= MAX_AH_AL
    && (forall i, j :: 0 <= i < j < |sc.of| ==> sc.of[i] < sc.of[j])
    && forall i :: 0 <= i < |sc.of| ==> sc.of[i] < |last| && |last[sc.of[i]]| == 64 && RowAllows(last[sc.of[i]], sc)
  }

  function NewRow(row: seq<int>, sc: Scan): (r: seq<int>)
    ensures |r| == |row|
  {
    seq(|row|, k requires 0 <= k < |row| => if sc.ss <= k <= sc.se then sc.al else row[k])
  }

  function AfterScan(last: seq<seq<int>>, sc: Scan): (r: seq<seq<int>>)
    ensures |r| == |last| && forall c :: 0 <= c < |r| ==> |r[c]| == |last[c]|
  {
    seq(|last|, c requires 0 <= c < |last| => if c in sc.of then NewRow(last[c], sc) else last[c])
  }

  predicate ScriptValid(last: seq<seq<int>>, scans: seq<Scan>)
    decreases |scans|
  {
    scans == [] || (ScanValid(last, scans[0]) && ScriptValid(AfterScan(last, scans[0]), scans[1..]))
  }

  function AfterScript(last: seq<seq<int>>, scans: seq<Scan>): (r: seq<seq<int>>)
    ensures |r| == |last|
    decreases |scans|
  {
    if scans == [] then last else AfterScript(AfterScan(last, scans[0]), scans[1..])
  }

  // ----- what a decoder holds -----

  /** Coefficient k, in zigzag order, down to bit al. */
  function Coef(block: seq<int>, k: nat, al: nat): int
    requires |block| == 64 && k < 64
  {
    if k == 0 then ShiftDc(block[0], al) else Transformed(block, al)[k]
  }

  predicate HoldsBlock(block: seq<int>, row: seq<int>, held: seq<int>)
    requires |block| == 64
  {
    && |row| == |held| == 64
    && forall k :: 0 <= k < 64 && row[k] >= 0 ==> held[k] == Coef(block, k, row[k])
  }

  predicate Holds(units: seq<Unit>, last: seq<seq<int>>, held: seq<seq<int>>)
    requires UnitsOk(units)
  {
    && |held| == |units|
    && forall u :: 0 <= u < |units| ==> units[u].ci < |last| && HoldsBlock(units[u].block, last[units[u].ci], held[u])
  }

  // ----- AC scans -----

  function BandOf(sc: Scan): (b: Band)
    requires MembersOk(sc) && sc.ss > 0
    ensures BandOk(b)
  {
    Band(sc.comps[0].acTbl, sc.comps[0].kx, sc.se)
  }

  function BandDecisions(block: seq<int>, sc: Scan): seq<Decision>
    requires IsCoefBlock(block) && MembersOk(sc) && sc.ss > 0
  {
    var b, zz := BandOf(sc), Transformed(block, sc.al);
    if sc.ah == 0 then AcDecisions(b, zz, LastNonzero(zz, b.se), sc.ss)
    else RefDecisions(b, zz, LastNonzero(zz, b.se), LastNonzero(Transformed(block, sc.ah), b.se), sc.ss)
  }

  function DecBand(dec: Decoder, sc: Scan, held: seq<int>): (r: Option<(seq<int>, Decoder)>)
    requires Reads(dec) && MembersOk(sc) && sc.ss > 0 && |held| == 64
    ensures r.Some? ==> |r.value.0| == 64 && Reads(r.value.1)
  {
    var b := BandOf(sc);
    var r := if sc.ah == 0 then DecAc(dec, b, sc.ss) else DecRef(dec, b, held, LastNonzero(held, b.se), sc.ss);
    if r.Some? && |r.value.0| == sc.se + 1 - sc.ss then Some((Hold(held, r.value.0, sc.ss), r.value.1)) else None
  }

  /** One block of an AC scan: the band is held down to the new bit, the rest as before. */
  lemma BandRoundTrip(dec: Decoder, block: seq<int>, row: seq<int>, sc: Scan, held: seq<int>, rest: seq<Decision>)
    requires Reads(dec) && IsCoefBlock(block) && MembersOk(sc) && sc.ss > 0 && HoldsBlock(block, row, held)
    requires RowAllows(row, sc) && Follows(dec, BandDecisions(block, sc) + rest)
    ensures var r := DecBand(dec, sc, held);
      r.Some? && Follows(r.value.1, rest) && HoldsBlock(block, NewRow(row, sc), r.value.0)
  {
    hide Follows, DecAc, DecRef, AcDecisions, RefDecisions, Transformed, LastNonzero, IsBlock, IsCoef, Reads, After,
      ShiftDc, BandOk;
    var b, zz := BandOf(sc), Transformed(block, sc.al);
    assert |zz[sc.ss..sc.se + 1]| == sc.se + 1 - sc.ss;
    if sc.ah == 0 {
      TransformedIsBlock(block, sc.al);
      AcRoundTrip(dec, b, zz, LastNonzero(zz, b.se), sc.ss, rest);
    } else {
      var prev := Transformed(block, sc.al + 1);
      assert row[sc.ss] == sc.ah == sc.al + 1;
      forall k | sc.ss <= k <= sc.se ensures held[k] == prev[k] {
      }
      assert held[sc.ss..sc.se + 1] == prev[sc.ss..sc.se + 1];
      RefinePass(dec, block, b, sc.ss, sc.al, held, rest);
    }
    HeldAfter(block, row, sc, held);
  }

  lemma HeldAfter(block: seq<int>, row: seq<int>, sc: Scan, held: seq<int>)
    requires |block| == 64 && MembersOk(sc) && sc.ss > 0 && HoldsBlock(block, row, held)
    ensures HoldsBlock(block, NewRow(row, sc), Hold(held, Transformed(block, sc.al)[sc.ss..sc.se + 1], sc.ss))
  {
    hide Transformed, ShiftDc;
    var band := Transformed(block, sc.al)[sc.ss..sc.se + 1];
    var r := Hold(held, band, sc.ss);
    forall k | 0 <= k < 64 && NewRow(row, sc)[k] >= 0 ensures r[k] == Coef(block, k, NewRow(row, sc)[k]) {
      if sc.ss <= k <= sc.se {
        assert r[k] == band[k - sc.ss];
      } else {
        assert r[k] == held[k];
      }
    }
  }

  function AcScanDecisions(units: seq<Unit>, sc: Scan, mcus: seq<seq<nat>>): seq<Decision>
    requires UnitsOk(units) && MembersOk(sc) && sc.ss > 0 && McusShaped(sc, units, mcus)
  {
    if mcus == [] then []
    else BandDecisions(units[mcus[0][0]].block, sc) + AcScanDecisions(units, sc, mcus[1..])
  }

  predicate Blocks64(held: seq<seq<int>>)
  {
    forall u :: 0 <= u < |held| ==> |held[u]| == 64
  }

  function DecAcScan(dec: Decoder, sc: Scan, mcus: seq<seq<nat>>, held: seq<seq<int>>): (r: Option<seq<seq<int>>>)
    requires Reads(dec) && MembersOk(sc) && sc.ss > 0 && Blocks64(held)
    requires forall m :: 0 <= m < |mcus| ==> |mcus[m]| == 1 && mcus[m][0] < |held|
    ensures r.Some? ==> |r.value| == |held| && Blocks64(r.value)
    decreases |mcus|
  {
    if mcus == [] then Some(held)
    else
      var u := mcus[0][0];
      match DecBand(dec, sc, held[u])
      case None => None
      case Some((h, dec1)) => DecAcScan(dec1, sc, mcus[1..], held[u := h])
  }

  lemma {:induction false} ShapedIn(sc: Scan, units: seq<Unit>, mcus: seq<seq<nat>>)
    requires MembersOk(sc) && McusShaped(sc, units, mcus)
    ensures forall m :: 0 <= m < |mcus| ==> McuShaped(sc, units, mcus[m])
  {
    if mcus != [] {
      ShapedIn(sc, units, mcus[1..]);
      assert forall m :: 0 < m < |mcus| ==> mcus[m] == mcus[1..][m - 1];
    }
  }

  /** After the rest of a scan: the blocks of its MCUs are held down to the new bit, other blocks as before. */
  predicate Advanced(units: seq<Unit>, last: seq<seq<int>>, sc: Scan, mcus: seq<seq<nat>>,
                     held: seq<seq<int>>, held': seq<seq<int>>)
    requires UnitsOk(units) && |held| == |held'| == |units|
    requires forall u :: 0 <= u < |units| ==> units[u].ci < |last|
  {
    forall u :: 0 <= u < |units| ==>
      if InMcus(mcus, u) then HoldsBlock(units[u].block, NewRow(last[units[u].ci], sc), held'[u]) else held'[u] == held[u]
  }

  lemma InMcusSplit(mcus: seq<seq<nat>>, u: nat)
    requires mcus != []
    ensures InMcus(mcus, u) <==> u in mcus[0] || InMcus(mcus[1..], u)
  {
    if InMcus(mcus, u) && u !in mcus[0] {
      var m :| 0 <= m < |mcus| && u in mcus[m];
      assert mcus[1..][m - 1] == mcus[m];
    }
    if InMcus(mcus[1..], u) {
      var m :| 0 <= m < |mcus[1..]| && u in mcus[1..][m];
      assert mcus[m + 1] == mcus[1..][m];
    }
  }

  /** An AC scan from some MCU on. */
  lemma {:induction false} AcScanRoundTrip(dec: Decoder, units: seq<Unit>, last: seq<seq<int>>, sc: Scan,
                                           mcus: seq<seq<nat>>, held: seq<seq<int>>)
    requires Reads(dec) && UnitsOk(units) && ScanValid(last, sc) && sc.ss > 0 && McusShaped(sc, units, mcus)
    requires |held| == |units| && Blocks64(held) && forall u :: 0 <= u < |units| ==> units[u].ci < |last|
    requires forall u :: 0 <= u < |units| && InMcus(mcus, u) ==>
      HoldsBlock(units[u].block, last[units[u].ci], held[u])
    requires Follows(dec, AcScanDecisions(units, sc, mcus))
    ensures forall m :: 0 <= m < |mcus| ==> |mcus[m]| == 1 && mcus[m][0] < |held|
    ensures var r := DecAcScan(dec, sc, mcus, held);
      r.Some? && Advanced(units, last, sc, mcus, held, r.value)
    decreases |mcus|
  {
    hide Follows, Reads, BandDecisions, DecBand, HoldsBlock, RowAllows, NewRow, InMcus, CompOk;
    ShapedIn(sc, units, mcus);
    if mcus == [] {
      NotIn(units);
    } else {
      var u := mcus[0][0];
      InMcusAll(mcus);
      BandRoundTrip(dec, units[u].block, last[units[u].ci], sc, held[u], AcScanDecisions(units, sc, mcus[1..]));
      var (h, dec1) := DecBand(dec, sc, held[u]).value;
      AcScanRoundTrip(dec1, units, last, sc, mcus[1..], held[u := h]);
    }
  }

  lemma NotIn(units: seq<Unit>)
    ensures forall u :: 0 <= u < |units| ==> !InMcus([], u)
  {
  }

  lemma InMcusAll(mcus: seq<seq<nat>>)
    requires mcus != []
    ensures forall u: nat :: InMcus(mcus, u) <==> u in mcus[0] || InMcus(mcus[1..], u)
  {
    forall u: nat ensures InMcus(mcus, u) <==> u in mcus[0] || InMcus(mcus[1..], u) {
      InMcusSplit(mcus, u);
    }
  }

  // ----- DC scans -----

  function Blocks(units: seq<Unit>, mcu: seq<nat>): (r: seq<seq<int>>)
    requires UnitsOk(units) && forall j :: 0 <= j < |mcu| ==> mcu[j] < |units|
    ensures |r| == |mcu| && AllBlocks(r)
  {
    seq(|mcu|, j requires 0 <= j < |mcu| => units[mcu[j]].block)
  }

  function DcFirstScanDecisions(units: seq<Unit>, sc: Scan, mcus: seq<seq<nat>>, s: seq<DcState>): seq<Decision>
    requires UnitsOk(units) && MembersOk(sc) && McusShaped(sc, units, mcus) && StatesOk(s)
  {
    if mcus == [] then []
    else
      var (ds, next) := DcFirstDecisions(sc.comps, sc.member, DcValues(Blocks(units, mcus[0]), sc.al), s);
      ds + DcFirstScanDecisions(units, sc, mcus[1..], next)
  }

  function DcRefScanDecisions(units: seq<Unit>, sc: Scan, mcus: seq<seq<nat>>): seq<Decision>
    requires UnitsOk(units) && MembersOk(sc) && McusShaped(sc, units, mcus)
  {
    if mcus == [] then []
    else DcRefDecisions(DcValues(Blocks(units, mcus[0]), sc.al)) + DcRefScanDecisions(units, sc, mcus[1..])
  }

  /** Every DC difference of a first scan is one a decoder accepts. */
  predicate DcSmall(units: seq<Unit>, sc: Scan, mcus: seq<seq<nat>>, s: seq<DcState>)
    requires UnitsOk(units) && MembersOk(sc) && McusShaped(sc, units, mcus) && StatesOk(s)
  {
    mcus == [] ||
    var values := DcValues(Blocks(units, mcus[0]), sc.al);
    SmallDcDiffs(sc.comps, sc.member, values, s)
      && DcSmall(units, sc, mcus[1..], DcFirstDecisions(sc.comps, sc.member, values, s).1)
  }

  predicate InHeld(mcus: seq<seq<nat>>, n: nat)
  {
    forall m, j :: 0 <= m < |mcus| && 0 <= j < |mcus[m]| ==> mcus[m][j] < n
  }

  /** DC values stored in the blocks of an MCU. */
  function PutDc(held: seq<seq<int>>, mcu: seq<nat>, vs: seq<int>): (r: seq<seq<int>>)
    requires Blocks64(held) && |mcu| == |vs| && forall j :: 0 <= j < |mcu| ==> mcu[j] < |held|
    ensures |r| == |held| && Blocks64(r)
    decreases |mcu|
  {
    if mcu == [] then held
    else PutDc(held[mcu[0] := held[mcu[0]][0 := vs[0]]], mcu[1..], vs[1..])
  }

  function DcHeld(held: seq<seq<int>>, mcu: seq<nat>): (r: seq<int>)
    requires Blocks64(held) && forall j :: 0 <= j < |mcu| ==> mcu[j] < |held|
    ensures |r| == |mcu|
  {
    seq(|mcu|, j requires 0 <= j < |mcu| => held[mcu[j]][0])
  }

  function DecDcFirstScan(dec: Decoder, sc: Scan, mcus: seq<seq<nat>>, s: seq<DcState>, held: seq<seq<int>>):
    (r: Option<seq<seq<int>>>)
    requires Reads(dec) && MembersOk(sc) && StatesOk(s) && Blocks64(held) && InHeld(mcus, |held|)
    ensures r.Some? ==> |r.value| == |held| && Blocks64(r.value)
    decreases |mcus|
  {
    if mcus == [] then Some(held)
    else
      match DecDcFirst(dec, sc.comps, sc.member, s)
      case None => None
      case Some((vs, dec1)) =>
        if |vs| != |sc.member| || |vs| != |mcus[0]| then None
        else
          var next := DcFirstDecisions(sc.comps, sc.member, vs, s).1;
          DecDcFirstScan(dec1, sc, mcus[1..], next, PutDc(held, mcus[0], vs))
  }

  function DecDcRefScan(dec: Decoder, sc: Scan, mcus: seq<seq<nat>>, held: seq<seq<int>>): (r: seq<seq<int>>)
    requires Reads(dec) && Blocks64(held) && InHeld(mcus, |held|)
    ensures |r| == |held| && Blocks64(r)
    decreases |mcus|
  {
    if mcus == [] then held
    else
      var (vs, dec1) := DecDcRef(dec, DcHeld(held, mcus[0]));
      if |vs| != |mcus[0]| then held else DecDcRefScan(dec1, sc, mcus[1..], PutDc(held, mcus[0], vs))
  }

  lemma {:induction false} PutDcAt(held: seq<seq<int>>, mcu: seq<nat>, vs: seq<int>, u: nat)
    requires Blocks64(held) && |mcu| == |vs| && (forall j :: 0 <= j < |mcu| ==> mcu[j] < |held|) && u < |held|
    requires forall i, j :: 0 <= i < j < |mcu| ==> mcu[i] != mcu[j]
    ensures u !in mcu ==> PutDc(held, mcu, vs)[u] == held[u]
    ensures forall j :: 0 <= j < |mcu| && mcu[j] == u ==> PutDc(held, mcu, vs)[u] == held[u][0 := vs[j]]
    decreases |mcu|
  {
    if mcu != [] {
      PutDcAt(held[mcu[0] := held[mcu[0]][0 := vs[0]]], mcu[1..], vs[1..], u);
      forall j | 0 <= j < |mcu| && mcu[j] == u ensures PutDc(held, mcu, vs)[u] == held[u][0 := vs[j]] {
        if j > 0 {
          assert mcu[1..][j - 1] == u && mcu[0] != mcu[j];
        } else {
          assert forall i :: 0 <= i < |mcu[1..]| ==> mcu[1..][i] == mcu[i + 1];
        }
      }
    }
  }

  /** The blocks of an MCU with new DC values are held down to the new bit. */
  lemma DcAdvanced(units: seq<Unit>, last: seq<seq<int>>, sc: Scan, mcu: seq<nat>, held: seq<seq<int>>, u: nat)
    requires UnitsOk(units) && ScanValid(last, sc) && sc.ss == 0 && McuShaped(sc, units, mcu)
    requires |held| == |units| && Blocks64(held) && u < |units| && u in mcu
    requires units[u].ci < |last| && HoldsBlock(units[u].block, last[units[u].ci], held[u])
    ensures HoldsBlock(units[u].block, NewRow(last[units[u].ci], sc),
                       PutDc(held, mcu, DcValues(Blocks(units, mcu), sc.al))[u])
  {
    hide Transformed, RowAllows;
    var vs := DcValues(Blocks(units, mcu), sc.al);
    PutDcAt(held, mcu, vs, u);
    var j :| 0 <= j < |mcu| && mcu[j] == u;
    assert vs[j] == ShiftDc(units[u].block[0], sc.al);
  }

  lemma NotAgain(sc: Scan, units: seq<Unit>, mcus: seq<seq<nat>>, u: nat)
    requires MembersOk(sc) && mcus != [] && McusShaped(sc, units, mcus)
    ensures InMcus(mcus[1..], u) ==> u !in mcus[0]
  {
    hide InMcus;
  }

  /** What storing the first MCU of the rest of a DC scan does to block u. */
  lemma StoredAt(units: seq<Unit>, last: seq<seq<int>>, sc: Scan, mcus: seq<seq<nat>>, held: seq<seq<int>>, u: nat)
    requires UnitsOk(units) && ScanValid(last, sc) && sc.ss == 0 && mcus != [] && McusShaped(sc, units, mcus)
    requires |held| == |units| && Blocks64(held) && u < |units| && units[u].ci < |last|
    requires InMcus(mcus, u) ==> HoldsBlock(units[u].block, last[units[u].ci], held[u])
    ensures var held1 := PutDc(held, mcus[0], DcValues(Blocks(units, mcus[0]), sc.al));
      && (InMcus(mcus, u) <==> u in mcus[0] || InMcus(mcus[1..], u))
      && (InMcus(mcus[1..], u) ==> u !in mcus[0])
      && (u !in mcus[0] ==> held1[u] == held[u])
      && (u in mcus[0] ==> HoldsBlock(units[u].block, NewRow(last[units[u].ci], sc), held1[u]))
  {
    hide DcValues, Blocks, HoldsBlock, NewRow, PutDc, InMcus, RowAllows, CompOk;
    var mcu := mcus[0];
    InMcusSplit(mcus, u);
    NotAgain(sc, units, mcus, u);
    PutDcAt(held, mcu, DcValues(Blocks(units, mcu), sc.al), u);
    if u in mcu {
      DcAdvanced(units, last, sc, mcu, held, u);
    }
  }

  /** Once the first MCU of the rest of a DC scan has been stored, the others are as before. */
  lemma OthersKept(units: seq<Unit>, last: seq<seq<int>>, sc: Scan, mcus: seq<seq<nat>>, held: seq<seq<int>>,
                   held1: seq<seq<int>>)
    requires UnitsOk(units) && ScanValid(last, sc) && sc.ss == 0 && mcus != [] && McusShaped(sc, units, mcus)
    requires |held| == |units| && Blocks64(held) && forall u :: 0 <= u < |units| ==> units[u].ci < |last|
    requires forall u :: 0 <= u < |units| && InMcus(mcus, u) ==> HoldsBlock(units[u].block, last[units[u].ci], held[u])
    requires held1 == PutDc(held, mcus[0], DcValues(Blocks(units, mcus[0]), sc.al))
    ensures forall u :: 0 <= u < |units| && InMcus(mcus[1..], u) ==>
      HoldsBlock(units[u].block, last[units[u].ci], held1[u])
  {
    hide DcValues, Blocks, HoldsBlock, NewRow, PutDc, InMcus, CompOk, McuShaped, McusShaped, ScanValid, IsCoef;
    forall u | 0 <= u < |units| && InMcus(mcus[1..], u)
      ensures HoldsBlock(units[u].block, last[units[u].ci], held1[u])
    {
      StoredAt(units, last, sc, mcus, held, u);
    }
  }

  /** What the rest of a DC scan advances, with what its first MCU does. */
  lemma McuStored(units: seq<Unit>, last: seq<seq<int>>, sc: Scan, mcus: seq<seq<nat>>, held: seq<seq<int>>,
                  held1: seq<seq<int>>, r: seq<seq<int>>)
    requires UnitsOk(units) && ScanValid(last, sc) && sc.ss == 0 && mcus != [] && McusShaped(sc, units, mcus)
    requires |held| == |units| == |r| && Blocks64(held) && forall u :: 0 <= u < |units| ==> units[u].ci < |last|
    requires forall u :: 0 <= u < |units| && InMcus(mcus, u) ==> HoldsBlock(units[u].block, last[units[u].ci], held[u])
    requires held1 == PutDc(held, mcus[0], DcValues(Blocks(units, mcus[0]), sc.al))
    requires Advanced(units, last, sc, mcus[1..], held1, r)
    ensures Advanced(units, last, sc, mcus, held, r)
  {
    hide DcValues, Blocks, HoldsBlock, NewRow, PutDc, InMcus, CompOk, McuShaped, McusShaped, ScanValid, IsCoef;
    forall u | 0 <= u < |units|
      ensures if InMcus(mcus, u) then HoldsBlock(units[u].block, NewRow(last[units[u].ci], sc), r[u])
        else r[u] == held[u]
    {
      StoredAt(units, last, sc, mcus, held, u);
    }
  }

  lemma HeldRange(sc: Scan, units: seq<Unit>, mcus: seq<seq<nat>>)
    requires MembersOk(sc) && McusShaped(sc, units, mcus)
    ensures InHeld(mcus, |units|)
  {
    ShapedIn(sc, units, mcus);
    assert forall m :: 0 <= m < |mcus| ==> McuShaped(sc, units, mcus[m]);
  }

  /** A first DC scan from some MCU on. */
  lemma {:induction false} DcFirstScanRoundTrip(dec: Decoder, units: seq<Unit>, last: seq<seq<int>>, sc: Scan,
                                                mcus: seq<seq<nat>>, s: seq<DcState>, held: seq<seq<int>>)
    requires Reads(dec) && UnitsOk(units) && ScanValid(last, sc) && sc.ss == 0 && McusShaped(sc, units, mcus) && StatesOk(s)
    requires |held| == |units| && Blocks64(held) && forall u :: 0 <= u < |units| ==> units[u].ci < |last|
    requires forall u :: 0 <= u < |units| && InMcus(mcus, u) ==> HoldsBlock(units[u].block, last[units[u].ci], held[u])
    requires DcSmall(units, sc, mcus, s) && Follows(dec, DcFirstScanDecisions(units, sc, mcus, s))
    ensures InHeld(mcus, |held|)
    ensures var r := DecDcFirstScan(dec, sc, mcus, s, held);
      r.Some? && Advanced(units, last, sc, mcus, held, r.value)
    decreases |mcus|
  {
    hide Follows, Reads, DcValues, Blocks, DecDcFirst, DcFirstDecisions, SmallDcDiffs, HoldsBlock, PutDc, RowAllows, NewRow,
      InMcus, CompOk, Advanced, IsCoefBlock;
    HeldRange(sc, units, mcus);
    if mcus == [] {
      NoneAdvanced(units, last, sc, held);
    } else {
      var vs := DcValues(Blocks(units, mcus[0]), sc.al);
      var next := DcFirstDecisions(sc.comps, sc.member, vs, s).1;
      DcFirstRoundTrip(dec, sc.comps, sc.member, vs, s, DcFirstScanDecisions(units, sc, mcus[1..], next));
      var dec1 := DecDcFirst(dec, sc.comps, sc.member, s).value.1;
      var held1 := PutDc(held, mcus[0], vs);
      OthersKept(units, last, sc, mcus, held, held1);
      DcFirstScanRoundTrip(dec1, units, last, sc, mcus[1..], next, held1);
      McuStored(units, last, sc, mcus, held, held1, DecDcFirstScan(dec1, sc, mcus[1..], next, held1).value);
    }
  }

  lemma NoneAdvanced(units: seq<Unit>, last: seq<seq<int>>, sc: Scan, held: seq<seq<int>>)
    requires UnitsOk(units) && |held| == |units| && forall u :: 0 <= u < |units| ==> units[u].ci < |last|
    ensures Advanced(units, last, sc, [], held, held)
  {
    NotIn(units);
  }

  /** The DC values of an MCU as a decoder holds them before a refinement scan. */
  lemma DcBefore(units: seq<Unit>, last: seq<seq<int>>, sc: Scan, mcu: seq<nat>, held: seq<seq<int>>)
    requires UnitsOk(units) && ScanValid(last, sc) && sc.ss == 0 && sc.ah > 0 && McuShaped(sc, units, mcu)
    requires |held| == |units| && Blocks64(held) && forall u :: 0 <= u < |units| ==> units[u].ci < |last|
    requires forall u :: 0 <= u < |units| && u in mcu ==> HoldsBlock(units[u].block, last[units[u].ci], held[u])
    ensures DcHeld(held, mcu) == DcValues(Blocks(units, mcu), sc.al + 1)
  {
    hide Transformed;
    forall j | 0 <= j < |mcu| ensures held[mcu[j]][0] == ShiftDc(units[mcu[j]].block[0], sc.al + 1) {
      var u := mcu[j];
      assert u in mcu && RowAllows(last[units[u].ci], sc);
      assert last[units[u].ci][0] == sc.al + 1;
    }
  }

  /** A DC refinement scan from some MCU on. */
  lemma {:induction false} DcRefScanRoundTrip(dec: Decoder, units: seq<Unit>, last: seq<seq<int>>, sc: Scan,
                                              mcus: seq<seq<nat>>, held: seq<seq<int>>)
    requires Reads(dec) && UnitsOk(units) && ScanValid(last, sc) && sc.ss == 0 && sc.ah > 0 && McusShaped(sc, units, mcus)
    requires |held| == |units| && Blocks64(held) && forall u :: 0 <= u < |units| ==> units[u].ci < |last|
    requires forall u :: 0 <= u < |units| && InMcus(mcus, u) ==> HoldsBlock(units[u].block, last[units[u].ci], held[u])
    requires Follows(dec, DcRefScanDecisions(units, sc, mcus))
    ensures InHeld(mcus, |held|) && Advanced(units, last, sc, mcus, held, DecDcRefScan(dec, sc, mcus, held))
    decreases |mcus|
  {
    hide Follows, Reads, DcValues, Blocks, DecDcRef, DcRefDecisions, DcHeld, HoldsBlock, PutDc, RowAllows, NewRow, InMcus, CompOk,
      Advanced, IsCoefBlock, McuShaped;
    HeldRange(sc, units, mcus);
    if mcus == [] {
      NoneAdvanced(units, last, sc, held);
    } else {
      var blocks := Blocks(units, mcus[0]);
      InMcusAll(mcus);
      DcBefore(units, last, sc, mcus[0], held);
      DcSuccessiveApproximation(dec, blocks, sc.al, DcRefScanDecisions(units, sc, mcus[1..]));
      var (vs, dec1) := DecDcRef(dec, DcHeld(held, mcus[0]));
      var held1 := PutDc(held, mcus[0], vs);
      OthersKept(units, last, sc, mcus, held, held1);
      DcRefScanRoundTrip(dec1, units, last, sc, mcus[1..], held1);
      McuStored(units, last, sc, mcus, held, held1, DecDcRefScan(dec1, sc, mcus[1..], held1));
    }
  }

  // ----- whole scans -----

  /** The decisions of a scan. */
  function ProgDecisions(units: seq<Unit>, sc: Scan): seq<Decision>
    requires UnitsOk(units) && MembersOk(sc) && McusShaped(sc, units, sc.mcus)
  {
    if sc.ss > 0 then AcScanDecisions(units, sc, sc.mcus)
    else if sc.ah == 0 then DcFirstScanDecisions(units, sc, sc.mcus, ZeroStates())
    else DcRefScanDecisions(units, sc, sc.mcus)
  }

  /** A scan whose DC differences, if it sends any, a decoder accepts. */
  predicate Accepted(units: seq<Unit>, sc: Scan)
    requires UnitsOk(units)
  {
    Covers(sc, units) && (sc.ss == 0 && sc.ah == 0 ==> DcSmall(units, sc, sc.mcus, ZeroStates()))
  }

  /** The MCUs of a scan name blocks below n only. */
  predicate FitsHeld(sc: Scan, n: nat)
  {
    && MembersOk(sc) && InHeld(sc.mcus, n)
    && (sc.ss > 0 ==> forall m :: 0 <= m < |sc.mcus| ==> |sc.mcus[m]| == 1)
  }

  /** Reading a scan into the blocks held. */
  function DecProg(dec: Decoder, sc: Scan, held: seq<seq<int>>): (r: Option<seq<seq<int>>>)
    requires Reads(dec) && FitsHeld(sc, |held|) && Blocks64(held)
    ensures r.Some? ==> |r.value| == |held| && Blocks64(r.value)
  {
    if sc.ss > 0 then DecAcScan(dec, sc, sc.mcus, held)
    else if sc.ah == 0 then DecDcFirstScan(dec, sc, sc.mcus, ZeroStates(), held)
    else Some(DecDcRefScan(dec, sc, sc.mcus, held))
  }

  lemma HoldsSized(units: seq<Unit>, last: seq<seq<int>>, held: seq<seq<int>>)
    requires UnitsOk(units) && Holds(units, last, held)
    ensures |held| == |units| && Blocks64(held) && forall u :: 0 <= u < |units| ==> units[u].ci < |last|
  {
  }

  lemma ScanShape(sc: Scan, units: seq<Unit>)
    requires MembersOk(sc) && McusShaped(sc, units, sc.mcus)
    ensures FitsHeld(sc, |units|)
  {
    HeldRange(sc, units, sc.mcus);
    ShapedIn(sc, units, sc.mcus);
  }

  /** After a valid scan a decoder holds every coefficient down to the last bit sent. */
  lemma ScanHolds(dec: Decoder, units: seq<Unit>, last: seq<seq<int>>, sc: Scan, held: seq<seq<int>>)
    requires Reads(dec) && UnitsOk(units) && ScanValid(last, sc) && Accepted(units, sc) && Holds(units, last, held)
    requires Follows(dec, ProgDecisions(units, sc))
    ensures FitsHeld(sc, |held|) && Blocks64(held)
    ensures var r := DecProg(dec, sc, held); r.Some? && Holds(units, AfterScan(last, sc), r.value)
  {
    hide Follows, Reads, HoldsBlock, RowAllows, NewRow, InMcus, CompOk, Advanced, DcSmall, McusShaped, AcScanDecisions,
      DcFirstScanDecisions, DcRefScanDecisions, DecAcScan, DecDcFirstScan, DecDcRefScan, InHeld, Blocks64, IsCoefBlock;
    HoldsSized(units, last, held);
    ScanShape(sc, units);
    if sc.ss > 0 {
      AcScanRoundTrip(dec, units, last, sc, sc.mcus, held);
    } else if sc.ah == 0 {
      DcFirstScanRoundTrip(dec, units, last, sc, sc.mcus, ZeroStates(), held);
    } else {
      DcRefScanRoundTrip(dec, units, last, sc, sc.mcus, held);
    }
    AllAdvanced(units, last, sc, held, DecProg(dec, sc, held).value);
  }

  lemma {:induction false} OnlyMembers(sc: Scan, units: seq<Unit>, mcus: seq<seq<nat>>, u: nat)
    requires MembersOk(sc) && McusShaped(sc, units, mcus) && u < |units| && InMcus(mcus, u)
    ensures units[u].ci in sc.of
  {
    ShapedIn(sc, units, mcus);
    var m :| 0 <= m < |mcus| && u in mcus[m];
    var j :| 0 <= j < |mcus[m]| && mcus[m][j] == u;
    assert McuShaped(sc, units, mcus[m]);
  }

  lemma AllAdvanced(units: seq<Unit>, last: seq<seq<int>>, sc: Scan, held: seq<seq<int>>, r: seq<seq<int>>)
    requires UnitsOk(units) && Covers(sc, units) && Holds(units, last, held) && |r| == |held| == |units|
    requires forall u :: 0 <= u < |units| ==> units[u].ci < |last|
    requires Advanced(units, last, sc, sc.mcus, held, r)
    ensures Holds(units, AfterScan(last, sc), r)
  {
    hide HoldsBlock, NewRow, InMcus, McusShaped;
    forall u | 0 <= u < |units|
      ensures HoldsBlock(units[u].block, AfterScan(last, sc)[units[u].ci], r[u])
    {
      if InMcus(sc.mcus, u) {
        OnlyMembers(sc, units, sc.mcus, u);
      }
    }
  }

  // ----- whole scripts -----

  /** Reading one scan after the other, each with a decoder of its own. */
  function DecScript(decs: seq<Decoder>, scans: seq<Scan>, held: seq<seq<int>>): (r: Option<seq<seq<int>>>)
    requires AllRead(decs) && |decs| == |scans| && Blocks64(held)
    requires forall i :: 0 <= i < |scans| ==> FitsHeld(scans[i], |held|)
    ensures r.Some? ==> |r.value| == |held| && Blocks64(r.value)
    decreases |scans|
  {
    if scans == [] then Some(held)
    else
      match DecProg(decs[0], scans[0], held)
      case None => None
      case Some(h) => DecScript(decs[1..], scans[1..], h)
  }

  /** The scans of a valid script have the blocks they should have, and differences a decoder accepts. */
  predicate AllAccepted(units: seq<Unit>, scans: seq<Scan>)
    requires UnitsOk(units)
  {
    forall i :: 0 <= i < |scans| ==> Accepted(units, scans[i])
  }

  predicate AllDecisions(decs: seq<Decoder>, units: seq<Unit>, scans: seq<Scan>)
    requires UnitsOk(units) && AllRead(decs) && |decs| == |scans| && AllAccepted(units, scans)
  {
    forall i :: 0 <= i < |scans| ==> Follows(decs[i], ProgDecisions(units, scans[i]))
  }

  lemma AllFit(units: seq<Unit>, scans: seq<Scan>)
    requires UnitsOk(units) && AllAccepted(units, scans)
    ensures forall i :: 0 <= i < |scans| ==> FitsHeld(scans[i], |units|)
  {
    hide IsCoefBlock, McusShaped, DcSmall, InMcus, InHeld;
    forall i | 0 <= i < |scans| ensures FitsHeld(scans[i], |units|) {
      assert Accepted(units, scans[i]);
      ScanShape(scans[i], units);
    }
  }

  /** After any valid script a decoder holds every coefficient down to the last bit the script has sent of it. */
  lemma {:induction false} ScriptHolds(decs: seq<Decoder>, units: seq<Unit>, last: seq<seq<int>>, scans: seq<Scan>,
                                       held: seq<seq<int>>)
    requires UnitsOk(units) && AllRead(decs) && |decs| == |scans| && AllAccepted(units, scans)
    requires ScriptValid(last, scans) && Holds(units, last, held) && AllDecisions(decs, units, scans)
    ensures Blocks64(held) && forall i :: 0 <= i < |scans| ==> FitsHeld(scans[i], |held|)
    ensures var r := DecScript(decs, scans, held); r.Some? && Holds(units, AfterScript(last, scans), r.value)
    decreases |scans|
  {
    hide Follows, Reads, Holds, Blocks64, FitsHeld, ScanValid, AfterScan, Accepted, ProgDecisions, DecProg, UnitsOk;
    HoldsSized(units, last, held);
    AllFit(units, scans);
    if scans != [] {
      ScanHolds(decs[0], units, last, scans[0], held);
      var h := DecProg(decs[0], scans[0], held).value;
      assert forall i :: 0 <= i < |scans[1..]| ==> scans[1..][i] == scans[i + 1] && decs[1..][i] == decs[i + 1];
      ScriptHolds(decs[1..], units, AfterScan(last, scans[0]), scans[1..], h);
    }
  }

  /** No coefficient of n components sent yet. */
  function NothingSent(n: nat): (last: seq<seq<int>>)
    ensures |last| == n && forall c, k :: 0 <= c < n && 0 <= k < 64 ==> |last[c]| == 64 && last[c][k] == -1
  {
    seq(n, c => seq(64, k => -1))
  }

  /** All bits sent of all coefficients of all blocks. */
  predicate Complete(units: seq<Unit>, last: seq<seq<int>>)
  {
    forall u :: 0 <= u < |units| ==>
      units[u].ci < |last| && |last[units[u].ci]| == 64 && forall k :: 0 <= k < 64 ==> last[units[u].ci][k] == 0
  }

  /** A script that sends all bits delivers the blocks themselves, in zigzag order. */
  lemma CompleteDelivers(units: seq<Unit>, last: seq<seq<int>>, held: seq<seq<int>>)
    requires UnitsOk(units) && Holds(units, last, held) && Complete(units, last)
    ensures forall u, k :: 0 <= u < |units| && 0 <= k < 64 ==>
      |held[u]| == 64 && held[u][k] == units[u].block[NaturalOrder(k)]
  {
    hide Transformed, ShiftDc, NaturalOrder, IsCoef;
    forall u, k | 0 <= u < |units| && 0 <= k < 64
      ensures |held[u]| == 64 && held[u][k] == units[u].block[NaturalOrder(k)]
    {
      assert last[units[u].ci][k] == 0 && HoldsBlock(units[u].block, last[units[u].ci], held[u]);
      if k == 0 {
        ShiftedByNothing(units[u].block[0]);
      } else {
        Untransformed(units[u].block, k);
      }
    }
  }

  lemma ShiftedByNothing(v: int)
    ensures ShiftDc(v, 0) == v && NaturalOrder(0) == 0
  {
  }

  // ----- writing the scans -----

  lemma RefinesNext(last: seq<seq<int>>, sc: Scan)
    requires ScanValid(last, sc) && sc.ah > 0
    ensures sc.ah == sc.al + 1
  {
    var row := last[sc.of[0]];
    assert RowAllows(row, sc) && (row[sc.ss] < 0 ==> sc.ah == 0);
  }

  method EncodeAcMcus(e: ScanEncoder, units: seq<Unit>, sc: Scan)
    requires e.Valid() && UnitsOk(units) && MembersOk(sc) && sc.ss > 0 && McusShaped(sc, units, sc.mcus)
    requires sc.ah > 0 ==> sc.ah == sc.al + 1
    modifies e.enc, e.enc.stats
    ensures e.Valid() && e.enc.start == old(e.enc.start) && e.enc.sent == old(e.enc.sent)
    ensures e.enc.trace == old(e.enc.trace) + AcScanDecisions(units, sc, sc.mcus)
  {
    hide Encoder.Valid, BandDecisions, InMcus, CompOk, IsCoef;
    var m, b := 0, BandOf(sc);
    ghost var goal := AcScanDecisions(units, sc, sc.mcus);
    assert sc.mcus[0..] == sc.mcus;
    while m < |sc.mcus|
      invariant 0 <= m <= |sc.mcus| && e.Valid() && e.enc.start == old(e.enc.start) && e.enc.sent == old(e.enc.sent)
      invariant McusShaped(sc, units, sc.mcus[m..])
      invariant e.enc.trace + AcScanDecisions(units, sc, sc.mcus[m..]) == old(e.enc.trace) + goal
    {
      ghost var t := e.enc.trace;
      assert sc.mcus[m..][0] == sc.mcus[m] && sc.mcus[m..][1..] == sc.mcus[m + 1..];
      EncodeBand(e, units[sc.mcus[m][0]].block, sc);
      ghost var ds := BandDecisions(units[sc.mcus[m][0]].block, sc);
      ghost var rest := AcScanDecisions(units, sc, sc.mcus[m + 1..]);
      assert t + (ds + rest) == e.enc.trace + rest;
      m := m + 1;
    }
    assert e.enc.trace + [] == e.enc.trace;
  }

  /** encode_mcu_AC_first or encode_mcu_AC_refine: the one block of an MCU. */
  method EncodeBand(e: ScanEncoder, block: seq<int>, sc: Scan)
    requires e.Valid() && IsCoefBlock(block) && MembersOk(sc) && sc.ss > 0 && (sc.ah > 0 ==> sc.ah == sc.al + 1)
    modifies e.enc, e.enc.stats
    ensures e.Valid() && e.enc.start == old(e.enc.start) && e.enc.sent == old(e.enc.sent)
    ensures e.enc.trace == old(e.enc.trace) + BandDecisions(block, sc)
  {
    hide Encoder.Valid, AcDecisions, RefDecisions, Transformed, LastNonzero, IsCoef;
    if sc.ah == 0 {
      e.EncodeAc(block, BandOf(sc), sc.ss, sc.al);
    } else {
      e.RefineAc(block, BandOf(sc), sc.ss, sc.ah, sc.al);
    }
  }

  method EncodeDcFirstMcus(e: ScanEncoder, units: seq<Unit>, sc: Scan)
    requires e.Valid() && UnitsOk(units) && MembersOk(sc) && McusShaped(sc, units, sc.mcus) && Predicted(sc.comps, e.State())
    modifies e.enc, e.enc.stats, e.lastDcVal, e.dcContext
    ensures e.Valid() && e.enc.start == old(e.enc.start) && e.enc.sent == old(e.enc.sent)
    ensures e.enc.trace == old(e.enc.trace) + DcFirstScanDecisions(units, sc, sc.mcus, old(e.State()))
  {
    hide Encoder.Valid, DcFirstDecisions, DcValues, Predicted, InMcus, IsCoefBlock;
    var m := 0;
    ghost var goal := DcFirstScanDecisions(units, sc, sc.mcus, e.State());
    assert sc.mcus[0..] == sc.mcus;
    while m < |sc.mcus|
      invariant 0 <= m <= |sc.mcus| && e.Valid() && e.enc.start == old(e.enc.start) && e.enc.sent == old(e.enc.sent)
      invariant Predicted(sc.comps, e.State()) && McusShaped(sc, units, sc.mcus[m..])
      invariant e.enc.trace + DcFirstScanDecisions(units, sc, sc.mcus[m..], e.State()) == old(e.enc.trace) + goal
    {
      ghost var t, s := e.enc.trace, e.State();
      assert sc.mcus[m..][0] == sc.mcus[m] && sc.mcus[m..][1..] == sc.mcus[m + 1..];
      var blocks := Blocks(units, sc.mcus[m]);
      e.EncodeMcuDcFirst(sc.comps, sc.member, blocks, sc.al);
      ghost var ds := DcFirstDecisions(sc.comps, sc.member, DcValues(blocks, sc.al), s).0;
      ghost var rest := DcFirstScanDecisions(units, sc, sc.mcus[m + 1..], e.State());
      assert t + (ds + rest) == e.enc.trace + rest;
      m := m + 1;
    }
    assert e.enc.trace + [] == e.enc.trace;
  }

  method EncodeDcRefMcus(e: ScanEncoder, units: seq<Unit>, sc: Scan)
    requires e.Valid() && UnitsOk(units) && MembersOk(sc) && McusShaped(sc, units, sc.mcus)
    modifies e.enc, e.enc.stats
    ensures e.Valid() && e.enc.start == old(e.enc.start) && e.enc.sent == old(e.enc.sent)
    ensures e.enc.trace == old(e.enc.trace) + DcRefScanDecisions(units, sc, sc.mcus)
  {
    hide Encoder.Valid, DcRefDecisions, DcValues, InMcus, IsCoefBlock;
    var m := 0;
    ghost var goal := DcRefScanDecisions(units, sc, sc.mcus);
    assert sc.mcus[0..] == sc.mcus;
    while m < |sc.mcus|
      invariant 0 <= m <= |sc.mcus| && e.Valid() && e.enc.start == old(e.enc.start) && e.enc.sent == old(e.enc.sent)
      invariant McusShaped(sc, units, sc.mcus[m..])
      invariant e.enc.trace + DcRefScanDecisions(units, sc, sc.mcus[m..]) == old(e.enc.trace) + goal
    {
      ghost var t := e.enc.trace;
      assert sc.mcus[m..][0] == sc.mcus[m] && sc.mcus[m..][1..] == sc.mcus[m + 1..];
      var blocks := Blocks(units, sc.mcus[m]);
      e.RefineDc(blocks, sc.al);
      ghost var ds := DcRefDecisions(DcValues(blocks, sc.al));
      ghost var rest := DcRefScanDecisions(units, sc, sc.mcus[m + 1..]);
      assert t + (ds + rest) == e.enc.trace + rest;
      m := m + 1;
    }
    assert e.enc.trace + [] == e.enc.trace;
  }

  lemma StartPredicted(comps: seq<Comp>)
    requires |comps| <= MAX_COMPS_IN_SCAN
    ensures Predicted(comps, ZeroStates())
  {
  }

  /** One scan: a decoder opened on its bytes, up to the marker that follows, has its decisions in front of it. */
  method EncodeProg(units: seq<Unit>, ghost last: seq<seq<int>>, sc: Scan, tail: seq<int>)
    returns (out: seq<int>, d: ByteDecoder)
    requires UnitsOk(units) && ScanValid(last, sc) && McusShaped(sc, units, sc.mcus)
    requires (tail == [] || StartsMarker(tail)) && IsBytes(tail)
    ensures d.Valid() && d.input == out + tail
    ensures Reads(d.Exact()) && Follows(d.Exact(), ProgDecisions(units, sc))
  {
    hide Encoder.Valid, ByteDecoder.Valid, ByteDecoder.Exact, AcScanDecisions, DcFirstScanDecisions, DcRefScanDecisions,
      Run, Frac, In, Stuff, Follows, InRange, McusShaped, RowAllows, Predicted;
    var e := OpenEncoder();
    ghost var ds := ProgDecisions(units, sc);
    if sc.ah > 0 {
      RefinesNext(last, sc);
    }
    if sc.ss > 0 {
      EncodeAcMcus(e, units, sc);
    } else if sc.ah == 0 {
      StartPredicted(sc.comps);
      EncodeDcFirstMcus(e, units, sc);
    } else {
      EncodeDcRefMcus(e, units, sc);
    }
    assert e.enc.trace == ds;
    ghost var digits;
    out, digits := FinishScan(e);
    d := OpenScan(out, digits, ds, tail);
  }

  /** All scans of a valid script, each closed by a marker, with a decoder opened on the bytes of each. */
  method EncodeScans(units: seq<Unit>, ghost last0: seq<seq<int>>, scans: seq<Scan>, tails: seq<seq<int>>)
    returns (outs: seq<seq<int>>, ds: seq<ByteDecoder>, ghost decs: seq<Decoder>)
    requires UnitsOk(units) && ScriptValid(last0, scans) && AllAccepted(units, scans)
    requires |tails| == |scans| && forall i :: 0 <= i < |tails| ==> IsBytes(tails[i]) && (tails[i] == [] || StartsMarker(tails[i]))
    ensures |outs| == |ds| == |decs| == |scans| && AllRead(decs) && AllDecisions(decs, units, scans)
    ensures forall i :: 0 <= i < |ds| ==> ds[i].Valid() && ds[i].input == outs[i] + tails[i] && decs[i] == ds[i].Exact()
  {
    hide ByteDecoder.Valid, ByteDecoder.Exact, InFront, ProgDecisions, Follows, Accepted, ScanValid, AfterScan, UnitsOk,
      StartsMarker, Reads, IsBytes, MembersOk, McusShaped;
    outs, ds, decs := [], [], [];
    ghost var last := last0;
    assert scans[0..] == scans;
    var i := 0;
    while i < |scans|
      invariant 0 <= i <= |scans| && |outs| == |ds| == |decs| == i && ScriptValid(last, scans[i..]) && AllRead(decs)
      invariant forall j :: 0 <= j < i ==> ds[j].Valid() && ds[j].input == outs[j] + tails[j] && decs[j] == ds[j].Exact()
      invariant forall j :: 0 <= j < i ==> InFront(decs[j], units, scans[j])
    {
      assert scans[i..][0] == scans[i] && scans[i..][1..] == scans[i + 1..];
      assert Accepted(units, scans[i]);
      AcceptedShaped(units, scans[i]);
      var out, d := EncodeProg(units, last, scans[i], tails[i]);
      IsInFront(d.Exact(), units, scans[i]);
      outs, ds, decs := outs + [out], ds + [d], decs + [d.Exact()];
      last := AfterScan(last, scans[i]);
      i := i + 1;
    }
    AllInFront(decs, units, scans);
  }

  /**
   A whole progressive image: decoders opened on the bytes of its scans, one after the other, end up holding every
   coefficient down to the last bit sent of it.
   */
  method EncodeScript(units: seq<Unit>, n: nat, scans: seq<Scan>, tails: seq<seq<int>>, ghost held: seq<seq<int>>)
    returns (outs: seq<seq<int>>, ds: seq<ByteDecoder>, ghost decs: seq<Decoder>)
    requires UnitsOk(units) && ScriptValid(NothingSent(n), scans) && AllAccepted(units, scans)
    requires |held| == |units| && Blocks64(held) && forall u :: 0 <= u < |units| ==> units[u].ci < n
    requires |tails| == |scans| && forall i :: 0 <= i < |tails| ==> IsBytes(tails[i]) && (tails[i] == [] || StartsMarker(tails[i]))
    ensures |outs| == |ds| == |decs| == |scans| && AllRead(decs)
    ensures forall i :: 0 <= i < |ds| ==> ds[i].Valid() && ds[i].input == outs[i] + tails[i] && decs[i] == ds[i].Exact()
    ensures forall i :: 0 <= i < |scans| ==> FitsHeld(scans[i], |held|)
    ensures var r := DecScript(decs, scans, held);
      r.Some? && Holds(units, AfterScript(NothingSent(n), scans), r.value)
  {
    hide ByteDecoder.Valid, ByteDecoder.Exact, AllDecisions, AllAccepted, ScriptValid, AfterScript, UnitsOk, StartsMarker, Reads,
      FitsHeld, Holds, NothingSent, DecScript;
    outs, ds, decs := EncodeScans(units, NothingSent(n), scans, tails);
    NothingHeld(units, n, held);
    ScriptHolds(decs, units, NothingSent(n), scans, held);
  }

  predicate Shaped(units: seq<Unit>, sc: Scan)
  {
    MembersOk(sc) && McusShaped(sc, units, sc.mcus)
  }

  predicate InFront(dec: Decoder, units: seq<Unit>, sc: Scan)
    requires UnitsOk(units)
  {
    Reads(dec) && Shaped(units, sc) && Follows(dec, ProgDecisions(units, sc))
  }

  lemma IsInFront(dec: Decoder, units: seq<Unit>, sc: Scan)
    requires UnitsOk(units) && Reads(dec) && Shaped(units, sc) && Follows(dec, ProgDecisions(units, sc))
    ensures InFront(dec, units, sc)
  {
  }

  lemma AllInFront(decs: seq<Decoder>, units: seq<Unit>, scans: seq<Scan>)
    requires UnitsOk(units) && |decs| == |scans| && AllAccepted(units, scans)
    requires forall j :: 0 <= j < |scans| ==> InFront(decs[j], units, scans[j])
    ensures AllRead(decs) && AllDecisions(decs, units, scans)
  {
    hide UnitsOk, Follows, ProgDecisions, Accepted, McusShaped;
    forall j | 0 <= j < |scans| ensures Reads(decs[j]) {
      assert InFront(decs[j], units, scans[j]);
    }
    forall j | 0 <= j < |scans| ensures Follows(decs[j], ProgDecisions(units, scans[j])) {
      assert InFront(decs[j], units, scans[j]) && Accepted(units, scans[j]);
    }
  }

  lemma AcceptedShaped(units: seq<Unit>, sc: Scan)
    requires UnitsOk(units) && Accepted(units, sc)
    ensures Shaped(units, sc)
  {
  }

  lemma NothingHeld(units: seq<Unit>, n: nat, held: seq<seq<int>>)
    requires UnitsOk(units) && |held| == |units| && Blocks64(held) && forall u :: 0 <= u < |units| ==> units[u].ci < n
    ensures Holds(units, NothingSent(n), held)
  {
  }
}
