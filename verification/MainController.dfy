/**
 From scanlines to MCUs (jpeg_write_scanlines of jcapistd.c, process_data_simple_main of jcmainct.c): however
 the application splits the scanlines and whenever the entropy encoder suspends, every scanline is preprocessed
 once, and every MCU is encoded once, in order.
 */
module MainController {
  import opened Powers
  import opened ScanGeometry
  import opened CoefController

  const DCTSIZE: nat := 8

  /** Scanlines before iMCU row r. */
  function Boundary(height: nat, maxV: nat, r: nat): nat
  {
    if r * (8 * maxV) < height then r * (8 * maxV) else height
  }

  lemma Boundaries(height: nat, maxV: nat, rows: nat, r: nat)
    requires height >= 1 && maxV >= 1 && rows == DivUp(height, 8 * maxV) && r <= rows
    ensures Boundary(height, maxV, 0) == 0 && Boundary(height, maxV, rows) == height
    ensures r < rows ==> Boundary(height, maxV, r) < Boundary(height, maxV, r + 1) <= height
    ensures r < rows ==> Boundary(height, maxV, r) == r * (8 * maxV) >= Boundary(height, maxV, r + 1) - 8 * maxV
  {
    var m := 8 * maxV;
    DivUpBounds(height, m);
    if r < rows {
      MulMonotone(r, rows - 1, m);
      assert (r + 1) * m == r * m + m;
    }
  }

  /** Whole row groups of iMCU row r among the first taken scanlines. */
  function RowGroups(maxV: nat, r: nat, taken: nat): nat
    requires maxV >= 1
  {
    if taken < r * (8 * maxV) then 0 else (taken - r * (8 * maxV)) / maxV
  }

  lemma GroupsBelow(height: nat, maxV: nat, rows: nat, r: nat, taken: nat)
    requires height >= 1 && maxV >= 1 && rows == DivUp(height, 8 * maxV) && r < rows
    requires taken < Boundary(height, maxV, r + 1)
    ensures RowGroups(maxV, r, taken) < 8
  {
    hide DivUp;
    Boundaries(height, maxV, rows, r);
    if taken >= r * (8 * maxV) {
      var n := taken - r * (8 * maxV);
      var q := n / maxV;
      assert q * maxV <= n;
      if q >= 8 {
        MulMonotone(8, q, maxV);
      }
    }
  }

  class Compressor {
    const height: nat
    const maxV: nat
    const coef: Controller
    // jpeg_write_scanlines
    var nextScanline: nat
    // process_data_simple_main
    var curImcuRow: nat
    var rowgroupCtr: nat
    var suspended: bool
    /** Scanlines the preprocessor has taken, and which ones they were. */
    var taken: nat
    ghost var preprocessed: seq<nat>

    ghost predicate Fixed()
    {
      height >= 1 && maxV >= 1 && ScanOk(coef.s) && coef.s.rows == DivUp(height, 8 * maxV)
    }

    ghost predicate EachOnce()
      reads this
    {
      |preprocessed| == taken && forall i :: 0 <= i < taken ==> preprocessed[i] == i
    }

    /** The strip buffer, the counters and the coefficient controller agree. */
    ghost predicate InStep()
      reads this, coef, coef.entropy
    {
      && Fixed() && EachOnce() && coef.Valid() && coef.before == []
      && curImcuRow == coef.imcuRowNum <= coef.s.rows
      && (curImcuRow < coef.s.rows ==> taken <= Boundary(height, maxV, curImcuRow + 1))
      && Boundary(height, maxV, curImcuRow) <= taken
      && (curImcuRow == coef.s.rows ==> taken == height && !suspended)
      && (rowgroupCtr < DCTSIZE || (rowgroupCtr == DCTSIZE && curImcuRow < coef.s.rows))
      && (curImcuRow < coef.s.rows ==>
          (rowgroupCtr == DCTSIZE <==> taken == Boundary(height, maxV, curImcuRow + 1)))
      && (suspended ==> rowgroupCtr == DCTSIZE)
      && (!suspended ==> coef.mcuVertOffset == 0 && coef.mcuCtr == 0)
    }

    /** Between calls: the number of the next scanline is that of the rows taken, less one while suspended. */
    ghost predicate Valid()
      reads this, coef, coef.entropy
    {
      && InStep() && (rowgroupCtr == DCTSIZE ==> suspended)
      && nextScanline == taken - if suspended then 1 else 0
    }

    constructor (height: nat, maxV: nat, coef: Controller)
      requires height >= 1 && maxV >= 1 && coef.Valid() && coef.s.rows == DivUp(height, 8 * maxV)
      requires coef.before == [] && coef.imcuRowNum == coef.mcuVertOffset == coef.mcuCtr == 0
      ensures Valid() && nextScanline == curImcuRow == 0 && this.height == height && this.maxV == maxV && this.coef == coef
    {
      this.height, this.maxV, this.coef := height, maxV, coef;
      nextScanline, curImcuRow, rowgroupCtr, suspended, taken, preprocessed := 0, 0, 0, false, 0, [];
      new;
      Boundaries(height, maxV, coef.s.rows, 0);
    }

    /**
     pre_process_data, by what it consumes: scanlines as long as there are some and the iMCU row is not full,
     the last one being filled up at the bottom of the image.
     */
    method PreProcess(ghost base: nat, inRowCtr0: nat, inRowsAvail: nat) returns (inRowCtr: nat)
      requires Fixed() && EachOnce() && curImcuRow < coef.s.rows
      requires Boundary(height, maxV, curImcuRow) <= taken < Boundary(height, maxV, curImcuRow + 1)
      requires base + inRowCtr0 == taken
      modifies this`preprocessed, this`taken, this`rowgroupCtr
      ensures EachOnce() && base + inRowCtr == taken && inRowCtr0 <= inRowCtr
      ensures old(taken) <= taken <= Boundary(height, maxV, curImcuRow + 1) && rowgroupCtr <= DCTSIZE
      ensures rowgroupCtr == DCTSIZE <==> taken == Boundary(height, maxV, curImcuRow + 1)
      ensures taken == Boundary(height, maxV, curImcuRow + 1) || inRowCtr >= inRowsAvail
    {
      hide ScanOk, DivUp, Boundary, RowGroups;
      inRowCtr := inRowCtr0;
      var top := Boundary(height, maxV, curImcuRow + 1);
      while inRowCtr < inRowsAvail && taken < top
        invariant EachOnce() && base + inRowCtr == taken <= top && inRowCtr0 <= inRowCtr
      {
        preprocessed := preprocessed + [base + inRowCtr];
        taken := taken + 1;
        inRowCtr := inRowCtr + 1;
      }
      if taken < top {
        GroupsBelow(height, maxV, coef.s.rows, curImcuRow, taken);
      }
      rowgroupCtr := if taken == top then DCTSIZE else RowGroups(maxV, curImcuRow, taken);
    }

    /** process_data_simple_main. base, the number of the first scanline passed, is what the counters say it is. */
    method ProcessData(ghost base: nat, inRowsAvail: nat) returns (inRowCtr: nat)
      requires Valid() && base == nextScanline
      modifies this`preprocessed, this`taken, this`rowgroupCtr, this`curImcuRow, this`suspended
      modifies coef, coef.entropy, coef.mcuBuffer
      ensures InStep() && (rowgroupCtr == DCTSIZE ==> suspended)
      ensures base + inRowCtr == taken - if suspended then 1 else 0
      ensures old(coef.entropy.accepted) <= coef.entropy.accepted
      ensures Refusals(old(coef.entropy.answers)) == Refusals(coef.entropy.answers) + if suspended then 1 else 0
      ensures suspended || curImcuRow == coef.s.rows || inRowCtr >= inRowsAvail
      ensures inRowCtr >= 0
    {
      hide ScanOk, DivUp, Sent, FitsBuffer, Boundary, Accepts, AnswersLeft, Refusals, Controller.Left;
      inRowCtr := 0;
      while curImcuRow < coef.s.rows
        invariant InStep() && (rowgroupCtr == DCTSIZE ==> suspended)
        invariant base + inRowCtr == taken - if suspended then 1 else 0
        invariant old(coef.entropy.accepted) <= coef.entropy.accepted
        invariant Refusals(old(coef.entropy.answers)) == Refusals(coef.entropy.answers) && inRowCtr >= 0
        decreases coef.s.rows - curImcuRow
      {
        Boundaries(height, maxV, coef.s.rows, curImcuRow);
        if rowgroupCtr < DCTSIZE {
          inRowCtr := PreProcess(base, inRowCtr, inRowsAvail);
        }
        if rowgroupCtr != DCTSIZE {
          return;
        }
        RefusalsLeft(coef.entropy.answers, coef.Left());
        var done := coef.CompressData();
        if !done {
          if !suspended {
            inRowCtr := inRowCtr - 1;
            suspended := true;
          }
          return;
        }
        if suspended {
          inRowCtr := inRowCtr + 1;
          suspended := false;
        }
        rowgroupCtr := 0;
        curImcuRow := curImcuRow + 1;
        if curImcuRow < coef.s.rows {
          Boundaries(height, maxV, coef.s.rows, curImcuRow);
        }
      }
    }

    /**
     jpeg_write_scanlines. The application is asked for scanline nextScanline next; when it has written all, all
     MCUs have been encoded, and not before.
     */
    method WriteScanlines(numLines0: nat) returns (rowCtr: int)
      requires Valid()
      modifies this, coef, coef.entropy, coef.mcuBuffer
      ensures Valid() && rowCtr == nextScanline - old(nextScanline)
      ensures nextScanline <= height && (nextScanline == height <==> curImcuRow == coef.s.rows)
      ensures nextScanline == height ==> coef.entropy.accepted == AllMcus(coef.s, coef.dct, coef.s.rows)
      ensures old(coef.entropy.accepted) <= coef.entropy.accepted
      ensures Refusals(old(coef.entropy.answers)) == Refusals(coef.entropy.answers) + if suspended then 1 else 0
      ensures rowCtr >= 0 && (suspended || rowCtr >= numLines0 || nextScanline == height)
    {
      hide ScanOk, DivUp, FitsBuffer, Boundary, Refusals;
      if curImcuRow < coef.s.rows {
        Boundaries(height, maxV, coef.s.rows, curImcuRow);
      }
      var rowsLeft := height - nextScanline;
      var numLines := if numLines0 > rowsLeft then rowsLeft else numLines0;
      rowCtr := ProcessData(nextScanline, numLines);
      nextScanline := nextScanline + rowCtr;
      if curImcuRow < coef.s.rows {
        Boundaries(height, maxV, coef.s.rows, curImcuRow);
      } else {
        SentAll(coef.s, coef.dct);
      }
    }
  }

  lemma SentAll(s: Scan, dct: Dct)
    requires ScanOk(s)
    ensures [] + Sent(s, dct, s.rows, 0, 0) == AllMcus(s, dct, s.rows)
  {
    assert Sent(s, dct, s.rows, 0, 0) == AllMcus(s, dct, s.rows) + ([] + []);
  }
}
