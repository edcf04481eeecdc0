/**
 The coefficient controller (jccoefct.c): the single-pass path, which transforms and sends one MCU at a time,
 and the multi-pass path, which stores whole rows first. Both may be suspended by the entropy encoder at any
 MCU, and both hand it the same MCUs.
 */
module CoefController {
  import opened Powers
  import opened ScanGeometry

  const C_MAX_BLOCKS_IN_MCU: nat := 10

  // ----- answers of the entropy encoder -----

  /** Of k MCUs, how many are taken before the first refusal; with no answers left every MCU is taken. */
  function Accepts(answers: seq<bool>, k: nat): (n: nat)
    ensures n <= k
  {
    if k == 0 then 0 else if answers == [] then k else if answers[0] then 1 + Accepts(answers[1..], k - 1) else 0
  }

  /** The answers left after those MCUs, and after the refusal if there is one. */
  function AnswersLeft(answers: seq<bool>, k: nat): seq<bool>
  {
    if k == 0 || answers == [] then answers
    else if answers[0] then AnswersLeft(answers[1..], k - 1) else answers[1..]
  }

  /** Number of refusals in a schedule. */
  function Refusals(answers: seq<bool>): nat
  {
    if answers == [] then 0 else (if answers[0] then 0 else 1) + Refusals(answers[1..])
  }

  /** A run of MCUs meets one refusal, or none if all are taken. */
  lemma {:induction false} RefusalsLeft(answers: seq<bool>, k: nat)
    ensures Refusals(answers) == Refusals(AnswersLeft(answers, k)) + if Accepts(answers, k) < k then 1 else 0
  {
    if k > 0 && answers != [] && answers[0] {
      RefusalsLeft(answers[1..], k - 1);
    }
  }

  /** encode_mcu as seen from here: it takes an MCU or refuses it, following any schedule of answers. */
  class EntropyEncoder {
    var accepted: seq<seq<Block>>
    var answers: seq<bool>

    constructor (answers: seq<bool>)
      ensures accepted == [] && this.answers == answers
    {
      accepted := [];
      this.answers := answers;
    }

    method EncodeMcu(mcu: seq<Block>) returns (ok: bool)
      modifies this
      ensures ok == (old(answers) == [] || old(answers)[0])
      ensures answers == if old(answers) == [] then [] else old(answers)[1..]
      ensures accepted == if ok then old(accepted) + [mcu] else old(accepted)
    {
      ok := true;
      if answers != [] {
        ok := answers[0];
        answers := answers[1..];
      }
      if ok {
        accepted := accepted + [mcu];
      }
    }
  }

  // ----- sizes -----

  /** Blocks of the first n members of an MCU. */
  function BlocksIn(s: Scan, n: nat): nat
    requires ScanOk(s) && n <= |s.members|
  {
    if n == 0 then 0
    else BlocksIn(s, n - 1) + McuWidth(s, s.comps[s.members[n - 1]]) * McuHeight(s, s.comps[s.members[n - 1]])
  }

  /** per_scan_setup refuses other scans. */
  predicate FitsBuffer(s: Scan)
    requires ScanOk(s)
  {
    BlocksIn(s, |s.members|) <= C_MAX_BLOCKS_IN_MCU
  }

  lemma {:induction false} BlocksInGrows(s: Scan, m: nat, n: nat)
    requires ScanOk(s) && m <= n <= |s.members|
    ensures BlocksIn(s, m) <= BlocksIn(s, n)
  {
    if m < n {
      BlocksInGrows(s, m, n - 1);
    }
  }

  /** Real blocks of member k in MCU column col. */
  function BlockCount(s: Scan, k: nat, col: nat): nat
    requires ScanOk(s) && k < |s.members|
  {
    var c := s.comps[s.members[k]];
    if col + 1 < s.mcusPerRow then McuWidth(s, c) else if Interleaved(s) then Last(c.width, c.h) else 1
  }

  /** The real blocks of a column come first, and dummies only follow the last block of the component. */
  lemma ColumnSplit(s: Scan, k: nat, col: nat)
    requires ScanOk(s) && k < |s.members| && col < s.mcusPerRow
    ensures var c, w, n := s.comps[s.members[k]], McuWidth(s, s.comps[s.members[k]]), BlockCount(s, k, col);
      1 <= n <= w && col * w + n <= c.width && (n < w ==> col * w + n == c.width)
  {
    var c := s.comps[s.members[k]];
    var w := McuWidth(s, c);
    if Interleaved(s) {
      assert WidthFits(s, k);
      LastUnit(c.width, c.h);
      if col + 1 < s.mcusPerRow {
        MulMonotone(col + 1, s.mcusPerRow - 1, w);
        assert (col + 1) * w == col * w + w;
      }
    }
  }

  lemma CountRange(s: Scan, k: nat, col: nat)
    requires ScanOk(s) && k < |s.members| && col < s.mcusPerRow
    ensures 1 <= BlockCount(s, k, col) <= McuWidth(s, s.comps[s.members[k]])
  {
    hide BlockCount;
    ColumnSplit(s, k, col);
  }

  /** Column x of MCU column col. */
  lemma InColumn(col: nat, w: nat, x: nat)
    requires x < w
    ensures (col * w + x) / w * w + w - 1 == col * w + w - 1
  {
    DivIs(col * w + x, w, col, x);
  }

  /** Blocks as forward_DCT makes them, and n dummies. */
  function DctRow(dct: Dct, ci: nat, r: nat, y: nat, x: nat, n: nat): (row: seq<Block>)
    ensures |row| == n && forall i :: 0 <= i < n ==> row[i] == dct(ci, r, y, x + i)
  {
    if n == 0 then [] else DctRow(dct, ci, r, y, x, n - 1) + [dct(ci, r, y, x + n - 1)]
  }

  function Dummies(dc: int, n: nat): (row: seq<Block>)
    ensures |row| == n && forall i :: 0 <= i < n ==> row[i] == Dummy(dc)
  {
    if n == 0 then [] else Dummies(dc, n - 1) + [Dummy(dc)]
  }

  lemma RealRowParts(s: Scan, dct: Dct, k: nat, r: nat, y: nat, col: nat, x0: nat)
    requires ScanOk(s) && k < |s.members| && col < s.mcusPerRow && y < RealRows(s, s.comps[s.members[k]], r)
    requires x0 == col * McuWidth(s, s.comps[s.members[k]])
    ensures var ci, w, n := s.members[k], McuWidth(s, s.comps[s.members[k]]), BlockCount(s, k, col);
      1 <= n <= w && RowBlocks(s, dct, k, r, y, col)
        == DctRow(dct, ci, r, y, x0, n) + Dummies(DctRow(dct, ci, r, y, x0, n)[n - 1].dc, w - n)
  {
    hide BlockCount, DivUp, Last, Padded, DctRow, Dummies;
    ColumnSplit(s, k, col);
    var ci, w, n := s.members[k], McuWidth(s, s.comps[s.members[k]]), BlockCount(s, k, col);
    var head := DctRow(dct, ci, r, y, x0, n);
    var row := RowBlocks(s, dct, k, r, y, col);
    forall x | 0 <= x < w ensures row[x] == (head + Dummies(head[n - 1].dc, w - n))[x] {
      PaddedInRow(s, dct, ci, r, y, x0 + x);
    }
  }

  lemma PaddedInRow(s: Scan, dct: Dct, ci: nat, r: nat, y: nat, x: nat)
    requires ScanOk(s) && ci < |s.comps| && y < RealRows(s, s.comps[ci], r)
    ensures Padded(s, dct, ci, r, y, x)
      == if x < s.comps[ci].width then dct(ci, r, y, x) else Dummy(dct(ci, r, y, s.comps[ci].width - 1).dc)
  {
  }

  lemma Assoc<T>(a: seq<T>, b: seq<T>, c: seq<T>)
    ensures (a + b) + c == a + (b + c)
  {
  }

  /** b is the last block of the MCU in the row of blocks above row y. */
  predicate AboveRow(s: Scan, dct: Dct, k: nat, r: nat, y: nat, col: nat, b: Block)
    requires ScanOk(s) && k < |s.members|
  {
    var h := s.comps[s.members[k]].h;
    Interleaved(s) && y >= 1 && b == Padded(s, dct, s.members[k], r, y - 1, col * h + h - 1)
  }

  lemma BottomRowParts(s: Scan, dct: Dct, k: nat, r: nat, y: nat, col: nat, above: Block)
    requires ScanOk(s) && k < |s.members| && y >= RealRows(s, s.comps[s.members[k]], r)
    requires AboveRow(s, dct, k, r, y, col, above)
    ensures RowBlocks(s, dct, k, r, y, col) == Dummies(above.dc, McuWidth(s, s.comps[s.members[k]]))
  {
    var c := s.comps[s.members[k]];
    var row := RowBlocks(s, dct, k, r, y, col);
    forall x | 0 <= x < |row| ensures row[x] == Dummy(above.dc) {
      InColumn(col, c.h, x);
    }
  }

  // ----- what has been sent -----

  /** MCUs of iMCU row r from MCU mcuCtr of MCU row yoffset on. */
  function RowLeft(s: Scan, r: nat, yoffset: nat, mcuCtr: nat): nat
    requires ScanOk(s) && mcuCtr <= s.mcusPerRow
    requires yoffset < McuRows(s, r) || (yoffset == McuRows(s, r) && mcuCtr == 0)
  {
    if yoffset == McuRows(s, r) then 0
    else s.mcusPerRow - mcuCtr + (McuRows(s, r) - yoffset - 1) * s.mcusPerRow
  }

  /** The MCUs before MCU mcuCtr of MCU row yoffset of iMCU row r. */
  function Sent(s: Scan, dct: Dct, r: nat, yoffset: nat, mcuCtr: nat): seq<seq<Block>>
    requires ScanOk(s)
  {
    AllMcus(s, dct, r) + (ImcuRow(s, dct, r, yoffset) + RowMcus(s, dct, r, yoffset, mcuCtr))
  }

  lemma SentOneMore(s: Scan, dct: Dct, r: nat, yoffset: nat, mcuCtr: nat)
    requires ScanOk(s)
    ensures Sent(s, dct, r, yoffset, mcuCtr + 1) == Sent(s, dct, r, yoffset, mcuCtr) + [Mcu(s, dct, r, yoffset, mcuCtr)]
  {
  }

  lemma SentRow(s: Scan, dct: Dct, r: nat, yoffset: nat)
    requires ScanOk(s)
    ensures Sent(s, dct, r, yoffset, s.mcusPerRow) == Sent(s, dct, r, yoffset + 1, 0)
  {
    var row := RowMcus(s, dct, r, yoffset, s.mcusPerRow);
    assert ImcuRow(s, dct, r, yoffset + 1) == ImcuRow(s, dct, r, yoffset) + row;
    assert (ImcuRow(s, dct, r, yoffset) + row) + [] == ImcuRow(s, dct, r, yoffset) + row;
  }

  lemma SentImcuRow(s: Scan, dct: Dct, r: nat)
    requires ScanOk(s)
    ensures Sent(s, dct, r, McuRows(s, r), 0) == Sent(s, dct, r + 1, 0, 0)
  {
    var all, row := AllMcus(s, dct, r), ImcuRow(s, dct, r, McuRows(s, r));
    assert all + (row + []) == (all + row) + ([] + []);
  }

  lemma SomeRows(s: Scan, r: nat)
    requires ScanOk(s)
    ensures McuRows(s, r) >= 1 && s.mcusPerRow >= 1
  {
    var c := s.comps[s.members[0]];
    LastUnit(c.height, c.v);
  }

  lemma NothingSent(s: Scan, dct: Dct, before: seq<seq<Block>>)
    requires ScanOk(s)
    ensures before + Sent(s, dct, 0, 0, 0) == before
  {
  }

  /** Where a run of left0 MCUs stands when left of them remain: what was taken, and what is still to come. */
  ghost predicate Given(answers0: seq<bool>, left0: nat, answers: seq<bool>, left: nat, n0: nat, n: nat)
  {
    && left <= left0 && n == n0 + left0 - left
    && Accepts(answers0, left0) == left0 - left + Accepts(answers, left)
    && AnswersLeft(answers0, left0) == AnswersLeft(answers, left)
  }

  /** One more MCU offered. */
  lemma OneGiven(answers0: seq<bool>, left0: nat, answers: seq<bool>, left: nat, n0: nat, n: nat)
    requires Given(answers0, left0, answers, left, n0, n) && left > 0
    ensures answers == [] || answers[0] ==>
      Given(answers0, left0, if answers == [] then [] else answers[1..], left - 1, n0, n + 1)
    ensures answers != [] && !answers[0] ==>
      && n == n0 + Accepts(answers0, left0) && left == left0 - Accepts(answers0, left0)
      && AnswersLeft(answers0, left0) == answers[1..]
  {
  }

  lemma OneLeft(s: Scan, r: nat, yoffset: nat, col: nat)
    requires ScanOk(s) && yoffset < McuRows(s, r) && col < s.mcusPerRow
    ensures RowLeft(s, r, yoffset, col) == RowLeft(s, r, yoffset, col + 1) + 1
  {
  }

  lemma RowDone(s: Scan, r: nat, yoffset: nat)
    requires ScanOk(s) && yoffset < McuRows(s, r)
    ensures RowLeft(s, r, yoffset, s.mcusPerRow) == RowLeft(s, r, yoffset + 1, 0)
  {
    var n := McuRows(s, r) - yoffset - 1;
    if n > 0 {
      NextMultiple(n - 1, s.mcusPerRow);
    }
  }

  lemma NothingLeft(s: Scan, r: nat)
    requires ScanOk(s)
    ensures RowLeft(s, r, McuRows(s, r), 0) == 0
  {
  }

  lemma AllGiven(answers0: seq<bool>, left0: nat, answers: seq<bool>, n0: nat, n: nat)
    requires Given(answers0, left0, answers, 0, n0, n)
    ensures Accepts(answers0, left0) == left0 && n == n0 + left0 && AnswersLeft(answers0, left0) == answers
  {
  }

  lemma NoneGiven(answers0: seq<bool>, left0: nat, n0: nat)
    ensures Given(answers0, left0, answers0, left0, n0, n0)
  {
  }

  // ----- the controller -----

  class Controller {
    const s: Scan
    const dct: Dct
    const mcuBuffer: array<Block>
    const entropy: EntropyEncoder
    var imcuRowNum: nat
    var mcuCtr: nat
    var mcuVertOffset: nat
    var mcuRowsPerImcuRow: nat
    /** The virtual arrays: component, iMCU row, block row, block column. */
    var wholeImage: seq<seq<seq<seq<Block>>>>
    /** What the encoder had been given before this pass. */
    ghost var before: seq<seq<Block>>

    ghost predicate Fixed()
    {
      ScanOk(s) && FitsBuffer(s) && mcuBuffer.Length == C_MAX_BLOCKS_IN_MCU
    }

    /** The virtual arrays have the right number of rows. */
    ghost predicate Image()
      reads this`wholeImage
    {
      |wholeImage| == |s.comps| && forall i :: 0 <= i < |wholeImage| ==> |wholeImage[i]| == s.rows
    }

    /** The counters tell exactly which MCUs have been accepted. */
    ghost predicate Valid()
      reads this, entropy
    {
      && Fixed()
      && imcuRowNum <= s.rows && mcuRowsPerImcuRow == McuRows(s, imcuRowNum)
      && mcuVertOffset < mcuRowsPerImcuRow && mcuCtr < s.mcusPerRow
      && (imcuRowNum == s.rows ==> mcuVertOffset == 0 && mcuCtr == 0)
      && entropy.accepted == before + Sent(s, dct, imcuRowNum, mcuVertOffset, mcuCtr)
      && Image()
    }

    /** MCUs left in the current iMCU row. */
    ghost function Left(): nat
      requires ScanOk(s) && mcuVertOffset < McuRows(s, imcuRowNum) && mcuCtr <= s.mcusPerRow
      reads this
    {
      RowLeft(s, imcuRowNum, mcuVertOffset, mcuCtr)
    }

    /** jinit_c_coef_controller and start_pass_coef. */
    constructor (s: Scan, dct: Dct, entropy: EntropyEncoder)
      requires ScanOk(s) && FitsBuffer(s)
      ensures Valid() && imcuRowNum == mcuVertOffset == mcuCtr == 0 && before == entropy.accepted
      ensures this.s == s && this.dct == dct && this.entropy == entropy && fresh(mcuBuffer)
    {
      this.s, this.dct, this.entropy := s, dct, entropy;
      mcuBuffer := new Block[C_MAX_BLOCKS_IN_MCU](_ => Dummy(0));
      imcuRowNum, mcuCtr, mcuVertOffset := 0, 0, 0;
      mcuRowsPerImcuRow := McuRows(s, 0);
      wholeImage := seq(|s.comps|, i => seq(s.rows, j => []));
      before := entropy.accepted;
      new;
      SomeRows(s, 0);
      NothingSent(s, dct, before);
    }

    /** start_iMCU_row */
    method StartImcuRow()
      requires Fixed()
      modifies this`mcuRowsPerImcuRow, this`mcuCtr, this`mcuVertOffset
      ensures mcuRowsPerImcuRow == McuRows(s, imcuRowNum) && mcuCtr == 0 && mcuVertOffset == 0
    {
      if |s.members| > 1 {
        mcuRowsPerImcuRow := 1;
      } else {
        var c := s.comps[s.members[0]];
        mcuRowsPerImcuRow := if imcuRowNum < s.rows - 1 then c.v else Last(c.height, c.v);
      }
      mcuCtr := 0;
      mcuVertOffset := 0;
    }

    /** forward_DCT: count blocks of block row y, from column x on, put at start in the MCU buffer. */
    method ForwardDct(ci: nat, start: nat, y: nat, x: nat, count: nat)
      requires start + count <= mcuBuffer.Length
      modifies mcuBuffer
      ensures mcuBuffer[..start + count] == old(mcuBuffer[..start]) + DctRow(dct, ci, imcuRowNum, y, x, count)
    {
      var i := 0;
      while i < count
        invariant 0 <= i <= count
        invariant mcuBuffer[..start + i] == old(mcuBuffer[..start]) + DctRow(dct, ci, imcuRowNum, y, x, i)
      {
        mcuBuffer[start + i] := dct(ci, imcuRowNum, y, x + i);
        i := i + 1;
        assert mcuBuffer[..start + i] == mcuBuffer[..start + i - 1] + [mcuBuffer[start + i - 1]];
      }
    }

    /** Dummy blocks from position lo to hi, with the DC value of the block before each. */
    method FillDummies(lo: nat, hi: nat)
      requires 1 <= lo <= hi <= mcuBuffer.Length
      modifies mcuBuffer
      ensures mcuBuffer[..hi] == old(mcuBuffer[..lo]) + Dummies(old(mcuBuffer[lo - 1]).dc, hi - lo)
    {
      var i := lo;
      ghost var dc := mcuBuffer[lo - 1].dc;
      while i < hi
        invariant lo <= i <= hi && mcuBuffer[i - 1].dc == dc
        invariant mcuBuffer[..i] == old(mcuBuffer[..lo]) + Dummies(dc, i - lo)
      {
        mcuBuffer[i] := Dummy(mcuBuffer[i - 1].dc);
        i := i + 1;
        assert mcuBuffer[..i] == mcuBuffer[..i - 1] + [mcuBuffer[i - 1]];
      }
    }

    /** One row of blocks of member k, the real ones transformed, the others dummies. */
    method FillRow(k: nat, blkn: nat, y: nat, col: nat)
      requires Fixed() && k < |s.members| && col < s.mcusPerRow && imcuRowNum < s.rows
      requires blkn + McuWidth(s, s.comps[s.members[k]]) <= mcuBuffer.Length
      requires y < s.comps[s.members[k]].v
      requires y >= RealRows(s, s.comps[s.members[k]], imcuRowNum) ==>
        blkn >= 1 && AboveRow(s, dct, k, imcuRowNum, y, col, mcuBuffer[blkn - 1])
      modifies mcuBuffer
      ensures mcuBuffer[..blkn + McuWidth(s, s.comps[s.members[k]])]
        == old(mcuBuffer[..blkn]) + RowBlocks(s, dct, k, imcuRowNum, y, col)
    {
      hide RowBlocks, Padded, Dummies, FitsBuffer, Last, DivUp;
      var c := s.comps[s.members[k]];
      if imcuRowNum < s.rows - 1 || y < Last(c.height, c.v) {
        FillRealRow(k, blkn, y, col);
      } else {
        ghost var above := mcuBuffer[blkn - 1];
        FillDummies(blkn, blkn + if |s.members| > 1 then c.h else 1);
        BottomRowParts(s, dct, k, imcuRowNum, y, col, above);
      }
    }

    /** A row of blocks with real ones, and dummies at the right edge of the image. */
    method FillRealRow(k: nat, blkn: nat, y: nat, col: nat)
      requires Fixed() && k < |s.members| && col < s.mcusPerRow
      requires blkn + McuWidth(s, s.comps[s.members[k]]) <= mcuBuffer.Length
      requires y < RealRows(s, s.comps[s.members[k]], imcuRowNum)
      modifies mcuBuffer
      ensures mcuBuffer[..blkn + McuWidth(s, s.comps[s.members[k]])]
        == old(mcuBuffer[..blkn]) + RowBlocks(s, dct, k, imcuRowNum, y, col)
    {
      hide RowBlocks, DctRow, Dummies, FitsBuffer, RealRows, DivUp, BlockCount;
      var ci := s.members[k];
      var w := McuWidth(s, s.comps[ci]);
      ghost var start := mcuBuffer[..blkn];
      CountRange(s, k, col);
      var blockcnt := BlockCount(s, k, col);
      var xpos := col * w;
      ForwardDct(ci, blkn, y, xpos, blockcnt);
      FillDummies(blkn + blockcnt, blkn + w);
      RealRowParts(s, dct, k, imcuRowNum, y, col, xpos);
      ghost var head := DctRow(dct, ci, imcuRowNum, y, xpos, blockcnt);
      Assoc(start, head, Dummies(head[blockcnt - 1].dc, w - blockcnt));
    }

    /** The blocks of member k of the MCU at column col of MCU row yoffset. */
    method FillMember(k: nat, blkn0: nat, yoffset: nat, col: nat) returns (blkn: nat)
      requires Fixed() && k < |s.members| && col < s.mcusPerRow && imcuRowNum < s.rows
      requires yoffset < McuRows(s, imcuRowNum) && blkn0 == BlocksIn(s, k)
      modifies mcuBuffer
      ensures blkn == BlocksIn(s, k + 1) <= C_MAX_BLOCKS_IN_MCU
      ensures mcuBuffer[..blkn] == old(mcuBuffer[..blkn0])
        + MemberBlocks(s, dct, k, imcuRowNum, yoffset, col, McuHeight(s, s.comps[s.members[k]]))
    {
      hide RowBlocks, MemberBlocks, Padded, Last, DivUp, BlocksIn;
      var c := s.comps[s.members[k]];
      var w, height := if |s.members| > 1 then c.h else 1, if |s.members| > 1 then c.v else 1;
      MemberFits(s, k);
      ghost var start := mcuBuffer[..blkn0];
      MemberStart(s, dct, k, imcuRowNum, yoffset, col, start);
      blkn := blkn0;
      var yindex := 0;
      while yindex < height
        invariant 0 <= yindex <= height && blkn == blkn0 + w * yindex
        invariant blkn <= mcuBuffer.Length
        invariant mcuBuffer[..blkn] == start + MemberBlocks(s, dct, k, imcuRowNum, yoffset, col, yindex)
      {
        RowsFit(w, yindex, height, blkn0);
        RowInside(s, k, imcuRowNum, yoffset, yindex);
        MemberStep(s, dct, k, imcuRowNum, yoffset, col, yindex, start, mcuBuffer[..blkn]);
        FillRow(k, blkn, yoffset + yindex, col);
        blkn := blkn + w;
        yindex := yindex + 1;
      }
    }

    /** All blocks of one MCU. */
    method FillMcu(yoffset: nat, col: nat) returns (mcu: seq<Block>)
      requires Fixed() && col < s.mcusPerRow && imcuRowNum < s.rows && yoffset < McuRows(s, imcuRowNum)
      modifies mcuBuffer
      ensures mcu == Mcu(s, dct, imcuRowNum, yoffset, col)
    {
      hide MemberBlocks, BlocksIn, Fixed;
      FixedLength();
      var blkn, ci := 0, 0;
      NoBlocks(s, dct, imcuRowNum, yoffset, col);
      while ci < |s.members|
        invariant 0 <= ci <= |s.members| && ScanOk(s) && blkn == BlocksIn(s, ci) <= C_MAX_BLOCKS_IN_MCU
        invariant mcuBuffer[..blkn] == McuBlocks(s, dct, imcuRowNum, yoffset, col, ci)
      {
        blkn := FillMember(ci, blkn, yoffset, col);
        ci := ci + 1;
      }
      mcu := mcuBuffer[..blkn];
    }

    lemma FixedLength()
      requires Fixed()
      ensures ScanOk(s) && mcuBuffer.Length == C_MAX_BLOCKS_IN_MCU
    {
    }

    /**
     compress_data: one iMCU row, MCU by MCU. True when the row is finished; false when the encoder refused an
     MCU, which is made again next time. Either way the encoder has been given the next MCUs in order.
     */
    method CompressData() returns (done: bool)
      requires Valid() && imcuRowNum < s.rows
      modifies mcuBuffer, entropy, this`imcuRowNum, this`mcuCtr, this`mcuVertOffset, this`mcuRowsPerImcuRow
      ensures Valid() && old(entropy.accepted) <= entropy.accepted
      ensures done ==> imcuRowNum == old(imcuRowNum) + 1 && mcuVertOffset == 0 && mcuCtr == 0
      ensures done <==> Accepts(old(entropy.answers), old(Left())) == old(Left())
      ensures |entropy.accepted| == |old(entropy.accepted)| + Accepts(old(entropy.answers), old(Left()))
      ensures entropy.answers == AnswersLeft(old(entropy.answers), old(Left()))
      ensures !done ==> Left() == old(Left()) - Accepts(old(entropy.answers), old(Left()))
      ensures !done ==> imcuRowNum == old(imcuRowNum)
    {
      hide Sent, Mcu, McuRows, ScanOk, FitsBuffer, RowLeft, Given;
      ghost var r, left, start := imcuRowNum, Left(), entropy.accepted;
      ghost var answers0, left0 := entropy.answers, left;
      NoneGiven(answers0, left0, |start|);
      var yoffset: nat, col: nat := mcuVertOffset, mcuCtr;
      while yoffset < mcuRowsPerImcuRow
        invariant yoffset <= mcuRowsPerImcuRow && col <= s.mcusPerRow && imcuRowNum == r && Fixed()
        invariant mcuRowsPerImcuRow == McuRows(s, r) && (yoffset == mcuRowsPerImcuRow ==> col == 0)
        invariant entropy.accepted == before + Sent(s, dct, r, yoffset, col)
        invariant start <= entropy.accepted && left == RowLeft(s, r, yoffset, col)
        invariant Given(answers0, left0, entropy.answers, left, |start|, |entropy.accepted|)
        decreases mcuRowsPerImcuRow - yoffset
      {
        while col < s.mcusPerRow
          invariant col <= s.mcusPerRow && imcuRowNum == r && Fixed() && mcuRowsPerImcuRow == McuRows(s, r)
          invariant entropy.accepted == before + Sent(s, dct, r, yoffset, col)
          invariant start <= entropy.accepted && left == RowLeft(s, r, yoffset, col)
          invariant Given(answers0, left0, entropy.answers, left, |start|, |entropy.accepted|)
        {
          var mcu := FillMcu(yoffset, col);
          SentOneMore(s, dct, r, yoffset, col);
          Assoc(before, Sent(s, dct, r, yoffset, col), [mcu]);
          OneLeft(s, r, yoffset, col);
          OneGiven(answers0, left0, entropy.answers, left, |start|, |entropy.accepted|);
          var ok := entropy.EncodeMcu(mcu);
          if !ok {
            mcuVertOffset := yoffset;
            mcuCtr := col;
            return false;
          }
          left := left - 1;
          col := col + 1;
        }
        SentRow(s, dct, r, yoffset);
        RowDone(s, r, yoffset);
        col := 0;
        yoffset := yoffset + 1;
      }
      NothingLeft(s, r);
      AllGiven(answers0, left0, entropy.answers, |start|, |entropy.accepted|);
      SentImcuRow(s, dct, r);
      SomeRows(s, r + 1);
      imcuRowNum := imcuRowNum + 1;
      StartImcuRow();
      done := true;
    }

    // ----- the multi-pass path -----

    /** The virtual arrays hold the whole of iMCU row r. */
    ghost predicate Stored(r: nat)
      requires ScanOk(s) && r < s.rows && Image()
      reads this`wholeImage
    {
      forall ci :: 0 <= ci < |s.comps| ==> wholeImage[ci][r] == Strip(s, dct, ci, r, s.comps[ci].v)
    }

    /** A row of blocks with the dummy blocks at its right end. */
    method LoadRow(ci: nat, y: nat) returns (row: seq<Block>)
      requires ScanOk(s) && ci < |s.comps| && imcuRowNum < s.rows
      requires y < RealRows(s, s.comps[ci], imcuRowNum)
      ensures row == PaddedRow(s, dct, ci, imcuRowNum, y)
    {
      hide DctRow, Dummies, PaddedRow, RealRows;
      var c := s.comps[ci];
      var ndummy := c.width % c.h;
      if ndummy > 0 {
        ndummy := c.h - ndummy;
      }
      RealPaddedRow(s, dct, ci, imcuRowNum, y);
      row := DctRow(dct, ci, imcuRowNum, y, 0, c.width);
      var lastDC := row[c.width - 1].dc;
      row := row + Dummies(lastDC, ndummy);
    }

    /** A row of dummy blocks below the last real row: in each MCU the DC value of the block before it. */
    method LoadDummyRow(ci: nat, y: nat, lastblockrow: seq<Block>) returns (row: seq<Block>)
      requires ScanOk(s) && ci < |s.comps| && y >= 1 && y >= RealRows(s, s.comps[ci], imcuRowNum)
      requires lastblockrow == PaddedRow(s, dct, ci, imcuRowNum, y - 1)
      ensures row == PaddedRow(s, dct, ci, imcuRowNum, y)
    {
      hide PaddedRow, Dummies, RealRows, ScanOk;
      var h := s.comps[ci].h;
      PaddedRowLength(s, dct, ci, imcuRowNum, y - 1);
      var mcusAcross := |lastblockrow| / h;
      row := [];
      var i := 0;
      while i < mcusAcross
        invariant 0 <= i <= mcusAcross && row == BottomBlocks(lastblockrow, h, i)
      {
        McuInside(i, mcusAcross, h);
        row := row + Dummies(lastblockrow[i * h + h - 1].dc, h);
        i := i + 1;
      }
      BottomPaddedRow(s, dct, ci, imcuRowNum, y);
    }

    /** All rows of blocks of a component in the current iMCU row. */
    method LoadStrip(ci: nat) returns (strip: seq<seq<Block>>)
      requires ScanOk(s) && ci < |s.comps| && imcuRowNum < s.rows
      ensures strip == Strip(s, dct, ci, imcuRowNum, s.comps[ci].v)
    {
      hide PaddedRow;
      var c := s.comps[ci];
      var blockRows := c.v;
      if imcuRowNum >= s.rows - 1 {
        blockRows := c.height % c.v;
        if blockRows == 0 {
          blockRows := c.v;
        }
      }
      strip := [];
      var y := 0;
      while y < blockRows
        invariant 0 <= y <= blockRows == RealRows(s, c, imcuRowNum) && strip == Strip(s, dct, ci, imcuRowNum, y)
      {
        var row := LoadRow(ci, y);
        strip := strip + [row];
        y := y + 1;
      }
      while y < c.v
        invariant blockRows <= y <= c.v && strip == Strip(s, dct, ci, imcuRowNum, y)
      {
        var row := LoadDummyRow(ci, y, strip[y - 1]);
        strip := strip + [row];
        y := y + 1;
      }
    }

    /** Pointing the MCU buffer at one row of blocks of member k. */
    method CopyRow(k: nat, blkn: nat, y: nat, col: nat)
      requires Fixed() && k < |s.members| && col < s.mcusPerRow && imcuRowNum < s.rows && y < s.comps[s.members[k]].v
      requires Image() && Stored(imcuRowNum) && blkn + McuWidth(s, s.comps[s.members[k]]) <= mcuBuffer.Length
      modifies mcuBuffer
      ensures mcuBuffer[..blkn + McuWidth(s, s.comps[s.members[k]])]
        == old(mcuBuffer[..blkn]) + RowBlocks(s, dct, k, imcuRowNum, y, col)
    {
      hide PaddedRow, FitsBuffer, Padded, RowBlocks;
      var c := s.comps[s.members[k]];
      var w := if |s.members| > 1 then c.h else 1;
      ghost var start := mcuBuffer[..blkn];
      ghost var target := RowBlocks(s, dct, k, imcuRowNum, y, col);
      var row := wholeImage[s.members[k]][imcuRowNum][y];
      RowFromImage(s, dct, k, imcuRowNum, y, col);
      var startCol, xindex := col * w, 0;
      while xindex < w
        invariant 0 <= xindex <= w && mcuBuffer[..blkn + xindex] == start + target[..xindex]
      {
        mcuBuffer[blkn + xindex] := row[startCol + xindex];
        xindex := xindex + 1;
        assert mcuBuffer[..blkn + xindex] == mcuBuffer[..blkn + xindex - 1] + [mcuBuffer[blkn + xindex - 1]];
        assert target[..xindex] == target[..xindex - 1] + [target[xindex - 1]];
      }
      assert target[..w] == target;
    }

    /** The MCU buffer pointed at all blocks of member k. */
    method CopyMember(k: nat, blkn0: nat, yoffset: nat, col: nat) returns (blkn: nat)
      requires Fixed() && k < |s.members| && col < s.mcusPerRow && imcuRowNum < s.rows
      requires yoffset < McuRows(s, imcuRowNum) && blkn0 == BlocksIn(s, k)
      requires Image() && Stored(imcuRowNum)
      modifies mcuBuffer
      ensures blkn == BlocksIn(s, k + 1) <= C_MAX_BLOCKS_IN_MCU
      ensures mcuBuffer[..blkn] == old(mcuBuffer[..blkn0])
        + MemberBlocks(s, dct, k, imcuRowNum, yoffset, col, McuHeight(s, s.comps[s.members[k]]))
    {
      hide RowBlocks, MemberBlocks, Padded, Last, DivUp, BlocksIn, Stored;
      var c := s.comps[s.members[k]];
      var w, height := if |s.members| > 1 then c.h else 1, if |s.members| > 1 then c.v else 1;
      MemberFits(s, k);
      ghost var start := mcuBuffer[..blkn0];
      MemberStart(s, dct, k, imcuRowNum, yoffset, col, start);
      blkn := blkn0;
      var yindex := 0;
      while yindex < height
        invariant 0 <= yindex <= height && blkn == blkn0 + w * yindex
        invariant blkn <= mcuBuffer.Length
        invariant mcuBuffer[..blkn] == start + MemberBlocks(s, dct, k, imcuRowNum, yoffset, col, yindex)
      {
        RowsFit(w, yindex, height, blkn0);
        RowInside(s, k, imcuRowNum, yoffset, yindex);
        MemberStep(s, dct, k, imcuRowNum, yoffset, col, yindex, start, mcuBuffer[..blkn]);
        CopyRow(k, blkn, yoffset + yindex, col);
        blkn := blkn + w;
        yindex := yindex + 1;
      }
    }

    /** The MCU buffer pointed at all blocks of one MCU. */
    method CopyMcu(yoffset: nat, col: nat) returns (mcu: seq<Block>)
      requires Fixed() && col < s.mcusPerRow && imcuRowNum < s.rows && yoffset < McuRows(s, imcuRowNum)
      requires Image() && Stored(imcuRowNum)
      modifies mcuBuffer
      ensures mcu == Mcu(s, dct, imcuRowNum, yoffset, col)
    {
      hide MemberBlocks, BlocksIn, Fixed, Stored;
      FixedLength();
      var blkn, ci := 0, 0;
      NoBlocks(s, dct, imcuRowNum, yoffset, col);
      while ci < |s.members|
        invariant 0 <= ci <= |s.members| && ScanOk(s) && blkn == BlocksIn(s, ci) <= C_MAX_BLOCKS_IN_MCU
        invariant mcuBuffer[..blkn] == McuBlocks(s, dct, imcuRowNum, yoffset, col, ci)
      {
        blkn := CopyMember(ci, blkn, yoffset, col);
        ci := ci + 1;
      }
      mcu := mcuBuffer[..blkn];
    }

    /** compress_output: one iMCU row from the virtual arrays, with the promise of compress_data. */
    method CompressOutput() returns (done: bool)
      requires Valid() && imcuRowNum < s.rows && Stored(imcuRowNum)
      modifies mcuBuffer, entropy, this`imcuRowNum, this`mcuCtr, this`mcuVertOffset, this`mcuRowsPerImcuRow
      ensures Valid() && old(entropy.accepted) <= entropy.accepted
      ensures done ==> imcuRowNum == old(imcuRowNum) + 1 && mcuVertOffset == 0 && mcuCtr == 0
      ensures done <==> Accepts(old(entropy.answers), old(Left())) == old(Left())
      ensures |entropy.accepted| == |old(entropy.accepted)| + Accepts(old(entropy.answers), old(Left()))
      ensures entropy.answers == AnswersLeft(old(entropy.answers), old(Left()))
      ensures !done ==> Left() == old(Left()) - Accepts(old(entropy.answers), old(Left()))
      ensures !done ==> imcuRowNum == old(imcuRowNum)
    {
      hide Sent, Mcu, McuRows, ScanOk, FitsBuffer, Stored, RowLeft, Given;
      ghost var r, left, start := imcuRowNum, Left(), entropy.accepted;
      ghost var answers0, left0 := entropy.answers, left;
      NoneGiven(answers0, left0, |start|);
      var yoffset: nat, col: nat := mcuVertOffset, mcuCtr;
      while yoffset < mcuRowsPerImcuRow
        invariant yoffset <= mcuRowsPerImcuRow && col <= s.mcusPerRow && imcuRowNum == r && Fixed()
        invariant Image() && Stored(r)
        invariant mcuRowsPerImcuRow == McuRows(s, r) && (yoffset == mcuRowsPerImcuRow ==> col == 0)
        invariant entropy.accepted == before + Sent(s, dct, r, yoffset, col)
        invariant start <= entropy.accepted && left == RowLeft(s, r, yoffset, col)
        invariant Given(answers0, left0, entropy.answers, left, |start|, |entropy.accepted|)
        decreases mcuRowsPerImcuRow - yoffset
      {
        while col < s.mcusPerRow
          invariant col <= s.mcusPerRow && imcuRowNum == r && Fixed() && mcuRowsPerImcuRow == McuRows(s, r)
          invariant Image() && Stored(r)
          invariant entropy.accepted == before + Sent(s, dct, r, yoffset, col)
          invariant start <= entropy.accepted && left == RowLeft(s, r, yoffset, col)
          invariant Given(answers0, left0, entropy.answers, left, |start|, |entropy.accepted|)
        {
          var mcu := CopyMcu(yoffset, col);
          SentOneMore(s, dct, r, yoffset, col);
          Assoc(before, Sent(s, dct, r, yoffset, col), [mcu]);
          OneLeft(s, r, yoffset, col);
          OneGiven(answers0, left0, entropy.answers, left, |start|, |entropy.accepted|);
          var ok := entropy.EncodeMcu(mcu);
          if !ok {
            mcuVertOffset := yoffset;
            mcuCtr := col;
            return false;
          }
          left := left - 1;
          col := col + 1;
        }
        SentRow(s, dct, r, yoffset);
        RowDone(s, r, yoffset);
        col := 0;
        yoffset := yoffset + 1;
      }
      NothingLeft(s, r);
      AllGiven(answers0, left0, entropy.answers, |start|, |entropy.accepted|);
      SentImcuRow(s, dct, r);
      SomeRows(s, r + 1);
      imcuRowNum := imcuRowNum + 1;
      StartImcuRow();
      done := true;
    }

    /** The first half of compress_first_pass: all components of the current iMCU row into the virtual arrays. */
    method LoadRowOfImage()
      requires ScanOk(s) && Image() && imcuRowNum < s.rows
      modifies this`wholeImage
      ensures Image() && Stored(imcuRowNum)
      ensures forall r :: 0 <= r < s.rows && r != imcuRowNum && old(Stored(r)) ==> Stored(r)
    {
      hide Strip;
      var ci := 0;
      while ci < |s.comps|
        invariant 0 <= ci <= |s.comps| && Image()
        invariant forall i :: 0 <= i < ci ==>
          wholeImage[i][imcuRowNum] == Strip(s, dct, i, imcuRowNum, s.comps[i].v)
        invariant forall i, r :: 0 <= i < |s.comps| && 0 <= r < s.rows && r != imcuRowNum ==>
          wholeImage[i][r] == old(wholeImage[i][r])
      {
        var strip := LoadStrip(ci);
        wholeImage := wholeImage[ci := wholeImage[ci][imcuRowNum := strip]];
        ci := ci + 1;
      }
    }

    /**
     compress_first_pass: the encoder gets exactly what compress_data would give it, and the row stays stored
     for later passes. A suspended row is loaded again next time.
     */
    method CompressFirstPass() returns (done: bool)
      requires Valid() && imcuRowNum < s.rows
      modifies mcuBuffer, entropy, this`imcuRowNum, this`mcuCtr, this`mcuVertOffset, this`mcuRowsPerImcuRow, this`wholeImage
      ensures Valid() && old(entropy.accepted) <= entropy.accepted
      ensures done ==> imcuRowNum == old(imcuRowNum) + 1 && mcuVertOffset == 0 && mcuCtr == 0
      ensures done <==> Accepts(old(entropy.answers), old(Left())) == old(Left())
      ensures |entropy.accepted| == |old(entropy.accepted)| + Accepts(old(entropy.answers), old(Left()))
      ensures entropy.answers == AnswersLeft(old(entropy.answers), old(Left()))
      ensures !done ==> Left() == old(Left()) - Accepts(old(entropy.answers), old(Left()))
      ensures !done ==> imcuRowNum == old(imcuRowNum)
      ensures Stored(old(imcuRowNum)) && forall r :: 0 <= r < s.rows && old(Stored(r)) ==> Stored(r)
    {
      hide Stored, Sent, McuRows, ScanOk, FitsBuffer;
      LoadRowOfImage();
      done := CompressOutput();
    }

    /** start_pass_coef for another pass over the stored image. */
    method StartPass()
      requires Valid()
      modifies this`imcuRowNum, this`mcuCtr, this`mcuVertOffset, this`mcuRowsPerImcuRow, this`before
      ensures Valid() && imcuRowNum == mcuVertOffset == mcuCtr == 0 && before == entropy.accepted
    {
      imcuRowNum := 0;
      StartImcuRow();
      before := entropy.accepted;
      SomeRows(s, 0);
      NothingSent(s, dct, before);
    }
  }

  // ----- rows of the virtual arrays -----

  function PaddedWidth(c: Component): nat
    requires c.h >= 1
  {
    DivUp(c.width, c.h) * c.h
  }

  function PaddedRow(s: Scan, dct: Dct, ci: nat, r: nat, y: nat): (row: seq<Block>)
    requires ScanOk(s) && ci < |s.comps|
  {
    seq(PaddedWidth(s.comps[ci]), x requires x >= 0 => Padded(s, dct, ci, r, y, x))
  }

  function Strip(s: Scan, dct: Dct, ci: nat, r: nat, n: nat): (strip: seq<seq<Block>>)
    requires ScanOk(s) && ci < |s.comps|
    ensures |strip| == n && forall y :: 0 <= y < n ==> strip[y] == PaddedRow(s, dct, ci, r, y)
  {
    if n == 0 then [] else Strip(s, dct, ci, r, n - 1) + [PaddedRow(s, dct, ci, r, n - 1)]
  }

  lemma PaddedRowLength(s: Scan, dct: Dct, ci: nat, r: nat, y: nat)
    requires ScanOk(s) && ci < |s.comps|
    ensures s.comps[ci].h >= 1 && |PaddedRow(s, dct, ci, r, y)| == PaddedWidth(s.comps[ci])
    ensures PaddedWidth(s.comps[ci]) / s.comps[ci].h == DivUp(s.comps[ci].width, s.comps[ci].h)
    ensures PaddedWidth(s.comps[ci]) >= s.comps[ci].width >= 1
  {
    var c := s.comps[ci];
    DivIs(PaddedWidth(c), c.h, DivUp(c.width, c.h), 0);
    DivUpBounds(c.width, c.h);
  }

  lemma DummyCount(c: Component)
    requires ComponentOk(c)
    ensures PaddedWidth(c) == c.width + if c.width % c.h > 0 then c.h - c.width % c.h else 0
  {
    LastUnit(c.width, c.h);
    assert (DivUp(c.width, c.h) - 1) * c.h == PaddedWidth(c) - c.h;
  }

  lemma RealPaddedRow(s: Scan, dct: Dct, ci: nat, r: nat, y: nat)
    requires ScanOk(s) && ci < |s.comps| && y < RealRows(s, s.comps[ci], r)
    ensures s.comps[ci].width >= 1 && s.comps[ci].h >= 1
    ensures var c := s.comps[ci];
      var head := DctRow(dct, ci, r, y, 0, c.width);
      PaddedRow(s, dct, ci, r, y)
        == head + Dummies(head[c.width - 1].dc, if c.width % c.h > 0 then c.h - c.width % c.h else 0)
  {
    hide DctRow, Dummies, Padded;
    var c := s.comps[ci];
    DummyCount(c);
    var head := DctRow(dct, ci, r, y, 0, c.width);
    var row := PaddedRow(s, dct, ci, r, y);
    forall x | 0 <= x < |row| ensures row[x] == (head + Dummies(head[c.width - 1].dc, |row| - c.width))[x] {
      PaddedInRow(s, dct, ci, r, y, x);
    }
  }

  /** The first n MCUs of a bottom row, from the row above it. */
  function BottomBlocks(above: seq<Block>, h: nat, n: nat): (row: seq<Block>)
    requires h >= 1 && n * h <= |above|
    ensures |row| == n * h
  {
    if n == 0 then []
    else
      McuInside(n - 1, n, h);
      BottomBlocks(above, h, n - 1) + Dummies(above[(n - 1) * h + h - 1].dc, h)
  }

  lemma McuInside(i: nat, n: nat, h: nat)
    requires i < n
    ensures i * h + h == (i + 1) * h <= n * h
  {
    MulMonotone(i + 1, n, h);
  }

  lemma {:induction false} BottomAt(above: seq<Block>, h: nat, n: nat, x: nat)
    requires h >= 1 && n * h <= |above| && x < n * h
    ensures x / h * h + h - 1 < |above| && BottomBlocks(above, h, n)[x] == Dummy(above[x / h * h + h - 1].dc)
  {
    McuInside(n - 1, n, h);
    if x < (n - 1) * h {
      BottomAt(above, h, n - 1, x);
    } else {
      DivIs(x, h, n - 1, x - (n - 1) * h);
    }
  }

  lemma BottomPaddedRow(s: Scan, dct: Dct, ci: nat, r: nat, y: nat)
    requires ScanOk(s) && ci < |s.comps| && y >= 1 && y >= RealRows(s, s.comps[ci], r)
    ensures var above, h := PaddedRow(s, dct, ci, r, y - 1), s.comps[ci].h;
      h >= 1 && |above| / h * h <= |above| && PaddedRow(s, dct, ci, r, y) == BottomBlocks(above, h, |above| / h)
  {
    hide PaddedRow, DivUp, RealRows;
    PaddedRowLength(s, dct, ci, r, y - 1);
    BottomRowOf(s, dct, ci, r, y, s.comps[ci].h, DivUp(s.comps[ci].width, s.comps[ci].h));
  }

  lemma BottomRowOf(s: Scan, dct: Dct, ci: nat, r: nat, y: nat, h: nat, n: nat)
    requires ScanOk(s) && ci < |s.comps| && y >= 1 && y >= RealRows(s, s.comps[ci], r)
    requires h == s.comps[ci].h && PaddedWidth(s.comps[ci]) == n * h
    ensures |PaddedRow(s, dct, ci, r, y - 1)| == n * h
    ensures PaddedRow(s, dct, ci, r, y) == BottomBlocks(PaddedRow(s, dct, ci, r, y - 1), h, n)
  {
    hide BottomBlocks, PaddedWidth, RealRows, Padded;
    var above, row := PaddedRow(s, dct, ci, r, y - 1), PaddedRow(s, dct, ci, r, y);
    forall x | 0 <= x < |row| ensures row[x] == BottomBlocks(above, h, n)[x] {
      BottomAt(above, h, n, x);
      BelowRow(s, dct, ci, r, y, x);
    }
  }

  lemma BelowRow(s: Scan, dct: Dct, ci: nat, r: nat, y: nat, x: nat)
    requires ScanOk(s) && ci < |s.comps| && y >= 1 && y >= RealRows(s, s.comps[ci], r)
    ensures var h := s.comps[ci].h;
      Padded(s, dct, ci, r, y, x) == Dummy(Padded(s, dct, ci, r, y - 1, x / h * h + h - 1).dc)
  {
  }

  /** A row of an MCU is a piece of the padded row. */
  lemma RowFromImage(s: Scan, dct: Dct, k: nat, r: nat, y: nat, col: nat)
    requires ScanOk(s) && k < |s.members| && col < s.mcusPerRow
    ensures var w, row := McuWidth(s, s.comps[s.members[k]]), PaddedRow(s, dct, s.members[k], r, y);
      col * w + w <= |row| && row[col * w..col * w + w] == RowBlocks(s, dct, k, r, y, col)
  {
    hide Padded, DivUp, RowBlocks, PaddedRow;
    var w := McuWidth(s, s.comps[s.members[k]]);
    PaddedRowLength(s, dct, s.members[k], r, y);
    if Interleaved(s) {
      assert WidthFits(s, k);
      McuInside(col, s.mcusPerRow, w);
    }
    PieceOfRow(s, dct, k, r, y, col, w, col * w);
  }

  lemma PieceOfRow(s: Scan, dct: Dct, k: nat, r: nat, y: nat, col: nat, w: nat, start: nat)
    requires ScanOk(s) && k < |s.members| && w == McuWidth(s, s.comps[s.members[k]]) && start == col * w
    requires start + w <= |PaddedRow(s, dct, s.members[k], r, y)|
    ensures PaddedRow(s, dct, s.members[k], r, y)[start..start + w] == RowBlocks(s, dct, k, r, y, col)
  {
    hide Padded, PaddedWidth;
  }

  lemma NoBlocks(s: Scan, dct: Dct, r: nat, yoffset: nat, col: nat)
    requires ScanOk(s)
    ensures BlocksIn(s, 0) == 0 && McuBlocks(s, dct, r, yoffset, col, 0) == []
  {
  }

  lemma MemberFits(s: Scan, k: nat)
    requires ScanOk(s) && FitsBuffer(s) && k < |s.members|
    ensures var c := s.comps[s.members[k]];
      BlocksIn(s, k + 1) == BlocksIn(s, k) + McuWidth(s, c) * McuHeight(s, c) <= C_MAX_BLOCKS_IN_MCU
  {
    BlocksInGrows(s, k + 1, |s.members|);
  }

  lemma MemberStart(s: Scan, dct: Dct, k: nat, r: nat, yoffset: nat, col: nat, start: seq<Block>)
    requires ScanOk(s) && k < |s.members|
    ensures start + MemberBlocks(s, dct, k, r, yoffset, col, 0) == start
  {
  }

  lemma RowsFit(w: nat, yindex: nat, height: nat, blkn0: nat)
    requires yindex < height
    ensures blkn0 + w * yindex + w == blkn0 + w * (yindex + 1) <= blkn0 + w * height
  {
    MulMonotone(yindex + 1, height, w);
    assert (yindex + 1) * w == w * (yindex + 1) && height * w == w * height;
  }

  lemma RowInside(s: Scan, k: nat, r: nat, yoffset: nat, yindex: nat)
    requires ScanOk(s) && k < |s.members| && yoffset < McuRows(s, r)
    requires yindex < McuHeight(s, s.comps[s.members[k]])
    ensures yoffset + yindex < s.comps[s.members[k]].v
    ensures yoffset + yindex >= RealRows(s, s.comps[s.members[k]], r) ==> Interleaved(s) && yoffset == 0 && yindex >= 1
  {
    var c := s.comps[s.members[k]];
    LastUnit(c.height, c.v);
  }

  /** The next row of a member, and the block before it. */
  lemma MemberStep(s: Scan, dct: Dct, k: nat, r: nat, yoffset: nat, col: nat, n: nat, start: seq<Block>, buf: seq<Block>)
    requires ScanOk(s) && k < |s.members| && buf == start + MemberBlocks(s, dct, k, r, yoffset, col, n)
    ensures buf + RowBlocks(s, dct, k, r, yoffset + n, col) == start + MemberBlocks(s, dct, k, r, yoffset, col, n + 1)
    ensures n >= 1 && Interleaved(s) ==> |buf| >= 1 && AboveRow(s, dct, k, r, yoffset + n, col, buf[|buf| - 1])
  {
    hide Padded;
    Assoc(start, MemberBlocks(s, dct, k, r, yoffset, col, n), RowBlocks(s, dct, k, r, yoffset + n, col));
    if n >= 1 && Interleaved(s) {
      var row := RowBlocks(s, dct, k, r, yoffset + n - 1, col);
      assert buf[|buf| - 1] == row[|row| - 1];
    }
  }
}
