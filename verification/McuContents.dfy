/**
 What an MCU consists of, block by block, and in which order the MCUs of an image go to the entropy encoder: the
 sequences of ScanGeometry, told by positions.
 */
module McuContents {
  import opened Powers
  import opened ScanGeometry
  import opened CoefController

  predicate NoAc(b: Block) { |b.ac| == 63 && forall i :: 0 <= i < 63 ==> b.ac[i] == 0 }

  /** A dummy block has the DC value given and no AC coefficients. */
  lemma DummyIs(dc: int)
    ensures Dummy(dc).dc == dc && NoAc(Dummy(dc))
  {
  }

  /**
   A row of an MCU that has real blocks: those the component has, as transformed; past its right edge, blocks with
   the DC value of its last block and no AC coefficients.
   */
  lemma RealRow(s: Scan, dct: Dct, k: nat, r: nat, y: nat, col: nat, x: nat)
    requires ScanOk(s) && k < |s.members| && y < RealRows(s, s.comps[s.members[k]], r)
    requires x < McuWidth(s, s.comps[s.members[k]])
    ensures var ci, c, w := s.members[k], s.comps[s.members[k]], McuWidth(s, s.comps[s.members[k]]);
      var b := RowBlocks(s, dct, k, r, y, col)[x];
      if col * w + x < c.width then b == dct(ci, r, y, col * w + x)
      else b.dc == dct(ci, r, y, c.width - 1).dc && NoAc(b)
  {
    hide DivUp, Last, Dummy;
    var c := s.comps[s.members[k]];
    DummyIs(dct(s.members[k], r, y, c.width - 1).dc);
  }

  /**
   A row of an MCU below the last real one: blocks with the DC value of the last block of the MCU in the row above
   and no AC coefficients.
   */
  lemma BottomRow(s: Scan, dct: Dct, k: nat, r: nat, y: nat, col: nat, x: nat)
    requires ScanOk(s) && k < |s.members| && Interleaved(s) && y >= 1 && y >= RealRows(s, s.comps[s.members[k]], r)
    requires x < s.comps[s.members[k]].h
    ensures var b, h := RowBlocks(s, dct, k, r, y, col)[x], s.comps[s.members[k]].h;
      b.dc == RowBlocks(s, dct, k, r, y - 1, col)[h - 1].dc && NoAc(b)
  {
    hide DivUp, Last, Dummy;
    var h := s.comps[s.members[k]].h;
    InColumn(col, h, x);
    DummyIs(Padded(s, dct, s.members[k], r, y - 1, col * h + h - 1).dc);
  }

  // ----- positions -----

  lemma {:induction false} RowOfMember(s: Scan, dct: Dct, k: nat, r: nat, yoffset: nat, col: nat, n: nat, y: nat, x: nat)
    requires ScanOk(s) && k < |s.members| && y < n && x < McuWidth(s, s.comps[s.members[k]])
    ensures var w, m := McuWidth(s, s.comps[s.members[k]]), MemberBlocks(s, dct, k, r, yoffset, col, n);
      |m| == w * n && w * y + x < |m| && m[w * y + x] == RowBlocks(s, dct, k, r, yoffset + y, col)[x]
  {
    hide RowBlocks, DivUp, WidthFits;
    var w := McuWidth(s, s.comps[s.members[k]]);
    MemberLength(s, dct, k, r, yoffset, col, n);
    MemberLength(s, dct, k, r, yoffset, col, n - 1);
    NextMultiple(y, w);
    if y < n - 1 {
      RowOfMember(s, dct, k, r, yoffset, col, n - 1, y, x);
    }
  }

  lemma {:induction false} MemberLength(s: Scan, dct: Dct, k: nat, r: nat, yoffset: nat, col: nat, n: nat)
    requires ScanOk(s) && k < |s.members|
    ensures |MemberBlocks(s, dct, k, r, yoffset, col, n)| == McuWidth(s, s.comps[s.members[k]]) * n
  {
    hide RowBlocks, DivUp, WidthFits;
    if n > 0 {
      MemberLength(s, dct, k, r, yoffset, col, n - 1);
      NextMultiple(n - 1, McuWidth(s, s.comps[s.members[k]]));
    }
  }

  lemma {:induction false} McuLength(s: Scan, dct: Dct, r: nat, yoffset: nat, col: nat, n: nat)
    requires ScanOk(s) && n <= |s.members|
    ensures |McuBlocks(s, dct, r, yoffset, col, n)| == BlocksIn(s, n)
  {
    hide MemberBlocks, DivUp, WidthFits, McuWidth, McuHeight;
    if n > 0 {
      McuLength(s, dct, r, yoffset, col, n - 1);
      MemberLength(s, dct, n - 1, r, yoffset, col, McuHeight(s, s.comps[s.members[n - 1]]));
    }
  }

  /** Member k of an MCU stands after the members before it. */
  lemma {:induction false} MemberOfMcu(s: Scan, dct: Dct, r: nat, yoffset: nat, col: nat, n: nat, k: nat, i: nat)
    requires ScanOk(s) && k < n <= |s.members|
    requires i < |MemberBlocks(s, dct, k, r, yoffset, col, McuHeight(s, s.comps[s.members[k]]))|
    ensures BlocksIn(s, k) + i < |McuBlocks(s, dct, r, yoffset, col, n)|
    ensures McuBlocks(s, dct, r, yoffset, col, n)[BlocksIn(s, k) + i]
      == MemberBlocks(s, dct, k, r, yoffset, col, McuHeight(s, s.comps[s.members[k]]))[i]
  {
    hide MemberBlocks, BlocksIn, DivUp, WidthFits, McuWidth, McuHeight, ComponentOk;
    McuLength(s, dct, r, yoffset, col, n - 1);
    if k < n - 1 {
      MemberOfMcu(s, dct, r, yoffset, col, n - 1, k, i);
    }
  }

  /** Block x of row y of member k stands after the blocks of the members before and the rows above. */
  lemma BlockAt(s: Scan, dct: Dct, r: nat, yoffset: nat, col: nat, k: nat, y: nat, x: nat)
    requires ScanOk(s) && k < |s.members|
    requires y < McuHeight(s, s.comps[s.members[k]]) && x < McuWidth(s, s.comps[s.members[k]])
    ensures var w, m := McuWidth(s, s.comps[s.members[k]]), Mcu(s, dct, r, yoffset, col);
      |m| == BlocksIn(s, |s.members|) && BlocksIn(s, k) + w * y + x < |m|
      && m[BlocksIn(s, k) + w * y + x] == RowBlocks(s, dct, k, r, yoffset + y, col)[x]
  {
    hide RowBlocks, MemberBlocks, McuBlocks, BlocksIn, DivUp, WidthFits;
    var w, h := McuWidth(s, s.comps[s.members[k]]), McuHeight(s, s.comps[s.members[k]]);
    RowOfMember(s, dct, k, r, yoffset, col, h, y, x);
    McuLength(s, dct, r, yoffset, col, |s.members|);
    MemberOfMcu(s, dct, r, yoffset, col, |s.members|, k, w * y + x);
  }

  /**
   Every block of an MCU, by its place: a block of the component where it has one; past the right edge the DC value
   of the last block of that row; past the bottom the DC value of the block before the row; no AC coefficients there.
   */
  lemma McuBlock(s: Scan, dct: Dct, r: nat, yoffset: nat, col: nat, k: nat, y: nat, x: nat)
    requires ScanOk(s) && r < s.rows && yoffset < McuRows(s, r) && col < s.mcusPerRow && k < |s.members|
    requires y < McuHeight(s, s.comps[s.members[k]]) && x < McuWidth(s, s.comps[s.members[k]])
    ensures var ci, c, w, m := s.members[k], s.comps[s.members[k]], McuWidth(s, s.comps[s.members[k]]),
        Mcu(s, dct, r, yoffset, col);
      var at := BlocksIn(s, k) + w * y + x;
      && at < |m| == BlocksIn(s, |s.members|)
      && (yoffset + y < RealRows(s, c, r) ==>
          if col * w + x < c.width then m[at] == dct(ci, r, yoffset + y, col * w + x)
          else NoAc(m[at]) && m[at].dc == dct(ci, r, yoffset + y, c.width - 1).dc)
      && (yoffset + y >= RealRows(s, c, r) ==> y >= 1 && at - x >= 1 && NoAc(m[at]) && m[at].dc == m[at - x - 1].dc)
  {
    hide RowBlocks, Mcu, BlocksIn, DivUp, Last, NoAc;
    var c, w := s.comps[s.members[k]], McuWidth(s, s.comps[s.members[k]]);
    BlockAt(s, dct, r, yoffset, col, k, y, x);
    if yoffset + y < RealRows(s, c, r) {
      RealRow(s, dct, k, r, yoffset + y, col, x);
    } else {
      FirstRowReal(s, r, k, yoffset);
      BottomRow(s, dct, k, r, yoffset + y, col, x);
      BlockAt(s, dct, r, yoffset, col, k, y - 1, w - 1);
      NextMultiple(y - 1, w);
    }
  }

  /** The first row of an MCU is a real one; rows below the image come in interleaved scans only. */
  lemma FirstRowReal(s: Scan, r: nat, k: nat, yoffset: nat)
    requires ScanOk(s) && r < s.rows && yoffset < McuRows(s, r) && k < |s.members|
    ensures yoffset < RealRows(s, s.comps[s.members[k]], r) && (Interleaved(s) ==> yoffset == 0)
    ensures !Interleaved(s) ==> McuHeight(s, s.comps[s.members[k]]) == 1
  {
    LastUnit(s.comps[s.members[k]].height, s.comps[s.members[k]].v);
  }

  // ----- the order of MCUs -----

  /** MCUs of the first n iMCU rows. */
  function McusBefore(s: Scan, n: nat): nat
    requires ScanOk(s)
  {
    if n == 0 then 0 else McusBefore(s, n - 1) + s.mcusPerRow * McuRows(s, n - 1)
  }

  lemma {:induction false} RowMcuAt(s: Scan, dct: Dct, r: nat, y: nat, n: nat, col: nat)
    requires ScanOk(s) && col < n
    ensures RowMcus(s, dct, r, y, n)[col] == Mcu(s, dct, r, y, col)
  {
    hide Mcu, DivUp, WidthFits;
    if col < n - 1 {
      RowMcuAt(s, dct, r, y, n - 1, col);
    }
  }

  lemma {:induction false} ImcuLength(s: Scan, dct: Dct, r: nat, n: nat)
    requires ScanOk(s)
    ensures |ImcuRow(s, dct, r, n)| == s.mcusPerRow * n
  {
    hide Mcu, DivUp, WidthFits;
    if n > 0 {
      ImcuLength(s, dct, r, n - 1);
      NextMultiple(n - 1, s.mcusPerRow);
    }
  }

  lemma {:induction false} ImcuAt(s: Scan, dct: Dct, r: nat, n: nat, y: nat, col: nat)
    requires ScanOk(s) && y < n && col < s.mcusPerRow
    ensures s.mcusPerRow * y + col < |ImcuRow(s, dct, r, n)| == s.mcusPerRow * n
    ensures ImcuRow(s, dct, r, n)[s.mcusPerRow * y + col] == Mcu(s, dct, r, y, col)
  {
    hide Mcu, DivUp, WidthFits, RowMcus;
    ImcuLength(s, dct, r, n);
    ImcuLength(s, dct, r, n - 1);
    NextMultiple(y, s.mcusPerRow);
    if y < n - 1 {
      ImcuAt(s, dct, r, n - 1, y, col);
    } else {
      RowMcuAt(s, dct, r, y, s.mcusPerRow, col);
    }
  }

  lemma {:induction false} AllLength(s: Scan, dct: Dct, n: nat)
    requires ScanOk(s)
    ensures |AllMcus(s, dct, n)| == McusBefore(s, n)
  {
    hide DivUp, WidthFits, ImcuRow, McuRows;
    if n > 0 {
      AllLength(s, dct, n - 1);
      ImcuLength(s, dct, n - 1, McuRows(s, n - 1));
    }
  }

  lemma {:induction false} ImcuRowAt(s: Scan, dct: Dct, n: nat, r: nat, i: nat)
    requires ScanOk(s) && r < n && i < |ImcuRow(s, dct, r, McuRows(s, r))|
    ensures McusBefore(s, r) + i < |AllMcus(s, dct, n)|
    ensures AllMcus(s, dct, n)[McusBefore(s, r) + i] == ImcuRow(s, dct, r, McuRows(s, r))[i]
  {
    hide DivUp, WidthFits, ImcuRow, McuRows, McusBefore, ComponentOk;
    AllLength(s, dct, n - 1);
    if r < n - 1 {
      ImcuRowAt(s, dct, n - 1, r, i);
    }
  }

  /** MCU col of MCU row y of iMCU row r comes after the iMCU rows and MCU rows before it. */
  lemma McuAt(s: Scan, dct: Dct, n: nat, r: nat, y: nat, col: nat)
    requires ScanOk(s) && r < n && y < McuRows(s, r) && col < s.mcusPerRow
    ensures var at := McusBefore(s, r) + s.mcusPerRow * y + col;
      at < |AllMcus(s, dct, n)| == McusBefore(s, n) && AllMcus(s, dct, n)[at] == Mcu(s, dct, r, y, col)
  {
    hide DivUp, WidthFits, ImcuRow, McuRows, Mcu, McusBefore, AllMcus, ComponentOk;
    AllLength(s, dct, n);
    ImcuAt(s, dct, r, McuRows(s, r), y, col);
    ImcuRowAt(s, dct, n, r, s.mcusPerRow * y + col);
  }

  // ----- every block of the image -----

  /** The real rows of an iMCU row are the rows of blocks that the component has. */
  lemma RealRowsAre(s: Scan, k: nat, r: nat, y: nat)
    requires ScanOk(s) && k < |s.members| && r < s.rows && y < s.comps[s.members[k]].v
    ensures var c := s.comps[s.members[k]]; y < RealRows(s, c, r) <==> r * c.v + y < c.height
  {
    hide Last, DivUp, WidthFits;
    var c := s.comps[s.members[k]];
    LastUnit(c.height, c.v);
    if r + 1 < s.rows {
      MulMonotone(r + 1, s.rows - 1, c.v);
      NextMultiple(r, c.v);
    }
  }

  /** Every row of blocks of a component is row y of some iMCU row r. */
  lemma RowOfBlocks(s: Scan, k: nat, row: nat) returns (r: nat, y: nat)
    requires ScanOk(s) && k < |s.members| && row < s.comps[s.members[k]].height
    ensures r < s.rows && y < s.comps[s.members[k]].v && row == r * s.comps[s.members[k]].v + y
  {
    hide Last, DivUp, WidthFits;
    var c := s.comps[s.members[k]];
    r, y := row / c.v, row % c.v;
    DivSum(row, c.v);
    LastUnit(c.height, c.v);
    if r >= s.rows {
      MulMonotone(s.rows, r, c.v);
      NextMultiple(s.rows - 1, c.v);
    }
  }

  /** The MCU that has the block in row y of iMCU row r and the given column of a member, and its place there. */
  function McuOf(s: Scan, k: nat, r: nat, y: nat, column: nat): nat
    requires ScanOk(s) && k < |s.members|
  {
    if Interleaved(s) then McusBefore(s, r) + column / s.comps[s.members[k]].h
    else McusBefore(s, r) + s.mcusPerRow * y + column
  }

  function PlaceOf(s: Scan, k: nat, y: nat, column: nat): nat
    requires ScanOk(s) && k < |s.members|
  {
    var h := s.comps[s.members[k]].h;
    if Interleaved(s) then BlocksIn(s, k) + h * y + column % h else 0
  }

  lemma ColumnOfBlocks(s: Scan, k: nat, column: nat)
    requires ScanOk(s) && k < |s.members| && Interleaved(s) && column < s.comps[s.members[k]].width
    ensures var h := s.comps[s.members[k]].h;
      column / h < s.mcusPerRow && column % h < h && column == column / h * h + column % h
  {
    hide Last, DivUp;
    var c := s.comps[s.members[k]];
    assert WidthFits(s, k);
    LastUnit(c.width, c.h);
    DivSum(column, c.h);
    if column / c.h >= s.mcusPerRow {
      MulMonotone(s.mcusPerRow, column / c.h, c.h);
      NextMultiple(s.mcusPerRow - 1, c.h);
    }
  }

  /** No block of a component in the scan is left out: it stands in that MCU, at that place. */
  lemma EveryBlockSent(s: Scan, dct: Dct, k: nat, r: nat, y: nat, column: nat)
    requires ScanOk(s) && k < |s.members| && r < s.rows && y < s.comps[s.members[k]].v
    requires r * s.comps[s.members[k]].v + y < s.comps[s.members[k]].height && column < s.comps[s.members[k]].width
    ensures McuOf(s, k, r, y, column) < |AllMcus(s, dct, s.rows)|
    ensures PlaceOf(s, k, y, column) < |AllMcus(s, dct, s.rows)[McuOf(s, k, r, y, column)]|
    ensures AllMcus(s, dct, s.rows)[McuOf(s, k, r, y, column)][PlaceOf(s, k, y, column)] == dct(s.members[k], r, y, column)
  {
    hide DivUp, WidthFits, RealRows, Mcu, AllMcus, McusBefore, ComponentOk;
    RealRowsAre(s, k, r, y);
    if Interleaved(s) {
      var h := s.comps[s.members[k]].h;
      ColumnOfBlocks(s, k, column);
      McuAt(s, dct, s.rows, r, 0, column / h);
      McuBlock(s, dct, r, 0, column / h, k, y, column % h);
    } else {
      McuAt(s, dct, s.rows, r, y, column);
      McuBlock(s, dct, r, y, column, 0, 0, 0);
    }
  }
}
