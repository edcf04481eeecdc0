/**
 The layout of a scan (initial_setup and per_scan_setup of jcmaster.c): how many blocks, MCUs and rows there
 are, and which blocks each MCU has, dummy blocks at the edges included.
 */
module ScanGeometry {
  import opened Powers

  function DivUp(a: nat, b: nat): nat
    requires b >= 1
  {
    (a + b - 1) / b
  }

  lemma DivUpBounds(a: nat, b: nat)
    requires b >= 1
    ensures DivUp(a, b) * b >= a && (a > 0 ==> (DivUp(a, b) - 1) * b < a)
  {
    var q := DivUp(a, b);
    assert q * b + (a + b - 1) % b == a + b - 1;
    assert (q - 1) * b == q * b - b;
  }

  lemma DivUpIs(a: nat, b: nat, q: nat)
    requires b >= 1 && q * b >= a && a + b > q * b
    ensures DivUp(a, b) == q
  {
    DivIs(a + b - 1, b, q, a + b - 1 - q * b);
  }

  /** Rounding up twice is rounding up once. */
  lemma DivUpNested(w: nat, h: nat, m: nat)
    requires w >= 1 && h >= 1 && m >= 1
    ensures DivUp(DivUp(w * h, m), h) == DivUp(w, m)
  {
    hide DivUp;
    var n, t := DivUp(w, m), DivUp(w * h, m);
    DivUpBounds(w, m);
    MulMonotone(1, w, h);
    DivUpBounds(w * h, m);
    Positive(w, m);
    // n * m >= w > (n - 1) * m and t * m >= w * h > (t - 1) * m
    assert n * h >= t by {
      MulMonotone(w, n * m, h);
      assert n * m * h == n * h * m;
      if n * h <= t - 1 {
        MulMonotone(n * h, t - 1, m);
      }
    }
    assert t + h > n * h by {
      assert (n - 1) * h * m < t * m by {
        MulMonotone((n - 1) * m + 1, w, h);
        assert ((n - 1) * m + 1) * h == (n - 1) * h * m + h;
      }
      if t <= (n - 1) * h {
        MulMonotone(t, (n - 1) * h, m);
      }
      assert (n - 1) * h == n * h - h;
    }
    DivUpIs(t, h, n);
  }

  // ----- components and scans -----

  /** A component: sampling factors, and its size in blocks. */
  datatype Component = Component(h: nat, v: nat, width: nat, height: nat)

  /** The last unit of n things taken m at a time. */
  function Last(n: nat, m: nat): nat
    requires m >= 1
  {
    if n % m == 0 then m else n % m
  }

  lemma LastUnit(n: nat, m: nat)
    requires n >= 1 && m >= 1
    ensures DivUp(n, m) >= 1 && n == (DivUp(n, m) - 1) * m + Last(n, m) && 1 <= Last(n, m) <= m
  {
    var q, r := n / m, n % m;
    assert n == q * m + r;
    Positive(n, m);
    if r == 0 {
      DivUpIs(n, m, q);
      assert (q - 1) * m == q * m - m;
    } else {
      assert (q + 1) * m == q * m + m;
      DivUpIs(n, m, q + 1);
    }
  }

  /** Components of the image, those in the scan, MCUs in a row, and rows of MCUs when interleaved. */
  datatype Scan = Scan(comps: seq<Component>, members: seq<nat>, mcusPerRow: nat, rows: nat)

  predicate Interleaved(s: Scan) { |s.members| > 1 }

  predicate ComponentOk(c: Component)
  {
    1 <= c.h <= 4 && 1 <= c.v <= 4 && c.width >= 1 && c.height >= 1
  }

  predicate ScanOk(s: Scan)
  {
    && s.rows >= 1 && s.mcusPerRow >= 1 && |s.members| >= 1
    && (forall i :: 0 <= i < |s.comps| ==> ComponentOk(s.comps[i]) && DivUp(s.comps[i].height, s.comps[i].v) == s.rows)
    && (forall k :: 0 <= k < |s.members| ==> s.members[k] < |s.comps|)
    && (if Interleaved(s) then forall k :: 0 <= k < |s.members| ==> WidthFits(s, k)
        else s.mcusPerRow == s.comps[s.members[0]].width)
  }

  predicate WidthFits(s: Scan, k: nat)
    requires k < |s.members| && s.members[k] < |s.comps| && s.comps[s.members[k]].h >= 1
  {
    DivUp(s.comps[s.members[k]].width, s.comps[s.members[k]].h) == s.mcusPerRow
  }

  /** Blocks of a component across and down in one MCU. */
  function McuWidth(s: Scan, c: Component): nat { if Interleaved(s) then c.h else 1 }
  function McuHeight(s: Scan, c: Component): nat { if Interleaved(s) then c.v else 1 }

  /** Rows of real blocks in iMCU row r. */
  function RealRows(s: Scan, c: Component, r: nat): nat
    requires c.v >= 1
  {
    if r + 1 < s.rows then c.v else Last(c.height, c.v)
  }

  /** MCU rows in iMCU row r. */
  function McuRows(s: Scan, r: nat): nat
    requires ScanOk(s)
  {
    if Interleaved(s) then 1 else RealRows(s, s.comps[s.members[0]], r)
  }

  /** The formulas of jcmaster.c give a layout that fits, whatever the image size and the sampling factors. */
  lemma SetupOk(width: nat, height: nat, maxH: nat, maxV: nat, factors: seq<(nat, nat)>, members: seq<nat>)
    requires width >= 1 && height >= 1 && 1 <= maxH <= 4 && 1 <= maxV <= 4 && |members| >= 1
    requires forall i :: 0 <= i < |factors| ==> 1 <= factors[i].0 <= maxH && 1 <= factors[i].1 <= maxV
    requires forall k :: 0 <= k < |members| ==> members[k] < |factors|
    ensures ScanOk(SetupScan(width, height, maxH, maxV, factors, members))
  {
    var s := SetupScan(width, height, maxH, maxV, factors, members);
    forall i | 0 <= i < |s.comps|
      ensures ComponentOk(s.comps[i]) && DivUp(s.comps[i].height, s.comps[i].v) == s.rows
      ensures DivUp(s.comps[i].width, s.comps[i].h) == DivUp(width, 8 * maxH)
    {
      DivUpNested(width, factors[i].0, 8 * maxH);
      DivUpNested(height, factors[i].1, 8 * maxV);
      Positive(width * factors[i].0, 8 * maxH) by {
        MulMonotone(1, factors[i].0, width);
      }
      Positive(height * factors[i].1, 8 * maxV) by {
        MulMonotone(1, factors[i].1, height);
      }
    }
    Positive(width, 8 * maxH);
    Positive(height, 8 * maxV);
  }

  lemma Positive(a: nat, b: nat)
    requires a >= 1 && b >= 1
    ensures DivUp(a, b) >= 1
  {
    QuotientAtLeast(a + b - 1, b, 1);
  }

  function SetupScan(width: nat, height: nat, maxH: nat, maxV: nat, factors: seq<(nat, nat)>, members: seq<nat>): Scan
    requires maxH >= 1 && maxV >= 1 && |members| >= 1
    requires forall k :: 0 <= k < |members| ==> members[k] < |factors|
  {
    var comps := seq(|factors|, i requires 0 <= i < |factors| =>
      Component(factors[i].0, factors[i].1, DivUp(width * factors[i].0, 8 * maxH), DivUp(height * factors[i].1, 8 * maxV)));
    Scan(comps, members,
         if |members| > 1 then DivUp(width, 8 * maxH) else comps[members[0]].width,
         DivUp(height, 8 * maxV))
  }

  // ----- blocks -----

  datatype Block = Block(dc: int, ac: seq<int>)

  /** A dummy block: no AC coefficients, and the DC value given. */
  function Dummy(dc: int): Block { Block(dc, seq(63, i => 0)) }

  /** forward_DCT as a function of component, iMCU row, block row within it, and block column. */
  type Dct = (nat, nat, nat, nat) -> Block

  /**
   The block of a component at row y, column x of iMCU row r. Past the right edge it repeats the DC value of
   the last real block; past the bottom, that of the last block of its MCU in the row above.
   */
  function Padded(s: Scan, dct: Dct, ci: nat, r: nat, y: nat, x: nat): Block
    requires ScanOk(s) && ci < |s.comps|
    decreases y
  {
    var c := s.comps[ci];
    if y < RealRows(s, c, r) || y == 0 then
      if x < c.width then dct(ci, r, y, x) else Dummy(dct(ci, r, y, c.width - 1).dc)
    else Dummy(Padded(s, dct, ci, r, y - 1, x / c.h * c.h + c.h - 1).dc)
  }

  // ----- MCUs -----

  /** One row of blocks of member k of an MCU. */
  function RowBlocks(s: Scan, dct: Dct, k: nat, r: nat, y: nat, col: nat): (b: seq<Block>)
    requires ScanOk(s) && k < |s.members|
    ensures |b| == McuWidth(s, s.comps[s.members[k]])
  {
    var w := McuWidth(s, s.comps[s.members[k]]);
    seq(w, x requires 0 <= x < w => Padded(s, dct, s.members[k], r, y, col * w + x))
  }

  /** The first n rows of blocks of member k, from row yoffset on. */
  function MemberBlocks(s: Scan, dct: Dct, k: nat, r: nat, yoffset: nat, col: nat, n: nat): seq<Block>
    requires ScanOk(s) && k < |s.members|
  {
    if n == 0 then []
    else MemberBlocks(s, dct, k, r, yoffset, col, n - 1) + RowBlocks(s, dct, k, r, yoffset + n - 1, col)
  }

  /** The blocks of the first n members. */
  function McuBlocks(s: Scan, dct: Dct, r: nat, yoffset: nat, col: nat, n: nat): seq<Block>
    requires ScanOk(s) && n <= |s.members|
  {
    if n == 0 then [] else
      McuBlocks(s, dct, r, yoffset, col, n - 1) +
      MemberBlocks(s, dct, n - 1, r, yoffset, col, McuHeight(s, s.comps[s.members[n - 1]]))
  }

  function Mcu(s: Scan, dct: Dct, r: nat, yoffset: nat, col: nat): seq<Block>
    requires ScanOk(s)
  {
    McuBlocks(s, dct, r, yoffset, col, |s.members|)
  }

  /** The first n MCUs of a row of MCUs. */
  function RowMcus(s: Scan, dct: Dct, r: nat, yoffset: nat, n: nat): (m: seq<seq<Block>>)
    requires ScanOk(s)
    ensures |m| == n
  {
    if n == 0 then [] else RowMcus(s, dct, r, yoffset, n - 1) + [Mcu(s, dct, r, yoffset, n - 1)]
  }

  /** All MCUs of the first n rows of MCUs of iMCU row r. */
  function ImcuRow(s: Scan, dct: Dct, r: nat, n: nat): seq<seq<Block>>
    requires ScanOk(s)
  {
    if n == 0 then [] else ImcuRow(s, dct, r, n - 1) + RowMcus(s, dct, r, n - 1, s.mcusPerRow)
  }

  /** All MCUs of the first n iMCU rows: what the entropy encoder is to get. */
  function AllMcus(s: Scan, dct: Dct, n: nat): seq<seq<Block>>
    requires ScanOk(s)
  {
    if n == 0 then [] else AllMcus(s, dct, n - 1) + ImcuRow(s, dct, n - 1, McuRows(s, n - 1))
  }
}
