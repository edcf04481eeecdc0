/**
 Whole compression runs under any schedule of refusals: the single-pass and the multi-pass controllers, and
 the scanline interface, give the entropy encoder the same MCUs.
 */
module PassRuns {
  import opened Powers
  import opened ScanGeometry
  import opened CoefController
  import opened MainController

  // ----- whatever has been sent is the start of the whole -----

  lemma {:induction false} RowPrefix(s: Scan, dct: Dct, r: nat, y: nat, m: nat, n: nat)
    requires ScanOk(s) && m <= n
    ensures RowMcus(s, dct, r, y, m) <= RowMcus(s, dct, r, y, n)
  {
    if m < n {
      RowPrefix(s, dct, r, y, m, n - 1);
    }
  }

  lemma {:induction false} ImcuPrefix(s: Scan, dct: Dct, r: nat, m: nat, n: nat)
    requires ScanOk(s) && m <= n
    ensures ImcuRow(s, dct, r, m) <= ImcuRow(s, dct, r, n)
  {
    if m < n {
      ImcuPrefix(s, dct, r, m, n - 1);
    }
  }

  lemma {:induction false} AllPrefix(s: Scan, dct: Dct, m: nat, n: nat)
    requires ScanOk(s) && m <= n
    ensures AllMcus(s, dct, m) <= AllMcus(s, dct, n)
  {
    if m < n {
      AllPrefix(s, dct, m, n - 1);
    }
  }

  lemma SentPrefix(s: Scan, dct: Dct, r: nat, y: nat, col: nat)
    requires ScanOk(s) && r < s.rows && y < McuRows(s, r) && col <= s.mcusPerRow
    ensures Sent(s, dct, r, y, col) <= AllMcus(s, dct, s.rows)
  {
    RowPrefix(s, dct, r, y, col, s.mcusPerRow);
    ImcuPrefix(s, dct, r, y + 1, McuRows(s, r));
    AllPrefix(s, dct, r + 1, s.rows);
    var a, b, c := AllMcus(s, dct, r), ImcuRow(s, dct, r, y), RowMcus(s, dct, r, y, col);
    assert b + c <= b + RowMcus(s, dct, r, y, s.mcusPerRow) == ImcuRow(s, dct, r, y + 1);
    assert a + (b + c) <= a + ImcuRow(s, dct, r, McuRows(s, r)) == AllMcus(s, dct, r + 1);
  }

  /** What a controller has sent in its pass. */
  ghost predicate SentFrom(c: Controller, mcus: seq<seq<Block>>)
    reads c, c.entropy
  {
    c.entropy.accepted == c.before + mcus
  }

  lemma ControllerPrefix(c: Controller, mcus: seq<seq<Block>>)
    requires c.Valid() && SentFrom(c, mcus)
    ensures mcus <= AllMcus(c.s, c.dct, c.s.rows)
    ensures c.imcuRowNum == c.s.rows ==> mcus == AllMcus(c.s, c.dct, c.s.rows)
  {
    hide McuRows, RowMcus, ImcuRow;
    var sent := Sent(c.s, c.dct, c.imcuRowNum, c.mcuVertOffset, c.mcuCtr);
    assert mcus == (c.before + mcus)[|c.before|..] == (c.before + sent)[|c.before|..] == sent;
    if c.imcuRowNum < c.s.rows {
      SentPrefix(c.s, c.dct, c.imcuRowNum, c.mcuVertOffset, c.mcuCtr);
    } else {
      NoneOfRow(c.s, c.dct, c.imcuRowNum);
    }
  }

  lemma NoneOfRow(s: Scan, dct: Dct, r: nat)
    requires ScanOk(s)
    ensures Sent(s, dct, r, 0, 0) == AllMcus(s, dct, r)
  {
    assert AllMcus(s, dct, r) + ([] + []) == AllMcus(s, dct, r);
  }

  // ----- what a schedule of answers lets through -----

  /** Refusals met until k MCUs have been taken, and the answers left then. */
  function Refused(answers: seq<bool>, k: nat): nat
  {
    if k == 0 || answers == [] then 0
    else if answers[0] then Refused(answers[1..], k - 1) else 1 + Refused(answers[1..], k)
  }

  function AnswersAfter(answers: seq<bool>, k: nat): seq<bool>
  {
    if k == 0 || answers == [] then answers
    else AnswersAfter(answers[1..], if answers[0] then k - 1 else k)
  }

  /** The first call of a run offers left MCUs; more come in later calls. */
  lemma {:induction false} FirstCall(answers: seq<bool>, left: nat, more: nat)
    ensures var n, rest := Accepts(answers, left), AnswersLeft(answers, left);
      && Refused(answers, left + more) == Refused(rest, left - n + more) + (if n < left then 1 else 0)
      && AnswersAfter(answers, left + more) == AnswersAfter(rest, left - n + more)
    decreases left
  {
    if left > 0 && answers != [] && answers[0] {
      FirstCall(answers[1..], left - 1, more);
    }
  }

  /** No more refusals than the schedule has. */
  lemma {:induction false} RefusedAtMost(answers: seq<bool>, k: nat)
    ensures Refused(answers, k) <= Refusals(answers)
  {
    if k > 0 && answers != [] {
      RefusedAtMost(answers[1..], if answers[0] then k - 1 else k);
    }
  }

  /** MCUs of an iMCU row, and of all iMCU rows from r on. */
  function RowSize(s: Scan, r: nat): nat
    requires ScanOk(s)
  {
    SomeRows(s, r);
    RowLeft(s, r, 0, 0)
  }

  function SizeFrom(s: Scan, r: nat): nat
    requires ScanOk(s)
    decreases s.rows - r
  {
    if r >= s.rows then 0 else RowSize(s, r) + SizeFrom(s, r + 1)
  }

  /** MCUs taken in n calls, with left MCUs of iMCU row r still to be sent. */
  function Served(s: Scan, r: nat, left: nat, answers: seq<bool>, n: nat): nat
    requires ScanOk(s)
    decreases n
  {
    if n == 0 || r >= s.rows then 0
    else
      var taken, rest := Accepts(answers, left), AnswersLeft(answers, left);
      taken + if taken == left then Served(s, r + 1, RowSize(s, r + 1), rest, n - 1)
              else Served(s, r, left - taken, rest, n - 1)
  }

  /** Calls until the pass is finished: one for each iMCU row, and one for each refusal met. */
  function CallsNeeded(s: Scan, r: nat, left: nat, answers: seq<bool>): nat
    requires ScanOk(s)
  {
    if r >= s.rows then 0 else s.rows - r + Refused(answers, left + SizeFrom(s, r + 1))
  }

  function PassServed(s: Scan, answers: seq<bool>, n: nat): nat
    requires ScanOk(s)
  {
    Served(s, 0, RowSize(s, 0), answers, n)
  }

  function PassCalls(s: Scan, answers: seq<bool>): (n: nat)
    requires ScanOk(s)
  {
    CallsNeeded(s, 0, RowSize(s, 0), answers)
  }

  /** A schedule with finitely many refusals never keeps a pass from finishing. */
  lemma PassCallsBound(s: Scan, answers: seq<bool>)
    requires ScanOk(s)
    ensures PassCalls(s, answers) <= s.rows + Refusals(answers)
  {
    RefusedAtMost(answers, RowSize(s, 0) + SizeFrom(s, 1));
  }

  /** The answers left when a pass has taken everything. */
  function PassAfter(s: Scan, answers: seq<bool>): seq<bool>
    requires ScanOk(s)
  {
    AnswersAfter(answers, SizeFrom(s, 0))
  }

  /** Where a run of n calls stands after i of them. */
  ghost predicate Standing(s: Scan, answers0: seq<bool>, n: nat, r: nat, left: nat, answers: seq<bool>, i: nat, sent: nat)
    requires ScanOk(s)
  {
    && i <= n && r <= s.rows
    && sent + Served(s, r, left, answers, n - i) == PassServed(s, answers0, n)
    && i + CallsNeeded(s, r, left, answers) == PassCalls(s, answers0)
    && (if r < s.rows then AnswersAfter(answers, left + SizeFrom(s, r + 1)) else answers) == PassAfter(s, answers0)
  }

  lemma StandingStart(s: Scan, answers: seq<bool>, n: nat)
    requires ScanOk(s)
    ensures Standing(s, answers, n, 0, RowSize(s, 0), answers, 0, 0)
  {
  }

  lemma StandingStep(s: Scan, answers0: seq<bool>, n: nat, r: nat, left: nat, answers: seq<bool>, i: nat, sent: nat)
    requires ScanOk(s) && Standing(s, answers0, n, r, left, answers, i, sent) && r < s.rows && i < n
    ensures var taken, rest := Accepts(answers, left), AnswersLeft(answers, left);
      if taken == left then Standing(s, answers0, n, r + 1, RowSize(s, r + 1), rest, i + 1, sent + taken)
      else Standing(s, answers0, n, r, left - taken, rest, i + 1, sent + taken)
  {
    hide ScanOk, RowSize, Accepts, AnswersLeft, Refused, AnswersAfter;
    FirstCall(answers, left, SizeFrom(s, r + 1));
    NoMore(AnswersLeft(answers, left));
  }

  lemma NoMore(answers: seq<bool>)
    ensures Refused(answers, 0) == 0 && AnswersAfter(answers, 0) == answers
  {
  }

  /** A run stops when the pass is finished or the calls are used up. */
  lemma StandingEnd(s: Scan, answers0: seq<bool>, n: nat, r: nat, left: nat, answers: seq<bool>, i: nat, sent: nat)
    requires ScanOk(s) && Standing(s, answers0, n, r, left, answers, i, sent) && (r == s.rows || i == n)
    ensures sent == PassServed(s, answers0, n) && (r == s.rows <==> n >= PassCalls(s, answers0))
    ensures r == s.rows ==> answers == PassAfter(s, answers0)
  {
    hide ScanOk, RowSize, Refused, AnswersAfter;
  }

  // ----- runs -----

  /**
   A single pass, called up to n times for the next row, under any schedule of answers: what the encoder
   accepts is the start of the MCUs of the scan, each once, as far as the schedule lets them through; the pass
   is finished exactly when there are enough calls.
   */
  method OnePass(s: Scan, dct: Dct, answers: seq<bool>, n: nat) returns (mcus: seq<seq<Block>>, finished: bool)
    requires ScanOk(s) && FitsBuffer(s)
    ensures mcus <= AllMcus(s, dct, s.rows) && |mcus| == PassServed(s, answers, n)
    ensures finished <==> n >= PassCalls(s, answers)
    ensures finished ==> mcus == AllMcus(s, dct, s.rows)
  {
    hide ScanOk, FitsBuffer, Controller.Fixed, Sent, Standing, RowLeft, Accepts, AnswersLeft;
    var e := new EntropyEncoder(answers);
    var c := new Controller(s, dct, e);
    var i := 0;
    StandingStart(s, answers, n);
    AtRowStart(c);
    while i < n && c.imcuRowNum < s.rows
      invariant c.Valid() && c.before == [] && fresh(c) && fresh(c.mcuBuffer) && fresh(c.entropy) && i <= n
      invariant Standing(s, answers, n, c.imcuRowNum, c.Left(), c.entropy.answers, i, |c.entropy.accepted|)
    {
      StandingStep(s, answers, n, c.imcuRowNum, c.Left(), c.entropy.answers, i, |c.entropy.accepted|);
      var done := c.CompressData();
      if done {
        AtRowStart(c);
      }
      i := i + 1;
    }
    StandingEnd(s, answers, n, c.imcuRowNum, c.Left(), c.entropy.answers, i, |c.entropy.accepted|);
    mcus, finished := c.entropy.accepted, c.imcuRowNum == s.rows;
    assert SentFrom(c, mcus);
    ControllerPrefix(c, mcus);
  }

  lemma AtRowStart(c: Controller)
    requires c.Valid() && c.mcuVertOffset == 0 && c.mcuCtr == 0
    ensures c.Left() == RowSize(c.s, c.imcuRowNum)
  {
  }

  /**
   The first pass of the multi-pass path and then an output pass over the stored image: each gives the
   encoder the MCUs of the single pass, as far as its schedule lets them through.
   */
  method TwoPasses(s: Scan, dct: Dct, answers: seq<bool>, n: nat)
    returns (first: seq<seq<Block>>, second: seq<seq<Block>>, finished: bool)
    requires ScanOk(s) && FitsBuffer(s)
    ensures first <= AllMcus(s, dct, s.rows) && |first| == PassServed(s, answers, n)
    ensures second <= AllMcus(s, dct, s.rows)
    ensures |second| == if n >= PassCalls(s, answers) then PassServed(s, PassAfter(s, answers), n) else 0
    ensures finished <==> n >= PassCalls(s, answers) && n >= PassCalls(s, PassAfter(s, answers))
    ensures finished ==> first == second == AllMcus(s, dct, s.rows)
  {
    hide ScanOk, FitsBuffer, Controller.Fixed, Controller.Stored, Sent, Standing, RowLeft, Accepts, AnswersLeft,
      PassServed, PassCalls, PassAfter;
    var e := new EntropyEncoder(answers);
    var c := new Controller(s, dct, e);
    var i := 0;
    StandingStart(s, answers, n);
    AtRowStart(c);
    while i < n && c.imcuRowNum < s.rows
      invariant c.Valid() && c.s == s && c.before == [] && fresh(c) && fresh(c.mcuBuffer) && fresh(c.entropy) && i <= n
      invariant forall r :: 0 <= r < c.imcuRowNum ==> c.Stored(r)
      invariant Standing(s, answers, n, c.imcuRowNum, c.Left(), c.entropy.answers, i, |c.entropy.accepted|)
    {
      StandingStep(s, answers, n, c.imcuRowNum, c.Left(), c.entropy.answers, i, |c.entropy.accepted|);
      var done := c.CompressFirstPass();
      if done {
        AtRowStart(c);
      }
      i := i + 1;
    }
    StandingEnd(s, answers, n, c.imcuRowNum, c.Left(), c.entropy.answers, i, |c.entropy.accepted|);
    first := c.entropy.accepted;
    assert SentFrom(c, first);
    ControllerPrefix(c, first);
    second, finished := [], c.imcuRowNum == s.rows;
    if finished {
      second, finished := SecondPass(c, n, first);
    }
  }

  /** The output pass over an image that has been stored whole. */
  method SecondPass(c: Controller, n: nat, first: seq<seq<Block>>)
    returns (second: seq<seq<Block>>, finished: bool)
    requires c.Valid() && c.entropy.accepted == first && forall r :: 0 <= r < c.s.rows ==> c.Stored(r)
    modifies c, c.mcuBuffer, c.entropy
    ensures second <= AllMcus(c.s, c.dct, c.s.rows) && |second| == PassServed(c.s, old(c.entropy.answers), n)
    ensures finished <==> n >= PassCalls(c.s, old(c.entropy.answers))
    ensures finished ==> second == AllMcus(c.s, c.dct, c.s.rows)
  {
    hide ScanOk, FitsBuffer, Controller.Fixed, Controller.Stored, Sent, Standing, RowLeft, Accepts, AnswersLeft,
      PassServed, PassCalls, PassAfter;
    ghost var answers := c.entropy.answers;
    c.StartPass();
    c.FixedLength();
    var i := 0;
    StandingStart(c.s, answers, n);
    AtRowStart(c);
    while i < n && c.imcuRowNum < c.s.rows
      invariant c.Valid() && c.before == first && first <= c.entropy.accepted && i <= n
      invariant forall r :: 0 <= r < c.s.rows ==> c.Stored(r)
      invariant Standing(c.s, answers, n, c.imcuRowNum, c.Left(), c.entropy.answers, i, |c.entropy.accepted| - |first|)
    {
      StandingStep(c.s, answers, n, c.imcuRowNum, c.Left(), c.entropy.answers, i, |c.entropy.accepted| - |first|);
      var done := c.CompressOutput();
      if done {
        AtRowStart(c);
      }
      i := i + 1;
    }
    StandingEnd(c.s, answers, n, c.imcuRowNum, c.Left(), c.entropy.answers, i, |c.entropy.accepted| - |first|);
    second, finished := c.entropy.accepted[|first|..], c.imcuRowNum == c.s.rows;
    assert SentFrom(c, second);
    ControllerPrefix(c, second);
  }

  predicate AtLeast(calls: seq<nat>, unit: nat) {
    forall i :: 0 <= i < |calls| ==> calls[i] >= unit
  }

  /**
   Scanlines in any portions, empty ones included, under any schedule of answers. All is written as soon as the
   calls not cut short by a refusal have offered enough lines: with at least unit lines a call, and a call more
   for each refusal.
   */
  method WriteImage(height: nat, maxV: nat, s: Scan, dct: Dct, answers: seq<bool>, calls: seq<nat>, ghost unit: nat)
    returns (mcus: seq<seq<Block>>, nextScanline: nat)
    requires height >= 1 && maxV >= 1 && ScanOk(s) && FitsBuffer(s) && s.rows == DivUp(height, 8 * maxV)
    requires unit >= 1
    ensures mcus <= AllMcus(s, dct, s.rows) && nextScanline <= height
    ensures nextScanline == height ==> mcus == AllMcus(s, dct, s.rows)
    ensures AtLeast(calls, unit) && |calls| >= DivUp(height, unit) + Refusals(answers) ==> nextScanline == height
    ensures forall r :: 0 <= r <= s.rows && Boundary(height, maxV, r) <= nextScanline ==>
      AllMcus(s, dct, r) <= mcus
  {
    hide ScanOk, FitsBuffer, Controller.Fixed, Sent, Boundary, Compressor.EachOnce, DivUp, Refusals;
    var e := new EntropyEncoder(answers);
    var c := new Controller(s, dct, e);
    var m := new Compressor(height, maxV, c);
    SomeScanlines(m);
    var i := 0;
    ghost var full := 0;
    while i < |calls|
      invariant 0 <= i <= |calls|
      invariant m.Valid() && m.coef == c && m.height == height && m.maxV == maxV && c.s == s && c.dct == dct && c.before == []
      invariant fresh(m) && fresh(c) && fresh(c.mcuBuffer) && fresh(c.entropy)
      invariant m.nextScanline <= height && (m.nextScanline == height <==> m.curImcuRow == s.rows)
      invariant full >= 0 && i + Refusals(c.entropy.answers) == full + Refusals(answers)
      invariant AtLeast(calls, unit) ==> m.nextScanline == height || m.nextScanline >= full * unit
    {
      var rows := m.WriteScanlines(calls[i]);
      if !m.suspended {
        NextMultiple(full, unit);
        full := full + 1;
      }
      i := i + 1;
    }
    mcus, nextScanline := c.entropy.accepted, m.nextScanline;
    EnoughLines(height, unit, full);
    assert SentFrom(c, mcus);
    ControllerPrefix(c, mcus);
    RowsWritten(m, mcus);
  }

  lemma EnoughLines(height: nat, unit: nat, full: nat)
    requires unit >= 1
    ensures full >= DivUp(height, unit) ==> full * unit >= height
  {
    DivUpBounds(height, unit);
    if full >= DivUp(height, unit) {
      MulMonotone(DivUp(height, unit), full, unit);
    }
  }

  /** Every iMCU row that lies before the next scanline has been encoded. */
  lemma RowsWritten(m: Compressor, mcus: seq<seq<Block>>)
    requires m.Valid() && m.coef.entropy.accepted == mcus
    ensures forall r :: 0 <= r <= m.coef.s.rows && Boundary(m.height, m.maxV, r) <= m.nextScanline ==>
      AllMcus(m.coef.s, m.coef.dct, r) <= mcus
  {
    hide ScanOk, Controller.Fixed, FitsBuffer, McuRows, RowMcus, ImcuRow, Boundary, DivUp;
    var s, dct := m.coef.s, m.coef.dct;
    forall r | 0 <= r <= s.rows && Boundary(m.height, m.maxV, r) <= m.nextScanline ensures AllMcus(s, dct, r) <= mcus {
      if r > m.curImcuRow {
        BoundariesGrow(m.height, m.maxV, s.rows, m.curImcuRow + 1, r);
      }
      AllPrefix(s, dct, r, m.curImcuRow);
      var (a, b) := (AllMcus(s, dct, m.curImcuRow), m.coef);
      assert a <= Sent(s, dct, b.imcuRowNum, b.mcuVertOffset, b.mcuCtr) == mcus;
    }
  }

  lemma {:induction false} BoundariesGrow(height: nat, maxV: nat, rows: nat, q: nat, r: nat)
    requires height >= 1 && maxV >= 1 && rows == DivUp(height, 8 * maxV) && q <= r <= rows
    ensures Boundary(height, maxV, q) <= Boundary(height, maxV, r)
    decreases r
  {
    hide Boundary, DivUp;
    if q < r {
      BoundariesGrow(height, maxV, rows, q, r - 1);
      Boundaries(height, maxV, rows, r - 1);
    }
  }

  lemma SomeScanlines(m: Compressor)
    requires m.Valid() && m.nextScanline == 0 && m.curImcuRow == 0
    ensures m.nextScanline < m.height && m.curImcuRow < m.coef.s.rows
  {
    Positive(m.height, 8 * m.maxV);
  }
}
