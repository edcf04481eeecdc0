/**
 The progressive script the library recommends: jpeg_simple_progression of jcparam.c. For any number of components it
 is accepted by validate_script and sends every bit of every coefficient, so nothing is lost.
 */
module SimpleProgression {
  import opened QmExact
  import opened ArithModel
  import opened ArithScan
  import opened ArithTheorems
  import opened ArithProgressive
  import opened ScanScript
  import opened Zigzag

  // ----- the script -----

  function OneScan(ci: nat, ss: nat, se: nat, ah: nat, al: nat): Params { Params([ci], ss, se, ah, al) }

  /** One scan for each component. */
  function ScanEach(n: nat, ss: nat, se: nat, ah: nat, al: nat): (r: seq<Params>)
    ensures |r| == n && forall i :: 0 <= i < n ==> r[i] == OneScan(i, ss, se, ah, al)
  {
    seq(n, i requires 0 <= i < n => OneScan(i, ss, se, ah, al))
  }

  function Indexes(n: nat): (r: seq<int>)
    ensures |r| == n && forall i :: 0 <= i < n ==> r[i] == i
  {
    seq(n, i => i)
  }

  /** One interleaved DC scan if possible. */
  function DcScans(n: nat, ah: nat, al: nat): seq<Params>
  {
    if n <= MAX_COMPS_IN_SCAN then [Params(Indexes(n), 0, 0, ah, al)] else ScanEach(n, 0, 0, ah, al)
  }

  function YccScript(): seq<Params>
  {
    DcScans(3, 0, 1) + [OneScan(0, 1, 5, 0, 2)] + [OneScan(2, 1, 63, 0, 1)] + [OneScan(1, 1, 63, 0, 1)]
    + [OneScan(0, 6, 63, 0, 2)] + [OneScan(0, 1, 63, 2, 1)]
    + DcScans(3, 1, 0) + [OneScan(2, 1, 63, 1, 0)] + [OneScan(1, 1, 63, 1, 0)] + [OneScan(0, 1, 63, 1, 0)]
  }

  function AllPurposeScript(n: nat): seq<Params>
  {
    DcScans(n, 0, 1) + ScanEach(n, 1, 5, 0, 2) + ScanEach(n, 6, 63, 0, 2) + ScanEach(n, 1, 63, 2, 1)
    + DcScans(n, 1, 0) + ScanEach(n, 1, 63, 1, 0)
  }

  function Script(n: nat, ycc: bool): seq<Params>
  {
    if n == 3 && ycc then YccScript() else AllPurposeScript(n)
  }

  // ----- writing it -----

  method FillAScan(script: array<Params>, at: nat, ci: nat, ss: nat, se: nat, ah: nat, al: nat) returns (next: nat)
    requires at < script.Length
    modifies script
    ensures next == at + 1 && script[..next] == old(script[..at]) + [OneScan(ci, ss, se, ah, al)]
  {
    script[at] := OneScan(ci, ss, se, ah, al);
    next := at + 1;
  }

  method FillScans(script: array<Params>, at: nat, n: nat, ss: nat, se: nat, ah: nat, al: nat) returns (next: nat)
    requires at + n <= script.Length
    modifies script
    ensures next == at + n && script[..next] == old(script[..at]) + ScanEach(n, ss, se, ah, al)
  {
    next := at;
    var ci := 0;
    while ci < n
      invariant 0 <= ci <= n && next == at + ci
      invariant script[..next] == old(script[..at]) + ScanEach(n, ss, se, ah, al)[..ci]
    {
      script[next] := Params([ci], ss, se, ah, al);
      next := next + 1;
      ci := ci + 1;
    }
  }

  method FillDcScans(script: array<Params>, at: nat, n: nat, ah: nat, al: nat) returns (next: nat)
    requires at + |DcScans(n, ah, al)| <= script.Length
    modifies script
    ensures next == at + |DcScans(n, ah, al)| && script[..next] == old(script[..at]) + DcScans(n, ah, al)
  {
    if n <= MAX_COMPS_IN_SCAN {
      var comps := [];
      var ci := 0;
      while ci < n
        invariant 0 <= ci <= n && comps == Indexes(n)[..ci]
      {
        comps := comps + [ci];
        ci := ci + 1;
      }
      assert comps == Indexes(n);
      script[at] := Params(comps, 0, 0, ah, al);
      next := at + 1;
      assert script[..next] == script[..at] + [Params(Indexes(n), 0, 0, ah, al)];
    } else {
      next := FillScans(script, at, n, 0, 0, ah, al);
    }
  }

  lemma DcScansLength(n: nat, ah: nat, al: nat)
    ensures |DcScans(n, ah, al)| == if n <= MAX_COMPS_IN_SCAN then 1 else n
  {
  }

  /** Custom script for YCbCr color images. */
  method FillYcc(script: array<Params>)
    requires script.Length == 10
    modifies script
    ensures script[..] == YccScript()
  {
    hide DcScans, OneScan;
    DcScansLength(3, 0, 1);
    DcScansLength(3, 1, 0);
    var at := FillDcScans(script, 0, 3, 0, 1);
    at := FillAScan(script, at, 0, 1, 5, 0, 2);
    at := FillAScan(script, at, 2, 1, 63, 0, 1);
    at := FillAScan(script, at, 1, 1, 63, 0, 1);
    at := FillAScan(script, at, 0, 6, 63, 0, 2);
    at := FillAScan(script, at, 0, 1, 63, 2, 1);
    at := FillDcScans(script, at, 3, 1, 0);
    at := FillAScan(script, at, 2, 1, 63, 1, 0);
    at := FillAScan(script, at, 1, 1, 63, 1, 0);
    at := FillAScan(script, at, 0, 1, 63, 1, 0);
    assert script[..at] == script[..];
    assert script[..0] + DcScans(3, 0, 1) == DcScans(3, 0, 1);
  }

  /** All-purpose script for other color spaces. */
  method FillAllPurpose(script: array<Params>, n: nat)
    requires script.Length == if n > MAX_COMPS_IN_SCAN then 6 * n else 2 + 4 * n
    modifies script
    ensures script[..] == AllPurposeScript(n)
  {
    hide DcScans, ScanEach;
    DcScansLength(n, 0, 1);
    DcScansLength(n, 1, 0);
    var at := FillDcScans(script, 0, n, 0, 1);
    at := FillScans(script, at, n, 1, 5, 0, 2);
    at := FillScans(script, at, n, 6, 63, 0, 2);
    at := FillScans(script, at, n, 1, 63, 2, 1);
    at := FillDcScans(script, at, n, 1, 0);
    at := FillScans(script, at, n, 1, 63, 1, 0);
    assert script[..at] == script[..];
    assert script[..0] + DcScans(n, 0, 1) == DcScans(n, 0, 1);
  }

  /** The space figured beforehand is exactly what the calls fill. */
  method SimpleScript(n: nat, ycc: bool) returns (script: array<Params>)
    ensures fresh(script) && script[..] == Script(n, ycc)
  {
    hide YccScript, AllPurposeScript;
    var nscans := if n == 3 && ycc then 10 else if n > MAX_COMPS_IN_SCAN then 6 * n else 2 + 4 * n;
    script := new Params[nscans](_ => Params([], 0, 0, 0, 0));
    if n == 3 && ycc {
      FillYcc(script);
    } else {
      FillAllPurpose(script, n);
    }
  }

  // ----- what has been sent -----

  /** The last bits sent of one component: of its DC coefficient, of coefficients 1 to 5, of the others. */
  function Row(dc: int, low: int, high: int): (r: seq<int>)
    ensures |r| == 64
  {
    seq(64, k => if k == 0 then dc else if k <= 5 then low else high)
  }

  /** The first i of n components have come to row x, the others are at y. */
  function Partly(n: nat, i: nat, x: seq<int>, y: seq<int>): (last: seq<seq<int>>)
    ensures |last| == n && forall c :: 0 <= c < n ==> last[c] == if c < i then x else y
  {
    seq(n, c => if c < i then x else y)
  }

  lemma {:induction false} Appended(last: seq<seq<int>>, x: seq<Params>, y: seq<Params>)
    ensures ProgressiveOk(last, x + y) <==> ProgressiveOk(last, x) && ProgressiveOk(AfterEntries(last, x), y)
    ensures AfterEntries(last, x + y) == AfterEntries(AfterEntries(last, x), y)
    decreases |x|
  {
    hide EntryOk, AfterEntry;
    if x == [] {
      assert x + y == y;
    } else {
      assert (x + y)[0] == x[0] && (x + y)[1..] == x[1..] + y;
      Appended(AfterEntry(last, x[0]), x[1..], y);
    }
  }

  /** A scan of one component moves its row on. */
  lemma OneMoves(last: seq<seq<int>>, ci: nat, ss: nat, se: nat, ah: nat, al: nat, x: seq<int>)
    requires ci < |last| && RangesOk(OneScan(ci, ss, se, ah, al)) && NextBits(last[ci], OneScan(ci, ss, se, ah, al))
    requires x == Sent(last[ci], OneScan(ci, ss, se, ah, al))
    ensures ProgressiveOk(last, [OneScan(ci, ss, se, ah, al)])
    ensures AfterEntries(last, [OneScan(ci, ss, se, ah, al)]) == last[ci := x]
  {
    hide NextBits;
    var p := OneScan(ci, ss, se, ah, al);
    assert [p][1..] == [];
    assert AfterEntry(last, p) == last[ci := x];
  }

  /** The scans of all components from i on, the ones before being done. */
  lemma {:induction false} EachMoves(n: nat, i: nat, ss: nat, se: nat, ah: nat, al: nat, y: seq<int>, x: seq<int>)
    requires i <= n && RangesOk(OneScan(0, ss, se, ah, al)) && NextBits(y, OneScan(0, ss, se, ah, al))
    requires x == Sent(y, OneScan(0, ss, se, ah, al))
    ensures ProgressiveOk(Partly(n, i, x, y), ScanEach(n, ss, se, ah, al)[i..])
    ensures AfterEntries(Partly(n, i, x, y), ScanEach(n, ss, se, ah, al)[i..]) == Partly(n, n, x, y)
    decreases n - i
  {
    hide ProgressiveOk, AfterEntries, NextBits, Sent;
    var script := ScanEach(n, ss, se, ah, al);
    if i < n {
      SameBand(y, i, ss, se, ah, al);
      OneMoves(Partly(n, i, x, y), i, ss, se, ah, al, x);
      assert Partly(n, i, x, y)[i := x] == Partly(n, i + 1, x, y);
      EachMoves(n, i + 1, ss, se, ah, al, y, x);
      assert script[i..] == [script[i]] + script[i + 1..];
      Appended(Partly(n, i, x, y), [script[i]], script[i + 1..]);
    } else {
      assert script[i..] == [];
      NoEntries(Partly(n, i, x, y));
    }
  }

  lemma SameBand(row: seq<int>, ci: nat, ss: nat, se: nat, ah: nat, al: nat)
    ensures NextBits(row, OneScan(ci, ss, se, ah, al)) == NextBits(row, OneScan(0, ss, se, ah, al))
    ensures Sent(row, OneScan(ci, ss, se, ah, al)) == Sent(row, OneScan(0, ss, se, ah, al))
  {
  }

  lemma NoEntries(last: seq<seq<int>>)
    ensures ProgressiveOk(last, []) && AfterEntries(last, []) == last
  {
  }

  /** A pass over a band of all components. */
  lemma BandPass(n: nat, ss: nat, se: nat, ah: nat, al: nat, y: seq<int>, x: seq<int>)
    requires RangesOk(OneScan(0, ss, se, ah, al)) && NextBits(y, OneScan(0, ss, se, ah, al))
    requires x == Sent(y, OneScan(0, ss, se, ah, al))
    ensures ProgressiveOk(Partly(n, n, y, y), ScanEach(n, ss, se, ah, al))
    ensures AfterEntries(Partly(n, n, y, y), ScanEach(n, ss, se, ah, al)) == Partly(n, n, x, x)
  {
    hide ProgressiveOk, AfterEntries, NextBits, Sent, ScanEach;
    EachMoves(n, 0, ss, se, ah, al, y, x);
    assert Partly(n, n, y, y) == Partly(n, 0, x, y) && Partly(n, n, x, x) == Partly(n, n, x, y);
    assert ScanEach(n, ss, se, ah, al)[0..] == ScanEach(n, ss, se, ah, al);
  }

  /** The DC pass over all components. */
  lemma DcPass(n: nat, ah: nat, al: nat, y: seq<int>, x: seq<int>)
    requires n >= 1 && ah <= MAX_AH_AL && al <= MAX_AH_AL && NextBits(y, OneScan(0, 0, 0, ah, al))
    requires x == Sent(y, OneScan(0, 0, 0, ah, al))
    ensures ProgressiveOk(Partly(n, n, y, y), DcScans(n, ah, al))
    ensures AfterEntries(Partly(n, n, y, y), DcScans(n, ah, al)) == Partly(n, n, x, x)
  {
    if n <= MAX_COMPS_IN_SCAN {
      var p, last := Params(Indexes(n), 0, 0, ah, al), Partly(n, n, y, y);
      assert DcScans(n, ah, al)[1..] == [];
      forall c | 0 <= c < n ensures AfterEntry(last, p)[c] == x {
        assert p.comps[c] == c;
      }
      assert AfterEntry(last, p) == Partly(n, n, x, x);
    } else {
      BandPass(n, 0, 0, ah, al, y, x);
    }
  }

  // ----- the passes of the all-purpose script -----

  lemma DcBits(dc: int, low: int, high: int, ah: nat, al: nat)
    requires (dc < 0 && ah == 0) || (dc == ah && al == ah - 1)
    ensures NextBits(Row(dc, low, high), OneScan(0, 0, 0, ah, al))
    ensures Sent(Row(dc, low, high), OneScan(0, 0, 0, ah, al)) == Row(al, low, high)
  {
  }

  lemma LowBits(dc: int, low: int, high: int, ah: nat, al: nat)
    requires dc >= 0 && ((low < 0 && ah == 0) || (low == ah && al == ah - 1))
    ensures NextBits(Row(dc, low, high), OneScan(0, 1, 5, ah, al))
    ensures Sent(Row(dc, low, high), OneScan(0, 1, 5, ah, al)) == Row(dc, al, high)
  {
  }

  lemma HighBits(dc: int, low: int, high: int, ah: nat, al: nat)
    requires dc >= 0 && ((high < 0 && ah == 0) || (high == ah && al == ah - 1))
    ensures NextBits(Row(dc, low, high), OneScan(0, 6, 63, ah, al))
    ensures Sent(Row(dc, low, high), OneScan(0, 6, 63, ah, al)) == Row(dc, low, al)
  {
  }

  lemma AcBits(dc: int, ac: int, ah: nat, al: nat)
    requires dc >= 0 && ((ac < 0 && ah == 0) || (ac == ah && al == ah - 1))
    ensures NextBits(Row(dc, ac, ac), OneScan(0, 1, 63, ah, al))
    ensures Sent(Row(dc, ac, ac), OneScan(0, 1, 63, ah, al)) == Row(dc, al, al)
  {
  }

  function All(n: nat, row: seq<int>): seq<seq<int>> { Partly(n, n, row, row) }

  lemma NothingIs(n: nat)
    ensures NothingSent(n) == All(n, Row(-1, -1, -1))
  {
    forall c | 0 <= c < n ensures NothingSent(n)[c] == Row(-1, -1, -1) {
    }
  }

  lemma AllPurposeComplete(n: nat)
    requires n >= 1
    ensures ProgressiveOk(NothingSent(n), AllPurposeScript(n))
    ensures AfterEntries(NothingSent(n), AllPurposeScript(n)) == All(n, Row(0, 0, 0))
  {
    hide ProgressiveOk, AfterEntries, NextBits, Sent, ScanEach, DcScans, Row, Partly;
    NothingIs(n);
    DcBits(-1, -1, -1, 0, 1);
    DcPass(n, 0, 1, Row(-1, -1, -1), Row(1, -1, -1));
    LowBits(1, -1, -1, 0, 2);
    BandPass(n, 1, 5, 0, 2, Row(1, -1, -1), Row(1, 2, -1));
    HighBits(1, 2, -1, 0, 2);
    BandPass(n, 6, 63, 0, 2, Row(1, 2, -1), Row(1, 2, 2));
    AcBits(1, 2, 2, 1);
    BandPass(n, 1, 63, 2, 1, Row(1, 2, 2), Row(1, 1, 1));
    DcBits(1, 1, 1, 1, 0);
    DcPass(n, 1, 0, Row(1, 1, 1), Row(0, 1, 1));
    AcBits(0, 1, 1, 0);
    BandPass(n, 1, 63, 1, 0, Row(0, 1, 1), Row(0, 0, 0));
    var s1 := DcScans(n, 0, 1);
    var s2 := s1 + ScanEach(n, 1, 5, 0, 2);
    var s3 := s2 + ScanEach(n, 6, 63, 0, 2);
    var s4 := s3 + ScanEach(n, 1, 63, 2, 1);
    var s5 := s4 + DcScans(n, 1, 0);
    Appended(NothingSent(n), s1, ScanEach(n, 1, 5, 0, 2));
    Appended(NothingSent(n), s2, ScanEach(n, 6, 63, 0, 2));
    Appended(NothingSent(n), s3, ScanEach(n, 1, 63, 2, 1));
    Appended(NothingSent(n), s4, DcScans(n, 1, 0));
    Appended(NothingSent(n), s5, ScanEach(n, 1, 63, 1, 0));
  }

  // ----- the script for YCbCr -----

  /** The rows of the three components. */
  function Three(a: seq<int>, b: seq<int>, c: seq<int>): seq<seq<int>> { [a, b, c] }

  lemma ThreeAlike(row: seq<int>)
    ensures All(3, row) == Three(row, row, row)
  {
  }

  /** One scan of component ci, after those of x. */
  lemma Then(last: seq<seq<int>>, x: seq<Params>, ci: nat, ss: nat, se: nat, ah: nat, al: nat, row: seq<int>)
    requires ProgressiveOk(last, x) && ci < |last| && 1 <= ss <= se < 64 && ah <= MAX_AH_AL && al <= MAX_AH_AL
    requires NextBits(AfterEntries(last, x)[ci], OneScan(0, ss, se, ah, al))
    requires row == Sent(AfterEntries(last, x)[ci], OneScan(0, ss, se, ah, al))
    ensures ProgressiveOk(last, x + [OneScan(ci, ss, se, ah, al)])
    ensures AfterEntries(last, x + [OneScan(ci, ss, se, ah, al)]) == AfterEntries(last, x)[ci := row]
  {
    hide ProgressiveOk, AfterEntries, NextBits, Sent;
    SameBand(AfterEntries(last, x)[ci], ci, ss, se, ah, al);
    OneMoves(AfterEntries(last, x), ci, ss, se, ah, al, row);
    Appended(last, x, [OneScan(ci, ss, se, ah, al)]);
  }

  /** The first six scans. */
  lemma YccFirstHalf(x: seq<Params>)
    requires x == DcScans(3, 0, 1) + [OneScan(0, 1, 5, 0, 2)] + [OneScan(2, 1, 63, 0, 1)] + [OneScan(1, 1, 63, 0, 1)]
      + [OneScan(0, 6, 63, 0, 2)] + [OneScan(0, 1, 63, 2, 1)]
    ensures ProgressiveOk(NothingSent(3), x) && AfterEntries(NothingSent(3), x) == All(3, Row(1, 1, 1))
  {
    hide ProgressiveOk, AfterEntries, NextBits, Sent, DcScans, Row, Partly, OneScan;
    var none := NothingSent(3);
    NothingIs(3);
    DcBits(-1, -1, -1, 0, 1);
    var s := DcScans(3, 0, 1);
    DcPass(3, 0, 1, Row(-1, -1, -1), Row(1, -1, -1));
    ThreeAlike(Row(1, -1, -1));
    LowBits(1, -1, -1, 0, 2);
    Then(none, s, 0, 1, 5, 0, 2, Row(1, 2, -1));
    s := s + [OneScan(0, 1, 5, 0, 2)];
    AcBits(1, -1, 0, 1);
    Then(none, s, 2, 1, 63, 0, 1, Row(1, 1, 1));
    s := s + [OneScan(2, 1, 63, 0, 1)];
    Then(none, s, 1, 1, 63, 0, 1, Row(1, 1, 1));
    s := s + [OneScan(1, 1, 63, 0, 1)];
    HighBits(1, 2, -1, 0, 2);
    Then(none, s, 0, 6, 63, 0, 2, Row(1, 2, 2));
    s := s + [OneScan(0, 6, 63, 0, 2)];
    AcBits(1, 2, 2, 1);
    Then(none, s, 0, 1, 63, 2, 1, Row(1, 1, 1));
    s := s + [OneScan(0, 1, 63, 2, 1)];
    ThreeAlike(Row(1, 1, 1));
  }

  lemma YccComplete()
    ensures ProgressiveOk(NothingSent(3), YccScript())
    ensures AfterEntries(NothingSent(3), YccScript()) == All(3, Row(0, 0, 0))
  {
    hide ProgressiveOk, AfterEntries, NextBits, Sent, DcScans, Row, Partly, OneScan;
    var none := NothingSent(3);
    var s := DcScans(3, 0, 1) + [OneScan(0, 1, 5, 0, 2)] + [OneScan(2, 1, 63, 0, 1)] + [OneScan(1, 1, 63, 0, 1)]
      + [OneScan(0, 6, 63, 0, 2)] + [OneScan(0, 1, 63, 2, 1)];
    YccFirstHalf(s);
    DcBits(1, 1, 1, 1, 0);
    DcPass(3, 1, 0, Row(1, 1, 1), Row(0, 1, 1));
    Appended(none, s, DcScans(3, 1, 0));
    s := s + DcScans(3, 1, 0);
    ThreeAlike(Row(0, 1, 1));
    AcBits(0, 1, 1, 0);
    Then(none, s, 2, 1, 63, 1, 0, Row(0, 0, 0));
    s := s + [OneScan(2, 1, 63, 1, 0)];
    Then(none, s, 1, 1, 63, 1, 0, Row(0, 0, 0));
    s := s + [OneScan(1, 1, 63, 1, 0)];
    Then(none, s, 0, 1, 63, 1, 0, Row(0, 0, 0));
    s := s + [OneScan(0, 1, 63, 1, 0)];
    ThreeAlike(Row(0, 0, 0));
  }

  // ----- the results -----

  /** validate_script accepts the script, for every number of components. */
  lemma ScriptAccepted(n: nat, ycc: bool)
    requires n >= 1
    ensures ScriptOk(n, Script(n, ycc)) && IsProgressive(Script(n, ycc))
    ensures AfterEntries(NothingSent(n), Script(n, ycc)) == All(n, Row(0, 0, 0))
  {
    hide ProgressiveOk, AfterEntries;
    if n == 3 && ycc {
      YccComplete();
    } else {
      AllPurposeComplete(n);
    }
  }

  /**
   An image of n components written with that script comes back from its scans coefficient by coefficient, whatever
   blocks a decoder holds at the start.
   */
  lemma ScriptDelivers(n: nat, ycc: bool, decs: seq<Decoder>, units: seq<Unit>, scans: seq<Scan>, held: seq<seq<int>>)
    requires n >= 1 && UnitsOk(units) && (forall u :: 0 <= u < |units| ==> units[u].ci < n)
    requires Follow(scans, Script(n, ycc)) && AllAccepted(units, scans)
    requires AllRead(decs) && |decs| == |scans| && AllDecisions(decs, units, scans)
    requires |held| == |units| && Blocks64(held)
    ensures forall i :: 0 <= i < |scans| ==> FitsHeld(scans[i], |held|)
    ensures var r := DecScript(decs, scans, held); r.Some? && forall u, k :: 0 <= u < |units| && 0 <= k < 64 ==>
      r.value[u][k] == units[u].block[NaturalOrder(k)]
  {
    hide ProgressiveOk, AfterEntries, Script, Follow, AllAccepted, AllDecisions, AllRead, FitsHeld, DecScript, ScriptValid,
      AfterScript, IsCoefBlock, NaturalOrder, Coef, UnitsOk;
    var last := NothingSent(n);
    ScriptAccepted(n, ycc);
    AcceptedValid(last, scans, Script(n, ycc));
    NothingHeld(units, n, held);
    ScriptHolds(decs, units, last, scans, held);
    AllComplete(units, n);
    CompleteDelivers(units, All(n, Row(0, 0, 0)), DecScript(decs, scans, held).value);
  }

  lemma NothingHeld(units: seq<Unit>, n: nat, held: seq<seq<int>>)
    requires UnitsOk(units) && |held| == |units| && Blocks64(held) && forall u :: 0 <= u < |units| ==> units[u].ci < n
    ensures Holds(units, NothingSent(n), held)
  {
  }

  lemma AllComplete(units: seq<Unit>, n: nat)
    requires forall u :: 0 <= u < |units| ==> units[u].ci < n
    ensures Complete(units, All(n, Row(0, 0, 0)))
  {
  }
}
