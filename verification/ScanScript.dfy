/**
 The check of a multi-scan script before compression starts: validate_script of jcmaster.c. What it accepts is what the
 progressive coder needs (ArithProgressive), and in sequential mode every component is sent once.
 */
module ScanScript {
  import opened ArithModel
  import opened ArithScan
  import opened ArithProgressive

  /** An entry of a script: component indexes and progression parameters, none of them checked yet. */
  datatype Params = Params(comps: seq<int>, ss: int, se: int, ah: int, al: int)

  // ----- one entry -----

  predicate IndexesOk(p: Params, n: nat)
  {
    && 1 <= |p.comps| <= MAX_COMPS_IN_SCAN
    && (forall i :: 0 <= i < |p.comps| ==> 0 <= p.comps[i] < n)
    && (forall i, j :: 0 <= i < j < |p.comps| ==> p.comps[i] < p.comps[j])
  }

  predicate RangesOk(p: Params)
  {
    && 0 <= p.ss <= p.se < 64 && 0 <= p.ah <= MAX_AH_AL && 0 <= p.al <= MAX_AH_AL
    && if p.ss == 0 then p.se == 0 else |p.comps| == 1
  }

  /** The bits are the next ones for the band of a component, the DC coefficient coming first. */
  predicate NextBits(row: seq<int>, p: Params)
  {
    && |row| == 64 && 0 <= p.ss <= p.se < 64 && (p.ss > 0 ==> row[0] >= 0)
    && forall k :: p.ss <= k <= p.se ==> if row[k] < 0 then p.ah == 0 else p.ah == row[k] && p.al == p.ah - 1
  }

  predicate EntryOk(last: seq<seq<int>>, p: Params)
  {
    && IndexesOk(p, |last|) && RangesOk(p)
    && forall i :: 0 <= i < |p.comps| ==> NextBits(last[p.comps[i]], p)
  }

  function Sent(row: seq<int>, p: Params): (r: seq<int>)
    ensures |r| == |row| && forall k :: 0 <= k < |row| ==> r[k] == if p.ss <= k <= p.se then p.al else row[k]
  {
    seq(|row|, k requires 0 <= k < |row| => if p.ss <= k <= p.se then p.al else row[k])
  }

  function AfterEntry(last: seq<seq<int>>, p: Params): (r: seq<seq<int>>)
    ensures |r| == |last|
    ensures forall c :: 0 <= c < |last| ==> r[c] == if c in p.comps then Sent(last[c], p) else last[c]
  {
    seq(|last|, c requires 0 <= c < |last| => if c in p.comps then Sent(last[c], p) else last[c])
  }

  // ----- whole scripts -----

  predicate ProgressiveOk(last: seq<seq<int>>, script: seq<Params>)
    decreases |script|
  {
    script == [] || (EntryOk(last, script[0]) && ProgressiveOk(AfterEntry(last, script[0]), script[1..]))
  }

  function AfterEntries(last: seq<seq<int>>, script: seq<Params>): (r: seq<seq<int>>)
    ensures |r| == |last|
    decreases |script|
  {
    if script == [] then last else AfterEntries(AfterEntry(last, script[0]), script[1..])
  }

  predicate FullRange(p: Params) { p.ss == 0 && p.se == 63 && p.ah == 0 && p.al == 0 }

  /** How many scans have component c. */
  function Sendings(script: seq<Params>, c: int): nat
  {
    if script == [] then 0 else Sendings(script[..|script| - 1], c) + if c in script[|script| - 1].comps then 1 else 0
  }

  predicate SequentialOk(n: nat, script: seq<Params>)
  {
    && (forall i :: 0 <= i < |script| ==> IndexesOk(script[i], n) && FullRange(script[i]))
    && forall c :: 0 <= c < n ==> Sendings(script, c) == 1
  }

  predicate IsProgressive(script: seq<Params>)
    requires script != []
  {
    script[0].ss != 0 || script[0].se != 63
  }

  predicate DcSent(last: seq<seq<int>>)
  {
    forall c :: 0 <= c < |last| ==> |last[c]| == 64 && last[c][0] >= 0
  }

  /**
   A script for n components: sequential with every component in exactly one scan, or progressive with every scan
   sending the next bits of its coefficients and every component's DC coefficient sent.
   */
  predicate ScriptOk(n: nat, script: seq<Params>)
  {
    script != [] &&
    if IsProgressive(script) then ProgressiveOk(NothingSent(n), script) && DcSent(AfterEntries(NothingSent(n), script))
    else SequentialOk(n, script)
  }

  // ----- the loops -----

  method CheckIndexes(p: Params, n: nat) returns (ok: bool)
    ensures ok <==> IndexesOk(p, n)
  {
    if |p.comps| <= 0 || |p.comps| > MAX_COMPS_IN_SCAN {
      return false;
    }
    var ci := 0;
    while ci < |p.comps|
      invariant 0 <= ci <= |p.comps|
      invariant forall i :: 0 <= i < ci ==> 0 <= p.comps[i] < n
      invariant forall i, j :: 0 <= i < j < ci ==> p.comps[i] < p.comps[j]
    {
      var thisi := p.comps[ci];
      if thisi < 0 || thisi >= n {
        return false;
      }
      if ci > 0 && thisi <= p.comps[ci - 1] {
        return false;
      }
      ci := ci + 1;
    }
    ok := true;
  }

  /** The coefficients of the band, for one component. */
  method CheckBits(row: seq<int>, p: Params) returns (ok: bool, r: seq<int>)
    requires |row| == 64 && RangesOk(p)
    ensures ok <==> NextBits(row, p)
    ensures ok ==> r == Sent(row, p)
  {
    r := row;
    if p.ss != 0 && r[0] < 0 {
      return false, r;
    }
    var coefi := p.ss;
    while coefi <= p.se
      invariant p.ss <= coefi <= p.se + 1 && |r| == 64
      invariant forall k :: 0 <= k < 64 ==> r[k] == if p.ss <= k < coefi then p.al else row[k]
      invariant forall k :: p.ss <= k < coefi ==> if row[k] < 0 then p.ah == 0 else p.ah == row[k] && p.al == p.ah - 1
    {
      if r[coefi] < 0 {
        if p.ah != 0 {
          return false, r;
        }
      } else {
        if p.ah != r[coefi] || p.al != p.ah - 1 {
          return false, r;
        }
      }
      r := r[coefi := p.al];
      coefi := coefi + 1;
    }
    ok := true;
  }

  /** The progression parameters, and the bits of every component of the scan. */
  method CheckProgression(last: seq<seq<int>>, p: Params) returns (ok: bool, r: seq<seq<int>>)
    requires IndexesOk(p, |last|) && forall c :: 0 <= c < |last| ==> |last[c]| == 64
    ensures ok <==> EntryOk(last, p)
    ensures ok ==> r == AfterEntry(last, p)
  {
    hide NextBits, Sent;
    r := last;
    if p.ss < 0 || p.ss >= 64 || p.se < p.ss || p.se >= 64 || p.ah < 0 || p.ah > MAX_AH_AL || p.al < 0 || p.al > MAX_AH_AL {
      return false, r;
    }
    if p.ss == 0 {
      if p.se != 0 {
        return false, r;
      }
    } else {
      if |p.comps| != 1 {
        return false, r;
      }
    }
    var ci := 0;
    while ci < |p.comps|
      invariant 0 <= ci <= |p.comps| && |r| == |last|
      invariant forall i :: 0 <= i < ci ==> NextBits(last[p.comps[i]], p)
      invariant forall c :: 0 <= c < |last| ==> r[c] == if c in p.comps[..ci] then Sent(last[c], p) else last[c]
    {
      var c := p.comps[ci];
      assert c !in p.comps[..ci];
      var rowOk, row := CheckBits(r[c], p);
      if !rowOk {
        return false, r;
      }
      r := r[c := row];
      assert p.comps[..ci + 1] == p.comps[..ci] + [c];
      ci := ci + 1;
    }
    assert p.comps[..ci] == p.comps;
    ok := true;
  }

  /** No component is sent twice. */
  method CheckSent(sent: seq<bool>, p: Params) returns (ok: bool, r: seq<bool>)
    requires IndexesOk(p, |sent|)
    ensures ok <==> forall i :: 0 <= i < |p.comps| ==> !sent[p.comps[i]]
    ensures ok ==> |r| == |sent| && forall c :: 0 <= c < |sent| ==> (r[c] <==> sent[c] || c in p.comps)
  {
    r := sent;
    var ci := 0;
    while ci < |p.comps|
      invariant 0 <= ci <= |p.comps| && |r| == |sent|
      invariant forall i :: 0 <= i < ci ==> !sent[p.comps[i]]
      invariant forall c :: 0 <= c < |sent| ==> (r[c] <==> sent[c] || c in p.comps[..ci])
    {
      var thisi := p.comps[ci];
      assert thisi !in p.comps[..ci];
      if r[thisi] {
        return false, r;
      }
      r := r[thisi := true];
      assert p.comps[..ci + 1] == p.comps[..ci] + [thisi];
      ci := ci + 1;
    }
    assert p.comps[..ci] == p.comps;
    ok := true;
  }

  lemma ProgressiveStep(last: seq<seq<int>>, script: seq<Params>)
    requires script != []
    ensures ProgressiveOk(last, script) <==>
      EntryOk(last, script[0]) && ProgressiveOk(AfterEntry(last, script[0]), script[1..])
    ensures AfterEntries(last, script) == AfterEntries(AfterEntry(last, script[0]), script[1..])
  {
  }

  method ValidateProgressive(n: nat, script: seq<Params>) returns (ok: bool)
    ensures ok <==> ProgressiveOk(NothingSent(n), script) && DcSent(AfterEntries(NothingSent(n), script))
  {
    hide EntryOk, IndexesOk, AfterEntry;
    var last := NothingSent(n);
    ghost var first := last;
    var i := 0;
    assert script[0..] == script;
    while i < |script|
      invariant 0 <= i <= |script| && |last| == n && forall c :: 0 <= c < n ==> |last[c]| == 64
      invariant ProgressiveOk(last, script[i..]) <==> ProgressiveOk(first, script)
      invariant AfterEntries(last, script[i..]) == AfterEntries(first, script)
    {
      var p := script[i];
      assert script[i..][0] == p && script[i..][1..] == script[i + 1..];
      ProgressiveStep(last, script[i..]);
      EntryNeedsIndexes(last, p);
      var ok1 := CheckIndexes(p, n);
      if !ok1 {
        return false;
      }
      var ok2, next := CheckProgression(last, p);
      if !ok2 {
        return false;
      }
      AfterEntrySized(last, p);
      last := next;
      i := i + 1;
    }
    assert script[i..] == [];
    var ci := 0;
    while ci < n
      invariant 0 <= ci <= n && forall c :: 0 <= c < ci ==> last[c][0] >= 0
    {
      if last[ci][0] < 0 {
        return false;
      }
      ci := ci + 1;
    }
    ok := true;
  }

  lemma EntryNeedsIndexes(last: seq<seq<int>>, p: Params)
    ensures EntryOk(last, p) ==> IndexesOk(p, |last|)
  {
  }

  lemma AfterEntrySized(last: seq<seq<int>>, p: Params)
    requires forall c :: 0 <= c < |last| ==> |last[c]| == 64
    ensures forall c :: 0 <= c < |last| ==> |AfterEntry(last, p)[c]| == 64
  {
  }

  lemma {:induction false} SendingsGrow(script: seq<Params>, i: nat, c: int)
    requires i <= |script|
    ensures Sendings(script[..i], c) <= Sendings(script, c)
    decreases |script|
  {
    if i < |script| {
      SendingsGrow(script[..|script| - 1], i, c);
      assert script[..|script| - 1][..i] == script[..i];
    } else {
      assert script[..i] == script;
    }
  }

  lemma SendingsNext(script: seq<Params>, i: nat)
    requires i < |script|
    ensures forall c :: Sendings(script[..i + 1], c) == Sendings(script[..i], c) + if c in script[i].comps then 1 else 0
  {
    assert script[..i + 1][..i] == script[..i];
  }

  method ValidateSequential(n: nat, script: seq<Params>) returns (ok: bool)
    ensures ok <==> SequentialOk(n, script)
  {
    hide IndexesOk;
    var sent := seq(n, c => false);
    var i := 0;
    while i < |script|
      invariant 0 <= i <= |script| && |sent| == n
      invariant forall j :: 0 <= j < i ==> IndexesOk(script[j], n) && FullRange(script[j])
      invariant forall c :: 0 <= c < n ==> Sendings(script[..i], c) == if sent[c] then 1 else 0
    {
      var p := script[i];
      var ok1 := CheckIndexes(p, n);
      if !ok1 {
        return false;
      }
      if p.ss != 0 || p.se != 63 || p.ah != 0 || p.al != 0 {
        return false;
      }
      SendingsNext(script, i);
      var ok2, next := CheckSent(sent, p);
      if !ok2 {
        SentTwice(n, script, i, sent);
        return false;
      }
      sent := next;
      i := i + 1;
    }
    assert script[..i] == script;
    var ci := 0;
    while ci < n
      invariant 0 <= ci <= n && forall c :: 0 <= c < ci ==> sent[c]
    {
      if !sent[ci] {
        return false;
      }
      ci := ci + 1;
    }
    ok := true;
  }

  lemma SentTwice(n: nat, script: seq<Params>, i: nat, sent: seq<bool>)
    requires i < |script| && |sent| == n && IndexesOk(script[i], n)
    requires forall c :: 0 <= c < n ==> Sendings(script[..i], c) == if sent[c] then 1 else 0
    requires !forall j :: 0 <= j < |script[i].comps| ==> !sent[script[i].comps[j]]
    ensures !SequentialOk(n, script)
  {
    var j :| 0 <= j < |script[i].comps| && sent[script[i].comps[j]];
    var c := script[i].comps[j];
    SendingsNext(script, i);
    SendingsGrow(script, i + 1, c);
  }

  /** validate_script: accepts exactly the scripts that are in order. */
  method ValidateScript(n: nat, script: seq<Params>) returns (ok: bool)
    ensures ok <==> ScriptOk(n, script)
  {
    if script == [] {
      return false;
    }
    if script[0].ss != 0 || script[0].se != 63 {
      ok := ValidateProgressive(n, script);
    } else {
      ok := ValidateSequential(n, script);
    }
  }

  // ----- what an accepted script is good for -----

  /** Scans with the parameters of the script. */
  predicate Follow(scans: seq<Scan>, script: seq<Params>)
  {
    && |scans| == |script|
    && forall i :: 0 <= i < |scans| ==> MembersOk(scans[i]) && HasParams(scans[i], script[i])
  }

  predicate HasParams(sc: Scan, p: Params)
  {
    && |sc.of| == |p.comps| && (forall j :: 0 <= j < |sc.of| ==> sc.of[j] == p.comps[j])
    && sc.ss == p.ss && sc.se == p.se && sc.ah == p.ah && sc.al == p.al
  }

  lemma EntryMeans(last: seq<seq<int>>, sc: Scan, p: Params)
    requires MembersOk(sc) && HasParams(sc, p) && EntryOk(last, p)
    ensures ScanValid(last, sc) && AfterScan(last, sc) == AfterEntry(last, p)
  {
    hide CompOk;
    forall c | 0 <= c < |last| ensures AfterScan(last, sc)[c] == AfterEntry(last, p)[c] {
      SameMembers(sc, p, c);
      assert NewRow(last[c], sc) == Sent(last[c], p);
    }
    forall i | 0 <= i < |sc.of| ensures RowAllows(last[sc.of[i]], sc) {
      assert NextBits(last[p.comps[i]], p);
    }
  }

  lemma SameMembers(sc: Scan, p: Params, c: nat)
    requires HasParams(sc, p)
    ensures c in sc.of <==> c in p.comps
  {
    if c in sc.of {
      var j :| 0 <= j < |sc.of| && sc.of[j] == c;
      assert p.comps[j] == c;
    }
    if c in p.comps {
      var j :| 0 <= j < |p.comps| && p.comps[j] == c;
      assert sc.of[j] == c;
    }
  }

  /** An accepted progressive script is one the progressive coder gets through (ArithProgressive.ScriptHolds). */
  lemma {:induction false} AcceptedValid(last: seq<seq<int>>, scans: seq<Scan>, script: seq<Params>)
    requires Follow(scans, script) && ProgressiveOk(last, script)
    ensures ScriptValid(last, scans) && AfterScript(last, scans) == AfterEntries(last, script)
    decreases |script|
  {
    hide MembersOk, HasParams, EntryOk, ScanValid;
    if script != [] {
      EntryMeans(last, scans[0], script[0]);
      AcceptedValid(AfterEntry(last, script[0]), scans[1..], script[1..]);
    }
  }

  /** The shifts with which the scans of a script send coefficient k of component c. */
  function Shifts(script: seq<Params>, c: int, k: int): seq<int>
  {
    if script == [] then []
    else
      (if c in script[0].comps && script[0].ss <= k <= script[0].se then [script[0].al] else []) + Shifts(script[1..], c, k)
  }

  /** An accepted script sends the bits of every coefficient one after the other, none twice and none left out between. */
  lemma {:induction false} BitsInTurn(last: seq<seq<int>>, script: seq<Params>, c: nat, k: nat)
    requires ProgressiveOk(last, script) && c < |last| && k < 64 && |last[c]| == 64
    ensures var bits := Shifts(script, c, k);
      && (forall j :: 0 <= j < |bits| ==> bits[j] == bits[0] - j)
      && (bits != [] && last[c][k] >= 0 ==> bits[0] == last[c][k] - 1)
      && |AfterEntries(last, script)[c]| == 64
      && AfterEntries(last, script)[c][k] == if bits == [] then last[c][k] else bits[|bits| - 1]
    decreases |script|
  {
    hide EntryOk, AfterEntry, NextBits;
    if script != [] {
      EntrySends(last, script[0], c, k);
      BitsInTurn(AfterEntry(last, script[0]), script[1..], c, k);
    }
  }

  lemma EntrySends(last: seq<seq<int>>, p: Params, c: nat, k: nat)
    requires EntryOk(last, p) && c < |last| && k < 64 && |last[c]| == 64
    ensures |AfterEntry(last, p)[c]| == 64
    ensures var bit := AfterEntry(last, p)[c][k];
      if c in p.comps && p.ss <= k <= p.se then bit == p.al >= 0 && (last[c][k] >= 0 ==> bit == last[c][k] - 1)
      else bit == last[c][k]
  {
    if c in p.comps {
      assert NextBits(last[c], p);
    }
  }
}
