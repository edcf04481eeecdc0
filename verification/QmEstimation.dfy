/**
 What the probability estimation of the QM coder does (section D.1.5 of ITU-T T.81): a less probable symbol raises
 the estimate of its probability or becomes the more probable one, a more probable symbol lowers it, and enough
 equal decisions are learned from any start.
 */
module QmEstimation {
  import opened QmTable
  import opened QmExact

  const FIXED: nat := 113

  /** The states in which a less probable symbol becomes the more probable one. */
  predicate Switches(i: nat) { i in {0, 14, 36, 64, 80, 88, 95, 105, 110, 112} }

  // ----- the rows of Table D.2 -----

  predicate SwitchRow(i: nat)
    requires i < STATES
  {
    var r := TableD2(i);
    && (r.switch == 1 <==> Switches(i))
    && (i == FIXED ==> r.lps == r.mps == FIXED)
    && (i != FIXED ==> r.lps != FIXED && r.mps != FIXED)
    && (i == 13 ==> r.mps == 13)
  }

  predicate LpsRow(i: nat)
    requires i < STATES
  {
    i == FIXED || Switches(i) || TableD2(TableD2(i).lps).qe > TableD2(i).qe
  }

  predicate MpsRow(i: nat)
    requires i < STATES
  {
    i == FIXED || i == 13 || TableD2(TableD2(i).mps).qe < TableD2(i).qe
  }

  lemma SwitchRows(i: nat)
    requires i < STATES
    ensures SwitchRow(i)
  {
  }

  lemma LpsRowsLow(i: nat)
    requires i < 56
    ensures LpsRow(i)
  {
  }

  lemma LpsRowsHigh(i: nat)
    requires 56 <= i < STATES
    ensures LpsRow(i)
  {
  }

  lemma MpsRowsLow(i: nat)
    requires i < 28
    ensures MpsRow(i)
  {
  }

  lemma MpsRowsMiddle(i: nat)
    requires 28 <= i < 56
    ensures MpsRow(i)
  {
  }

  lemma MpsRowsHigh(i: nat)
    requires 56 <= i < STATES
    ensures MpsRow(i)
  {
  }

  // ----- one estimation -----

  lemma StatParts(sv: int)
    requires IsStat(sv)
    ensures sv == MakeStat(Mps(sv), sv % 128)
  {
  }

  /**
   After a less probable symbol: the sense changes exactly in ten states, the fixed state stays, and in every other
   state the less probable symbol is taken to be more probable than before.
   */
  lemma AfterLps(sv: int)
    requires IsStat(sv)
    ensures var i, r := sv % 128, NextStat(sv, true);
      && (Mps(r) != Mps(sv) <==> Switches(i))
      && (i == FIXED ==> r == sv)
      && (i != FIXED ==> r % 128 != FIXED)
      && (i != FIXED && !Switches(i) ==> Qe(r) > Qe(sv))
  {
    hide TableD2;
    var i: nat := sv % 128;
    StatParts(sv);
    SwitchRows(i);
    if i < 56 {
      LpsRowsLow(i);
    } else {
      LpsRowsHigh(i);
    }
  }

  /** After a more probable symbol: the sense stays, and the other symbol is taken to be less probable than before. */
  lemma AfterMps(sv: int)
    requires IsStat(sv)
    ensures var i, r := sv % 128, NextStat(sv, false);
      && Mps(r) == Mps(sv)
      && (i == FIXED || i == 13 ==> r == sv)
      && (i != FIXED ==> r % 128 != FIXED)
      && (i != FIXED && i != 13 ==> Qe(r) < Qe(sv))
  {
    hide TableD2;
    var i: nat := sv % 128;
    StatParts(sv);
    SwitchRows(i);
    if i < 28 {
      MpsRowsLow(i);
    } else if i < 56 {
      MpsRowsMiddle(i);
    } else {
      MpsRowsHigh(i);
    }
  }

  // ----- decisions -----

  /**
   A less probable symbol is always followed by an estimation, a more probable one exactly when its part of the
   interval is renormalised; no other bin is touched.
   */
  lemma StepEstimates(x: Coder, d: Decision)
    requires CoderOk(x) && d.bin < |x.stats|
    ensures var sv, sv' := x.stats[d.bin], Step(x, d).stats[d.bin];
      && (d.bit != Mps(sv) ==> sv' == NextStat(sv, true))
      && (d.bit == Mps(sv) ==> sv' == if Step(x, d).iv.n > x.iv.n then NextStat(sv, false) else sv)
    ensures forall b :: 0 <= b < |x.stats| && b != d.bin ==> Step(x, d).stats[b] == x.stats[b]
  {
    hide NextStat, Qe, Mps;
    var sv := x.stats[d.bin];
    var sub := Narrow(x.iv, Qe(sv), d.bit != Mps(sv));
    if sub.a < 0x8000 {
      assert Renorm(sub).n == Renorm(Interval(2 * sub.low, 2 * sub.a, sub.n + 1)).n > sub.n;
    }
  }

  function Repeat(d: Decision, n: nat): (ds: seq<Decision>)
    ensures |ds| == n && forall i :: 0 <= i < n ==> ds[i] == d
  {
    seq(n, i => d)
  }

  /** Equal decisions after the first. */
  lemma RepeatMore(x: Coder, d: Decision, n: nat)
    requires CoderOk(x) && d.bin < |x.stats|
    ensures Run(x, Repeat(d, n + 1)) == Run(Step(x, d), Repeat(d, n))
  {
    hide Step;
    assert Repeat(d, n + 1) == [d] + Repeat(d, n);
    RunConcat(x, [d], Repeat(d, n));
    assert [] + [d] == [d];
    RunSnoc(x, [], d);
  }

  /** A decision that is the more probable symbol of its bin stays so. */
  lemma {:induction false} Kept(x: Coder, d: Decision, n: nat)
    requires CoderOk(x) && d.bin < |x.stats| && Mps(x.stats[d.bin]) == d.bit
    ensures Mps(Run(x, Repeat(d, n)).stats[d.bin]) == d.bit
    decreases n
  {
    hide Step, NextStat, Mps;
    if n > 0 {
      StepEstimates(x, d);
      AfterMps(x.stats[d.bin]);
      RepeatMore(x, d, n - 1);
      Kept(Step(x, d), d, n - 1);
    }
  }

  /** Whatever has been coded before, enough equal decisions in a bin make that decision its more probable symbol. */
  lemma {:induction false} Learned(x: Coder, d: Decision) returns (n: nat)
    requires CoderOk(x) && d.bin < |x.stats| && x.stats[d.bin] % 128 != FIXED
    ensures forall m :: m >= n ==> Mps(Run(x, Repeat(d, m)).stats[d.bin]) == d.bit
    decreases 0x5b12 - Qe(x.stats[d.bin])
  {
    hide Step, NextStat, Qe, Run;
    var sv := x.stats[d.bin];
    if Mps(sv) == d.bit {
      n := 0;
      forall m | m >= 0 ensures Mps(Run(x, Repeat(d, m)).stats[d.bin]) == d.bit {
        Kept(x, d, m);
      }
    } else {
      StepEstimates(x, d);
      AfterLps(sv);
      var y, k := Step(x, d), 0;
      if Mps(y.stats[d.bin]) != d.bit {
        k := Learned(y, d);
      }
      n := k + 1;
      forall m | m >= n ensures Mps(Run(x, Repeat(d, m)).stats[d.bin]) == d.bit {
        RepeatMore(x, d, m - 1);
        if Mps(y.stats[d.bin]) == d.bit {
          Kept(y, d, m - 1);
        }
      }
    }
  }

  // ----- the parts of the interval -----

  /**
   The less probable symbol always gets the smaller part: the estimate, or what the estimate leaves if that is less.
   Of two equal parts it gets the upper one.
   */
  lemma SmallerToLps(iv: Interval, qe: nat)
    requires Normal(iv) && 1 <= qe <= 0x5b12
    ensures var lps, mps := Narrow(iv, qe, true), Narrow(iv, qe, false);
      && lps.a + mps.a == iv.a && lps.a <= mps.a && (lps.a == qe || lps.a == iv.a - qe)
      && (lps.low > mps.low ==> lps.a == qe) && (mps.low > lps.low ==> mps.a == qe)
      && (lps.a == mps.a ==> lps.low > mps.low)
  {
  }
}
