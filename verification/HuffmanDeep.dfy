/**
 How deep Huffman's tree can get: a symbol at depth 33 takes 9227464 counted symbols, and that many are
 enough, with Fibonacci numbers as counts.
 */
module HuffmanDeep {
  import opened HuffmanMerge
  import opened HuffmanOptimal

  // ----- deep trees are heavy -----

  /** The part of the merging invariant that does not speak of links. */
  ghost predicate Grown(freq: seq<int>, cs: seq<int>, t: Forest, m: int)
  {
    Placed(t) && Rooted(freq, t) && Complete(cs, t) && Heavy(freq, cs, t, m)
  }

  lemma GrownStep(freq: seq<int>, cs: seq<int>, t: Forest, m: int, a: int, b: int)
    requires Grown(freq, cs, t, m) && Lightest(freq, a, b)
    ensures MergingOk(Merging(freq, t.head, cs)) && 0 <= a < SYMBOLS && 0 <= b < SYMBOLS
    ensures |t.head| == |t.pos| == |t.chain| == SYMBOLS
    ensures var y := MergeStep(Merging(freq, t.head, cs), a, b);
      y.head == Join(t, a, b).head && Grown(y.freq, y.depth, Join(t, a, b), freq[b])
  {
    hide Kraft, Fib, Complete, Heavy;
    GrownOk(freq, cs, t, m);
    var y := MergeStep(Merging(freq, t.head, cs), a, b);
    JoinPlaced(t, a, b);
    JoinRooted(freq, t, a, b);
    JoinComplete(t, cs, y.depth, a, b);
    JoinHeavy(freq, t, cs, y.depth, m, a, b);
  }

  lemma {:induction false} DepthsHeavy(freq: seq<int>, cs: seq<int>, t: Forest, m: int, s: int)
    requires Grown(freq, cs, t, m) && CountNonzero(freq, SYMBOLS) >= 1 && 0 <= s < SYMBOLS
    ensures MergingOk(Merging(freq, t.head, cs))
    ensures Sum(freq, SYMBOLS) >= Fib(Depths(Merging(freq, t.head, cs))[s])
    decreases CountNonzero(freq, SYMBOLS)
  {
    hide Grown, Join, Sum, CountNonzero, Fib;
    GrownOk(freq, cs, t, m);
    var x := Merging(freq, t.head, cs);
    var a := Smallest(freq, -1, SYMBOLS);
    var b := Smallest(freq, a, SYMBOLS);
    SmallestFound(freq, -1);
    SmallestFound(freq, a);
    if a == -1 {
      NoneLive(freq, SYMBOLS);
    } else if b == -1 {
      LoneTree(freq, cs, t, m, a, s);
    } else {
      GrownStep(freq, cs, t, m, a, b);
      MergeCounts(freq, a, b);
      var y := MergeStep(x, a, b);
      DepthsHeavy(y.freq, y.depth, Join(t, a, b), freq[b], s);
    }
  }

  lemma GrownOk(freq: seq<int>, cs: seq<int>, t: Forest, m: int)
    requires Grown(freq, cs, t, m)
    ensures MergingOk(Merging(freq, t.head, cs)) && |t.head| == |t.pos| == |t.chain| == SYMBOLS
  {
  }

  lemma LoneTree(freq: seq<int>, cs: seq<int>, t: Forest, m: int, root: int, s: int)
    requires Grown(freq, cs, t, m) && IsSmallest(freq, -1, root) && NoneBut(freq, root) && 0 <= s < SYMBOLS
    ensures |cs| == |freq| == SYMBOLS && Sum(freq, SYMBOLS) >= Fib(cs[s])
  {
    hide Sum, Kraft, Fib;
    AtMostSum(freq, SYMBOLS, root);
    if t.head[s] < 0 {
      FibAtZero();
    } else {
      assert freq[t.head[s]] != 0;
    }
  }

  /** Too deep a tree needs that many counted symbols. */
  lemma TooDeepNeedsWeight(counts: seq<int>)
    requires CountsOk(counts) && TooDeep(counts)
    ensures Sum(counts, 256) >= 9227464
  {
    hide Sum, CountNonzero, Depths, Fib;
    var f := counts[PSEUDO := 1];
    FirstCounts(counts, f);
    var t := Seedlings(f, seq(SYMBOLS, s => 0), seq(SYMBOLS, s => -1));
    var s :| 0 <= s < SYMBOLS && CodeDepths(counts)[s] > MAX_CLEN;
    DepthsHeavy(f, seq(SYMBOLS, s => 0), t, 0, s);
    FibAt33();
    FibGrows(33, CodeDepths(counts)[s]);
  }

  // ----- frequent symbols are not deep -----

  /** How much heavier than the symbol itself a tree with the symbol at depth d is. */
  function Lift(d: int): (r: int)
    ensures r >= 1
  {
    if d <= 0 then 1 else Fib(d - 1)
  }

  lemma LiftStep(d: int, c: int)
    requires d >= 0
    ensures c * Lift(d + 1) == c * Lift(d) + if d > 0 then c * Lift(d - 1) else 0
  {
    if d > 0 {
      FibStep(d - 1);
      assert Lift(d + 1) == Lift(d) + Lift(d - 1);
    }
  }

  /** The tree of symbol s outweighs it as its depth tells, and the other trees nearly so. */
  ghost predicate Lifted(x: Merging, s: int, c: int)
  {
    && MergingOk(x) && 0 <= s < SYMBOLS && 0 <= x.head[s] < SYMBOLS && x.depth[s] >= 0 && c > 0
    && x.freq[x.head[s]] >= c * Lift(x.depth[s])
    && (x.depth[s] > 0 ==> forall j :: 0 <= j < SYMBOLS && x.freq[j] > 0 ==> x.freq[j] >= c * Lift(x.depth[s] - 1))
  }

  lemma LiftedStep(x: Merging, s: int, c: int, a: int, b: int)
    requires Lifted(x, s, c) && Lightest(x.freq, a, b)
    ensures Lifted(MergeStep(x, a, b), s, c)
  {
    hide Lift;
    LiftStep(x.depth[s], c);
  }

  lemma {:induction false} DepthsLifted(x: Merging, s: int, c: int)
    requires Lifted(x, s, c)
    ensures Sum(x.freq, SYMBOLS) >= c * Lift(Depths(x)[s])
    decreases CountNonzero(x.freq, SYMBOLS)
  {
    hide CountNonzero, Sum, Lift, MergeStep;
    var a := Smallest(x.freq, -1, SYMBOLS);
    var b := Smallest(x.freq, a, SYMBOLS);
    SmallestFound(x.freq, -1);
    SmallestFound(x.freq, a);
    if a >= 0 && b >= 0 {
      MergeCounts(x.freq, a, b);
      LiftedStep(x, s, c, a, b);
      StepFreq(x, a, b);
      DepthsLifted(MergeStep(x, a, b), s, c);
    } else {
      AtMostSum(x.freq, SYMBOLS, x.head[s]);
    }
  }

  /** A symbol at depth d + 1 makes up at most one part in Fib(d) of all that is counted. */
  lemma FrequentShallow(counts: seq<int>, s: int)
    requires CountsOk(counts) && 0 <= s < 256 && counts[s] > 0
    ensures counts[s] * Lift(CodeDepths(counts)[s]) <= Sum(counts, 256) + 1
  {
    hide Depths, Sum, CountNonzero;
    var f := counts[PSEUDO := 1];
    FirstCounts(counts, f);
    DepthsLifted(Singles(f), s, f[s]);
  }

  lemma LiftAtEleven(d: int)
    requires d > 10
    ensures Lift(d) >= 144
  {
    assert Fib(3) == 5 && Fib(4) == 8;
    assert Fib(7) == 34 && Fib(8) == 55;
    FibGrows(10, d - 1);
  }

  /** A symbol that does not occur, or makes up more than one part in 144, is at depth ten at most. */
  lemma TenDeep(counts: seq<int>, s: int)
    requires CountsOk(counts) && 0 <= s < 256 && (counts[s] == 0 || 144 * counts[s] > Sum(counts, 256) + 1)
    ensures CodeDepths(counts)[s] <= 10
  {
    hide Depths, Sum, Lift;
    if counts[s] == 0 {
      UnusedDepth(Singles(counts[PSEUDO := 1]), s);
      return;
    }
    FrequentShallow(counts, s);
    if CodeDepths(counts)[s] > 10 {
      LiftAtEleven(CodeDepths(counts)[s]);
      MulUp(counts[s], Lift(CodeDepths(counts)[s]));
    }
  }

  lemma MulUp(c: int, l: int)
    requires c > 0 && l >= 144
    ensures c * l >= 144 * c
  {
  }

  // ----- counts that reach the bound -----

  /** 33 symbols with Fibonacci numbers as counts, the largest one first. */
  function FibCounts(): (f: seq<int>)
    ensures |f| == SYMBOLS && forall s :: 0 <= s < SYMBOLS ==> f[s] == if s < 33 then Fib(31 - s) else 0
  {
    seq(SYMBOLS, s requires 0 <= s < SYMBOLS => if s < 33 then Fib(31 - s) else 0)
  }

  lemma {:induction false} FibSum(n: nat)
    requires n <= 33
    ensures Sum(FibCounts(), n) == Fib(33) - Fib(33 - n)
  {
    hide Fib, FibCounts;
    if n > 0 {
      FibSum(n - 1);
      FibThird(34 - n);
    }
  }

  lemma FibThird(n: int)
    requires n >= 1
    ensures Fib(n) == Fib(n - 1) + Fib(n - 2)
  {
  }

  lemma {:induction false} FibSumAll(n: nat)
    requires 33 <= n <= 256
    ensures Sum(FibCounts(), n) == 9227464 && CountNonzero(FibCounts(), n) == 33
  {
    hide Fib, FibCounts;
    if n > 33 {
      FibSumAll(n - 1);
    } else {
      FibSum(33);
      FibAt33();
      FibAtZero();
      FibUsed(33);
    }
  }

  lemma {:induction false} FibUsed(n: nat)
    requires n <= 33
    ensures CountNonzero(FibCounts(), n) == n
  {
    hide Fib, FibCounts;
    if n > 0 {
      FibUsed(n - 1);
    }
  }

  /** The head of the one tree with more than one symbol, after k rounds of merging. */
  function Trunk(k: nat): int
    requires 1 <= k <= 33
  {
    if k == 1 then PSEUDO else 33 - k
  }

  /** After k rounds: one tree with the pseudo-symbol at depth k, and the 33 - k heaviest symbols left. */
  predicate Caterpillar(x: Merging, k: nat)
    requires 1 <= k <= 33
  {
    && MergingOk(x) && x.head[PSEUDO] == Trunk(k) && x.depth[PSEUDO] == k
    && forall s :: 0 <= s < SYMBOLS ==>
      x.freq[s] == if s == Trunk(k) then Fib(k) else if s < 33 - k then Fib(31 - s) else 0
  }

  /** The lightest symbol left joins the tree, which on a tie is taken second but before the next symbol. */
  lemma CaterpillarStep(x: Merging, k: nat)
    requires 1 <= k < 33 && Caterpillar(x, k)
    ensures Lightest(x.freq, 32 - k, Trunk(k))
    ensures Caterpillar(MergeStep(x, 32 - k, Trunk(k)), k + 1)
  {
    hide Fib;
    var a, b := 32 - k, Trunk(k);
    FibThird(k + 1);
    FibThird(k);
    assert x.freq[a] == Fib(k - 1) < Fib(k) == x.freq[b];
    forall s | 0 <= s < a ensures x.freq[s] >= Fib(k) {
      FibGrows(k, 31 - s);
    }
  }

  lemma {:induction false} CaterpillarDepth(x: Merging, k: nat)
    requires 1 <= k <= 33 && Caterpillar(x, k)
    ensures Depths(x)[PSEUDO] == 33
    decreases 33 - k
  {
    hide Fib;
    if k < 33 {
      CaterpillarStep(x, k);
      SmallestIs(x.freq, -1, 32 - k);
      SmallestIs(x.freq, 32 - k, Trunk(k));
      CaterpillarDepth(MergeStep(x, 32 - k, Trunk(k)), k + 1);
    } else {
      assert IsSmallest(x.freq, -1, Trunk(33)) && NoneBut(x.freq, Trunk(33));
      DepthsEnd(x.freq, x.depth, x.head, Trunk(33));
    }
  }

  lemma FibBelowZero()
    ensures Fib(-1) == 1
  {
  }

  /** The pseudo-symbol and the lightest symbol are merged first. */
  lemma FirstMerge(x: Merging)
    requires MergingOk(x) && x == Singles(FibCounts()[PSEUDO := 1])
    ensures Lightest(x.freq, PSEUDO, 32) && Caterpillar(MergeStep(x, PSEUDO, 32), 1)
  {
    hide Fib, FibCounts;
    FibAtZero();
    FibThird(1);
    FibBelowZero();
  }

  /** The bound is reached: 33 symbols and 9227464 counts give a code of 33 bits. */
  lemma OverflowReached()
    ensures CountsOk(FibCounts()) && TooDeep(FibCounts())
    ensures Sum(FibCounts(), 256) == 9227464 && CountNonzero(FibCounts(), 256) == 33
  {
    hide Fib, FibCounts, Depths, MergeStep;
    FibSumAll(256);
    var x := Singles(FibCounts()[PSEUDO := 1]);
    FirstMerge(x);
    SmallestIs(x.freq, -1, PSEUDO);
    SmallestIs(x.freq, PSEUDO, 32);
    var y := MergeStep(x, PSEUDO, 32);
    assert Depths(x) == Depths(y) by {
      UnfoldDepths(x, PSEUDO, 32);
    }
    CaterpillarDepth(y, 1);
    assert CodeDepths(FibCounts())[PSEUDO] == 33;
  }

  lemma UnfoldDepths(x: Merging, a: int, b: int)
    requires MergingOk(x) && Lightest(x.freq, a, b)
    ensures 0 <= a < SYMBOLS && 0 <= b < SYMBOLS && Depths(x) == Depths(MergeStep(x, a, b))
  {
    SmallestIs(x.freq, -1, a);
    SmallestIs(x.freq, a, b);
  }
}
