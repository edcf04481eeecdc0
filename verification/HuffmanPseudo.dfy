/**
 The pseudo-symbol of jpeg_gen_optimal_table is one of the deepest symbols of Huffman's tree, whatever the
 counts, because of the way ties are broken.
 */
module HuffmanPseudo {
  import opened HuffmanMerge

  /** The order in which the searches find trees. */
  predicate Before(freq: seq<int>, i: int, j: int)
    requires 0 <= i < |freq| && 0 <= j < |freq|
  {
    freq[i] < freq[j] || (freq[i] == freq[j] && i > j)
  }

  /**
   No symbol is deeper than the pseudo-symbol, in its tree or another; trees found before its tree are
   less deep; and two other trees together do not come before it.
   */
  ghost predicate PseudoDeep(x: Merging)
  {
    && MergingOk(x) && 0 <= x.head[PSEUDO] < SYMBOLS && x.freq[x.head[PSEUDO]] > 0
    && (forall s :: 0 <= s < SYMBOLS ==> x.head[s] < SYMBOLS && x.depth[s] <= x.depth[PSEUDO])
    && (forall s :: 0 <= s < SYMBOLS && x.head[s] >= 0 ==>
        x.freq[x.head[s]] > 0 && (Before(x.freq, x.head[s], x.head[PSEUDO]) ==> x.depth[s] < x.depth[PSEUDO]))
    && (forall j :: 0 <= j < SYMBOLS && x.freq[j] > 0 && j != x.head[PSEUDO] ==>
        2 * x.freq[j] > x.freq[x.head[PSEUDO]] || (2 * x.freq[j] == x.freq[x.head[PSEUDO]] && j < x.head[PSEUDO]))
  }

  /** The searches find a first, b next, and any other tree later. */
  lemma Order(freq: seq<int>, a: int, b: int)
    requires |freq| == SYMBOLS && Lightest(freq, a, b) && forall j :: 0 <= j < SYMBOLS ==> freq[j] >= 0
    ensures 0 <= a < SYMBOLS && 0 <= b < SYMBOLS && a != b && 0 < freq[a] && 0 < freq[b] && Before(freq, a, b)
    ensures forall j :: 0 <= j < SYMBOLS && freq[j] > 0 && j != a && j != b ==> Before(freq, b, j)
  {
  }

  lemma PseudoStep(x: Merging, a: int, b: int)
    requires PseudoDeep(x) && Lightest(x.freq, a, b)
    ensures PseudoDeep(MergeStep(x, a, b))
  {
    hide Lightest;
    Order(x.freq, a, b);
    var h := x.head[PSEUDO];
    if h == a || h == b {
      PseudoMerged(x, a, b);
    } else {
      PseudoLeft(x, a, b);
    }
  }

  /** The tree of the pseudo-symbol is merged. */
  lemma PseudoMerged(x: Merging, a: int, b: int)
    requires PseudoDeep(x) && 0 <= a < SYMBOLS && 0 <= b < SYMBOLS && a != b && Before(x.freq, a, b)
    requires x.freq[a] > 0 && x.freq[b] > 0 && (x.head[PSEUDO] == a || x.head[PSEUDO] == b)
    requires forall j :: 0 <= j < SYMBOLS && x.freq[j] > 0 && j != a && j != b ==> Before(x.freq, b, j)
    ensures PseudoDeep(MergeStep(x, a, b))
  {
    assert MergeStep(x, a, b).head[PSEUDO] == a;
  }

  /** Two other trees are merged: both are less deep, and the new tree comes after that of the pseudo-symbol. */
  lemma PseudoLeft(x: Merging, a: int, b: int)
    requires PseudoDeep(x) && 0 <= a < SYMBOLS && 0 <= b < SYMBOLS && a != b && Before(x.freq, a, b)
    requires x.freq[a] > 0 && x.freq[b] > 0 && x.head[PSEUDO] != a && x.head[PSEUDO] != b
    requires forall j :: 0 <= j < SYMBOLS && x.freq[j] > 0 && j != a && j != b ==> Before(x.freq, b, j)
    ensures PseudoDeep(MergeStep(x, a, b))
  {
    var h := x.head[PSEUDO];
    assert Before(x.freq, a, h) && Before(x.freq, b, h);
  }

  lemma {:induction false} DeepestFrom(x: Merging, s: int)
    requires PseudoDeep(x) && 0 <= s < SYMBOLS
    ensures Depths(x)[s] <= Depths(x)[PSEUDO]
    decreases CountNonzero(x.freq, SYMBOLS)
  {
    hide CountNonzero, PseudoDeep, MergeStep;
    assert MergingOk(x) && x.depth[s] <= x.depth[PSEUDO] by {
      Here(x, s);
    }
    var a := Smallest(x.freq, -1, SYMBOLS);
    var b := Smallest(x.freq, a, SYMBOLS);
    if a >= 0 && b >= 0 {
      SmallestFound(x.freq, -1);
      SmallestFound(x.freq, a);
      MergeCounts(x.freq, a, b);
      PseudoStep(x, a, b);
      StepFreq(x, a, b);
      DeepestFrom(MergeStep(x, a, b), s);
    }
  }

  lemma Here(x: Merging, s: int)
    requires PseudoDeep(x) && 0 <= s < SYMBOLS
    ensures MergingOk(x) && x.depth[s] <= x.depth[PSEUDO]
  {
  }

  /** The pseudo-symbol, counted once, ends up deepest. */
  lemma PseudoDeepest(f: seq<int>, s: int)
    requires |f| == SYMBOLS && f[PSEUDO] == 1 && (forall k :: 0 <= k < SYMBOLS ==> f[k] >= 0) && 0 <= s < SYMBOLS
    ensures Depths(Singles(f))[s] <= Depths(Singles(f))[PSEUDO]
  {
    hide Depths;
    DeepestFrom(Singles(f), s);
  }
}
