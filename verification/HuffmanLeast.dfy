/**
 Huffman's tree is the best one: no prefix code for the counted symbols, the pseudo-symbol counted once, needs
 fewer bits than one with the depths of jpeg_gen_optimal_table as code lengths.
 */
module HuffmanLeast {
  import opened Powers
  import opened HuffmanMerge
  import opened HuffmanOptimal
  import opened HuffmanBlocks
  import opened HuffmanRoundTrip
  import opened HuffmanTwoPass

  /** Bits for the first n symbols, with l[s] bits for each of the f[s] times symbol s occurs. */
  function Cost(f: seq<int>, l: seq<int>, n: nat): int
    requires n <= |f| && n <= |l|
  {
    if n == 0 then 0 else Cost(f, l, n - 1) + f[n - 1] * l[n - 1]
  }

  /** The part of all strings of m bits that begin with a code of those lengths, counted in strings. */
  function Room(f: seq<int>, l: seq<int>, m: nat, n: nat): nat
    requires n <= |f| && n <= |l|
  {
    if n == 0 then 0
    else Room(f, l, m, n - 1) + if f[n - 1] != 0 && l[n - 1] <= m then Pow2(m - l[n - 1]) else 0
  }

  /** The lengths of the used symbols are at most m, and Kraft's inequality holds. */
  ghost predicate Fits(f: seq<int>, l: seq<int>, m: nat)
  {
    && |f| == |l| == SYMBOLS
    && (forall s :: 0 <= s < SYMBOLS ==> f[s] >= 0 && (f[s] != 0 ==> 0 <= l[s] <= m))
    && Room(f, l, m, SYMBOLS) <= Pow2(m)
  }

  // ----- the cost of merging -----

  /** What all merges together add: each makes the codes of the merged symbols one bit longer. */
  function MergeCost(f: seq<int>): int
    requires |f| == SYMBOLS && forall s :: 0 <= s < SYMBOLS ==> f[s] >= 0
    decreases CountNonzero(f, SYMBOLS)
  {
    var a := Smallest(f, -1, SYMBOLS);
    var b := Smallest(f, a, SYMBOLS);
    if a < 0 || b < 0 then 0
    else
      SmallestFound(f, -1);
      SmallestFound(f, a);
      MergeCounts(f, a, b);
      f[a] + f[b] + MergeCost(f[a := f[a] + f[b]][b := 0])
  }

  /** Occurrences of the symbols below n in the tree at h. */
  function Group(f: seq<int>, head: seq<int>, h: int, n: nat): int
    requires n <= |f| && n <= |head|
  {
    if n == 0 then 0 else Group(f, head, h, n - 1) + if head[n - 1] == h then f[n - 1] else 0
  }

  /** The weight of every tree is that of its symbols. */
  ghost predicate Weighed(f: seq<int>, x: Merging)
  {
    && MergingOk(x) && |f| == SYMBOLS
    && forall h :: 0 <= h < SYMBOLS ==> x.freq[h] == Group(f, x.head, h, SYMBOLS)
  }

  lemma {:induction false} GroupStep(f: seq<int>, x: Merging, a: int, b: int, h: int, n: nat)
    requires MergingOk(x) && |f| == SYMBOLS && 0 <= a < SYMBOLS && 0 <= b < SYMBOLS && a != b && n <= SYMBOLS
    ensures var head := MergeStep(x, a, b).head;
      Group(f, head, h, n) == if h == b then 0
        else Group(f, x.head, h, n) + if h == a then Group(f, x.head, b, n) else 0
  {
    if n > 0 {
      GroupStep(f, x, a, b, h, n - 1);
    }
  }

  lemma {:induction false} CostStep(f: seq<int>, x: Merging, a: int, b: int, n: nat)
    requires MergingOk(x) && |f| == SYMBOLS && 0 <= a < SYMBOLS && 0 <= b < SYMBOLS && a != b && n <= SYMBOLS
    ensures Cost(f, MergeStep(x, a, b).depth, n)
      == Cost(f, x.depth, n) + Group(f, x.head, a, n) + Group(f, x.head, b, n)
  {
    if n > 0 {
      CostStep(f, x, a, b, n - 1);
      var d, w := x.depth[n - 1], f[n - 1];
      assert w * (d + 1) == w * d + w;
    }
  }

  /** The depths cost what the merges add. */
  lemma {:induction false} DepthsCost(f: seq<int>, x: Merging)
    requires Weighed(f, x)
    ensures Cost(f, Depths(x), SYMBOLS) == Cost(f, x.depth, SYMBOLS) + MergeCost(x.freq)
    decreases CountNonzero(x.freq, SYMBOLS)
  {
    hide Cost, Group, MergeStep;
    var a := Smallest(x.freq, -1, SYMBOLS);
    var b := Smallest(x.freq, a, SYMBOLS);
    if a >= 0 && b >= 0 {
      SmallestFound(x.freq, -1);
      SmallestFound(x.freq, a);
      MergeCounts(x.freq, a, b);
      var y := MergeStep(x, a, b);
      CostStep(f, x, a, b, SYMBOLS);
      WeighedStep(f, x, a, b);
      DepthsCost(f, y);
    }
  }

  lemma WeighedStep(f: seq<int>, x: Merging, a: int, b: int)
    requires Weighed(f, x) && 0 <= a < SYMBOLS && 0 <= b < SYMBOLS && a != b
    ensures var y := MergeStep(x, a, b);
      Weighed(f, y) && y.freq == x.freq[a := x.freq[a] + x.freq[b]][b := 0]
  {
    hide Group;
    forall h | 0 <= h < SYMBOLS
      ensures MergeStep(x, a, b).freq[h] == Group(f, MergeStep(x, a, b).head, h, SYMBOLS)
    {
      GroupStep(f, x, a, b, h, SYMBOLS);
    }
  }

  // ----- changing lengths -----

  lemma {:induction false} OneLength(f: seq<int>, l: seq<int>, i: int, v: int, m: nat, n: nat)
    requires n <= |f| && n <= |l| && 0 <= i < |f| && i < |l| && v <= m && l[i] <= m
    ensures Cost(f, l[i := v], n) == Cost(f, l, n) + if i < n then f[i] * v - f[i] * l[i] else 0
    ensures Room(f, l[i := v], m, n)
      == Room(f, l, m, n) + if i < n && f[i] != 0 then Pow2(m - v) - Pow2(m - l[i]) else 0
  {
    hide Pow2;
    if n > 0 {
      OneLength(f, l, i, v, m, n - 1);
    }
  }

  lemma {:induction false} OneUse(f: seq<int>, l: seq<int>, i: int, v: int, m: nat, n: nat)
    requires n <= |f| && n <= |l| && 0 <= i < |f| && i < |l| && l[i] <= m
    ensures Cost(f[i := v], l, n) == Cost(f, l, n) + if i < n then v * l[i] - f[i] * l[i] else 0
    ensures Room(f[i := v], l, m, n) == Room(f, l, m, n)
      + if i < n then (if v != 0 then Pow2(m - l[i]) else 0) - (if f[i] != 0 then Pow2(m - l[i]) else 0) else 0
  {
    hide Pow2;
    if n > 0 {
      OneUse(f, l, i, v, m, n - 1);
    }
  }

  lemma Rearranged(u: int, w: int, p: int, q: int)
    requires u <= w && p <= q
    ensures u * q + w * p <= u * p + w * q
  {
    assert (w - u) * (q - p) >= 0;
  }

  /** A rare symbol with a long code and a frequent one with a short code, rather than the other way round. */
  lemma Exchange(f: seq<int>, l: seq<int>, m: nat, i: int, d: int)
    requires Fits(f, l, m) && 0 <= i < SYMBOLS && 0 <= d < SYMBOLS && i != d
    requires 0 < f[i] <= f[d] && l[i] <= l[d]
    ensures Fits(f, l[i := l[d]][d := l[i]], m)
    ensures Cost(f, l[i := l[d]][d := l[i]], SYMBOLS) <= Cost(f, l, SYMBOLS)
  {
    hide Cost, Room, Pow2;
    OneLength(f, l, i, l[d], m, SYMBOLS);
    OneLength(f, l[i := l[d]], d, l[i], m, SYMBOLS);
    Rearranged(f[i], f[d], l[i], l[d]);
  }

  /** Without a code of the full length m the room is even. */
  lemma {:induction false} RoomHalves(f: seq<int>, l: seq<int>, m: nat, n: nat)
    requires m >= 1 && n <= |f| && n <= |l|
    requires forall s :: 0 <= s < n && f[s] != 0 ==> l[s] <= m - 1
    ensures Room(f, l, m, n) == 2 * Room(f, l, m - 1, n)
  {
    if n > 0 {
      RoomHalves(f, l, m, n - 1);
    }
  }

  /** Without a code of the full length m, the bound is m - 1. */
  lemma FitsBelow(f: seq<int>, l: seq<int>, m: nat)
    requires Fits(f, l, m) && m >= 1 && forall s :: 0 <= s < SYMBOLS && f[s] != 0 ==> l[s] != m
    ensures Fits(f, l, m - 1)
  {
    hide Room;
    RoomHalves(f, l, m, SYMBOLS);
  }

  /** A lone code of the full length can be one bit shorter. */
  lemma ShortenLone(f: seq<int>, l: seq<int>, m: nat, d: int)
    requires Fits(f, l, m) && m >= 1 && 0 <= d < SYMBOLS && f[d] > 0 && l[d] == m
    requires forall s :: 0 <= s < SYMBOLS && f[s] != 0 && s != d ==> l[s] != m
    ensures Fits(f, l[d := m - 1], m - 1)
    ensures Cost(f, l[d := m - 1], SYMBOLS) <= Cost(f, l, SYMBOLS)
  {
    hide Cost, Room;
    var k := l[d := m - 1];
    OneLength(f, l, d, m - 1, m, SYMBOLS);
    RoomHalves(f, k, m, SYMBOLS);
    assert Pow2(m - l[d]) == 1 && Pow2(m - (m - 1)) == 2;
    MulMonotone(m - 1, m, f[d]);
  }

  /** The two lightest symbols can have two of the longest codes. */
  lemma DeepPair(f: seq<int>, l: seq<int>, m: nat, a: int, b: int, d1: int, d2: int) returns (k: seq<int>)
    requires Fits(f, l, m) && Lightest(f, a, b)
    requires 0 <= d1 < SYMBOLS && 0 <= d2 < SYMBOLS && d1 != d2 && f[d1] != 0 && f[d2] != 0 && l[d1] == l[d2] == m
    ensures Fits(f, k, m) && k[a] == k[b] == m && Cost(f, k, SYMBOLS) <= Cost(f, l, SYMBOLS)
  {
    hide Cost, Room;
    k := l;
    var d := if d1 != b then d1 else d2;
    if l[a] != m {
      Exchange(f, l, m, a, d);
      k := l[a := m][d := l[a]];
    }
    if k[b] != m {
      var e := if d1 != a && k[d1] == m then d1 else d2;
      Exchange(f, k, m, b, e);
      k := k[b := m][e := k[b]];
    }
  }

  /** Two codes that differ in their last bit only, made into one. */
  lemma MergePair(f: seq<int>, l: seq<int>, m: nat, a: int, b: int)
    requires Fits(f, l, m) && m >= 1 && 0 <= a < SYMBOLS && 0 <= b < SYMBOLS && a != b
    requires f[a] != 0 && f[b] != 0 && l[a] == l[b] == m
    ensures var f', l' := f[a := f[a] + f[b]][b := 0], l[a := m - 1];
      Fits(f', l', m) && Cost(f', l', SYMBOLS) == Cost(f, l, SYMBOLS) - (f[a] + f[b])
  {
    hide Cost, Room;
    var g := f[a := f[a] + f[b]];
    OneUse(f, l, a, f[a] + f[b], m, SYMBOLS);
    OneUse(g, l, b, 0, m, SYMBOLS);
    OneLength(g[b := 0], l, a, m - 1, m, SYMBOLS);
    assert Pow2(m - l[a]) == 1 && Pow2(m - (m - 1)) == 2;
    NextMultiple(m - 1, f[a] + f[b]);
  }

  lemma {:induction false} CostNotNegative(f: seq<int>, l: seq<int>, m: nat, n: nat)
    requires Fits(f, l, m) && n <= SYMBOLS
    ensures Cost(f, l, n) >= 0
  {
    if n > 0 {
      hide Room;
      CostNotNegative(f, l, m, n - 1);
      if f[n - 1] != 0 {
        MulMonotone(0, l[n - 1], f[n - 1]);
      }
    }
  }

  /** Two symbols cannot both have the empty code. */
  lemma TwoNeedABit(f: seq<int>, l: seq<int>, m: nat, a: int, b: int)
    requires Fits(f, l, m) && 0 <= a < SYMBOLS && 0 <= b < SYMBOLS && a != b && f[a] != 0 && f[b] != 0
    ensures m >= 1
  {
    hide Cost, Room;
    OneUse(f, l, a, 0, m, SYMBOLS);
    OneUse(f[a := 0], l, b, 0, m, SYMBOLS);
  }

  /** No lengths that satisfy Kraft's inequality cost less than the merges do. */
  lemma {:induction false} MergingLeast(f: seq<int>, l: seq<int>, m: nat)
    requires Fits(f, l, m)
    ensures MergeCost(f) <= Cost(f, l, SYMBOLS)
    decreases CountNonzero(f, SYMBOLS), m
  {
    hide Cost, Room, Pow2, CountNonzero;
    CostNotNegative(f, l, m, SYMBOLS);
    var a := Smallest(f, -1, SYMBOLS);
    var b := Smallest(f, a, SYMBOLS);
    if a >= 0 && b >= 0 {
      SmallestFound(f, -1);
      SmallestFound(f, a);
      TwoNeedABit(f, l, m, a, b);
      if d1 :| 0 <= d1 < SYMBOLS && f[d1] != 0 && l[d1] == m {
        if d2 :| 0 <= d2 < SYMBOLS && d2 != d1 && f[d2] != 0 && l[d2] == m {
          var k := DeepPair(f, l, m, a, b, d1, d2);
          MergePair(f, k, m, a, b);
          MergeCounts(f, a, b);
          MergingLeast(f[a := f[a] + f[b]][b := 0], k[a := m - 1], m);
        } else {
          ShortenLone(f, l, m, d1);
          MergingLeast(f, l[d1 := m - 1], m - 1);
        }
      } else {
        FitsBelow(f, l, m);
        MergingLeast(f, l, m - 1);
      }
    }
  }

  // ----- prefix codes -----

  /** No code of a used symbol begins with the code of another one. */
  ghost predicate IsPrefixCode(f: seq<int>, code: seq<seq<bool>>)
  {
    |f| == |code| && forall s, u :: 0 <= s < |f| && 0 <= u < |f| && s != u && f[s] != 0 && f[u] != 0 ==>
      !(code[s] <= code[u])
  }

  function Lengths(code: seq<seq<bool>>): (l: seq<int>)
    ensures |l| == |code| && forall s :: 0 <= s < |code| ==> l[s] == |code[s]|
  {
    seq(|code|, s requires 0 <= s < |code| => |code[s]|)
  }

  /** The counts of the symbols whose codes begin with the given bit. */
  function Branch(f: seq<int>, code: seq<seq<bool>>, bit: bool): (r: seq<int>)
    requires |f| == |code|
    ensures |r| == |f|
  {
    seq(|f|, s requires 0 <= s < |f| => if code[s] != [] && code[s][0] == bit then f[s] else 0)
  }

  function Tails(code: seq<seq<bool>>): (r: seq<seq<bool>>)
    ensures |r| == |code|
  {
    seq(|code|, s requires 0 <= s < |code| => if code[s] != [] then code[s][1..] else [])
  }

  lemma {:induction false} RoomBranches(f: seq<int>, code: seq<seq<bool>>, m: nat, n: nat)
    requires |f| == |code| && n <= |f| && m >= 1
    requires forall s :: 0 <= s < |f| && f[s] != 0 ==> code[s] != []
    ensures Room(f, Lengths(code), m, n) == Room(Branch(f, code, false), Lengths(Tails(code)), m - 1, n)
      + Room(Branch(f, code, true), Lengths(Tails(code)), m - 1, n)
  {
    hide Pow2;
    if n > 0 {
      RoomBranches(f, code, m, n - 1);
    }
  }

  lemma BranchPrefixFree(f: seq<int>, code: seq<seq<bool>>, bit: bool)
    requires IsPrefixCode(f, code)
    ensures IsPrefixCode(Branch(f, code, bit), Tails(code))
  {
    var g, tails := Branch(f, code, bit), Tails(code);
    forall s, u | 0 <= s < |g| && 0 <= u < |g| && s != u && g[s] != 0 && g[u] != 0
      ensures !(tails[s] <= tails[u])
    {
      assert code[s] == [bit] + tails[s] && code[u] == [bit] + tails[u];
    }
  }

  lemma {:induction false} RoomOfOne(f: seq<int>, l: seq<int>, m: nat, n: nat, d: int)
    requires n <= |f| && n <= |l| && 0 <= d && forall s :: 0 <= s < n && f[s] != 0 ==> s == d && l[s] >= 0
    ensures Room(f, l, m, n) <= if d < n then Pow2(m) else 0
  {
    if n > 0 {
      RoomOfOne(f, l, m, n - 1, d);
      if n - 1 == d && 0 <= l[d] <= m {
        PowerGrows(m - l[d], m);
      }
    }
  }

  /** Kraft's inequality: the strings that begin with the codes of a prefix code are different ones. */
  lemma {:induction false} KraftInequality(f: seq<int>, code: seq<seq<bool>>, m: nat)
    requires IsPrefixCode(f, code) && forall s :: 0 <= s < |f| && f[s] != 0 ==> |code[s]| <= m
    ensures Room(f, Lengths(code), m, |f|) <= Pow2(m)
    decreases m
  {
    hide Room, Branch, Tails, Lengths;
    if d :| 0 <= d < |f| && f[d] != 0 && code[d] == [] {
      forall s | 0 <= s < |f| && f[s] != 0 ensures s == d {
        assert code[d] <= code[s];
      }
      RoomOfOne(f, Lengths(code), m, |f|, d);
    } else if m == 0 {
      RoomOfOne(f, Lengths(code), m, |f|, |f|);
    } else {
      RoomBranches(f, code, m, |f|);
      BranchPrefixFree(f, code, false);
      BranchPrefixFree(f, code, true);
      TailLengths(f, code, false, m);
      TailLengths(f, code, true, m);
      KraftInequality(Branch(f, code, false), Tails(code), m - 1);
      KraftInequality(Branch(f, code, true), Tails(code), m - 1);
    }
  }

  lemma TailLengths(f: seq<int>, code: seq<seq<bool>>, bit: bool, m: nat)
    requires |f| == |code| && m >= 1 && forall s :: 0 <= s < |f| && f[s] != 0 ==> |code[s]| <= m
    ensures forall s :: 0 <= s < |f| && Branch(f, code, bit)[s] != 0 ==> |Tails(code)[s]| <= m - 1
  {
  }

  lemma {:induction false} Longest(f: seq<int>, code: seq<seq<bool>>, n: nat) returns (m: nat)
    requires n <= |f| == |code|
    ensures forall s :: 0 <= s < n ==> |code[s]| <= m
  {
    m := 0;
    if n > 0 {
      m := Longest(f, code, n - 1);
      if |code[n - 1]| > m {
        m := |code[n - 1]|;
      }
    }
  }

  // ----- the code of a tree -----

  /** Codes of the depths, prefix free within every tree. */
  ghost predicate Coded(f: seq<int>, x: Merging, code: seq<seq<bool>>)
  {
    && MergingOk(x) && |f| == |code| == SYMBOLS
    && (forall s :: 0 <= s < SYMBOLS && f[s] != 0 ==>
        0 <= x.head[s] < SYMBOLS && x.freq[x.head[s]] > 0 && |code[s]| == x.depth[s])
    && (forall s, u :: 0 <= s < SYMBOLS && 0 <= u < SYMBOLS && s != u && f[s] != 0 && f[u] != 0 ==>
        x.head[s] == x.head[u] ==> !(code[s] <= code[u]))
  }

  /** Codes after a merge: one more bit in front tells the two trees apart. */
  function Extended(x: Merging, code: seq<seq<bool>>, a: int, b: int): (r: seq<seq<bool>>)
    requires MergingOk(x) && |code| == SYMBOLS
    ensures |r| == SYMBOLS
  {
    seq(SYMBOLS, s requires 0 <= s < SYMBOLS =>
      if x.head[s] == a then [false] + code[s] else if x.head[s] == b then [true] + code[s] else code[s])
  }

  lemma CodedStep(f: seq<int>, x: Merging, code: seq<seq<bool>>, a: int, b: int)
    requires Coded(f, x, code) && Lightest(x.freq, a, b)
    ensures Coded(f, MergeStep(x, a, b), Extended(x, code, a, b))
  {
    var y, r := MergeStep(x, a, b), Extended(x, code, a, b);
    forall s, u | 0 <= s < SYMBOLS && 0 <= u < SYMBOLS && s != u && f[s] != 0 && f[u] != 0 && y.head[s] == y.head[u]
      ensures !(r[s] <= r[u])
    {
      if x.head[s] == x.head[u] {
        if x.head[s] == a || x.head[s] == b {
          var bit := x.head[s] == b;
          assert r[s] == [bit] + code[s] && r[u] == [bit] + code[u];
          assert r[s][1..] == code[s] && r[u][1..] == code[u];
        }
      } else {
        assert r[s][0] != r[u][0];
      }
    }
  }

  lemma {:induction false} TreeCode(f: seq<int>, x: Merging, code: seq<seq<bool>>) returns (r: seq<seq<bool>>)
    requires Coded(f, x, code)
    ensures IsPrefixCode(f, r) && forall s :: 0 <= s < SYMBOLS && f[s] != 0 ==> |r[s]| == Depths(x)[s]
    decreases CountNonzero(x.freq, SYMBOLS)
  {
    hide MergeStep, Extended, CountNonzero;
    var a := Smallest(x.freq, -1, SYMBOLS);
    var b := Smallest(x.freq, a, SYMBOLS);
    SmallestFound(x.freq, -1);
    SmallestFound(x.freq, a);
    if a >= 0 && b >= 0 {
      MergeCounts(x.freq, a, b);
      CodedStep(f, x, code, a, b);
      StepFreq(x, a, b);
      r := TreeCode(f, MergeStep(x, a, b), Extended(x, code, a, b));
    } else {
      r := code;
      assert forall s :: 0 <= s < SYMBOLS && f[s] != 0 ==> x.head[s] == a;
    }
  }

  // ----- the result -----

  lemma {:induction false} SingleGroups(f: seq<int>, head: seq<int>, h: int, n: nat)
    requires |f| == |head| == SYMBOLS && n <= SYMBOLS && 0 <= h < SYMBOLS
    requires forall s :: 0 <= s < SYMBOLS ==> head[s] == if f[s] != 0 then s else -1
    ensures Group(f, head, h, n) == if h < n then f[h] else 0
  {
    if n > 0 {
      SingleGroups(f, head, h, n - 1);
    }
  }

  lemma {:induction false} NoCost(f: seq<int>, l: seq<int>, n: nat)
    requires n <= |f| && n <= |l| && forall s :: 0 <= s < n ==> l[s] == 0
    ensures Cost(f, l, n) == 0
  {
    if n > 0 {
      NoCost(f, l, n - 1);
    }
  }

  lemma SinglesWeighed(f: seq<int>)
    requires |f| == SYMBOLS && forall s :: 0 <= s < SYMBOLS ==> f[s] >= 0
    ensures Weighed(f, Singles(f)) && Singles(f).freq == f && Cost(f, Singles(f).depth, SYMBOLS) == 0
  {
    hide Group, Cost;
    forall h | 0 <= h < SYMBOLS ensures f[h] == Group(f, Singles(f).head, h, SYMBOLS) {
      SingleGroups(f, Singles(f).head, h, SYMBOLS);
    }
    NoCost(f, Singles(f).depth, SYMBOLS);
  }

  /** The depths of Huffman's tree are those of a prefix code. */
  lemma DepthsCode(counts: seq<int>) returns (code: seq<seq<bool>>)
    requires CountsOk(counts)
    ensures var f := counts[PSEUDO := 1];
      IsPrefixCode(f, code) && forall s :: 0 <= s < SYMBOLS && f[s] != 0 ==> |code[s]| == CodeDepths(counts)[s]
    ensures MergeCost(counts[PSEUDO := 1]) == Cost(counts[PSEUDO := 1], CodeDepths(counts), SYMBOLS)
  {
    hide IsPrefixCode, Cost, Depths, MergeCost, Weighed;
    var f := counts[PSEUDO := 1];
    SinglesWeighed(f);
    DepthsCost(f, Singles(f));
    code := TreeCode(f, Singles(f), seq(SYMBOLS, s => []));
  }

  lemma CodeSize(f: seq<int>, code: seq<seq<bool>>)
    requires IsPrefixCode(f, code)
    ensures |code| == |f|
  {
  }

  /** A prefix code satisfies Kraft's inequality. */
  lemma PrefixFits(f: seq<int>, code: seq<seq<bool>>) returns (m: nat)
    requires |f| == SYMBOLS && IsPrefixCode(f, code) && forall s :: 0 <= s < SYMBOLS ==> f[s] >= 0
    ensures Fits(f, Lengths(code), m)
  {
    hide IsPrefixCode, Room;
    CodeSize(f, code);
    m := Longest(f, code, SYMBOLS);
    KraftInequality(f, code, m);
  }

  /** And no prefix code needs fewer bits. */
  lemma DepthsLeast(counts: seq<int>, other: seq<seq<bool>>) returns (code: seq<seq<bool>>)
    requires CountsOk(counts) && |other| == SYMBOLS && IsPrefixCode(counts[PSEUDO := 1], other)
    ensures var f := counts[PSEUDO := 1];
      IsPrefixCode(f, code) && (forall s :: 0 <= s < SYMBOLS && f[s] != 0 ==> |code[s]| == CodeDepths(counts)[s])
      && Cost(f, CodeDepths(counts), SYMBOLS) <= Cost(f, Lengths(other), SYMBOLS)
  {
    hide IsPrefixCode, Cost, Fits, CodeDepths, MergeCost, Lengths;
    code := DepthsCode(counts);
    var m := PrefixFits(counts[PSEUDO := 1], other);
    MergingLeast(counts[PSEUDO := 1], Lengths(other), m);
  }

  lemma {:induction false} SameCost(f: seq<int>, g: seq<int>, k: seq<int>, l: seq<int>, n: nat)
    requires n <= |f| && n <= |g| && n <= |k| && n <= |l|
    requires forall s :: 0 <= s < n ==> f[s] == g[s] && k[s] == l[s]
    ensures Cost(f, k, n) == Cost(g, l, n)
  {
    if n > 0 {
      SameCost(f, g, k, l, n - 1);
    }
  }

  lemma {:induction false} UsedCost(f: seq<int>, k: seq<int>, l: seq<int>, n: nat)
    requires n <= |f| && n <= |k| && n <= |l|
    requires forall s :: 0 <= s < n && f[s] != 0 ==> k[s] == l[s]
    ensures Cost(f, k, n) == Cost(f, l, n)
  {
    if n > 0 {
      UsedCost(f, k, l, n - 1);
    }
  }

  /** Otherwise exchanging the two codes would save bits. */
  lemma {:induction false} ExchangeSaves(f: seq<int>, l: seq<int>, m: nat, s: int, u: int)
    requires Fits(f, l, m) && 0 <= s < SYMBOLS && 0 <= u < SYMBOLS && f[s] > f[u] > 0 && l[s] > l[u]
    ensures Fits(f, l[u := l[s]][s := l[u]], m)
    ensures Cost(f, l[u := l[s]][s := l[u]], SYMBOLS) < Cost(f, l, SYMBOLS)
  {
    hide Cost, Room, Pow2;
    OneLength(f, l, u, l[s], m, SYMBOLS);
    OneLength(f, l[u := l[s]], s, l[u], m, SYMBOLS);
    assert (f[s] - f[u]) * (l[s] - l[u]) > 0;
  }

  /** A symbol that occurs more often than another one is never deeper in the tree. */
  lemma MoreFrequentShallower(counts: seq<int>, s: int, u: int)
    requires CountsOk(counts) && 0 <= s < SYMBOLS && 0 <= u < SYMBOLS
    requires var f := counts[PSEUDO := 1]; f[s] > f[u] > 0
    ensures CodeDepths(counts)[s] <= CodeDepths(counts)[u]
  {
    hide IsPrefixCode, Cost, Fits, CodeDepths, MergeCost;
    var f, depths := counts[PSEUDO := 1], CodeDepths(counts);
    if depths[s] > depths[u] {
      var code := DepthsCode(counts);
      var m := PrefixFits(f, code);
      var l := Lengths(code);
      CodeSize(f, code);
      UsedCost(f, depths, l, SYMBOLS);
      ExchangeSaves(f, l, m, s, u);
      MergingLeast(f, l[u := l[s]][s := l[u]], m);
    }
  }

  /**
   So does the table made from the counts, as long as no depth exceeds 16: the codes of all that was counted,
   and one for the pseudo-symbol, take no more bits than with any prefix code.
   */
  lemma TableLeast(t: Table, maxSymbol: int, counts: seq<int>, other: seq<seq<bool>>)
    requires BuiltFrom(t, maxSymbol, counts) && AllShort(counts)
    requires |other| == SYMBOLS && IsPrefixCode(counts[PSEUDO := 1], other)
    ensures |t.derived.ehufsi| == 256
    ensures Cost(counts, t.derived.ehufsi, 256) + CodeDepths(counts)[PSEUDO]
      <= Cost(counts[PSEUDO := 1], Lengths(other), SYMBOLS)
  {
    hide CodeDepths, IsTable, HasCode, IsPrefixCode, AllShort;
    var f, depths := counts[PSEUDO := 1], CodeDepths(counts);
    var code := DepthsLeast(counts, other);
    SameCost(counts, f, t.derived.ehufsi, depths, 256);
    assert Cost(f, depths, SYMBOLS) == Cost(f, depths, 256) + f[256] * depths[256];
  }
}
