/**
 Huffman's merging procedure of jpeg_gen_optimal_table (jchuff.c): trees are kept as chains of
 symbols linked through an array, and only the depth of every symbol is recorded.
 */
module HuffmanMerge {

  const SYMBOLS: nat := 257
  const PSEUDO: nat := 256
  const FREQ_LIMIT: int := 1000000000

  /**
   The trees being merged. chain[h] lists the symbols of the tree whose frequency is kept at h;
   head and pos tell where in the chains a symbol is, head[s] < 0 if s does not occur.
   */
  datatype Forest = Forest(head: seq<int>, pos: seq<int>, chain: seq<seq<int>>)

  /** Every used symbol is in exactly one chain, at exactly one place. */
  ghost predicate Placed(t: Forest)
  {
    && |t.head| == |t.pos| == |t.chain| == SYMBOLS
    && (forall h, k :: 0 <= h < SYMBOLS && 0 <= k < |t.chain[h]| ==>
        var s := t.chain[h][k]; 0 <= s < SYMBOLS && t.head[s] == h && t.pos[s] == k)
    && (forall s :: 0 <= s < SYMBOLS && t.head[s] >= 0 ==>
        t.head[s] < SYMBOLS && 0 <= t.pos[s] < |t.chain[t.head[s]]| && t.chain[t.head[s]][t.pos[s]] == s)
  }

  /** The live frequencies are those at the heads of non-empty chains. */
  ghost predicate Rooted(freq: seq<int>, t: Forest)
  {
    && |freq| == |t.chain| == SYMBOLS
    && (forall h :: 0 <= h < SYMBOLS ==> freq[h] >= 0 && (freq[h] > 0 <==> t.chain[h] != []))
    && (forall h :: 0 <= h < SYMBOLS && t.chain[h] != [] ==> t.chain[h][0] == h)
  }

  ghost predicate IsChain(others: seq<int>, c: seq<int>)
  {
    && |others| == SYMBOLS
    && (forall k :: 0 <= k < |c| ==> 0 <= c[k] < SYMBOLS)
    && (forall j, k :: 0 <= j < k < |c| ==> c[j] != c[k])
    && (forall j, k :: 0 <= j && k == j + 1 < |c| ==> others[c[j]] == c[k])
    && (c != [] ==> others[c[|c| - 1]] == -1)
  }

  ghost predicate Linked(others: seq<int>, t: Forest)
    requires |t.chain| == SYMBOLS
  {
    forall h :: 0 <= h < SYMBOLS ==> IsChain(others, t.chain[h])
  }

  /** 2 to the power -n. */
  function Weight(n: int): (r: real)
    ensures r > 0.0
    decreases n
  {
    if n <= 0 then 1.0 else Weight(n - 1) / 2.0
  }

  /** Kraft sum over the symbols below n of the tree at h. */
  ghost function Kraft(head: seq<int>, cs: seq<int>, h: int, n: nat): real
    requires n <= |head| && n <= |cs|
  {
    if n == 0 then 0.0
    else Kraft(head, cs, h, n - 1) + if head[n - 1] == h then Weight(cs[n - 1]) else 0.0
  }

  /** Every tree has Kraft sum one, and only a lone symbol has length zero. */
  ghost predicate Complete(cs: seq<int>, t: Forest)
  {
    && |cs| == |t.head| == |t.chain| == SYMBOLS
    && (forall h :: 0 <= h < SYMBOLS && t.chain[h] != [] ==> Kraft(t.head, cs, h, SYMBOLS) == 1.0)
    && (forall s :: 0 <= s < SYMBOLS ==> cs[s] >= 0)
    && (forall s :: 0 <= s < SYMBOLS && t.head[s] < 0 ==> cs[s] == 0)
    && (forall s :: 0 <= s < SYMBOLS && 0 <= t.head[s] < SYMBOLS && cs[s] == 0 ==> |t.chain[t.head[s]]| == 1)
  }

  function Fib(n: int): (r: int)
    ensures r >= 1
    decreases n
  {
    if n <= 0 then 1 else if n == 1 then 2 else Fib(n - 1) + Fib(n - 2)
  }

  /**
   A symbol at depth d weighs its tree down with at least Fib(d); m is the largest frequency merged
   so far, and no live frequency is below it.
   */
  ghost predicate Heavy(freq: seq<int>, cs: seq<int>, t: Forest, m: int)
  {
    && |freq| == |cs| == |t.head| == SYMBOLS
    && (forall s :: 0 <= s < SYMBOLS && 0 <= t.head[s] < SYMBOLS ==>
        freq[t.head[s]] >= Fib(cs[s]) && (cs[s] > 0 ==> m >= Fib(cs[s] - 1)))
    && (forall h :: 0 <= h < SYMBOLS && freq[h] > 0 ==> freq[h] >= m)
  }

  ghost predicate Trees(freq: seq<int>, cs: seq<int>, others: seq<int>, t: Forest, m: int)
  {
    Placed(t) && Rooted(freq, t) && Linked(others, t) && Complete(cs, t) && Heavy(freq, cs, t, m)
  }

  function Sum(f: seq<int>, n: nat): int
    requires n <= |f|
  {
    if n == 0 then 0 else Sum(f, n - 1) + f[n - 1]
  }

  function CountNonzero(f: seq<int>, n: nat): (r: nat)
    requires n <= |f|
    ensures r <= n
  {
    if n == 0 then 0 else CountNonzero(f, n - 1) + if f[n - 1] != 0 then 1 else 0
  }

  lemma {:induction false} Updated(f: seq<int>, n: nat, i: int, v: int)
    requires n <= |f| && 0 <= i < |f|
    ensures Sum(f[i := v], n) == Sum(f, n) + if i < n then v - f[i] else 0
    ensures CountNonzero(f[i := v], n) == CountNonzero(f, n)
      + if i < n then (if v != 0 then 1 else 0) - (if f[i] != 0 then 1 else 0) else 0
  {
    if n > 0 {
      Updated(f, n - 1, i, v);
    }
  }

  lemma {:induction false} AtMostSum(f: seq<int>, n: nat, i: int)
    requires n <= |f| && 0 <= i < n && forall k :: 0 <= k < |f| ==> f[k] >= 0
    ensures 0 <= f[i] <= Sum(f, n)
  {
    if i < n - 1 {
      AtMostSum(f, n - 1, i);
    } else if i > 0 {
      AtMostSum(f, n - 1, i - 1);
    }
  }

  /** Frequencies found by the two searches: smallest, and the larger symbol on a tie. */
  predicate IsSmallest(freq: seq<int>, except: int, c: int)
  {
    && 0 <= c < |freq| && freq[c] != 0 && c != except
    && (forall i :: 0 <= i < |freq| && freq[i] != 0 && i != except ==> freq[c] <= freq[i])
    && (forall i :: c < i < |freq| && freq[i] != 0 && i != except ==> freq[c] < freq[i])
  }

  predicate NoneBut(freq: seq<int>, except: int)
  {
    forall i :: 0 <= i < |freq| && freq[i] != 0 ==> i == except
  }

  method FindSmallest(freq: array<int>, except: int) returns (c: int)
    requires freq.Length == SYMBOLS
    requires forall i :: 0 <= i < SYMBOLS ==> 0 <= freq[i] <= FREQ_LIMIT
    ensures c >= -1
    ensures if c == -1 then NoneBut(freq[..], except) else IsSmallest(freq[..], except, c)
  {
    c := -1;
    var v, i := FREQ_LIMIT, 0;
    while i <= 256
      invariant 0 <= i <= SYMBOLS && -1 <= c < i
      invariant c == -1 ==> v == FREQ_LIMIT && forall k :: 0 <= k < i && freq[k] != 0 ==> k == except
      invariant c >= 0 ==> v == freq[c] != 0 && c != except
      invariant c >= 0 ==> forall k :: 0 <= k < i && freq[k] != 0 && k != except ==> v <= freq[k]
      invariant c >= 0 ==> forall k :: c < k < i && freq[k] != 0 && k != except ==> v < freq[k]
    {
      if freq[i] != 0 && freq[i] <= v && i != except {
        v := freq[i];
        c := i;
      }
      i := i + 1;
    }
  }

  lemma EndOfChain(others: seq<int>, c: seq<int>, k: int)
    requires IsChain(others, c) && 0 <= k < |c|
    ensures others[c[k]] < 0 <==> k == |c| - 1
  {
    if k < |c| - 1 {
      assert others[c[k]] == c[k + 1];
    }
  }

  /** Walk a chain from its head and lengthen the code of each of its symbols by one. */
  method BumpChain(codesize: array<int>, others: array<int>, c: int, ghost chain: seq<int>) returns (last: int)
    requires codesize.Length == others.Length == SYMBOLS && codesize != others
    requires chain != [] && chain[0] == c && IsChain(others[..], chain)
    modifies codesize
    ensures last == chain[|chain| - 1]
    ensures forall s :: 0 <= s < SYMBOLS ==> codesize[s] == old(codesize[s]) + if s in chain then 1 else 0
  {
    ghost var o := others[..];
    last := c;
    codesize[last] := codesize[last] + 1;
    ghost var k := 0;
    while others[last] >= 0
      invariant 0 <= k < |chain| && last == chain[k] && others[..] == o
      invariant forall s :: 0 <= s < SYMBOLS ==>
        codesize[s] == old(codesize[s]) + if s in chain[..k + 1] then 1 else 0
      decreases |chain| - k
    {
      last := others[last];
      k := k + 1;
      assert last == o[chain[k - 1]] == chain[k];
      codesize[last] := codesize[last] + 1;
      assert chain[..k + 1] == chain[..k] + [last];
    }
    EndOfChain(o, chain, k);
    assert chain[..k + 1] == chain;
  }

  // ----- one merge -----

  /** The tree at b is appended to the tree at a. */
  ghost function Join(t: Forest, a: int, b: int): Forest
    requires |t.head| == |t.pos| == |t.chain| == SYMBOLS && 0 <= a < SYMBOLS && 0 <= b < SYMBOLS
  {
    Forest(seq(SYMBOLS, s requires 0 <= s < SYMBOLS => if t.head[s] == b then a else t.head[s]),
           seq(SYMBOLS, s requires 0 <= s < SYMBOLS => if t.head[s] == b then |t.chain[a]| + t.pos[s] else t.pos[s]),
           t.chain[a := t.chain[a] + t.chain[b]][b := []])
  }

  lemma JoinPlaced(t: Forest, a: int, b: int)
    requires Placed(t) && 0 <= a < SYMBOLS && 0 <= b < SYMBOLS && a != b
    ensures Placed(Join(t, a, b))
  {
  }

  lemma JoinRooted(freq: seq<int>, t: Forest, a: int, b: int)
    requires Placed(t) && Rooted(freq, t) && 0 <= a < SYMBOLS && 0 <= b < SYMBOLS && a != b
    requires freq[a] > 0 && freq[b] > 0
    ensures Rooted(freq[a := freq[a] + freq[b]][b := 0], Join(t, a, b))
  {
  }

  lemma ChainDisjoint(t: Forest, a: int, b: int)
    requires Placed(t) && 0 <= a < SYMBOLS && 0 <= b < SYMBOLS && a != b
    ensures forall s :: s in t.chain[a] ==> s !in t.chain[b]
  {
    forall s | s in t.chain[a] ensures s !in t.chain[b] {
      assert t.head[s] == a;
    }
  }

  lemma InChain(t: Forest, h: int, s: int)
    requires Placed(t) && 0 <= h < SYMBOLS && 0 <= s < SYMBOLS
    ensures s in t.chain[h] <==> t.head[s] == h
  {
    if t.head[s] == h {
      assert t.chain[h][t.pos[s]] == s;
    }
  }

  /** Linking the last symbol of chain a to the head of chain b links all chains of the joined forest. */
  lemma JoinLinked(others: seq<int>, t: Forest, a: int, b: int, last: int)
    requires |t.head| == |t.pos| == |t.chain| == SYMBOLS && 0 <= a < SYMBOLS && 0 <= b < SYMBOLS && a != b
    requires Placed(t) && Linked(others, t)
    requires t.chain[a] != [] && t.chain[b] != [] && t.chain[b][0] == b
    requires last == t.chain[a][|t.chain[a]| - 1]
    ensures 0 <= last < SYMBOLS && Linked(others[last := b], Join(t, a, b))
  {
    hide IsChain, Placed;
    assert IsChain(others, t.chain[a]) && IsChain(others, t.chain[b]);
    LastInside(others, t.chain[a]);
    var t', o := Join(t, a, b), others[last := b];
    forall h | 0 <= h < SYMBOLS ensures IsChain(o, t'.chain[h]) {
      assert IsChain(others, t.chain[h]);
      if h == a {
        ChainDisjoint(t, a, b);
        AppendChain(others, t.chain[a], t.chain[b]);
      } else if h == b {
        NoChain(o);
      } else {
        ChainDisjoint(t, a, h);
        OtherChain(others, t.chain[h], last, b);
      }
    }
  }

  lemma LastInside(others: seq<int>, c: seq<int>)
    requires IsChain(others, c) && c != []
    ensures 0 <= c[|c| - 1] < SYMBOLS && c[|c| - 1] in c && |others| == SYMBOLS
  {
  }

  lemma NoChain(others: seq<int>)
    requires |others| == SYMBOLS
    ensures IsChain(others, [])
  {
  }

  lemma OtherChain(others: seq<int>, c: seq<int>, last: int, b: int)
    requires IsChain(others, c) && 0 <= last < SYMBOLS && last !in c
    ensures IsChain(others[last := b], c)
  {
  }

  lemma AppendChain(others: seq<int>, c: seq<int>, d: seq<int>)
    requires IsChain(others, c) && IsChain(others, d) && c != [] && d != []
    requires forall s :: s in c ==> s !in d
    ensures IsChain(others[c[|c| - 1] := d[0]], c + d)
  {
    var o, e := others[c[|c| - 1] := d[0]], c + d;
    forall j, k | 0 <= j < k < |e| ensures e[j] != e[k] {
      if j < |c| <= k {
        assert c[j] in c && d[k - |c|] in d;
      }
    }
    forall j, k | 0 <= j && k == j + 1 < |e| ensures o[e[j]] == e[k] {
      if j >= |c| {
        assert e[j] == d[j - |c|] && e[k] == d[k - |c|] && d[j - |c|] in d && c[|c| - 1] in c;
      } else if k < |c| {
        assert e[j] == c[j] && e[k] == c[k] && c[j] != c[|c| - 1];
      }
    }
    assert d[|d| - 1] in d && c[|c| - 1] in c;
  }

  ghost predicate BumpedIn(cs: seq<int>, cs': seq<int>, head: seq<int>, a: int, b: int)
  {
    && |cs| == |cs'| == |head| == SYMBOLS
    && forall s :: 0 <= s < SYMBOLS ==> cs'[s] == cs[s] + if head[s] == a || head[s] == b then 1 else 0
  }

  lemma {:induction false} JoinKraft(t: Forest, cs: seq<int>, cs': seq<int>, a: int, b: int, h: int, n: nat)
    requires Placed(t) && 0 <= a < SYMBOLS && 0 <= b < SYMBOLS && a != b && n <= SYMBOLS
    requires BumpedIn(cs, cs', t.head, a, b) && forall s :: 0 <= s < SYMBOLS ==> cs[s] >= 0
    ensures h != a && h != b ==> Kraft(Join(t, a, b).head, cs', h, n) == Kraft(t.head, cs, h, n)
    ensures Kraft(Join(t, a, b).head, cs', a, n) == (Kraft(t.head, cs, a, n) + Kraft(t.head, cs, b, n)) / 2.0
  {
    if n > 0 {
      JoinKraft(t, cs, cs', a, b, h, n - 1);
    }
  }

  lemma JoinComplete(t: Forest, cs: seq<int>, cs': seq<int>, a: int, b: int)
    requires Placed(t) && Complete(cs, t) && 0 <= a < SYMBOLS && 0 <= b < SYMBOLS && a != b
    requires t.chain[a] != [] && t.chain[b] != [] && BumpedIn(cs, cs', t.head, a, b)
    ensures Complete(cs', Join(t, a, b))
  {
    hide Kraft;
    var t' := Join(t, a, b);
    forall h | 0 <= h < SYMBOLS && t'.chain[h] != [] ensures Kraft(t'.head, cs', h, SYMBOLS) == 1.0 {
      JoinKraft(t, cs, cs', a, b, h, SYMBOLS);
    }
  }

  lemma FibStep(n: int)
    requires n >= 0
    ensures Fib(n + 1) == Fib(n) + if n > 0 then Fib(n - 1) else 1
  {
  }

  lemma JoinHeavy(freq: seq<int>, t: Forest, cs: seq<int>, cs': seq<int>, m: int, a: int, b: int)
    requires Placed(t) && Rooted(freq, t) && Complete(cs, t) && Heavy(freq, cs, t, m)
    requires BumpedIn(cs, cs', t.head, a, b)
    requires Lightest(freq, a, b)
    ensures Heavy(freq[a := freq[a] + freq[b]][b := 0], cs', Join(t, a, b), freq[b])
  {
    hide Fib, Kraft, Linked;
    var f', t' := freq[a := freq[a] + freq[b]][b := 0], Join(t, a, b);
    forall s | 0 <= s < SYMBOLS && 0 <= t'.head[s] < SYMBOLS
      ensures f'[t'.head[s]] >= Fib(cs'[s]) && (cs'[s] > 0 ==> freq[b] >= Fib(cs'[s] - 1))
    {
      FibStep(cs[s]);
      assert freq[t.head[s]] >= Fib(cs[s]);
    }
  }

  ghost predicate Lightest(freq: seq<int>, a: int, b: int)
  {
    IsSmallest(freq, -1, a) && IsSmallest(freq, a, b)
  }

  /** The chains to merge, and the second one after the first has been linked to it. */
  lemma ChainsToMerge(freq: seq<int>, cs: seq<int>, others: seq<int>, t: Forest, m: int, a: int, b: int)
    requires Trees(freq, cs, others, t, m) && Lightest(freq, a, b)
    ensures 0 <= a < SYMBOLS && 0 <= b < SYMBOLS && a != b && Placed(t)
    ensures |t.head| == |t.pos| == |t.chain| == SYMBOLS
    ensures t.chain[a] != [] && t.chain[a][0] == a && IsChain(others, t.chain[a])
    ensures 0 <= t.chain[a][|t.chain[a]| - 1] < SYMBOLS
    ensures t.chain[b] != [] && t.chain[b][0] == b
    ensures IsChain(others[t.chain[a][|t.chain[a]| - 1] := b], t.chain[b])
  {
    hide Complete, Heavy;
    ChainDisjoint(t, a, b);
    assert IsChain(others, t.chain[a]) && IsChain(others, t.chain[b]);
    assert t.chain[a][|t.chain[a]| - 1] in t.chain[a];
  }

  ghost predicate BumpedOn(cs: seq<int>, cs': seq<int>, c: seq<int>, d: seq<int>)
  {
    && |cs| == |cs'| == SYMBOLS
    && forall s :: 0 <= s < SYMBOLS ==>
      cs'[s] == cs[s] + (if s in c then 1 else 0) + if s in d then 1 else 0
  }

  lemma BumpedChains(t: Forest, cs: seq<int>, cs': seq<int>, a: int, b: int)
    requires Placed(t) && 0 <= a < SYMBOLS && 0 <= b < SYMBOLS && a != b
    requires BumpedOn(cs, cs', t.chain[a], t.chain[b])
    ensures BumpedIn(cs, cs', t.head, a, b)
  {
    forall s | 0 <= s < SYMBOLS ensures cs'[s] == cs[s] + if t.head[s] == a || t.head[s] == b then 1 else 0 {
      InChain(t, a, s);
      InChain(t, b, s);
    }
  }

  lemma JoinTrees(freq: seq<int>, cs: seq<int>, cs': seq<int>, others: seq<int>, t: Forest, m: int,
                  a: int, b: int, last: int)
    requires Trees(freq, cs, others, t, m) && Lightest(freq, a, b)
    requires 0 <= a < SYMBOLS && 0 <= b < SYMBOLS && a != b && Placed(t)
    requires BumpedOn(cs, cs', t.chain[a], t.chain[b])
    requires t.chain[a] != [] && last == t.chain[a][|t.chain[a]| - 1] && 0 <= last < SYMBOLS
    ensures Trees(freq[a := freq[a] + freq[b]][b := 0], cs', others[last := b], Join(t, a, b), freq[b])
  {
    hide Complete, Heavy, Join, Linked, BumpedOn, BumpedIn;
    BumpedChains(t, cs, cs', a, b);
    JoinPlaced(t, a, b);
    JoinRooted(freq, t, a, b);
    JoinLinked(others, t, a, b, last);
    JoinComplete(t, cs, cs', a, b);
    JoinHeavy(freq, t, cs, cs', m, a, b);
  }

  /** Linking the chain at c2 to the end of the chain at c1, lengthening the codes of both. */
  method LinkChains(codesize: array<int>, others: array<int>, c1: int, c2: int, ghost c: seq<int>, ghost d: seq<int>)
    requires codesize.Length == others.Length == SYMBOLS && codesize != others && 0 <= c2 < SYMBOLS
    requires c != [] && c[0] == c1 && IsChain(others[..], c) && 0 <= c[|c| - 1] < SYMBOLS
    requires d != [] && d[0] == c2 && IsChain(others[..][c[|c| - 1] := c2], d)
    modifies codesize, others
    ensures others[..] == old(others[..])[c[|c| - 1] := c2]
    ensures BumpedOn(old(codesize[..]), codesize[..], c, d)
  {
    hide IsChain;
    var last := BumpChain(codesize, others, c1, c);
    others[last] := c2;
    assert others[..] == old(others[..])[c[|c| - 1] := c2];
    last := BumpChain(codesize, others, c2, d);
  }

  method AddCounts(freq: array<int>, c1: int, c2: int)
    requires freq.Length == SYMBOLS && 0 <= c1 < SYMBOLS && 0 <= c2 < SYMBOLS && c1 != c2
    modifies freq
    ensures freq[..] == old(freq[..])[c1 := old(freq[c1] + freq[c2])][c2 := 0]
  {
    freq[c1] := freq[c1] + freq[c2];
    freq[c2] := 0;
  }

  /** Merging the trees at c1 and c2, the two lightest ones. */
  method MergeTwo(freq: array<int>, codesize: array<int>, others: array<int>, c1: int, c2: int,
          ghost t: Forest, ghost m: int)
    returns (ghost t': Forest)
    requires freq.Length == codesize.Length == others.Length == SYMBOLS
    requires freq != codesize && codesize != others && others != freq
    requires Trees(freq[..], codesize[..], others[..], t, m) && Lightest(freq[..], c1, c2)
    modifies freq, codesize, others
    ensures 0 <= c1 < SYMBOLS && 0 <= c2 < SYMBOLS && |t.head| == |t.pos| == |t.chain| == SYMBOLS
    ensures freq[..] == old(freq[..])[c1 := old(freq[c1] + freq[c2])][c2 := 0]
    ensures t' == Join(t, c1, c2)
    ensures Trees(freq[..], codesize[..], others[..], t', old(freq[c2]))
    ensures BumpedIn(old(codesize[..]), codesize[..], t.head, c1, c2)
  {
    hide Trees, Lightest, Join, IsChain, Placed, BumpedOn, BumpedIn;
    ghost var f, cs, o := freq[..], codesize[..], others[..];
    ChainsToMerge(f, cs, o, t, m, c1, c2);
    ghost var c, d := t.chain[c1], t.chain[c2];
    AddCounts(freq, c1, c2);
    LinkChains(codesize, others, c1, c2, c, d);
    t' := Join(t, c1, c2);
    JoinTrees(f, cs, codesize[..], o, t, m, c1, c2, c[|c| - 1]);
    BumpedChains(t, cs, codesize[..], c1, c2);
  }

  // ----- the depths, as a function of the frequencies -----

  /** The least live frequency below n, the larger symbol on a tie; -1 if there is none. */
  function Smallest(freq: seq<int>, except: int, n: nat): (c: int)
    requires n <= |freq|
    ensures -1 <= c < n && (c >= 0 ==> freq[c] != 0 && c != except)
  {
    if n == 0 then -1
    else
      var c, i := Smallest(freq, except, n - 1), n - 1;
      if freq[i] != 0 && i != except && (c < 0 || freq[i] <= freq[c]) then i else c
  }

  lemma {:induction false} SmallestBelow(freq: seq<int>, except: int, n: nat)
    requires n <= |freq|
    ensures var c := Smallest(freq, except, n);
      forall i :: 0 <= i < n && freq[i] != 0 && i != except ==>
        c >= 0 && freq[c] <= freq[i] && (i > c ==> freq[c] < freq[i])
  {
    if n > 0 {
      SmallestBelow(freq, except, n - 1);
    }
  }

  /** The function and the predicate agree. */
  lemma SmallestIs(freq: seq<int>, except: int, c: int)
    requires if c == -1 then NoneBut(freq, except) else IsSmallest(freq, except, c)
    ensures Smallest(freq, except, |freq|) == c
  {
    SmallestBelow(freq, except, |freq|);
    if c != -1 {
      assert freq[c] != 0;
    }
  }

  lemma SmallestFound(freq: seq<int>, except: int)
    ensures var c := Smallest(freq, except, |freq|);
      if c == -1 then NoneBut(freq, except) else IsSmallest(freq, except, c)
  {
    SmallestBelow(freq, except, |freq|);
  }

  /** Frequencies of the trees at their heads, the head of every symbol's tree, and its depth in it. */
  datatype Merging = Merging(freq: seq<int>, head: seq<int>, depth: seq<int>)

  predicate MergingOk(x: Merging)
  {
    |x.freq| == |x.head| == |x.depth| == SYMBOLS && forall s :: 0 <= s < SYMBOLS ==> x.freq[s] >= 0
  }

  /** The two lightest trees made one: both get one level deeper. */
  function MergeStep(x: Merging, a: int, b: int): (y: Merging)
    requires MergingOk(x) && 0 <= a < SYMBOLS && 0 <= b < SYMBOLS
    ensures MergingOk(y)
  {
    Merging(x.freq[a := x.freq[a] + x.freq[b]][b := 0],
            seq(SYMBOLS, s requires 0 <= s < SYMBOLS => if x.head[s] == b then a else x.head[s]),
            seq(SYMBOLS, s requires 0 <= s < SYMBOLS => x.depth[s] + if x.head[s] == a || x.head[s] == b then 1 else 0))
  }

  lemma StepFreq(x: Merging, a: int, b: int)
    requires MergingOk(x) && 0 <= a < SYMBOLS && 0 <= b < SYMBOLS
    ensures MergeStep(x, a, b).freq == x.freq[a := x.freq[a] + x.freq[b]][b := 0]
  {
  }

  /** The depths when all trees have been merged into one. */
  function Depths(x: Merging): (d: seq<int>)
    requires MergingOk(x)
    ensures |d| == SYMBOLS
    decreases CountNonzero(x.freq, SYMBOLS)
  {
    var a := Smallest(x.freq, -1, SYMBOLS);
    var b := Smallest(x.freq, a, SYMBOLS);
    if a < 0 || b < 0 then x.depth
    else
      SmallestFound(x.freq, -1);
      SmallestFound(x.freq, a);
      MergeCounts(x.freq, a, b);
      Depths(MergeStep(x, a, b))
  }

  lemma {:induction false} DepthsGrow(x: Merging, s: int)
    requires MergingOk(x) && 0 <= s < SYMBOLS
    ensures Depths(x)[s] >= x.depth[s]
    decreases CountNonzero(x.freq, SYMBOLS)
  {
    hide CountNonzero;
    var a := Smallest(x.freq, -1, SYMBOLS);
    var b := Smallest(x.freq, a, SYMBOLS);
    if a >= 0 && b >= 0 {
      SmallestFound(x.freq, -1);
      SmallestFound(x.freq, a);
      MergeCounts(x.freq, a, b);
      StepFreq(x, a, b);
      DepthsGrow(MergeStep(x, a, b), s);
    }
  }

  lemma {:induction false} UnusedDepth(x: Merging, s: int)
    requires MergingOk(x) && 0 <= s < SYMBOLS && x.head[s] < 0
    ensures Depths(x)[s] == x.depth[s]
    decreases CountNonzero(x.freq, SYMBOLS)
  {
    hide CountNonzero;
    var a := Smallest(x.freq, -1, SYMBOLS);
    var b := Smallest(x.freq, a, SYMBOLS);
    if a >= 0 && b >= 0 {
      SmallestFound(x.freq, -1);
      SmallestFound(x.freq, a);
      MergeCounts(x.freq, a, b);
      StepFreq(x, a, b);
      UnusedDepth(MergeStep(x, a, b), s);
    }
  }

  /** One tree for each used symbol. */
  function Singles(freq: seq<int>): (x: Merging)
    requires |freq| == SYMBOLS && forall s :: 0 <= s < SYMBOLS ==> freq[s] >= 0
    ensures MergingOk(x)
  {
    Merging(freq, seq(SYMBOLS, s requires 0 <= s < SYMBOLS => if freq[s] != 0 then s else -1), seq(SYMBOLS, s => 0))
  }

  /** One round of merging is one step of the function. */
  lemma DepthsStep(freq: seq<int>, cs: seq<int>, cs': seq<int>, t: Forest, a: int, b: int)
    requires |freq| == |cs| == |t.head| == |t.pos| == |t.chain| == SYMBOLS
    requires (forall s :: 0 <= s < SYMBOLS ==> freq[s] >= 0) && Lightest(freq, a, b) && BumpedIn(cs, cs', t.head, a, b)
    ensures 0 <= a < SYMBOLS && 0 <= b < SYMBOLS
    ensures var x := Merging(freq[a := freq[a] + freq[b]][b := 0], Join(t, a, b).head, cs');
      MergingOk(x) && Depths(Merging(freq, t.head, cs)) == Depths(x)
  {
    SmallestIs(freq, -1, a);
    SmallestIs(freq, a, b);
    var y := MergeStep(Merging(freq, t.head, cs), a, b);
    assert y.depth == cs' && y.head == Join(t, a, b).head;
  }

  lemma DepthsEnd(freq: seq<int>, cs: seq<int>, head: seq<int>, root: int)
    requires MergingOk(Merging(freq, head, cs)) && IsSmallest(freq, -1, root) && NoneBut(freq, root)
    ensures Depths(Merging(freq, head, cs)) == cs
  {
    SmallestIs(freq, -1, root);
    SmallestIs(freq, root, -1);
  }

  // ----- the whole procedure -----

  ghost predicate Uses(freq: seq<int>, t: Forest)
  {
    |freq| == |t.head| == SYMBOLS && forall s :: 0 <= s < SYMBOLS ==> (t.head[s] >= 0 <==> freq[s] != 0)
  }

  /** At first every used symbol is a tree of its own. */
  lemma Seedlings(freq: seq<int>, cs: seq<int>, others: seq<int>) returns (t: Forest)
    requires |freq| == |cs| == |others| == SYMBOLS
    requires forall s :: 0 <= s < SYMBOLS ==> freq[s] >= 0 && cs[s] == 0 && others[s] == -1
    ensures Trees(freq, cs, others, t, 0) && Uses(freq, t)
    ensures Merging(freq, t.head, cs) == Singles(freq)
  {
    hide Kraft, Fib;
    t := Forest(seq(SYMBOLS, s requires 0 <= s < SYMBOLS => if freq[s] != 0 then s else -1),
                seq(SYMBOLS, s => 0),
                seq(SYMBOLS, s requires 0 <= s < SYMBOLS => if freq[s] != 0 then [s] else []));
    forall h | 0 <= h < SYMBOLS && t.chain[h] != [] ensures Kraft(t.head, cs, h, SYMBOLS) == 1.0 {
      LoneKraft(t.head, cs, h, SYMBOLS);
    }
    FibAtZero();
    assert t.head == Singles(freq).head && cs == Singles(freq).depth;
  }

  lemma {:induction false} LoneKraft(head: seq<int>, cs: seq<int>, h: int, n: nat)
    requires n <= |head| == |cs| && 0 <= h < |head| && head[h] == h
    requires forall s :: 0 <= s < |head| ==> cs[s] == 0 && (head[s] == h ==> s == h)
    ensures Kraft(head, cs, h, n) == if h < n then 1.0 else 0.0
  {
    if n > 0 {
      LoneKraft(head, cs, h, n - 1);
    }
  }

  lemma FrequencyBounds(freq: seq<int>, cs: seq<int>, others: seq<int>, t: Forest, m: int)
    requires Trees(freq, cs, others, t, m) && Sum(freq, SYMBOLS) <= FREQ_LIMIT
    ensures |freq| == SYMBOLS && forall i :: 0 <= i < SYMBOLS ==> 0 <= freq[i] <= FREQ_LIMIT
  {
    hide Complete, Heavy, Linked, Placed, Sum;
    forall i | 0 <= i < SYMBOLS ensures 0 <= freq[i] <= FREQ_LIMIT {
      AtMostSum(freq, SYMBOLS, i);
    }
  }

  lemma {:induction false} NoneLive(freq: seq<int>, n: nat)
    requires n <= |freq| && NoneBut(freq, -1)
    ensures CountNonzero(freq, n) == 0
  {
    if n > 0 {
      NoneLive(freq, n - 1);
    }
  }

  lemma MergeCounts(freq: seq<int>, a: int, b: int)
    requires |freq| == SYMBOLS && Lightest(freq, a, b)
    requires forall i :: 0 <= i < SYMBOLS ==> freq[i] >= 0
    ensures 0 <= a < SYMBOLS && 0 <= b < SYMBOLS
    ensures var freq' := freq[a := freq[a] + freq[b]][b := 0];
      Sum(freq', SYMBOLS) == Sum(freq, SYMBOLS) && CountNonzero(freq', SYMBOLS) == CountNonzero(freq, SYMBOLS) - 1
      && CountNonzero(freq', SYMBOLS) >= 1
  {
    hide Sum, CountNonzero;
    var g := freq[a := freq[a] + freq[b]];
    Updated(freq, SYMBOLS, a, freq[a] + freq[b]);
    Updated(g, SYMBOLS, b, 0);
    SomeNonzero(g[b := 0], SYMBOLS, a);
  }

  lemma {:induction false} SomeNonzero(freq: seq<int>, n: nat, i: int)
    requires 0 <= i < n <= |freq| && freq[i] != 0
    ensures CountNonzero(freq, n) >= 1
  {
    if i < n - 1 {
      SomeNonzero(freq, n - 1, i);
    }
  }

  lemma JoinUses(f: seq<int>, freq: seq<int>, cs: seq<int>, others: seq<int>, t: Forest, m: int, a: int, b: int)
    requires Trees(freq, cs, others, t, m) && Lightest(freq, a, b) && Uses(f, t)
    ensures |t.head| == |t.pos| == |t.chain| == SYMBOLS && 0 <= a < SYMBOLS && 0 <= b < SYMBOLS
    ensures Uses(f, Join(t, a, b))
  {
    hide Complete, Heavy, Linked;
  }

  /** When only one frequency is left, one tree holds every used symbol. */
  lemma OneTree(freq: seq<int>, cs: seq<int>, others: seq<int>, t: Forest, m: int, root: int)
    requires Trees(freq, cs, others, t, m) && IsSmallest(freq, -1, root)
    requires NoneBut(freq, root)
    ensures 0 <= root < SYMBOLS && Placed(t) && Complete(cs, t)
    ensures forall s :: 0 <= s < SYMBOLS && t.head[s] >= 0 ==> t.head[s] == root
    ensures IsChain(others, t.chain[root]) && t.chain[root] != [] && t.chain[root][0] == root
    ensures forall s :: 0 <= s < SYMBOLS ==> Sum(freq, SYMBOLS) >= Fib(cs[s])
  {
    hide Sum, Kraft, Fib;
    AtMostSum(freq, SYMBOLS, root);
    forall s | 0 <= s < SYMBOLS && t.head[s] >= 0 ensures t.head[s] == root {
      assert freq[t.head[s]] != 0;
    }
    forall s | 0 <= s < SYMBOLS ensures Sum(freq, SYMBOLS) >= Fib(cs[s]) {
      if t.head[s] < 0 {
        FibAtZero();
      }
    }
  }

  lemma FibAtZero()
    ensures Fib(0) == 1
  {
  }

  /**
   Merging down to one tree. The links then form one chain from the last head through exactly the
   symbols in use, their code lengths are the depths of those symbols and satisfy Kraft's inequality with
   equality, and a long code needs large counts.
   */
  method MergeAll(freq: array<int>, codesize: array<int>, others: array<int>)
    returns (root: int, ghost t: Forest)
    requires freq.Length == codesize.Length == others.Length == SYMBOLS
    requires freq != codesize && codesize != others && others != freq
    requires forall s :: 0 <= s < SYMBOLS ==> freq[s] >= 0 && codesize[s] == 0 && others[s] == -1
    requires Sum(freq[..], SYMBOLS) <= FREQ_LIMIT && CountNonzero(freq[..], SYMBOLS) >= 1
    modifies freq, codesize, others
    ensures 0 <= root < SYMBOLS && Placed(t) && Uses(old(freq[..]), t)
    ensures forall s :: 0 <= s < SYMBOLS && t.head[s] >= 0 ==> t.head[s] == root
    ensures IsChain(others[..], t.chain[root]) && t.chain[root] != [] && t.chain[root][0] == root
    ensures Complete(codesize[..], t) && codesize[..] == Depths(Singles(old(freq[..])))
    ensures forall s :: 0 <= s < SYMBOLS ==> old(Sum(freq[..], SYMBOLS)) >= Fib(codesize[s])
  {
    hide Trees, Uses, Placed, IsChain, Complete, Join, Sum, CountNonzero, IsSmallest, NoneBut, Depths, BumpedIn, Singles;
    ghost var f := freq[..];
    ghost var m := 0;
    t := Seedlings(f, codesize[..], others[..]);
    while true
      invariant Trees(freq[..], codesize[..], others[..], t, m) && Uses(f, t)
      invariant Sum(freq[..], SYMBOLS) == Sum(f, SYMBOLS)
      invariant CountNonzero(freq[..], SYMBOLS) >= 1
      invariant MergingOk(Merging(freq[..], t.head, codesize[..]))
      invariant Depths(Merging(freq[..], t.head, codesize[..])) == Depths(Singles(f))
      decreases CountNonzero(freq[..], SYMBOLS)
    {
      FrequencyBounds(freq[..], codesize[..], others[..], t, m);
      var c1 := FindSmallest(freq, -1);
      if c1 == -1 {
        NoneLive(freq[..], SYMBOLS);
      }
      var c2 := FindSmallest(freq, c1);
      if c2 < 0 {
        root := c1;
        OneTree(freq[..], codesize[..], others[..], t, m, root);
        DepthsEnd(freq[..], codesize[..], t.head, root);
        break;
      }
      assert Lightest(freq[..], c1, c2);
      MergeCounts(freq[..], c1, c2);
      JoinUses(f, freq[..], codesize[..], others[..], t, m, c1, c2);
      ghost var v, g, cs, t0 := freq[c2], freq[..], codesize[..], t;
      t := MergeTwo(freq, codesize, others, c1, c2, t, m);
      DepthsStep(g, cs, codesize[..], t0, c1, c2);
      m := v;
    }
  }
}
