/**
 jpeg_gen_optimal_table of jchuff.c (section K.2 of ITU-T T.81): counting code lengths, limiting them
 to 16 bits, dropping the pseudo-symbol, and listing the symbols by length.
 */
module HuffmanOptimal {
  import opened Powers
  import opened Wrappers
  import opened HuffmanCode
  import opened HuffmanMerge
  import opened HuffmanPseudo

  const MAX_CLEN: nat := 32

  type uint8 = x: int | 0 <= x < 256

  // ----- counting -----

  /** The effect of one changed count on the sums over lengths. */
  lemma {:induction false} OneCount(bits: seq<int>, k: nat, v: int, l: nat)
    requires 1 <= k < |bits| && l < |bits|
    ensures Total(bits[k := v], l) == Total(bits, l) + if k <= l then v - bits[k] else 0
    ensures CodeSum(bits[k := v], l) == CodeSum(bits, l) + if k <= l then (v - bits[k]) * Pow2(l - k) else 0
  {
    if l > 0 {
      OneCount(bits, k, v, l - 1);
      if k < l {
        Pow2Step(v - bits[k], l - 1 - k);
      }
    }
  }

  lemma {:induction false} WeightPower(k: nat, l: nat)
    requires k <= l
    ensures Pow2(l - k) as real == Weight(k) * Pow2(l) as real
  {
    if k > 0 {
      WeightPower(k - 1, l);
      assert Pow2(l - k + 1) == 2 * Pow2(l - k);
    }
  }

  lemma {:induction false} AtMostTotal(bits: seq<int>, k: nat, l: nat)
    requires 1 <= k <= l < |bits| && Counts(bits)
    ensures 0 <= bits[k] <= Total(bits, l)
  {
    SumsMonotone(bits, k, l);
    SumsMonotone(bits, k - 1, k);
    SumsMonotone(bits, 0, k - 1);
  }

  lemma {:induction false} NoSums(bits: seq<int>, l: nat)
    requires l < |bits| && forall k :: 1 <= k <= l ==> bits[k] == 0
    ensures Total(bits, l) == 0 && CodeSum(bits, l) == 0
  {
    if l > 0 {
      NoSums(bits, l - 1);
    }
  }

  /** The counts of code lengths of a complete tree; nothing if a length exceeds the assumed maximum. */
  method CountLengths(codesize: array<int>, bits: array<uint8>, ghost t: Forest, ghost root: int) returns (ok: bool)
    requires codesize.Length == SYMBOLS && bits.Length == MAX_CLEN + 1
    requires forall l :: 0 <= l <= MAX_CLEN ==> bits[l] == 0
    requires |t.head| == SYMBOLS && CountNonzero(codesize[..], SYMBOLS) <= 255
    requires forall s :: 0 <= s < SYMBOLS ==> codesize[s] >= 0 && (t.head[s] == root <==> codesize[s] > 0)
    modifies bits
    ensures ok <==> forall s :: 0 <= s < SYMBOLS ==> codesize[s] <= MAX_CLEN
    ensures ok ==> Total(bits[..], MAX_CLEN) == CountNonzero(codesize[..], SYMBOLS)
    ensures ok ==>
      CodeSum(bits[..], MAX_CLEN) as real == Kraft(t.head, codesize[..], root, SYMBOLS) * Pow2(MAX_CLEN) as real
    ensures ok ==> forall l :: 1 <= l <= MAX_CLEN ==> bits[l] == |ListAt(codesize[..], SYMBOLS, l)|
    ensures codesize[..] == old(codesize[..]) && bits[0] == 0
  {
    hide Total, CodeSum, Pow2, Kraft, CountNonzero, Weight;
    var i := 0;
    ghost var cs := codesize[..];
    NoSums(bits[..], MAX_CLEN);
    CountStart(t.head, cs, root);
    while i <= 256
      invariant 0 <= i <= SYMBOLS && bits[0] == 0 && codesize[..] == cs
      invariant forall s :: 0 <= s < i ==> cs[s] <= MAX_CLEN
      invariant forall l :: 1 <= l <= MAX_CLEN ==> bits[l] == |ListAt(cs, i, l)|
      invariant Total(bits[..], MAX_CLEN) == CountNonzero(cs, i)
      invariant CodeSum(bits[..], MAX_CLEN) as real == Kraft(t.head, cs, root, i) * Pow2(MAX_CLEN) as real
    {
      CountStep(bits[..], t.head, cs, root, i);
      if codesize[i] != 0 {
        if codesize[i] > MAX_CLEN {
          return false;
        }
        ghost var b := bits[..];
        bits[codesize[i]] := bits[codesize[i]] + 1;
        assert bits[..] == b[cs[i] := b[cs[i]] + 1];
      }
      i := i + 1;
    }
    ok := true;
  }

  lemma CountStart(head: seq<int>, cs: seq<int>, root: int)
    requires |head| == |cs| == SYMBOLS
    ensures Kraft(head, cs, root, 0) == 0.0 && CountNonzero(cs, 0) == 0
  {
  }

  lemma {:induction false} CountsGrow(f: seq<int>, m: nat, n: nat)
    requires m <= n <= |f|
    ensures CountNonzero(f, m) <= CountNonzero(f, n)
  {
    if m < n {
      CountsGrow(f, m, n - 1);
    }
  }

  lemma CountStep(bits: seq<uint8>, head: seq<int>, cs: seq<int>, root: int, i: nat)
    requires |bits| == MAX_CLEN + 1 && |head| == |cs| == SYMBOLS && i < SYMBOLS
    requires CountNonzero(cs, SYMBOLS) <= 255 && cs[i] >= 0 && (head[i] == root <==> cs[i] > 0)
    requires Total(bits, MAX_CLEN) == CountNonzero(cs, i)
    requires CodeSum(bits, MAX_CLEN) as real == Kraft(head, cs, root, i) * Pow2(MAX_CLEN) as real
    ensures cs[i] == 0 ==> CountNonzero(cs, i + 1) == CountNonzero(cs, i)
    ensures cs[i] == 0 ==> Kraft(head, cs, root, i + 1) == Kraft(head, cs, root, i)
    ensures 0 < cs[i] <= MAX_CLEN ==> bits[cs[i]] < 255
    ensures 0 < cs[i] <= MAX_CLEN ==>
      Total(bits[cs[i] := bits[cs[i]] + 1], MAX_CLEN) == CountNonzero(cs, i + 1)
    ensures 0 < cs[i] <= MAX_CLEN ==>
      var sum := CodeSum(bits[cs[i] := bits[cs[i]] + 1], MAX_CLEN);
      sum as real == Kraft(head, cs, root, i + 1) * Pow2(MAX_CLEN) as real
  {
    hide Total, CodeSum, Pow2, Weight;
    if 0 < cs[i] <= MAX_CLEN {
      CountsGrow(cs, i + 1, SYMBOLS);
      AtMostTotal(bits, cs[i], MAX_CLEN);
      OneCount(bits, cs[i], bits[cs[i]] + 1, MAX_CLEN);
      WeightPower(cs[i], MAX_CLEN);
    }
  }

  // ----- limiting to 16 bits -----

  /** Counts of a complete code whose codes are at most i bits long. */
  ghost predicate Full(bits: seq<int>, i: nat, total: int)
  {
    && |bits| == MAX_CLEN + 1 && i <= MAX_CLEN
    && bits[0] == 0 && Counts(bits) && (forall l :: i < l <= MAX_CLEN ==> bits[l] == 0)
    && Total(bits, i) == total && CodeSum(bits, i) == Pow2(i)
  }

  /** The longest codes of a complete code come in pairs. */
  lemma Paired(bits: seq<int>, i: nat, total: int)
    requires Full(bits, i, total) && i >= 1 && bits[i] > 0
    ensures bits[i] >= 2
  {
    assert Pow2(i) == 2 * Pow2(i - 1);
  }

  /** With fewer than 256 codes in all, some code is at least two bits shorter than a code of over 16 bits. */
  lemma ShorterExists(bits: seq<int>, i: nat, total: int, j: nat)
    requires Full(bits, i, total) && total <= 255 && i > 16 && 1 <= j <= i - 2
    requires forall k :: j <= k <= i - 2 ==> bits[k] == 0
    ensures j > 1
  {
    if j == 1 {
      NoSums(bits, i - 2);
      AtMostTotal(bits, i - 1, i);
      AtMostTotal(bits, i, i);
      assert CodeSum(bits, i - 1) == bits[i - 1];
      PowerGrows(16, i);
      Pow2At16();
    }
  }

  lemma {:induction false} PowerGrows(k: nat, l: nat)
    requires k <= l
    ensures Pow2(k) <= Pow2(l)
  {
    if k < l {
      PowerGrows(k, l - 1);
    }
  }

  /** One pair of codes of length i replaced by one of length i - 1 and two of length j + 1 instead of one. */
  function Shortened(bits: seq<int>, i: nat, j: nat): seq<int>
    requires 1 <= j <= i - 2 && i < |bits|
  {
    var b1 := bits[i := bits[i] - 2];
    var b2 := b1[i - 1 := b1[i - 1] + 1];
    var b3 := b2[j + 1 := b2[j + 1] + 2];
    b3[j := b3[j] - 1]
  }

  lemma ShortenedFull(bits: seq<int>, i: nat, total: int, j: nat)
    requires Full(bits, i, total) && 1 <= j <= i - 2 && bits[i] >= 2 && bits[j] >= 1
    ensures Full(Shortened(bits, i, j), i, total)
  {
    hide Total, CodeSum, Pow2;
    var b1 := bits[i := bits[i] - 2];
    var b2 := b1[i - 1 := b1[i - 1] + 1];
    var b3 := b2[j + 1 := b2[j + 1] + 2];
    OneCount(bits, i, bits[i] - 2, i);
    OneCount(b1, i - 1, b1[i - 1] + 1, i);
    OneCount(b2, j + 1, b2[j + 1] + 2, i);
    OneCount(b3, j, b3[j] - 1, i);
    PowersNear(i - j - 1);
  }

  lemma PowersNear(k: nat)
    ensures Pow2(0) == 1 && Pow2(1) == 2 && Pow2(k + 1) == 2 * Pow2(k)
  {
  }

  lemma FullBytes(bits: seq<int>, i: nat, total: int, k: nat, l: nat)
    requires Full(bits, i, total) && 1 <= k < l < i
    ensures bits[k] + bits[l] + bits[i] <= total
  {
    hide Total, CodeSum, Pow2;
    var b := bits[k := 0];
    var c := b[l := 0];
    OneCount(bits, k, 0, i);
    OneCount(b, l, 0, i);
    AtMostTotal(c, i, i);
  }

  lemma FullStep(bits: seq<int>, i: nat, total: int)
    requires Full(bits, i, total) && i >= 1 && bits[i] == 0
    ensures Full(bits, i - 1, total)
  {
    assert Pow2(i) == 2 * Pow2(i - 1);
  }

  /** The longest length up to l that is in use, or 0. */
  function LongestUpTo(bits: seq<int>, l: nat): (k: nat)
    requires l < |bits|
    ensures k <= l && (k > 0 ==> bits[k] != 0) && forall m :: k < m <= l ==> bits[m] == 0
  {
    if l == 0 || bits[l] != 0 then l else LongestUpTo(bits, l - 1)
  }

  /**
   Adjust_BITS of Figure K.3, from length i down: as long as there are codes over 16 bits, a pair of the longest ones
   makes room for itself by taking the longest code that is at least two bits shorter.
   */
  function Adjusted(bits: seq<int>, i: nat): (r: seq<int>)
    requires i < |bits|
    ensures |r| == |bits|
    decreases i, bits[i]
  {
    if i <= 16 then bits
    else if bits[i] <= 0 then Adjusted(bits, i - 1)
    else
      var j := LongestUpTo(bits, i - 2);
      if j == 0 then bits else Adjusted(Shortened(bits, i, j), i)
  }

  lemma LongestIs(bits: seq<int>, l: nat, k: nat)
    requires 1 <= k <= l < |bits| && bits[k] != 0 && forall m :: k < m <= l ==> bits[m] == 0
    ensures LongestUpTo(bits, l) == k
  {
  }

  /** Codes longer than 16 bits are removed; the code stays complete and keeps its number of codes. */
  method LimitLengths(bits: array<uint8>, ghost total: int)
    requires bits.Length == MAX_CLEN + 1 && Full(bits[..], MAX_CLEN, total) && total <= 255
    modifies bits
    ensures Full(bits[..], 16, total)
    ensures bits[..] == Adjusted(old(bits[..]), MAX_CLEN)
  {
    hide Full, Shortened, LongestUpTo;
    var i := 32;
    while i > 16
      invariant 16 <= i <= 32 && Full(bits[..], i, total)
      invariant Adjusted(bits[..], i) == Adjusted(old(bits[..]), MAX_CLEN)
    {
      while bits[i] > 0
        invariant Full(bits[..], i, total)
        invariant Adjusted(bits[..], i) == Adjusted(old(bits[..]), MAX_CLEN)
        decreases bits[i]
      {
        ghost var b := bits[..];
        var j := i - 2;
        while bits[j] == 0
          invariant 1 <= j <= i - 2
          invariant forall k :: j < k <= i - 2 ==> bits[k] == 0
          invariant bits[..] == b
          decreases j
        {
          ShorterExists(b, i, total, j);
          j := j - 1;
        }
        LongestIs(b, i - 2, j);
        ShortenPair(bits, i, j, total);
      }
      FullStep(bits[..], i, total);
      i := i - 1;
    }
  }

  method ShortenPair(bits: array<uint8>, i: nat, j: nat, ghost total: int)
    requires bits.Length == MAX_CLEN + 1 && Full(bits[..], i, total) && total <= 255
    requires i <= MAX_CLEN && 1 <= j <= i - 2 && bits[i] > 0 && bits[j] > 0
    modifies bits
    ensures bits[..] == Shortened(old(bits[..]), i, j) && bits[i] == old(bits[i]) - 2
    ensures Full(bits[..], i, total)
  {
    hide Full, Total, CodeSum, Pow2;
    ghost var b := bits[..];
    Paired(b, i, total);
    FullBytes(b, i, total, j, i - 1);
    if j + 1 < i - 1 {
      FullBytes(b, i, total, j, j + 1);
    }
    ShortenedFull(b, i, total, j);
    bits[i] := bits[i] - 2;
    bits[i - 1] := bits[i - 1] + 1;
    bits[j + 1] := bits[j + 1] + 2;
    bits[j] := bits[j] - 1;
    assert bits[..] == Shortened(b, i, j);
  }

  /** The pseudo-symbol is dropped from the longest length in use, which leaves one code free there. */
  method DropPseudo(bits: array<uint8>, ghost total: int) returns (ghost at: nat)
    requires bits.Length == MAX_CLEN + 1 && Full(bits[..], 16, total) && total >= 1
    modifies bits
    ensures Counts(bits[..]) && Total(bits[..], 16) == total - 1 && CodeSum(bits[..], 16) < Pow2(16)
    ensures 1 <= at <= 16 && old(bits[at]) > 0 && bits[..] == old(bits[..])[at := old(bits[at]) - 1]
    ensures forall l :: at < l <= 16 ==> old(bits[l]) == 0
  {
    hide Total, CodeSum, Pow2;
    ghost var b := bits[..];
    var i := 16;
    while bits[i] == 0
      invariant 1 <= i <= 16
      invariant forall l :: i < l <= 16 ==> bits[l] == 0
      invariant bits[..] == b
      decreases i
    {
      if i == 1 {
        NoSums(b, 16);
      }
      i := i - 1;
    }
    OneCount(b, i, b[i] - 1, 16);
    bits[i] := bits[i] - 1;
    assert bits[..] == b[i := b[i] - 1];
    at := i;
  }

  // ----- symbols in order of code length -----

  /** Symbols below j with code length l, in increasing order. */
  function ListAt(cs: seq<int>, j: nat, l: int): (r: seq<int>)
    requires j <= |cs|
  {
    if j == 0 then [] else ListAt(cs, j - 1, l) + if cs[j - 1] == l then [j - 1] else []
  }

  /** The real symbols with code lengths 1 to l, in order of length. */
  function Listed(cs: seq<int>, l: nat): (r: seq<int>)
    requires |cs| == SYMBOLS
  {
    if l == 0 then [] else Listed(cs, l - 1) + ListAt(cs, 256, l)
  }

  lemma {:induction false} ListAtHas(cs: seq<int>, j: nat, l: int)
    requires j <= |cs|
    ensures forall p :: 0 <= p < |ListAt(cs, j, l)| ==> 0 <= ListAt(cs, j, l)[p] < j && cs[ListAt(cs, j, l)[p]] == l
    ensures forall p, q :: 0 <= p < q < |ListAt(cs, j, l)| ==> ListAt(cs, j, l)[p] < ListAt(cs, j, l)[q]
    ensures forall s :: 0 <= s < j && cs[s] == l ==> s in ListAt(cs, j, l)
  {
    if j > 0 {
      ListAtHas(cs, j - 1, l);
    }
  }

  /** Each real symbol with a code is listed once; shorter lengths come first, and smaller symbols within a length. */
  lemma {:induction false} ListedHas(cs: seq<int>, l: nat)
    requires |cs| == SYMBOLS
    ensures forall p :: 0 <= p < |Listed(cs, l)| ==> 0 <= Listed(cs, l)[p] < 256 && 1 <= cs[Listed(cs, l)[p]] <= l
    ensures forall p, q :: 0 <= p < q < |Listed(cs, l)| ==> Precedes(cs, Listed(cs, l)[p], Listed(cs, l)[q])
    ensures forall s :: 0 <= s < 256 && 1 <= cs[s] <= l ==> s in Listed(cs, l)
  {
    if l > 0 {
      hide ListAt;
      ListedHas(cs, l - 1);
      ListAtHas(cs, 256, l);
    }
  }

  predicate Precedes(cs: seq<int>, s: int, u: int)
  {
    0 <= s < |cs| && 0 <= u < |cs| && (cs[s] < cs[u] || (cs[s] == cs[u] && s < u))
  }

  function CountUpTo(cs: seq<int>, n: nat, l: int): nat
    requires n <= |cs|
  {
    if n == 0 then 0 else CountUpTo(cs, n - 1, l) + if 1 <= cs[n - 1] <= l then 1 else 0
  }

  lemma {:induction false} CountOneLength(cs: seq<int>, n: nat, l: int)
    requires n <= |cs| && l >= 1
    ensures CountUpTo(cs, n, l) == CountUpTo(cs, n, l - 1) + |ListAt(cs, n, l)|
  {
    if n > 0 {
      CountOneLength(cs, n - 1, l);
    }
  }

  lemma {:induction false} CountNoLength(cs: seq<int>, n: nat)
    requires n <= |cs|
    ensures CountUpTo(cs, n, 0) == 0
  {
    if n > 0 {
      CountNoLength(cs, n - 1);
    }
  }

  lemma {:induction false} ListedLength(cs: seq<int>, l: nat)
    requires |cs| == SYMBOLS
    ensures |Listed(cs, l)| == CountUpTo(cs, 256, l)
  {
    if l > 0 {
      ListedLength(cs, l - 1);
      CountOneLength(cs, 256, l);
    } else {
      CountNoLength(cs, 256);
    }
  }

  lemma {:induction false} CountAll(cs: seq<int>, n: nat, l: int)
    requires n <= |cs| && forall s :: 0 <= s < n ==> 0 <= cs[s] <= l
    ensures CountUpTo(cs, n, l) == CountNonzero(cs, n)
  {
    if n > 0 {
      CountAll(cs, n - 1, l);
    }
  }

  method ListSymbols(codesize: array<int>, huffval: array<int>) returns (p: nat)
    requires codesize.Length == SYMBOLS && huffval.Length == 256 && codesize != huffval
    modifies huffval
    ensures p <= 256 && huffval[..p] == Listed(codesize[..], MAX_CLEN)
  {
    hide CountUpTo;
    p := 0;
    var i := 1;
    ghost var cs := codesize[..];
    while i <= MAX_CLEN
      invariant 1 <= i <= MAX_CLEN + 1 && codesize[..] == cs
      invariant p <= 256 && huffval[..p] == Listed(cs, i - 1)
    {
      var j := 0;
      while j <= 255
        invariant 0 <= j <= 256 && codesize[..] == cs
        invariant p <= 256 && huffval[..p] == Listed(cs, i - 1) + ListAt(cs, j, i)
      {
        if codesize[j] == i {
          RoomForSymbol(cs, i, j);
          ghost var before := huffval[..p];
          huffval[p] := j;
          p := p + 1;
          assert huffval[..p] == before + [j];
        }
        j := j + 1;
      }
      i := i + 1;
    }
  }

  lemma RoomForSymbol(cs: seq<int>, i: nat, j: nat)
    requires |cs| == SYMBOLS && i >= 1 && j < 256 && cs[j] == i
    ensures |Listed(cs, i - 1) + ListAt(cs, j, i)| < 256
  {
    ListedLength(cs, i - 1);
    ListAtGrows(cs, j, 256, i);
    CountOneLength(cs, 256, i);
    CountBound(cs, 256, i);
  }

  lemma {:induction false} ListAtGrows(cs: seq<int>, j: nat, n: nat, l: int)
    requires j < n <= |cs| && cs[j] == l
    ensures |ListAt(cs, j, l)| < |ListAt(cs, n, l)|
  {
    if j < n - 1 {
      ListAtGrows(cs, j, n - 1, l);
    }
  }

  lemma {:induction false} CountBound(cs: seq<int>, n: nat, l: int)
    requires n <= |cs|
    ensures CountUpTo(cs, n, l) <= n
  {
    if n > 0 {
      CountBound(cs, n - 1, l);
    }
  }

  // ----- the whole table -----

  lemma {:induction false} SomeUsed(f: seq<int>, n: nat) returns (s: int)
    requires n <= |f| && CountNonzero(f, n) >= 1
    ensures 0 <= s < n && f[s] != 0
  {
    if f[n - 1] != 0 {
      s := n - 1;
    } else {
      s := SomeUsed(f, n - 1);
    }
  }

  lemma {:induction false} SameCount(f: seq<int>, g: seq<int>, n: nat)
    requires n <= |f| && n <= |g| && forall s :: 0 <= s < n ==> (f[s] != 0 <==> g[s] != 0)
    ensures CountNonzero(f, n) == CountNonzero(g, n)
  {
    if n > 0 {
      SameCount(f, g, n - 1);
    }
  }

  lemma {:induction false} SamePrefix(f: seq<int>, g: seq<int>, n: nat)
    requires n <= |f| && n <= |g| && forall s :: 0 <= s < n ==> f[s] == g[s]
    ensures Sum(f, n) == Sum(g, n) && CountNonzero(f, n) == CountNonzero(g, n)
  {
    if n > 0 {
      SamePrefix(f, g, n - 1);
    }
  }

  lemma {:induction false} SameSums(b: seq<int>, c: seq<int>, l: nat)
    requires l < |b| && l < |c| && forall k :: 0 <= k <= l ==> b[k] == c[k]
    ensures Total(b, l) == Total(c, l) && CodeSum(b, l) == CodeSum(c, l)
  {
    if l > 0 {
      SameSums(b, c, l - 1);
    }
  }

  /** With a second symbol beside the pseudo-symbol, exactly the used symbols get a code length. */
  lemma UsedGetLengths(f: seq<int>, cs: seq<int>, t: Forest, root: int)
    requires Placed(t) && Uses(f, t) && Complete(cs, t) && 0 <= root < SYMBOLS
    requires forall s :: 0 <= s < SYMBOLS && t.head[s] >= 0 ==> t.head[s] == root
    requires f[PSEUDO] != 0 && CountNonzero(f, 256) >= 1
    ensures |t.head| == SYMBOLS
    ensures forall s :: 0 <= s < SYMBOLS ==> cs[s] >= 0 && (t.head[s] == root <==> cs[s] > 0)
    ensures forall s :: 0 <= s < SYMBOLS ==> (f[s] != 0 <==> cs[s] > 0)
    ensures Kraft(t.head, cs, root, SYMBOLS) == 1.0
  {
    hide Kraft, CountNonzero;
    var other := SomeUsed(f, 256);
    assert t.head[PSEUDO] == t.head[other] == root;
    assert t.pos[PSEUDO] != t.pos[other];
    assert |t.chain[root]| >= 2;
  }

  lemma FibAt33()
    ensures Fib(33) == 9227465
  {
    assert Fib(3) == 5 && Fib(4) == 8;
    assert Fib(7) == 34 && Fib(8) == 55;
    assert Fib(11) == 233 && Fib(12) == 377;
    assert Fib(15) == 1597 && Fib(16) == 2584;
    assert Fib(19) == 10946 && Fib(20) == 17711;
    assert Fib(23) == 75025 && Fib(24) == 121393;
    assert Fib(27) == 514229 && Fib(28) == 832040;
    assert Fib(31) == 3524578 && Fib(32) == 5702887;
  }

  lemma {:induction false} FibGrows(m: int, n: int)
    requires 0 <= m <= n
    ensures Fib(m) <= Fib(n)
    decreases n
  {
    if m < n {
      FibGrows(m, n - 1);
    }
  }

  lemma LongCodeNeedsWeight(cs: seq<int>, total: int)
    requires |cs| == SYMBOLS && !(forall s :: 0 <= s < SYMBOLS ==> cs[s] <= MAX_CLEN)
    requires forall s :: 0 <= s < SYMBOLS ==> total >= Fib(cs[s])
    ensures total >= 9227465
  {
    hide Fib;
    var s :| 0 <= s < SYMBOLS && cs[s] > MAX_CLEN;
    FibAt33();
    FibGrows(33, cs[s]);
  }

  lemma {:induction false} ListedSomewhere(cs: seq<int>, s: int, n: nat)
    requires 0 <= s < n <= |cs|
    ensures ListAt(cs, n, cs[s]) != []
  {
    if s < n - 1 {
      ListedSomewhere(cs, s, n - 1);
    }
  }

  lemma {:induction false} NoneOfLength(cs: seq<int>, n: nat, l: int)
    requires n <= |cs| && forall s :: 0 <= s < n ==> cs[s] != l
    ensures ListAt(cs, n, l) == []
  {
    if n > 0 {
      NoneOfLength(cs, n - 1, l);
    }
  }

  lemma {:induction false} TotalListed(cs: seq<int>, b: seq<int>, l: nat)
    requires |cs| == SYMBOLS && l < |b| && forall k :: 1 <= k <= l ==> b[k] == |ListAt(cs, 256, k)|
    ensures Total(b, l) == |Listed(cs, l)|
  {
    if l > 0 {
      TotalListed(cs, b, l - 1);
    }
  }

  /** With the counts of the listing itself, every listed symbol stands at its own length. */
  lemma {:induction false} ListedAtLength(cs: seq<int>, b: seq<int>, p: nat, l: nat)
    requires |cs| == SYMBOLS && l < |b| && (forall k :: 1 <= k <= l ==> b[k] == |ListAt(cs, 256, k)|)
    requires p < |Listed(cs, l)|
    ensures 0 <= Listed(cs, l)[p] < SYMBOLS
    ensures 1 <= cs[Listed(cs, l)[p]] && At(b, p, cs[Listed(cs, l)[p]])
  {
    hide ListAt;
    var q := |Listed(cs, l - 1)|;
    TotalListed(cs, b, l - 1);
    TotalListed(cs, b, l);
    if p < q {
      ListedAtLength(cs, b, p, l - 1);
    } else {
      ListAtHas(cs, 256, l);
      assert Listed(cs, l)[p] == ListAt(cs, 256, l)[p - q];
    }
  }

  lemma {:induction false} ListedStops(cs: seq<int>, l: nat)
    requires |cs| == SYMBOLS && l >= 16 && forall s :: 0 <= s < SYMBOLS ==> cs[s] <= 16
    ensures Listed(cs, l) == Listed(cs, 16)
  {
    if l > 16 {
      ListedStops(cs, l - 1);
      NoneOfLength(cs, 256, l);
    }
  }

  /** The counts and the listing agree in number, so the listing is a legal table. */
  lemma ListedLegal(f: seq<int>, cs: seq<int>, bits: seq<int>, huffval: seq<int>)
    requires |f| == |cs| == SYMBOLS && |bits| == 17 && |huffval| == 256
    requires forall s :: 0 <= s < SYMBOLS ==> 0 <= cs[s] <= MAX_CLEN && (f[s] != 0 <==> cs[s] > 0)
    requires Counts(bits) && Total(bits, 16) == CountNonzero(f, 256) <= 254 && CodeSum(bits, 16) < Pow2(16)
    requires |Listed(cs, MAX_CLEN)| <= 256 && huffval[..|Listed(cs, MAX_CLEN)|] == Listed(cs, MAX_CLEN)
    ensures Legal(bits, huffval, 255) && Total(bits, 16) == |Listed(cs, MAX_CLEN)|
    ensures forall s :: 0 <= s < 256 ==> (s in Listed(cs, MAX_CLEN) <==> f[s] != 0)
  {
    hide Counts, Total, CodeSum, Pow2, Listed, CountNonzero;
    ListedHas(cs, MAX_CLEN);
    ListedLength(cs, MAX_CLEN);
    CountAll(cs, 256, MAX_CLEN);
    SameCount(f, cs, 256);
    var n := |Listed(cs, MAX_CLEN)|;
    assert forall p :: 0 <= p < n ==> huffval[p] == huffval[..n][p];
  }

  /** The depths of all symbols in Huffman's tree for the counts, the pseudo-symbol included. */
  function CodeDepths(counts: seq<int>): (d: seq<int>)
    requires CountsOk(counts)
    ensures |d| == SYMBOLS
  {
    Depths(Singles(counts[PSEUDO := 1]))
  }

  predicate CountsOk(counts: seq<int>)
  {
    |counts| == SYMBOLS && forall s :: 0 <= s < 256 ==> counts[s] >= 0
  }

  /** Some symbol is deeper than the 32 bits the source assumes. */
  ghost predicate TooDeep(counts: seq<int>)
    requires CountsOk(counts)
  {
    exists s :: 0 <= s < SYMBOLS && CodeDepths(counts)[s] > MAX_CLEN
  }

  /** No symbol is deeper than 16. */
  ghost predicate AllShort(counts: seq<int>)
    requires CountsOk(counts)
  {
    forall s :: 0 <= s < SYMBOLS ==> CodeDepths(counts)[s] <= 16
  }

  /** How many symbols there are at each depth, the pseudo-symbol included. */
  function DepthCounts(cs: seq<int>): (b: seq<int>)
    requires |cs| == SYMBOLS
    ensures |b| == MAX_CLEN + 1
  {
    seq(MAX_CLEN + 1, l requires 0 <= l <= MAX_CLEN => if l == 0 then 0 else |ListAt(cs, SYMBOLS, l)|)
  }

  /** The counts of code lengths that section K.2 makes of the depths: adjusted, and without the pseudo-symbol. */
  function TableBits(counts: seq<int>): (b: seq<int>)
    requires CountsOk(counts)
    ensures |b| == 17
  {
    var a := Adjusted(DepthCounts(CodeDepths(counts)), MAX_CLEN);
    var k := LongestUpTo(a, 16);
    a[k := a[k] - 1][..17]
  }

  /**
   The table for given symbol counts: jpeg_make_c_derived_tbl accepts it, and it lists exactly the
   symbols that occur, in the order of their depths in Huffman's tree. There is no table exactly when some
   depth exceeds 32, which takes more than nine million counted symbols.
   */
  method GenOptimalTable(freq: array<int>) returns (r: Option<(seq<int>, seq<int>)>)
    requires freq.Length == SYMBOLS && forall s :: 0 <= s < 256 ==> freq[s] >= 0
    requires 1 <= CountNonzero(freq[..], 256) <= 254 && Sum(freq[..], 256) < FREQ_LIMIT
    modifies freq
    ensures r.None? <==> TooDeep(old(freq[..]))
    ensures r.None? ==> old(Sum(freq[..], 256)) + 1 >= 9227465
    ensures r.Some? ==> |r.value.0| == 17 && |r.value.1| == 256 && Legal(r.value.0, r.value.1, 255)
    ensures r.Some? ==> 0 <= Total(r.value.0, 16) <= 256
    ensures r.Some? ==> r.value.1[..Total(r.value.0, 16)] == Listed(CodeDepths(old(freq[..])), MAX_CLEN)
    ensures r.Some? ==> forall s :: 0 <= s < 256 ==>
      (s in r.value.1[..Total(r.value.0, 16)] <==> old(freq[s]) != 0)
    ensures r.Some? ==> r.value.0 == TableBits(old(freq[..]))
    ensures r.Some? && AllShort(old(freq[..])) ==>
      forall l :: 1 <= l <= 16 ==> r.value.0[l] == |ListAt(CodeDepths(old(freq[..])), 256, l)|
  {
    hide Counts, Total, CodeSum, Pow2, Listed, CountNonzero, Sum, Kraft, Placed, Complete, Uses, IsChain, Fib, Depths,
      Singles, ListAt, Adjusted, TableBits, CodeDepths, AllShort;
    ghost var f0 := freq[..];
    freq[256] := 1;
    ghost var f := freq[..];
    FirstCounts(f0, f);
    var codesize := new int[257](_ => 0);
    var others := new int[257](_ => -1);
    var bits: array<uint8> := new uint8[33](_ => 0);
    var root; ghost var t;
    root, t := MergeAll(freq, codesize, others);
    ghost var cs := codesize[..];
    CodeDepthsOf(f0, f);
    UsedGetLengths(f, cs, t, root);
    SameCount(f, cs, 257);
    var ok := CountLengths(codesize, bits, t, root);
    if !ok {
      LongCodeNeedsWeight(cs, Sum(f, 257));
      return None;
    }
    ghost var total := CountNonzero(f, 257);
    CompleteCounts(bits[..], total);
    ghost var counted := bits[..];
    LimitLengths(bits, total);
    ghost var limited := bits[..];
    ghost var at := DropPseudo(bits, total);
    var huffval := new int[256](_ => 0);
    var p := ListSymbols(codesize, huffval);
    var b := bits[..17];
    ShortCounts(bits[..], b);
    ListedLegal(f, cs, b, huffval[..]);
    AreDepthCounts(cs, counted);
    IsTableBits(f0, limited, at, b);
    if AllShort(f0) {
      ShortBits(f0);
    }
    return Some((b, huffval[..]));
  }

  lemma AreDepthCounts(cs: seq<int>, counted: seq<int>)
    requires |cs| == SYMBOLS && |counted| == MAX_CLEN + 1 && counted[0] == 0
    requires forall l :: 1 <= l <= MAX_CLEN ==> counted[l] == |ListAt(cs, SYMBOLS, l)|
    ensures counted == DepthCounts(cs)
  {
    hide ListAt;
  }

  lemma IsTableBits(counts: seq<int>, a: seq<int>, at: nat, b: seq<int>)
    requires CountsOk(counts) && |a| == MAX_CLEN + 1 && 1 <= at <= 16
    requires a == Adjusted(DepthCounts(CodeDepths(counts)), MAX_CLEN)
    requires a[at] != 0 && (forall l :: at < l <= 16 ==> a[l] == 0) && b == a[at := a[at] - 1][..17]
    ensures b == TableBits(counts)
  {
    hide CodeDepths, DepthCounts, Adjusted, LongestUpTo;
    LongestIs(a, 16, at);
  }

  lemma {:induction false} AdjustsNothing(bits: seq<int>, i: nat)
    requires i < |bits| && forall l :: 16 < l <= i ==> bits[l] == 0
    ensures Adjusted(bits, i) == bits
  {
    if i > 16 {
      AdjustsNothing(bits, i - 1);
    }
  }

  /** With all depths at most 16 the counts of the table are those of the real symbols. */
  lemma ShortBits(counts: seq<int>)
    requires CountsOk(counts) && AllShort(counts)
    ensures forall l :: 1 <= l <= 16 ==> TableBits(counts)[l] == |ListAt(CodeDepths(counts), 256, l)|
  {
    hide CodeDepths, Adjusted, LongestUpTo;
    var cs := CodeDepths(counts);
    var b := DepthCounts(cs);
    forall l | 16 < l <= MAX_CLEN ensures b[l] == 0 {
      NoneOfLength(cs, SYMBOLS, l);
    }
    AdjustsNothing(b, MAX_CLEN);
    PseudoDeepestOf(counts);
    DepthsNotNegative(counts, PSEUDO);
    var k := LongestUpTo(b, 16);
    if cs[PSEUDO] > 0 {
      ListedSomewhere(cs, PSEUDO, SYMBOLS);
      assert b[cs[PSEUDO]] == |ListAt(cs, SYMBOLS, cs[PSEUDO])|;
    }
    assert k > 0 ==> b[k] == |ListAt(cs, SYMBOLS, k)|;
    if k > cs[PSEUDO] {
      NoneOfLength(cs, SYMBOLS, k);
    }
    assert k == cs[PSEUDO];
  }

  lemma DepthsNotNegative(counts: seq<int>, s: int)
    requires CountsOk(counts) && 0 <= s < SYMBOLS
    ensures CodeDepths(counts)[s] >= 0
  {
    hide Depths;
    DepthsGrow(Singles(counts[PSEUDO := 1]), s);
  }

  lemma PseudoDeepestOf(counts: seq<int>)
    requires CountsOk(counts)
    ensures forall s :: 0 <= s < SYMBOLS ==> CodeDepths(counts)[s] <= CodeDepths(counts)[PSEUDO]
  {
    hide Depths, Singles;
    forall s | 0 <= s < SYMBOLS ensures CodeDepths(counts)[s] <= CodeDepths(counts)[PSEUDO] {
      PseudoDeepest(counts[PSEUDO := 1], s);
    }
  }

  lemma CodeDepthsOf(counts: seq<int>, f: seq<int>)
    requires CountsOk(counts) && f == counts[PSEUDO := 1]
    ensures CodeDepths(counts) == Depths(Singles(f))
  {
  }

  lemma FirstCounts(f0: seq<int>, f: seq<int>)
    requires |f0| == SYMBOLS && f == f0[256 := 1]
    ensures Sum(f, 257) == Sum(f0, 256) + 1 && CountNonzero(f, 257) == CountNonzero(f0, 256) + 1
    ensures CountNonzero(f, 256) == CountNonzero(f0, 256)
  {
    SamePrefix(f0, f, 256);
  }

  lemma CompleteCounts(bits: seq<int>, total: int)
    requires |bits| == MAX_CLEN + 1 && bits[0] == 0 && (forall l :: 0 <= l <= MAX_CLEN ==> bits[l] >= 0)
    requires Total(bits, MAX_CLEN) == total
    requires CodeSum(bits, MAX_CLEN) as real == 1.0 * Pow2(MAX_CLEN) as real
    ensures Full(bits, MAX_CLEN, total)
  {
    hide Total, CodeSum, Pow2;
  }

  lemma ShortCounts(bits: seq<int>, b: seq<int>)
    requires |bits| == MAX_CLEN + 1 && b == bits[..17] && Counts(bits)
    ensures Counts(b) && Total(b, 16) == Total(bits, 16) && CodeSum(b, 16) == CodeSum(bits, 16)
  {
    SameSums(bits, b, 16);
  }
}
