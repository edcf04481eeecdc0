/**
 Canonical Huffman codes of JPEG (annex C of ITU-T T.81): counts of codes per length, the codes
 themselves, and decoding bit by bit.
 */
module HuffmanCode {
  import opened Powers
  import opened Wrappers

  /**
   A list of counts: bits[l] is the number of codes of length l. bits[0] is not used.
   CodeSum is one more than the last code of length l, were the shorter codes all extended to l.
   */
  function CodeSum(bits: seq<int>, l: nat): int
    requires l < |bits|
  {
    if l == 0 then 0 else 2 * CodeSum(bits, l - 1) + bits[l]
  }

  /** Number of codes of length at most l. */
  function Total(bits: seq<int>, l: nat): int
    requires l < |bits|
  {
    if l == 0 then 0 else Total(bits, l - 1) + bits[l]
  }

  predicate Counts(bits: seq<int>)
  {
    forall l :: 1 <= l < |bits| ==> bits[l] >= 0
  }

  lemma {:induction false} SumsMonotone(bits: seq<int>, k: nat, l: nat)
    requires Counts(bits) && k <= l < |bits|
    ensures 0 <= Total(bits, k) <= Total(bits, l)
    ensures 0 <= CodeSum(bits, k) && CodeSum(bits, k) * Pow2(l - k) <= CodeSum(bits, l)
  {
    if l > 0 {
      if k < l {
        SumsMonotone(bits, k, l - 1);
        Pow2Step(CodeSum(bits, k), l - 1 - k);
      } else {
        SumsMonotone(bits, k - 1, l - 1);
      }
    }
  }

  lemma Pow2Step(v: int, k: nat)
    ensures v * Pow2(k + 1) == 2 * (v * Pow2(k))
  {
    assert v * (2 * Pow2(k)) == 2 * (v * Pow2(k));
  }

  /** The Kraft condition with room to spare at the longest length holds at every length. */
  lemma {:induction false} RoomAtEveryLength(bits: seq<int>, k: nat, l: nat)
    requires Counts(bits) && k <= l < |bits| && CodeSum(bits, l) < Pow2(l)
    ensures CodeSum(bits, k) < Pow2(k)
  {
    if k < l {
      RoomAtEveryLength(bits, k, l - 1);
    }
  }

  // ----- codes -----

  const MAX_LENGTH: nat := 16

  /** A table JPEG allows: at most 256 codes, a free slot in the longest length, distinct symbols. */
  ghost predicate Legal(bits: seq<int>, huffval: seq<int>, maxSymbol: int)
    requires |bits| == 17 && |huffval| == 256
  {
    && Counts(bits)
    && Total(bits, 16) <= 256
    && CodeSum(bits, 16) < Pow2(16)
    && (forall p :: 0 <= p < Total(bits, 16) ==> 0 <= huffval[p] <= maxSymbol)
    && (forall p, q :: 0 <= p < q < Total(bits, 16) ==> huffval[p] != huffval[q])
  }

  /** Position p of the table has a code of length l. */
  predicate At(bits: seq<int>, p: int, l: nat)
  {
    1 <= l < |bits| && Total(bits, l - 1) <= p < Total(bits, l)
  }

  lemma AtUnique(bits: seq<int>, p: int, k: nat, l: nat)
    requires Counts(bits) && At(bits, p, k) && At(bits, p, l)
    ensures k == l
  {
    if k < l {
      SumsMonotone(bits, k, l - 1);
    } else if l < k {
      SumsMonotone(bits, l, k - 1);
    }
  }

  /** The code of position p, which has length l. */
  function CodeAt(bits: seq<int>, p: int, l: nat): int
    requires 1 <= l < |bits|
  {
    2 * CodeSum(bits, l - 1) + p - Total(bits, l - 1)
  }

  lemma CodeRange(bits: seq<int>, p: int, l: nat)
    requires Counts(bits) && At(bits, p, l)
    ensures 0 <= 2 * CodeSum(bits, l - 1) <= CodeAt(bits, p, l) < CodeSum(bits, l)
  {
    SumsMonotone(bits, l - 1, l - 1);
  }

  /** Figure C.2: each code is its predecessor plus one, extended with zeros to its own length. */
  lemma Canonical(bits: seq<int>, p: int, k: nat, l: nat)
    requires Counts(bits) && At(bits, p, k) && At(bits, p + 1, l)
    ensures k <= l && CodeAt(bits, p + 1, l) == (CodeAt(bits, p, k) + 1) * Pow2(l - k)
  {
    if l < k {
      SumsMonotone(bits, l, k - 1);
      assert false;
    }
    if k < l {
      SumsMonotone(bits, k, l - 1);
      EmptyLengths(bits, k, l - 1);
      Pow2Step(CodeSum(bits, k), l - 1 - k);
    }
  }

  lemma {:induction false} EmptyLengths(bits: seq<int>, k: nat, l: nat)
    requires Counts(bits) && k <= l < |bits| && Total(bits, k) == Total(bits, l)
    ensures CodeSum(bits, l) == CodeSum(bits, k) * Pow2(l - k)
  {
    if k < l {
      SumsMonotone(bits, k, l - 1);
      EmptyLengths(bits, k, l - 1);
      Pow2Step(CodeSum(bits, k), l - 1 - k);
    }
  }

  /** No code of a legal table is all ones. */
  lemma NotAllOnes(bits: seq<int>, p: int, l: nat)
    requires |bits| == 17 && Counts(bits) && CodeSum(bits, 16) < Pow2(16) && At(bits, p, l)
    ensures CodeAt(bits, p, l) < Pow2(l) - 1
  {
    CodeRange(bits, p, l);
    RoomAtEveryLength(bits, l, 16);
  }

  // ----- bit strings -----

  /** The n low bits of v, most significant first. */
  function BitsOf(v: int, n: nat): (r: seq<bool>)
    ensures |r| == n
    decreases n
  {
    if n == 0 then [] else BitsOf(v / 2, n - 1) + [v % 2 == 1]
  }

  /** Bit strings of a number split at a power of two are the strings of the two parts. */
  lemma {:induction false} BitsConcat(a: int, b: int, m: nat, n: nat)
    requires 0 <= b < Pow2(n)
    ensures BitsOf(a * Pow2(n) + b, m + n) == BitsOf(a, m) + BitsOf(b, n)
  {
    if n == 0 {
      assert BitsOf(a, m) + [] == BitsOf(a, m);
    } else {
      var v := a * Pow2(n) + b;
      assert v == 2 * (a * Pow2(n - 1)) + b by {
        Pow2Step(a, n - 1);
      }
      assert v / 2 == a * Pow2(n - 1) + b / 2 && v % 2 == b % 2;
      BitsConcat(a, b / 2, m, n - 1);
      assert BitsOf(a, m) + (BitsOf(b / 2, n - 1) + [b % 2 == 1])
        == (BitsOf(a, m) + BitsOf(b / 2, n - 1)) + [b % 2 == 1];
    }
  }

  // ----- decoding -----

  /**
   Figure F.16: take bits until the number they form is a code of that length. The result is the
   position of the code in the table and the bits left.
   */
  function DecodeFrom(bits: seq<int>, s: seq<bool>, l: nat, code: int): (r: Option<(int, seq<bool>)>)
    requires |bits| == 17 && l <= 16
    ensures r.Some? ==> |r.value.1| < |s|
    decreases 16 - l
  {
    if l == 16 || s == [] then None
    else
      var next := 2 * code + if s[0] then 1 else 0;
      if next < CodeSum(bits, l + 1) then
        Some((next - 2 * CodeSum(bits, l) + Total(bits, l), s[1..]))
      else DecodeFrom(bits, s[1..], l + 1, next)
  }

  /** A code is read back, whatever follows it: no code is a prefix of another. */
  lemma {:induction false} DecodeCode(bits: seq<int>, p: int, len: nat, l: nat, rest: seq<bool>)
    requires |bits| == 17 && Counts(bits) && At(bits, p, len) && l < len
    ensures var c := CodeAt(bits, p, len);
      DecodeFrom(bits, BitsOf(c, len - l) + rest, l, c / Pow2(len - l)) == Some((p, rest))
    decreases len - l
  {
    hide Pow2, BitsOf, Counts, Total, CodeSum, DecodeFrom;
    var c, n := CodeAt(bits, p, len), len - l;
    var q := c / Pow2(n - 1);
    CodeRange(bits, p, len);
    TopBit(c, n);
    HeadBit(c, n);
    assert BitsOf(c, n) + rest == [q % 2 == 1] + (BitsOf(c, n - 1) + rest);
    DecodeOneBit(bits, q % 2 == 1, BitsOf(c, n - 1) + rest, l, c / Pow2(n));
    if n == 1 {
      PowerZero(c);
      assert BitsOf(c, 0) + rest == rest;
    } else {
      PrefixTooLarge(bits, c, l + 1, len);
      DecodeCode(bits, p, len, l + 1, rest);
    }
  }

  lemma DecodeOneBit(bits: seq<int>, bit: bool, rest: seq<bool>, l: nat, code: int)
    requires |bits| == 17 && l < 16
    ensures var next := 2 * code + if bit then 1 else 0;
      DecodeFrom(bits, [bit] + rest, l, code) ==
        if next < CodeSum(bits, l + 1) then Some((next - 2 * CodeSum(bits, l) + Total(bits, l), rest))
        else DecodeFrom(bits, rest, l + 1, next)
  {
    assert ([bit] + rest)[1..] == rest;
  }

  lemma TopBit(c: int, n: nat)
    requires n >= 1
    ensures c / Pow2(n - 1) == 2 * (c / Pow2(n)) + (c / Pow2(n - 1)) % 2
  {
    HalfStep(c, Pow2(n - 1));
  }

  lemma PowerZero(c: int)
    ensures c / Pow2(0) == c
  {
  }

  /** The leading bit of a bit string. */
  lemma {:induction false} HeadBit(v: int, n: nat)
    requires n >= 1
    ensures BitsOf(v, n) == [(v / Pow2(n - 1)) % 2 == 1] + BitsOf(v, n - 1)
    decreases n
  {
    if n == 1 {
      assert v / Pow2(0) == v;
      assert BitsOf(v / 2, 0) + [v % 2 == 1] == [v % 2 == 1] + [];
    } else {
      HeadBit(v / 2, n - 1);
      DivTwice(v, Pow2(n - 2));
      assert ([(v / 2 / Pow2(n - 2)) % 2 == 1] + BitsOf(v / 2, n - 2)) + [v % 2 == 1]
        == [(v / 2 / Pow2(n - 2)) % 2 == 1] + (BitsOf(v / 2, n - 2) + [v % 2 == 1]);
    }
  }

  lemma DivTwice(v: int, p: int)
    requires p >= 1
    ensures v / 2 / p == v / (2 * p)
  {
    var q, r := v / (2 * p), v % (2 * p);
    assert v == q * (2 * p) + r;
    assert v / 2 == q * p + r / 2;
    DivIs(v / 2, p, q, r / 2);
  }

  /** The first k bits of a longer code are no code of length k: they lie beyond all of them. */
  lemma PrefixTooLarge(bits: seq<int>, c: int, k: nat, len: nat)
    requires Counts(bits) && k < len < |bits| && c >= 2 * CodeSum(bits, len - 1) >= 0
    ensures c / Pow2(len - k) >= CodeSum(bits, k)
  {
    SumsMonotone(bits, k, len - 1);
    var s, d := CodeSum(bits, k), Pow2(len - k);
    Pow2Step(s, len - 1 - k);
    QuotientAtLeast(c, d, s);
  }

  /** Reading any code of a legal table, with anything after it. */
  lemma DecodeSymbol(bits: seq<int>, p: int, len: nat, rest: seq<bool>)
    requires |bits| == 17 && Counts(bits) && CodeSum(bits, 16) < Pow2(16) && At(bits, p, len)
    ensures DecodeFrom(bits, BitsOf(CodeAt(bits, p, len), len) + rest, 0, 0) == Some((p, rest))
  {
    var c := CodeAt(bits, p, len);
    CodeRange(bits, p, len);
    NotAllOnes(bits, p, len);
    DivIs(c, Pow2(len), 0, c);
    DecodeCode(bits, p, len, 0, rest);
  }

  /** The codes of a legal table are prefix free. */
  lemma PrefixFree(bits: seq<int>, p: int, q: int, k: nat, l: nat, rest: seq<bool>)
    requires |bits| == 17 && Counts(bits) && CodeSum(bits, 16) < Pow2(16)
    requires At(bits, p, k) && At(bits, q, l) && p != q
    ensures BitsOf(CodeAt(bits, p, k), k) + rest != BitsOf(CodeAt(bits, q, l), l)
  {
    DecodeSymbol(bits, p, k, rest);
    DecodeSymbol(bits, q, l, []);
    assert BitsOf(CodeAt(bits, q, l), l) + [] == BitsOf(CodeAt(bits, q, l), l);
  }
}
