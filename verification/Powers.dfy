/**
 Powers of two and the division facts the shifts of the coders need.
 */
module Powers {

  function Pow2(k: nat): (r: nat)
    ensures r >= 1
  {
    if k == 0 then 1 else 2 * Pow2(k - 1)
  }

  /** Number of bits of v. */
  function NBits(v: nat): (n: nat)
    ensures v < Pow2(n) && (n > 0 ==> Pow2(n - 1) <= v) && (n == 0 <==> v == 0)
  {
    if v == 0 then 0 else 1 + NBits(v / 2)
  }

  function Abs(v: int): nat { if v < 0 then -v else v }

  lemma HalfStep(w: int, p: int)
    requires p >= 1
    ensures w / p == 2 * (w / (2 * p)) + (w / p) % 2
  {
    var q, r := w / (2 * p), w % (2 * p);
    assert w == q * (2 * p) + r;
    if r < p {
      DivIs(w, p, 2 * q, r);
    } else {
      DivIs(w, p, 2 * q + 1, r - p);
    }
  }

  lemma DivIs(w: int, p: int, q: int, r: int)
    requires p >= 1 && 0 <= r < p && w == q * p + r
    ensures w / p == q && w % p == r
  {
    var d: int := w / p - q;
    assert d * p == r - w % p by {
      assert w / p * p + w % p == w;
      assert d * p == w / p * p - q * p;
    }
    SmallMultiple(d, p);
  }

  lemma NextMultiple(q: int, n: int)
    ensures (q + 1) * n == q * n + n && (q - 1) * n == q * n - n
  {
  }

  lemma DivSum(v: int, p: int)
    requires p >= 1
    ensures v == v / p * p + v % p && 0 <= v % p < p
  {
  }

  lemma SmallMultiple(d: int, p: int)
    requires -p < d * p < p
    ensures d == 0
  {
    if d >= 1 {
      MulMonotone(1, d, p);
    } else if d <= -1 {
      MulMonotone(d, -1, p);
    }
  }

  lemma MulMonotone(a: int, b: int, p: int)
    requires a <= b && p >= 0
    ensures a * p <= b * p
  {
  }

  lemma {:induction false} Pow2Add(j: nat, k: nat)
    ensures Pow2(j + k) == Pow2(j) * Pow2(k)
  {
    if j > 0 {
      Pow2Add(j - 1, k);
      assert 2 * (Pow2(j - 1) * Pow2(k)) == 2 * Pow2(j - 1) * Pow2(k);
    }
  }

  lemma QuotientAtLeast(v: int, p: int, q: int)
    requires p >= 1 && v >= q * p
    ensures v / p >= q
  {
    var d := q - v / p;
    assert d * p <= v % p by {
      assert v / p * p + v % p == v;
      assert d * p == q * p - v / p * p;
    }
    if d >= 1 {
      MulMonotone(1, d, p);
    }
  }

  lemma Pow2At16()
    ensures Pow2(15) == 32768 && Pow2(16) == 65536
  {
    assert Pow2(4) == 16;
    assert Pow2(8) == 256;
    assert Pow2(12) == 4096;
  }

  lemma DivShrinks(v: nat, p: nat)
    requires p >= 1
    ensures 0 <= v / p <= v
  {
    QuotientAtLeast(v, p, 0);
    assert v / p * p + v % p == v;
    MulMonotone(1, p, v / p);
  }

  lemma Pow2Next(k: nat)
    ensures Pow2(k + 1) == 2 * Pow2(k)
  {
  }

  lemma HalfDiv(v: nat, p: nat)
    requires p >= 1
    ensures v / (2 * p) == v / p / 2
  {
    HalfStep(v, p);
    assert (v / p) % 2 < 2;
  }

  lemma {:induction false} PowersApart(j: nat, k: nat)
    requires j < k
    ensures 2 * Pow2(j) <= Pow2(k)
  {
    if j + 1 < k {
      PowersApart(j, k - 1);
    }
  }

  /** The number of bits is the only one whose powers enclose v. */
  lemma NBitsIs(v: nat, n: nat)
    requires n >= 1 && Pow2(n - 1) <= v < Pow2(n)
    ensures NBits(v) == n
  {
    hide Pow2, NBits;
    var m := NBits(v);
    if m < n {
      if m < n - 1 {
        PowersApart(m, n - 1);
      }
    } else if m > n && m - 1 > n {
      PowersApart(n, m - 1);
    }
  }
}
