/**
 Zigzag order of the coefficients of an 8x8 block (Figure A.6 of ITU-T T.81).
 */
module Zigzag {

  const DCTSIZE2: nat := 64

  /** Entry i of a row of eight. */
  function Pick(i: nat, a: nat, b: nat, c: nat, d: nat, e: nat, f: nat, g: nat, h: nat): (n: nat)
    requires i < 8
    ensures n in {a, b, c, d, e, f, g, h}
  {
    if i == 0 then a else if i == 1 then b else if i == 2 then c else if i == 3 then d
    else if i == 4 then e else if i == 5 then f else if i == 6 then g else h
  }

  /** Natural (row by row) position of the k'th coefficient in zigzag order. */
  function NaturalOrder(k: nat): (n: nat)
    requires k < 64
    ensures n < 64
  {
    if k < 8 then Pick(k - 0, 0, 1, 8, 16, 9, 2, 3, 10) else
    if k < 16 then Pick(k - 8, 17, 24, 32, 25, 18, 11, 4, 5) else
    if k < 24 then Pick(k - 16, 12, 19, 26, 33, 40, 48, 41, 34) else
    if k < 32 then Pick(k - 24, 27, 20, 13, 6, 7, 14, 21, 28) else
    if k < 40 then Pick(k - 32, 35, 42, 49, 56, 57, 50, 43, 36) else
    if k < 48 then Pick(k - 40, 29, 22, 15, 23, 30, 37, 44, 51) else
    if k < 56 then Pick(k - 48, 58, 59, 52, 45, 38, 31, 39, 46) else
    Pick(k - 56, 53, 60, 61, 54, 47, 55, 62, 63)
  }

  /** The zigzag index of a natural position. */
  function ZigzagIndex(k: nat): (n: nat)
    requires k < 64
    ensures n < 64
  {
    if k < 8 then Pick(k - 0, 0, 1, 5, 6, 14, 15, 27, 28) else
    if k < 16 then Pick(k - 8, 2, 4, 7, 13, 16, 26, 29, 42) else
    if k < 24 then Pick(k - 16, 3, 8, 12, 17, 25, 30, 41, 43) else
    if k < 32 then Pick(k - 24, 9, 11, 18, 24, 31, 40, 44, 53) else
    if k < 40 then Pick(k - 32, 10, 19, 23, 32, 39, 45, 52, 54) else
    if k < 48 then Pick(k - 40, 20, 22, 33, 38, 46, 51, 55, 60) else
    if k < 56 then Pick(k - 48, 21, 34, 37, 47, 50, 56, 59, 61) else
    Pick(k - 56, 35, 36, 48, 49, 57, 58, 62, 63)
  }

  lemma InverseFirst(k: nat)
    requires k < 16
    ensures ZigzagIndex(NaturalOrder(k)) == k && NaturalOrder(ZigzagIndex(k)) == k
  {
  }

  lemma InverseSecond(k: nat)
    requires 16 <= k < 32
    ensures ZigzagIndex(NaturalOrder(k)) == k && NaturalOrder(ZigzagIndex(k)) == k
  {
  }

  lemma InverseThird(k: nat)
    requires 32 <= k < 48
    ensures ZigzagIndex(NaturalOrder(k)) == k && NaturalOrder(ZigzagIndex(k)) == k
  {
  }

  lemma InverseFourth(k: nat)
    requires 48 <= k < 64
    ensures ZigzagIndex(NaturalOrder(k)) == k && NaturalOrder(ZigzagIndex(k)) == k
  {
  }

  /** The two orders are inverse to each other. */
  lemma ZigzagInverse(k: nat)
    requires k < DCTSIZE2
    ensures ZigzagIndex(NaturalOrder(k)) == k && NaturalOrder(ZigzagIndex(k)) == k
  {
    hide NaturalOrder, ZigzagIndex;
    if k < 16 {
      InverseFirst(k);
    } else if k < 32 {
      InverseSecond(k);
    } else if k < 48 {
      InverseThird(k);
    } else {
      InverseFourth(k);
    }
  }

  // ----- the geometry -----

  function RowOf(n: nat): nat { n / 8 }

  function ColumnOf(n: nat): nat { n % 8 }

  /** The antidiagonal of the k'th coefficient. */
  function Diagonal(k: nat): nat
    requires k < DCTSIZE2
  {
    RowOf(NaturalOrder(k)) + ColumnOf(NaturalOrder(k))
  }

  /** Figure A.6 as a walk: up to the right on even antidiagonals, down to the left on odd ones, along the edges. */
  function Walk(n: nat): (m: nat)
    requires n < 63
    ensures m < 64
  {
    var r, c := RowOf(n), ColumnOf(n);
    if (r + c) % 2 == 0 then
      if c == 7 then n + 8 else if r == 0 then n + 1 else n - 7
    else
      if r == 7 then n + 1 else if c == 0 then n + 8 else n + 7
  }

  lemma WalkFirst(k: nat)
    requires k < 16
    ensures NaturalOrder(k) < 63 && NaturalOrder(k + 1) == Walk(NaturalOrder(k))
  {
  }

  lemma WalkSecond(k: nat)
    requires 16 <= k < 32
    ensures NaturalOrder(k) < 63 && NaturalOrder(k + 1) == Walk(NaturalOrder(k))
  {
  }

  lemma WalkThird(k: nat)
    requires 32 <= k < 48
    ensures NaturalOrder(k) < 63 && NaturalOrder(k + 1) == Walk(NaturalOrder(k))
  {
  }

  lemma WalkFourth(k: nat)
    requires 48 <= k < 63
    ensures NaturalOrder(k) < 63 && NaturalOrder(k + 1) == Walk(NaturalOrder(k))
  {
  }

  lemma Start()
    ensures NaturalOrder(0) == 0
  {
  }

  /** Zigzag order starts at the DC coefficient and follows the walk. */
  lemma ZigzagWalk(k: nat)
    requires k < 63
    ensures NaturalOrder(0) == 0 && NaturalOrder(k) < 63 && NaturalOrder(k + 1) == Walk(NaturalOrder(k))
  {
    hide NaturalOrder, Walk;
    Start();
    if k < 16 {
      WalkFirst(k);
    } else if k < 32 {
      WalkSecond(k);
    } else if k < 48 {
      WalkThird(k);
    } else {
      WalkFourth(k);
    }
  }

  /**
   From one coefficient to the next the antidiagonal stays or is the next one; within an odd one the row
   increases, within an even one it decreases.
   */
  lemma Diagonals(k: nat)
    requires k < 63
    ensures Diagonal(k) <= Diagonal(k + 1) <= Diagonal(k) + 1
    ensures Diagonal(k + 1) == Diagonal(k) ==>
      RowOf(NaturalOrder(k + 1)) == if Diagonal(k) % 2 == 1 then RowOf(NaturalOrder(k)) + 1 else RowOf(NaturalOrder(k)) - 1
  {
    hide NaturalOrder;
    ZigzagWalk(k);
  }
}
