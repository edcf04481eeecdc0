/**
 Huffman coding of coefficient blocks (encode_one_block of jchuff.c; sections F.1.2.1, F.1.2.2 and F.2.2
 of ITU-T T.81): the symbols and value bits of a block, writing them, and reading them back.
 */
module HuffmanBlocks {
  import opened Powers
  import opened Zigzag
  import opened HuffmanCode
  import opened HuffmanTable
  import opened HuffmanBits

  // ----- what a block is coded as -----

  /** A Huffman symbol followed by the nbits low bits of value. */
  datatype Item = Item(symbol: int, value: int, nbits: nat)

  /** The value, or the complement of its magnitude if it is negative. */
  function ValueBits(v: int): int { if v < 0 then v - 1 else v }

  /** A coefficient or difference of category n. */
  function Coded(run: nat, v: int): Item
  {
    Item(16 * run + NBits(Abs(v)), ValueBits(v), NBits(Abs(v)))
  }

  const EOB := Item(0, 0, 0)
  const ZRL := Item(0xF0, 0, 0)

  function ZeroRuns(n: nat): (r: seq<Item>)
    ensures |r| == n && forall i :: 0 <= i < n ==> r[i] == ZRL
  {
    if n == 0 then [] else ZeroRuns(n - 1) + [ZRL]
  }

  predicate IsBlock(b: seq<int>) { |b| == DCTSIZE2 }

  /** Coefficient k in zigzag order. */
  function At64(b: seq<int>, k: nat): int
    requires IsBlock(b) && k < 64
  {
    b[NaturalOrder(k)]
  }

  /** Items of the coefficients from k on, after r zeros. */
  function AcItems(b: seq<int>, k: nat, r: nat): (s: seq<Item>)
    requires IsBlock(b) && 1 <= k <= 64
    decreases 64 - k
  {
    if k == 64 then if r > 0 then [EOB] else []
    else if At64(b, k) == 0 then AcItems(b, k + 1, r + 1)
    else ZeroRuns(r / 16) + ([Coded(r % 16, At64(b, k))] + AcItems(b, k + 1, 0))
  }

  /** Coefficients and difference of 16-bit values: what the encoder writes. */
  ghost predicate Encodable(b: seq<int>, last: int)
  {
    && IsBlock(b)
    && Abs(b[0] - last) <= 0xFFFF
    && forall k :: 1 <= k < 64 ==> -0x8000 <= At64(b, k) <= 0x7FFF
  }

  /** The coefficients a decoder can give back: those of at most 15 bits. */
  ghost predicate NoLeast(b: seq<int>)
    requires IsBlock(b)
  {
    forall k :: 1 <= k < 64 ==> At64(b, k) != -0x8000
  }

  // ----- bits -----

  /** The symbol has a code of 1 to 16 bits. */
  predicate HasCode(d: Derived, symbol: int)
  {
    && |d.ehufco| == |d.ehufsi| == 256 && 0 <= symbol < 256
    && 1 <= d.ehufsi[symbol] <= 16 && 0 <= d.ehufco[symbol] < Pow2(d.ehufsi[symbol])
  }

  predicate AllCoded(d: Derived, items: seq<Item>)
  {
    forall i :: 0 <= i < |items| ==> HasCode(d, items[i].symbol)
  }

  function CodeOf(d: Derived, symbol: int): seq<bool>
    requires HasCode(d, symbol)
  {
    BitsOf(d.ehufco[symbol], d.ehufsi[symbol])
  }

  function ItemBits(d: Derived, it: Item): seq<bool>
    requires HasCode(d, it.symbol)
  {
    CodeOf(d, it.symbol) + BitsOf(it.value, it.nbits)
  }

  function ItemsBits(d: Derived, items: seq<Item>): seq<bool>
    requires AllCoded(d, items)
  {
    if items == [] then [] else ItemsBits(d, items[..|items| - 1]) + ItemBits(d, items[|items| - 1])
  }

  lemma ItemsBitsSnoc(d: Derived, items: seq<Item>, it: Item)
    requires AllCoded(d, items) && HasCode(d, it.symbol)
    ensures AllCoded(d, items + [it]) && ItemsBits(d, items + [it]) == ItemsBits(d, items) + ItemBits(d, it)
  {
    assert (items + [it])[..|items|] == items;
  }

  lemma AllCodedConcat(d: Derived, a: seq<Item>, b: seq<Item>)
    ensures AllCoded(d, a + b) <==> AllCoded(d, a) && AllCoded(d, b)
  {
    if AllCoded(d, a + b) {
      forall i | 0 <= i < |a| ensures HasCode(d, a[i].symbol) {
        assert (a + b)[i] == a[i];
      }
      forall i | 0 <= i < |b| ensures HasCode(d, b[i].symbol) {
        assert (a + b)[|a| + i] == b[i];
      }
    }
  }

  lemma {:induction false} ItemsBitsConcat(d: Derived, a: seq<Item>, b: seq<Item>)
    requires AllCoded(d, a) && AllCoded(d, b)
    ensures AllCoded(d, a + b) && ItemsBits(d, a + b) == ItemsBits(d, a) + ItemsBits(d, b)
  {
    hide AllCoded, ItemBits, HasCode;
    AllCodedConcat(d, a, b);
    if b == [] {
      assert a + b == a;
      assert ItemsBits(d, a) + [] == ItemsBits(d, a);
    } else {
      var c, z := b[..|b| - 1], b[|b| - 1];
      assert b == c + [z] && a + b == (a + c) + [z];
      AllCodedConcat(d, c, [z]);
      Singleton(d, z);
      ItemsBitsConcat(d, a, c);
      ItemsBitsSnoc(d, a + c, z);
      ItemsBitsSnoc(d, c, z);
    }
  }

  lemma Singleton(d: Derived, z: Item)
    ensures AllCoded(d, [z]) <==> HasCode(d, z.symbol)
  {
    assert [z][0] == z;
  }

  // ----- writing -----

  /** Items of a whole block: the DC difference, then the AC coefficients. */
  predicate BlockCoded(b: seq<int>, last: int, dc: Derived, ac: Derived)
    requires IsBlock(b)
  {
    HasCode(dc, Coded(0, b[0] - last).symbol) && AllCoded(ac, AcItems(b, 1, 0))
  }

  function BlockBits(b: seq<int>, last: int, dc: Derived, ac: Derived): seq<bool>
    requires IsBlock(b) && BlockCoded(b, last, dc, ac)
  {
    ItemBits(dc, Coded(0, b[0] - last)) + ItemsBits(ac, AcItems(b, 1, 0))
  }

  /** The bits pending in a 64-bit buffer, n before, after an item of AC coefficients and after several. */
  function ItemAfter(d: Derived, n: nat, it: Item): nat
    requires HasCode(d, it.symbol)
  {
    if it.nbits == 0 then AfterBits(n, d.ehufsi[it.symbol]) else AfterCode(n, d.ehufsi[it.symbol], it.nbits)
  }

  function ItemsAfter(d: Derived, n: nat, items: seq<Item>): nat
    requires AllCoded(d, items)
  {
    if items == [] then n else ItemAfter(d, ItemsAfter(d, n, items[..|items| - 1]), items[|items| - 1])
  }

  /** The same for a block. The DC code and its value bits are put in one after the other. */
  function BlockAfter(b: seq<int>, last: int, dc: Derived, ac: Derived, n: nat): nat
    requires IsBlock(b) && BlockCoded(b, last, dc, ac)
  {
    var it := Coded(0, b[0] - last);
    ItemsAfter(ac, AfterBits(AfterBits(n, dc.ehufsi[it.symbol]), it.nbits), AcItems(b, 1, 0))
  }

  lemma OneMore(d: Derived, start: seq<bool>, n: nat, done: seq<Item>, it: Item, rest: seq<Item>)
    requires AllCoded(d, done + ([it] + rest))
    ensures HasCode(d, it.symbol) && AllCoded(d, done) && AllCoded(d, done + [it])
    ensures (done + [it]) + rest == done + ([it] + rest)
    ensures start + ItemsBits(d, done + [it]) == start + ItemsBits(d, done) + ItemBits(d, it)
    ensures it.nbits == 0 ==> start + ItemsBits(d, done + [it]) == start + ItemsBits(d, done) + CodeOf(d, it.symbol)
    ensures ItemsAfter(d, n, done + [it]) == ItemAfter(d, ItemsAfter(d, n, done), it)
  {
    hide AllCoded, HasCode;
    assert (done + [it])[..|done|] == done;
    AllCodedConcat(d, done, [it] + rest);
    AllCodedConcat(d, [it], rest);
    Singleton(d, it);
    assert (done + [it]) + rest == done + ([it] + rest);
    ItemsBitsSnoc(d, done, it);
    assert start + (ItemsBits(d, done) + ItemBits(d, it)) == start + ItemsBits(d, done) + ItemBits(d, it);
    assert CodeOf(d, it.symbol) + [] == CodeOf(d, it.symbol);
  }

  lemma ZeroRunsFront(n: nat, rest: seq<Item>)
    requires n > 0
    ensures ZeroRuns(n) + rest == [ZRL] + (ZeroRuns(n - 1) + rest)
  {
    assert ZeroRuns(n) == [ZRL] + ZeroRuns(n - 1);
  }

  /** One step of the coefficient loop: the items of coefficient k come first, if it is not zero. */
  lemma AcStep(b: seq<int>, k: nat, r: nat)
    requires IsBlock(b) && 1 <= k < 64
    ensures AcItems(b, k, r) == if At64(b, k) == 0 then AcItems(b, k + 1, r + 1)
      else ZeroRuns(r / 16) + ([Coded(r % 16, At64(b, k))] + AcItems(b, k + 1, 0))
  {
  }

  /**
   The number of bits of the magnitude, and the value to emit, without a branch on the sign: temp3 is the
   sign spread over the word, and an exclusive or with minus one is the complement.
   */
  method Magnitude(v: int) returns (nbits: nat, temp2: int)
    requires Abs(v) <= 0xFFFF
    ensures nbits == NBits(Abs(v)) <= 16 && temp2 == ValueBits(v)
  {
    var temp := v;
    temp2 := v;
    var temp3 := if temp < 0 then -1 else 0;
    temp := if temp3 < 0 then -temp - 1 else temp;
    temp := temp - temp3;
    temp2 := temp2 + temp3;
    nbits := NBits(temp);
    FewBits(temp);
  }

  /** The nonzero coefficient v after r zeros, followed by the items rest. */
  method EncodeCoefficient(w: BitWriter, r0: nat, v: int, ac: Derived, ghost start: seq<bool>, ghost n: nat,
          ghost done0: seq<Item>, ghost rest: seq<Item>)
    returns (ghost done: seq<Item>)
    requires w.Valid() && v != 0 && Abs(v) <= 0x8000
    requires AllCoded(ac, done0 + (ZeroRuns(r0 / 16) + ([Coded(r0 % 16, v)] + rest)))
    requires AllCoded(ac, done0) && w.Stream() == start + ItemsBits(ac, done0)
    requires w.width == 64 ==> w.putBits == ItemsAfter(ac, n, done0)
    modifies w
    ensures w.Valid() && old(w.out) <= w.out
    ensures done + rest == done0 + (ZeroRuns(r0 / 16) + ([Coded(r0 % 16, v)] + rest))
    ensures AllCoded(ac, done) && w.Stream() == start + ItemsBits(ac, done)
    ensures w.width == 64 ==> w.putBits == ItemsAfter(ac, n, done)
  {
    hide AllCoded, w.Valid, w.Stream, w.Sound, ItemsBits, ItemsAfter, AfterBits, AfterCode, Pow2, NBits, ValueBits, Abs;
    done := done0;
    ghost var tail := [Coded(r0 % 16, v)] + rest;
    var r := r0;
    var nbits, temp2 := Magnitude(v);
    while r > 15
      invariant 0 <= r && r % 16 == r0 % 16 && w.Valid() && old(w.out) <= w.out
      invariant done + (ZeroRuns(r / 16) + tail) == done0 + (ZeroRuns(r0 / 16) + tail)
      invariant AllCoded(ac, done) && w.Stream() == start + ItemsBits(ac, done)
      invariant w.width == 64 ==> w.putBits == ItemsAfter(ac, n, done)
    {
      ZeroRunsFront(r / 16, tail);
      OneMore(ac, start, n, done, ZRL, ZeroRuns(r / 16 - 1) + tail);
      w.EmitBits(ac.ehufco[0xF0], ac.ehufsi[0xF0]);
      done := done + [ZRL];
      r := r - 16;
    }
    assert ZeroRuns(0) + tail == tail;
    NonzeroBits(v);
    OneMore(ac, start, n, done, Coded(r0 % 16, v), rest);
    var temp3 := 16 * r + nbits;
    w.EmitCode(ac.ehufco[temp3], ac.ehufsi[temp3], temp2, nbits);
    done := done + [Coded(r0 % 16, v)];
  }

  lemma NonzeroBits(v: int)
    requires v != 0
    ensures NBits(Abs(v)) >= 1
  {
  }

  lemma FewBits(v: nat)
    requires v <= 0xFFFF
    ensures NBits(v) <= 16 && (v < 0x8000 ==> NBits(v) <= 15)
  {
    Pow2At16();
    if NBits(v) > 16 {
      PowersOrdered(16, NBits(v) - 1);
    } else if NBits(v) > 15 {
      PowersOrdered(15, NBits(v) - 1);
    }
  }

  /** The DC difference of encode_one_block. */
  method EncodeDifference(w: BitWriter, diff: int, dc: Derived)
    requires w.Valid() && Abs(diff) <= 0xFFFF && HasCode(dc, Coded(0, diff).symbol)
    modifies w
    ensures w.Valid() && old(w.out) <= w.out
    ensures w.Stream() == old(w.Stream()) + ItemBits(dc, Coded(0, diff))
    ensures w.width == 64 ==>
      w.putBits == AfterBits(AfterBits(old(w.putBits), dc.ehufsi[Coded(0, diff).symbol]), NBits(Abs(diff)))
  {
    hide AfterBits, w.Valid, w.Stream, w.Sound, Pow2, NBits, ValueBits, Abs;
    var nbits, temp2 := Magnitude(diff);
    w.EmitBits(dc.ehufco[nbits], dc.ehufsi[nbits]);
    BitsMod(temp2, nbits, nbits);
    ModRange(temp2, nbits);
    w.EmitBits(temp2 % Pow2(nbits), nbits);
  }

  lemma ModRange(v: int, n: nat)
    ensures 0 <= v % Pow2(n) < Pow2(n)
  {
  }

  /** The AC coefficients of encode_one_block. */
  method EncodeAcs(w: BitWriter, block: seq<int>, ac: Derived)
    requires w.Valid() && IsBlock(block) && AllCoded(ac, AcItems(block, 1, 0))
    requires forall k :: 1 <= k < 64 ==> Abs(At64(block, k)) <= 0x8000
    modifies w
    ensures w.Valid() && old(w.out) <= w.out
    ensures w.Stream() == old(w.Stream()) + ItemsBits(ac, AcItems(block, 1, 0))
    ensures w.width == 64 ==> w.putBits == ItemsAfter(ac, old(w.putBits), AcItems(block, 1, 0))
  {
    hide AllCoded, w.Valid, w.Stream, w.Sound, ItemsBits, ItemsAfter, AfterBits, Pow2, AcItems, At64, NBits, Abs;
    ghost var start, n := w.Stream(), w.putBits;
    ghost var items := AcItems(block, 1, 0);
    var r, k := 0, 1;
    ghost var done: seq<Item> := [];
    EmptyItems(ac, start, n);
    while k < 64
      invariant 1 <= k <= 64 && w.Valid() && old(w.out) <= w.out
      invariant done + AcItems(block, k, r) == items
      invariant AllCoded(ac, done) && w.Stream() == start + ItemsBits(ac, done)
      invariant w.width == 64 ==> w.putBits == ItemsAfter(ac, n, done)
    {
      AcStep(block, k, r);
      var coef := At64(block, k);
      if coef == 0 {
        r := r + 1;
      } else {
        done := EncodeCoefficient(w, r, coef, ac, start, n, done, AcItems(block, k + 1, 0));
        r := 0;
      }
      k := k + 1;
    }
    LastItems(block, r);
    if r > 0 {
      assert AcItems(block, 64, r) == [EOB] + [];
      OneMore(ac, start, n, done, EOB, []);
      w.EmitBits(ac.ehufco[0], ac.ehufsi[0]);
      done := done + [EOB];
    }
    assert done + [] == done;
  }

  /** encode_one_block */
  method EncodeOneBlock(w: BitWriter, block: seq<int>, last: int, dc: Derived, ac: Derived)
    requires w.Valid() && Encodable(block, last) && BlockCoded(block, last, dc, ac)
    modifies w
    ensures w.Valid() && old(w.out) <= w.out
    ensures w.Stream() == old(w.Stream()) + BlockBits(block, last, dc, ac)
    ensures w.width == 64 ==> w.putBits == BlockAfter(block, last, dc, ac, old(w.putBits))
  {
    hide ItemsAfter, AfterBits, AllCoded, w.Valid, w.Stream, w.Sound, ItemBits, ItemsBits, AcItems, HasCode, At64;
    EncodeDifference(w, block[0] - last, dc);
    EncodeAcs(w, block, ac);
  }

  lemma EmptyItems(d: Derived, start: seq<bool>, n: nat)
    ensures AllCoded(d, []) && start + ItemsBits(d, []) == start && ItemsAfter(d, n, []) == n
  {
  }

  lemma LastItems(b: seq<int>, r: nat)
    requires IsBlock(b)
    ensures AcItems(b, 64, r) == if r > 0 then [EOB] else []
  {
  }
}
