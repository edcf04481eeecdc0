/**
 Reading Huffman-coded blocks (section F.2.2 of ITU-T T.81, decode_mcu of jdhuff.c), and the theorems
 that blocks survive coding.
 */
module HuffmanRoundTrip {
  import opened Powers
  import opened Wrappers
  import opened Zigzag
  import opened HuffmanCode
  import opened HuffmanTable
  import opened HuffmanBits
  import opened HuffmanBlocks

  /** A table as transmitted, with the codes derived from it. */
  datatype Table = Table(bits: seq<int>, huffval: seq<int>, derived: Derived)

  ghost predicate IsTable(t: Table, maxSymbol: int)
  {
    && |t.bits| == 17 && |t.huffval| == 256 && Legal(t.bits, t.huffval, maxSymbol)
    && maxSymbol <= 255 && IsDerived(t.bits, t.huffval, t.derived)
  }

  // ----- reading -----

  function DecodeSym(t: Table, s: seq<bool>): (r: Option<(int, seq<bool>)>)
    requires |t.bits| == 17
    ensures r.Some? ==> |r.value.1| < |s|
  {
    match DecodeFrom(t.bits, s, 0, 0)
    case None => None
    case Some((p, rest)) => if 0 <= p < |t.huffval| then Some((t.huffval[p], rest)) else None
  }

  /** The number with the given bits, most significant first. */
  function Number(s: seq<bool>): int
  {
    if s == [] then 0 else 2 * Number(s[..|s| - 1]) + if s[|s| - 1] then 1 else 0
  }

  /** Figure F.12. */
  function Extend(x: int, n: nat): int
    requires n >= 1
  {
    if x < Pow2(n - 1) then x - Pow2(n) + 1 else x
  }

  /** A value of category n; category 0 has no bits. */
  function ReadValue(s: seq<bool>, n: nat): (r: Option<(int, seq<bool>)>)
    ensures r.Some? ==> |r.value.1| <= |s|
  {
    if n == 0 then Some((0, s))
    else if |s| < n then None
    else Some((Extend(Number(s[..n]), n), s[n..]))
  }

  /** AC coefficients from k on, put into block. Corrupt data may run past the end, onto the last coefficient. */
  function DecodeAc(t: Table, s: seq<bool>, k: nat, block: seq<int>): (r: Option<(seq<int>, seq<bool>)>)
    requires |t.bits| == 17 && IsBlock(block)
    ensures r.Some? ==> IsBlock(r.value.0)
    decreases |s|
  {
    if k >= 64 then Some((block, s))
    else match DecodeSym(t, s)
      case None => None
      case Some((symbol, rest)) =>
        var run, n := symbol / 16, symbol % 16;
        if n == 0 then
          if run != 15 then Some((block, rest)) else DecodeAc(t, rest, k + 16, block)
        else match ReadValue(rest, n)
          case None => None
          case Some((v, rest')) =>
            if run < 0 then None
            else if k + run >= 64 then Some((block[63 := v], rest'))
            else DecodeAc(t, rest', k + run + 1, block[NaturalOrder(k + run) := v])
  }

  /** A block whose DC prediction is last. */
  function DecodeBlock(dc: Table, ac: Table, last: int, s: seq<bool>): (r: Option<(seq<int>, seq<bool>)>)
    requires |dc.bits| == |ac.bits| == 17
    ensures r.Some? ==> IsBlock(r.value.0)
  {
    match DecodeSym(dc, s)
    case None => None
    case Some((symbol, rest)) =>
      if symbol < 0 then None
      else match ReadValue(rest, symbol)
        case None => None
        case Some((diff, rest')) => DecodeAc(ac, rest', 1, Zeros64()[0 := last + diff])
  }

  function Zeros64(): (b: seq<int>)
    ensures |b| == 64 && forall i :: 0 <= i < 64 ==> b[i] == 0
  {
    seq(64, i => 0)
  }

  // ----- symbols and values survive -----

  lemma SymbolRoundTrip(t: Table, maxSymbol: int, symbol: int, rest: seq<bool>)
    requires IsTable(t, maxSymbol) && HasCode(t.derived, symbol)
    ensures DecodeSym(t, CodeOf(t.derived, symbol) + rest) == Some((symbol, rest)) && symbol <= maxSymbol
  {
    hide Pow2, Total, CodeSum, CodeAt, Counts, DecodeFrom;
    var p :| 0 <= p < 256 && p < Total(t.bits, 16) && t.huffval[p] == symbol;
    var l := LengthOf(t.bits, p, 16);
    DecodeSymbol(t.bits, p, l, rest);
  }

  lemma {:induction false} LengthOf(bits: seq<int>, p: int, n: nat) returns (l: nat)
    requires n < |bits| && 0 <= p < Total(bits, n)
    ensures At(bits, p, l)
  {
    if p >= Total(bits, n - 1) {
      l := n;
    } else {
      l := LengthOf(bits, p, n - 1);
    }
  }

  lemma {:induction false} NumberOfBits(v: int, n: nat)
    ensures Number(BitsOf(v, n)) == v % Pow2(n)
    decreases n
  {
    if n > 0 {
      NumberOfBits(v / 2, n - 1);
      ModHalf(v, Pow2(n - 1));
      assert BitsOf(v, n)[..n - 1] == BitsOf(v / 2, n - 1);
    }
  }

  lemma ExtendRoundTrip(v: int)
    requires v != 0
    ensures Extend(ValueBits(v) % Pow2(NBits(Abs(v))), NBits(Abs(v))) == v
  {
    var n := NBits(Abs(v));
    assert Pow2(n) == 2 * Pow2(n - 1);
    if v > 0 {
      DivIs(v, Pow2(n), 0, v);
    } else {
      DivIs(v - 1, Pow2(n), -1, v - 1 + Pow2(n));
    }
  }

  lemma ValueRoundTrip(v: int, rest: seq<bool>)
    ensures ReadValue(BitsOf(ValueBits(v), NBits(Abs(v))) + rest, NBits(Abs(v))) == Some((v, rest))
  {
    var n := NBits(Abs(v));
    var bits := BitsOf(ValueBits(v), n);
    if n > 0 {
      assert (bits + rest)[..n] == bits && (bits + rest)[n..] == rest;
      NumberOfBits(ValueBits(v), n);
      ExtendRoundTrip(v);
    } else {
      assert bits + rest == rest;
    }
  }

  lemma {:induction false} NumberRange(s: seq<bool>)
    ensures 0 <= Number(s) < Pow2(|s|)
  {
    if s != [] {
      NumberRange(s[..|s| - 1]);
    }
  }

  // ----- blocks survive -----

  /** The coefficients before k in zigzag order, zero elsewhere. */
  function Upto(b: seq<int>, k: nat): (r: seq<int>)
    requires IsBlock(b)
    ensures |r| == 64 && forall i :: 0 <= i < 64 ==> r[i] == if ZigzagIndex(i) < k then b[i] else 0
  {
    seq(64, i requires 0 <= i < 64 => if ZigzagIndex(i) < k then b[i] else 0)
  }

  lemma UptoNext(b: seq<int>, k: nat)
    requires IsBlock(b) && k < 64
    ensures Upto(b, k)[NaturalOrder(k) := At64(b, k)] == Upto(b, k + 1)
    ensures At64(b, k) == 0 ==> Upto(b, k) == Upto(b, k + 1)
  {
    hide NaturalOrder, ZigzagIndex;
    forall i | 0 <= i < 64 ensures ZigzagIndex(i) == k <==> i == NaturalOrder(k) {
      ZigzagInverse(i);
      ZigzagInverse(k);
    }
  }

  lemma UptoEnds(b: seq<int>)
    requires IsBlock(b)
    ensures Upto(b, 64) == b && Upto(b, 1) == Zeros64()[0 := b[0]]
  {
    hide NaturalOrder, ZigzagIndex;
    forall i | 0 <= i < 64 ensures ZigzagIndex(i) == 0 <==> i == 0 {
      ZigzagInverse(i);
      FirstZigzag();
    }
  }

  lemma FirstZigzag()
    ensures NaturalOrder(0) == 0 && ZigzagIndex(0) == 0
  {
  }

  lemma DecodeOneZrl(t: Table, rest: seq<bool>, k: nat, block: seq<int>)
    requires IsTable(t, 255) && IsBlock(block) && HasCode(t.derived, 0xF0) && k < 64
    ensures DecodeAc(t, ItemBits(t.derived, ZRL) + rest, k, block) == DecodeAc(t, rest, k + 16, block)
  {
    hide IsTable, HasCode, DecodeSym;
    SymbolRoundTrip(t, 255, 0xF0, rest);
    assert CodeOf(t.derived, 0xF0) + [] + rest == CodeOf(t.derived, 0xF0) + rest;
  }

  lemma {:induction false} DecodeZeroRuns(t: Table, n: nat, rest: seq<bool>, k: nat, block: seq<int>)
    requires IsTable(t, 255) && IsBlock(block) && k + 16 * n <= 64
    requires AllCoded(t.derived, ZeroRuns(n))
    ensures DecodeAc(t, ItemsBits(t.derived, ZeroRuns(n)) + rest, k, block) == DecodeAc(t, rest, k + 16 * n, block)
    decreases n
  {
    hide IsTable, HasCode, DecodeAc, ItemBits;
    if n == 0 {
      assert [] + rest == rest;
    } else {
      var d := t.derived;
      AllCodedConcat(d, ZeroRuns(n - 1), [ZRL]);
      Singleton(d, ZRL);
      var a := ItemsBits(d, ZeroRuns(n - 1));
      ItemsBitsSnoc(d, ZeroRuns(n - 1), ZRL);
      assert (a + ItemBits(d, ZRL)) + rest == a + (ItemBits(d, ZRL) + rest);
      DecodeZeroRuns(t, n - 1, ItemBits(d, ZRL) + rest, k, block);
      DecodeOneZrl(t, rest, k + 16 * (n - 1), block);
    }
  }

  lemma DecodeCoefficient(t: Table, run: nat, v: int, rest: seq<bool>, k: nat, block: seq<int>)
    requires IsTable(t, 255) && IsBlock(block) && run < 16 && v != 0 && Abs(v) < 0x8000 && k + run < 64
    requires HasCode(t.derived, Coded(run, v).symbol)
    ensures DecodeAc(t, ItemBits(t.derived, Coded(run, v)) + rest, k, block)
      == DecodeAc(t, rest, k + run + 1, block[NaturalOrder(k + run) := v])
  {
    hide IsTable, HasCode, DecodeSym, NaturalOrder, ReadValue, NBits, Abs, ValueBits;
    var n, d := NBits(Abs(v)), t.derived;
    CategoryRange(v);
    var bits := BitsOf(ValueBits(v), n);
    SymbolRoundTrip(t, 255, 16 * run + n, bits + rest);
    ValueRoundTrip(v, rest);
    assert CodeOf(d, 16 * run + n) + bits + rest == CodeOf(d, 16 * run + n) + (bits + rest);
  }

  lemma CategoryRange(v: int)
    requires v != 0 && Abs(v) < 0x8000
    ensures 1 <= NBits(Abs(v)) <= 15
  {
    FewBits(Abs(v));
  }

  lemma DecodeEob(t: Table, rest: seq<bool>, k: nat, block: seq<int>)
    requires IsTable(t, 255) && IsBlock(block) && HasCode(t.derived, 0) && k < 64
    ensures DecodeAc(t, ItemBits(t.derived, EOB) + rest, k, block) == Some((block, rest))
  {
    hide IsTable, HasCode, DecodeSym;
    SymbolRoundTrip(t, 255, 0, rest);
    assert CodeOf(t.derived, 0) + [] + rest == CodeOf(t.derived, 0) + rest;
  }

  /** From coefficient k on, with the r coefficients before it zero and still to be read. */
  lemma {:induction false} AcRoundTrip(t: Table, b: seq<int>, k: nat, r: nat, rest: seq<bool>)
    requires IsTable(t, 255) && IsBlock(b) && 1 <= k <= 64 && r < k
    requires AllCoded(t.derived, AcItems(b, k, r))
    requires forall i :: 1 <= i < 64 ==> Abs(At64(b, i)) < 0x8000
    requires Upto(b, k - r) == Upto(b, k)
    ensures DecodeAc(t, ItemsBits(t.derived, AcItems(b, k, r)) + rest, k - r, Upto(b, k)) == Some((b, rest))
    decreases 64 - k
  {
    hide IsTable, HasCode, Upto, DecodeAc, ItemsBits, ItemBits, AcItems, At64, AllCoded, Abs;
    var d := t.derived;
    if k == 64 {
      LastItems(b, r);
      UptoEnds(b);
      if r > 0 {
        OneItem(d, EOB, rest);
        DecodeEob(t, rest, k - r, b);
      } else {
        TableBits(t, 255);
        NoItems(t, rest, 64, b);
      }
    } else {
      AcStep(b, k, r);
      UptoNext(b, k);
      if At64(b, k) == 0 {
        AcRoundTrip(t, b, k + 1, r + 1, rest);
      } else {
        var runs, it, more := ZeroRuns(r / 16), Coded(r % 16, At64(b, k)), AcItems(b, k + 1, 0);
        SplitItems(d, runs, it, more, rest);
        var tail := ItemsBits(d, more) + rest;
        DecodeZeroRuns(t, r / 16, ItemBits(d, it) + tail, k - r, Upto(b, k));
        NonzeroAbs(At64(b, k));
        DecodeCoefficient(t, r % 16, At64(b, k), tail, k - r % 16, Upto(b, k));
        AcRoundTrip(t, b, k + 1, 0, rest);
      }
    }
  }

  lemma NonzeroAbs(v: int)
    ensures v != 0 ==> Abs(v) != 0
  {
  }

  lemma OneItem(d: Derived, it: Item, rest: seq<bool>)
    requires AllCoded(d, [it])
    ensures HasCode(d, it.symbol) && ItemsBits(d, [it]) + rest == ItemBits(d, it) + rest
  {
    Singleton(d, it);
    EmptyItems(d, [], 0);
    ItemsBitsSnoc(d, [], it);
    assert [] + [it] == [it];
    assert [] + ItemBits(d, it) == ItemBits(d, it);
  }

  lemma NoItems(t: Table, rest: seq<bool>, k: nat, b: seq<int>)
    requires |t.bits| == 17 && IsBlock(b) && k >= 64
    ensures AllCoded(t.derived, []) && DecodeAc(t, ItemsBits(t.derived, []) + rest, k, b) == Some((b, rest))
  {
    assert [] + rest == rest;
  }

  lemma SplitItems(d: Derived, runs: seq<Item>, it: Item, more: seq<Item>, rest: seq<bool>)
    requires AllCoded(d, runs + ([it] + more))
    ensures AllCoded(d, runs) && HasCode(d, it.symbol) && AllCoded(d, more)
    ensures ItemsBits(d, runs + ([it] + more)) + rest
      == ItemsBits(d, runs) + (ItemBits(d, it) + (ItemsBits(d, more) + rest))
  {
    hide HasCode, ItemsBits, ItemBits, AllCoded;
    AllCodedConcat(d, runs, [it] + more);
    AllCodedConcat(d, [it], more);
    Singleton(d, it);
    ItemsBitsConcat(d, runs, [it] + more);
    ItemsBitsConcat(d, [it], more);
    OneItem(d, it, ItemsBits(d, more));
    Assoc(ItemsBits(d, runs), ItemBits(d, it), ItemsBits(d, more), rest);
  }

  lemma Assoc(a: seq<bool>, b: seq<bool>, c: seq<bool>, e: seq<bool>)
    ensures a + (b + c) + e == a + (b + (c + e))
  {
  }

  /** Reading a written block gives back its coefficients, whatever bits follow. */
  lemma BlockRoundTrip(dc: Table, ac: Table, b: seq<int>, last: int, rest: seq<bool>)
    requires IsTable(dc, 15) && IsTable(ac, 255) && Encodable(b, last) && NoLeast(b)
    requires BlockCoded(b, last, dc.derived, ac.derived)
    ensures DecodeBlock(dc, ac, last, BlockBits(b, last, dc.derived, ac.derived) + rest) == Some((b, rest))
  {
    hide IsTable, HasCode, DecodeAc, DecodeSym, ItemsBits, AcItems, AllCoded, Upto, ReadValue, NBits, ValueBits;
    var diff := b[0] - last;
    var n := NBits(Abs(diff));
    var tail := ItemsBits(ac.derived, AcItems(b, 1, 0)) + rest;
    var value := BitsOf(ValueBits(diff), n);
    var code := CodeOf(dc.derived, n);
    assert code + value + ItemsBits(ac.derived, AcItems(b, 1, 0)) + rest == code + (value + tail);
    SymbolRoundTrip(dc, 15, n, value + tail);
    ValueRoundTrip(diff, tail);
    UptoEnds(b);
    AcRoundTrip(ac, b, 1, 0, rest);
  }

  // ----- exactly which AC coefficients survive -----

  /** A decoded AC coefficient has at most 15 bits. */
  lemma {:induction false} DecodedSmall(t: Table, s: seq<bool>, k: nat, block: seq<int>)
    requires IsTable(t, 255) && IsBlock(block) && DecodeAc(t, s, k, block).Some?
    requires forall i :: 1 <= i < 64 ==> Abs(block[i]) < 0x8000
    requires k >= 1
    ensures forall i :: 1 <= i < 64 ==> Abs(DecodeAc(t, s, k, block).value.0[i]) < 0x8000
    decreases |s|
  {
    hide IsTable, DecodeSym, ReadValue, NaturalOrder;
    if k < 64 {
      TableBits(t, 255);
      var (symbol, rest) := DecodeSym(t, s).value;
      var run, n := symbol / 16, symbol % 16;
      if n == 0 {
        if run == 15 {
          DecodedSmall(t, rest, k + 16, block);
        }
      } else {
        var (v, rest') := ReadValue(rest, n).value;
        ReadSmall(rest, n);
        if run >= 0 && k + run < 64 {
          DecodedSmall(t, rest', k + run + 1, block[NaturalOrder(k + run) := v]);
        }
      }
    }
  }

  lemma TableBits(t: Table, maxSymbol: int)
    requires IsTable(t, maxSymbol)
    ensures |t.bits| == 17
  {
  }

  lemma ReadSmall(s: seq<bool>, n: nat)
    requires 1 <= n <= 15 && ReadValue(s, n).Some?
    ensures Abs(ReadValue(s, n).value.0) < 0x8000
  {
    NumberRange(s[..n]);
    PowersOrdered(n, 15);
    Pow2At16();
    assert Pow2(n) == 2 * Pow2(n - 1);
  }

  lemma DecodedBlockSmall(dc: Table, ac: Table, last: int, s: seq<bool>)
    requires IsTable(dc, 15) && IsTable(ac, 255)
    ensures |dc.bits| == |ac.bits| == 17
    ensures DecodeBlock(dc, ac, last, s).Some? ==> NoLeast(DecodeBlock(dc, ac, last, s).value.0)
  {
    hide IsTable, DecodeAc, DecodeSym, ReadValue, NaturalOrder;
    TableBits(dc, 15);
    TableBits(ac, 255);
    if DecodeBlock(dc, ac, last, s).Some? {
      var (symbol, r1) := DecodeSym(dc, s).value;
      var (diff, r2) := ReadValue(r1, symbol).value;
      DecodedSmall(ac, r2, 1, Zeros64()[0 := last + diff]);
      forall k | 1 <= k < 64 ensures NaturalOrder(k) >= 1 {
        LaterNotFirst(k);
      }
    }
  }

  /**
   Of the blocks of 16-bit coefficients whose symbols have codes, exactly those without the coefficient
   -32768 are read back: its 16 bits do not fit the four bits a symbol has for them.
   */
  lemma AcSurvives(dc: Table, ac: Table, b: seq<int>, last: int, rest: seq<bool>)
    requires IsTable(dc, 15) && IsTable(ac, 255) && Encodable(b, last)
    requires BlockCoded(b, last, dc.derived, ac.derived)
    ensures (DecodeBlock(dc, ac, last, BlockBits(b, last, dc.derived, ac.derived) + rest) == Some((b, rest)))
      <==> NoLeast(b)
  {
    hide IsTable, DecodeBlock, BlockBits, BlockCoded, NoLeast;
    if NoLeast(b) {
      BlockRoundTrip(dc, ac, b, last, rest);
    } else {
      DecodedBlockSmall(dc, ac, last, BlockBits(b, last, dc.derived, ac.derived) + rest);
    }
  }

  lemma LaterNotFirst(k: nat)
    requires 1 <= k < 64
    ensures NaturalOrder(k) >= 1
  {
  }
}
