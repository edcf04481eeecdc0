/**
 The statistics pass of jchuff.c (htest_one_block, encode_mcu_gather, finish_pass_gather): it counts exactly
 the symbols the encoder will emit, so the tables built from its counts have a code for each of them.
 */
module HuffmanGather {
  import opened Powers
  import opened HuffmanMerge
  import opened HuffmanBlocks
  import opened HuffmanScan

  const MAX_COEF_BITS: nat := 10

  /** The counts after counting the symbols of items. */
  function Tally(counts: seq<int>, items: seq<Item>): (r: seq<int>)
    requires InCounts(items) && |counts| == SYMBOLS
    ensures |r| == SYMBOLS
  {
    if items == [] then counts
    else
      var before := Tally(counts, items[..|items| - 1]);
      var s := items[|items| - 1].symbol;
      before[s := before[s] + 1]
  }

  predicate InCounts(items: seq<Item>)
  {
    forall i :: 0 <= i < |items| ==> 0 <= items[i].symbol < 256
  }

  lemma TallySnoc(counts: seq<int>, items: seq<Item>, it: Item)
    requires InCounts(items) && |counts| == SYMBOLS && 0 <= it.symbol < 256
    ensures InCounts(items + [it])
    ensures var t := Tally(counts, items); Tally(counts, items + [it]) == t[it.symbol := t[it.symbol] + 1]
  {
    assert (items + [it])[..|items|] == items;
  }

  lemma {:induction false} TallyConcat(counts: seq<int>, a: seq<Item>, b: seq<Item>)
    requires InCounts(a) && InCounts(b) && |counts| == SYMBOLS
    ensures InCounts(a + b) && Tally(counts, a + b) == Tally(Tally(counts, a), b)
  {
    if b == [] {
      assert a + b == a;
    } else {
      var c, z := b[..|b| - 1], b[|b| - 1];
      assert a + b == (a + c) + [z] && b == c + [z];
      TallyConcat(counts, a, c);
      TallySnoc(counts, a + c, z);
    }
  }

  /** From zero counts, the count of a symbol is the number of its items. */
  function Occurrences(items: seq<Item>, s: int): nat
  {
    if items == [] then 0
    else Occurrences(items[..|items| - 1], s) + if items[|items| - 1].symbol == s then 1 else 0
  }

  lemma {:induction false} TallyCounts(counts: seq<int>, items: seq<Item>, s: nat)
    requires InCounts(items) && |counts| == SYMBOLS && s < SYMBOLS
    ensures Tally(counts, items)[s] == counts[s] + Occurrences(items, s)
  {
    if items != [] {
      TallyCounts(counts, items[..|items| - 1], s);
    }
  }

  lemma {:induction false} OccurrencesConcat(x: seq<Item>, y: seq<Item>, s: int)
    ensures Occurrences(x + y, s) == Occurrences(x, s) + Occurrences(y, s)
  {
    if y == [] {
      assert x + y == x;
    } else {
      OccurrencesConcat(x, y[..|y| - 1], s);
      assert (x + y)[..|x + y| - 1] == x + y[..|y| - 1];
    }
  }

  lemma {:induction false} NotAmong(items: seq<Item>, s: int)
    requires forall i :: 0 <= i < |items| ==> items[i].symbol != s
    ensures Occurrences(items, s) == 0
  {
    if items != [] {
      NotAmong(items[..|items| - 1], s);
    }
  }

  /** A block has one end of block if it ends in a zero, and none otherwise. */
  lemma {:induction false} EobOnce(b: seq<int>, k: nat, r: nat)
    requires IsBlock(b) && 1 <= k <= 64
    ensures Occurrences(AcItems(b, k, r), 0) == if (if k == 64 then r > 0 else At64(b, 63) == 0) then 1 else 0
    decreases 64 - k
  {
    hide NBits, Abs, At64, ValueBits, Occurrences;
    if k == 64 {
      LastItems(b, r);
      OneOccurrence(EOB, 0);
      NotAmong([], 0);
    } else {
      AcStep(b, k, r);
      if At64(b, k) == 0 {
        EobOnce(b, k + 1, r + 1);
      } else {
        EobOnce(b, k + 1, 0);
        NonzeroBits(At64(b, k));
        var it := Coded(r % 16, At64(b, k));
        OccurrencesConcat(ZeroRuns(r / 16), [it] + AcItems(b, k + 1, 0), 0);
        OccurrencesConcat([it], AcItems(b, k + 1, 0), 0);
        NotAmong(ZeroRuns(r / 16), 0);
        NotAmong([it], 0);
      }
    }
  }

  lemma OneOccurrence(it: Item, s: int)
    ensures Occurrences([it], s) == if it.symbol == s then 1 else 0
  {
    assert [it][..0] == [];
  }

  /** The counts of all symbols among the items. */
  function ItemCounts(items: seq<Item>): (counts: seq<int>)
    ensures |counts| == SYMBOLS && forall s :: 0 <= s < SYMBOLS ==> counts[s] >= 0
  {
    seq(SYMBOLS, s requires 0 <= s < SYMBOLS => Occurrences(items, s))
  }

  /** Counting from zero gives those counts. */
  lemma TallyFromZero(counts: seq<int>, items: seq<Item>)
    requires InCounts(items) && |counts| == SYMBOLS && forall s :: 0 <= s < SYMBOLS ==> counts[s] == 0
    ensures Tally(counts, items) == ItemCounts(items)
  {
    hide Tally, Occurrences, InCounts;
    forall s | 0 <= s < SYMBOLS ensures Tally(counts, items)[s] == Occurrences(items, s) {
      TallyCounts(counts, items, s);
    }
  }

  lemma {:induction false} OccursIff(items: seq<Item>, s: int)
    ensures Occurrences(items, s) > 0 <==> exists i :: 0 <= i < |items| && items[i].symbol == s
  {
    if items != [] {
      var init := items[..|items| - 1];
      OccursIff(init, s);
      if i :| 0 <= i < |items| && items[i].symbol == s {
        if i < |init| {
          assert init[i].symbol == s;
        }
      }
    }
  }

  lemma {:induction false} TallySum(counts: seq<int>, items: seq<Item>)
    requires InCounts(items) && |counts| == SYMBOLS
    ensures Sum(Tally(counts, items), 256) == Sum(counts, 256) + |items|
  {
    if items != [] {
      var before := Tally(counts, items[..|items| - 1]);
      var s := items[|items| - 1].symbol;
      TallySum(counts, items[..|items| - 1]);
      Updated(before, 256, s, before[s] + 1);
    }
  }

  // ----- one block -----

  /** The checks of htest_one_block: at most 11 bits for the difference, 10 for the others. */
  predicate SmallBlock(b: seq<int>, last: int)
    requires IsBlock(b)
  {
    NBits(Abs(b[0] - last)) <= MAX_COEF_BITS + 1 && SmallAcs(b, 64)
  }

  predicate SmallAcs(b: seq<int>, n: nat)
    requires IsBlock(b) && n <= 64
  {
    forall k :: 1 <= k < n ==> NBits(Abs(At64(b, k))) <= MAX_COEF_BITS
  }

  predicate SmallItems(items: seq<Item>)
  {
    forall i :: 0 <= i < |items| ==> 0 <= items[i].symbol < 256 && items[i].symbol % 16 <= MAX_COEF_BITS + 1
  }

  lemma {:induction false} AcItemsSmall(b: seq<int>, k: nat, r: nat)
    requires IsBlock(b) && 1 <= k <= 64 && SmallAcs(b, 64)
    ensures SmallItems(AcItems(b, k, r))
    decreases 64 - k
  {
    hide NBits, Abs, At64, ValueBits, AcItems, SmallAcs;
    if k == 64 {
      LastItems(b, r);
    } else {
      AcStep(b, k, r);
      if At64(b, k) == 0 {
        AcItemsSmall(b, k + 1, r + 1);
      } else {
        AcItemsSmall(b, k + 1, 0);
        SmallAt(b, k);
        SmallSymbol(r % 16, NBits(Abs(At64(b, k))));
      }
    }
  }

  lemma SmallAt(b: seq<int>, k: nat)
    requires IsBlock(b) && 1 <= k < 64 && SmallAcs(b, 64)
    ensures NBits(Abs(At64(b, k))) <= MAX_COEF_BITS
  {
  }

  lemma {:induction false} AcItemsLength(b: seq<int>, k: nat, r: nat)
    requires IsBlock(b) && 1 <= k <= 64
    ensures |AcItems(b, k, r)| <= 64 - k + r / 16 + (if r > 0 then 1 else 0)
    decreases 64 - k
  {
    hide NBits, Abs, At64, ValueBits;
    if k < 64 {
      if At64(b, k) == 0 {
        AcItemsLength(b, k + 1, r + 1);
      } else {
        AcItemsLength(b, k + 1, 0);
      }
    }
  }

  lemma SmallSymbol(run: nat, n: nat)
    requires run < 16 && n <= MAX_COEF_BITS
    ensures 16 * run + n < 256 && (16 * run + n) % 16 == n
  {
    DivIs(16 * run + n, 16, run, n);
  }

  lemma {:induction false} SomeAcItem(b: seq<int>, k: nat, r: nat)
    requires IsBlock(b) && 1 <= k <= 64 && (k < 64 || r > 0)
    ensures |AcItems(b, k, r)| >= 1
    decreases 64 - k
  {
    if k < 64 && At64(b, k) == 0 {
      SomeAcItem(b, k + 1, r + 1);
    }
  }

  class Gatherer {
    var lastDcVal: seq<int>
    var dcCounts: seq<seq<int>>
    var acCounts: seq<seq<int>>

    predicate Valid()
      reads this
    {
      && |dcCounts| == |acCounts| == NUM_HUFF_TBLS
      && forall k :: 0 <= k < NUM_HUFF_TBLS ==> |dcCounts[k]| == |acCounts[k]| == SYMBOLS
    }

    /** start_pass_huff when gathering. */
    constructor (n: nat)
      ensures Valid() && lastDcVal == ZeroPredictions(n)
      ensures forall k, s :: 0 <= k < NUM_HUFF_TBLS && 0 <= s < SYMBOLS ==> dcCounts[k][s] == acCounts[k][s] == 0
    {
      lastDcVal := ZeroPredictions(n);
      var zero := seq(SYMBOLS, i => 0);
      dcCounts := [zero, zero, zero, zero];
      acCounts := [zero, zero, zero, zero];
    }

    /** The loop that counts the bits of a magnitude. */
    method CountBits(v: nat) returns (nbits: nat)
      ensures nbits == NBits(v)
    {
      var temp := v;
      nbits := 0;
      while temp > 0
        invariant nbits + NBits(temp) == NBits(v)
      {
        nbits := nbits + 1;
        temp := temp / 2;
      }
    }

    /** The DC part of htest_one_block. */
    method CountDifference(diff: int, dcNo: nat) returns (ok: bool)
      requires Valid() && dcNo < NUM_HUFF_TBLS
      modifies this`dcCounts
      ensures Valid() && (ok <==> NBits(Abs(diff)) <= MAX_COEF_BITS + 1)
      ensures ok ==> 0 <= Coded(0, diff).symbol < 256
      ensures ok ==> dcCounts == old(dcCounts)[dcNo := Tally(old(dcCounts[dcNo]), [Coded(0, diff)])]
    {
      var temp := if diff < 0 then -diff else diff;
      var nbits := CountBits(temp);
      if nbits > MAX_COEF_BITS + 1 {
        return false;
      }
      TallySnoc(dcCounts[dcNo], [], Coded(0, diff));
      assert [] + [Coded(0, diff)] == [Coded(0, diff)];
      dcCounts := dcCounts[dcNo := dcCounts[dcNo][nbits := dcCounts[dcNo][nbits] + 1]];
      return true;
    }
 
    /** The coefficient loop of htest_one_block. */
    method CountAcs(block: seq<int>, acNo: nat) returns (ok: bool)
      requires Valid() && IsBlock(block) && acNo < NUM_HUFF_TBLS
      modifies this`acCounts
      ensures Valid() && (ok <==> SmallAcs(block, 64))
      ensures ok ==> InCounts(AcItems(block, 1, 0))
      ensures ok ==> acCounts == old(acCounts)[acNo := Tally(old(acCounts[acNo]), AcItems(block, 1, 0))]
    {
      hide Tally, NBits, Abs, At64, AcItems, InCounts;
      var counts := acCounts[acNo];
      ghost var base := counts;
      ghost var items := AcItems(block, 1, 0);
      ghost var done: seq<Item> := [];
      NoneCounted(counts);
      var r, k := 0, 1;
      while k < 64
        invariant 1 <= k <= 64 && |counts| == SYMBOLS
        invariant done + AcItems(block, k, r) == items && SmallAcs(block, k)
        invariant InCounts(done) && counts == Tally(base, done) && acCounts == old(acCounts)
      {
        AcStep(block, k, r);
        var temp := At64(block, k);
        if temp == 0 {
          ZeroSmall();
          r := r + 1;
        } else {
          ghost var more;
          ok, counts, more := CountCoefficient(counts, base, temp, r, done, AcItems(block, k + 1, 0));
          if !ok {
            return;
          }
          done := more;
          r := 0;
        }
        k := k + 1;
      }
      LastItems(block, r);
      if r > 0 {
        TallySnoc(base, done, EOB);
        counts := counts[0 := counts[0] + 1];
        done := done + [EOB];
      }
      assert done + [] == done;
      acCounts := acCounts[acNo := counts];
      ok := true;
    }

    /** A nonzero coefficient after r zeros. */
    method CountCoefficient(counts0: seq<int>, ghost base: seq<int>, v: int, r0: nat, ghost done0: seq<Item>,
            ghost rest: seq<Item>)
      returns (ok: bool, counts: seq<int>, ghost done: seq<Item>)
      requires |counts0| == |base| == SYMBOLS && InCounts(done0) && counts0 == Tally(base, done0) && v != 0
      ensures ok <==> NBits(Abs(v)) <= MAX_COEF_BITS
      ensures ok ==> done + rest == done0 + (ZeroRuns(r0 / 16) + ([Coded(r0 % 16, v)] + rest))
      ensures |counts| == SYMBOLS && InCounts(done) && counts == Tally(base, done)
    {
      hide Tally, NBits, InCounts;
      counts, done := counts0, done0;
      ghost var tail := [Coded(r0 % 16, v)] + rest;
      var r := r0;
      while r > 15
        invariant 0 <= r && r % 16 == r0 % 16 && |counts| == SYMBOLS
        invariant done + (ZeroRuns(r / 16) + tail) == done0 + (ZeroRuns(r0 / 16) + tail)
        invariant InCounts(done) && counts == Tally(base, done)
      {
        ZeroRunsFront(r / 16, tail);
        TallySnoc(base, done, ZRL);
        ghost var after := ZeroRuns(r / 16 - 1) + tail;
        assert (done + [ZRL]) + after == done + ([ZRL] + after);
        counts := counts[0xF0 := counts[0xF0] + 1];
        done := done + [ZRL];
        r := r - 16;
      }
      assert ZeroRuns(0) + tail == tail;
      var nbits := CountBits(if v < 0 then -v else v);
      if nbits > MAX_COEF_BITS {
        ok := false;
        return;
      }
      SmallSymbol(r, nbits);
      TallySnoc(base, done, Coded(r, v));
      assert (done + [Coded(r, v)]) + rest == done + ([Coded(r, v)] + rest);
      counts := counts[16 * r + nbits := counts[16 * r + nbits] + 1];
      done := done + [Coded(r, v)];
      ok := true;
    }

    /** htest_one_block; false where the source reports a coefficient out of range. */
    method HtestOneBlock(block: seq<int>, last: int, dcNo: nat, acNo: nat) returns (ok: bool)
      requires Valid() && IsBlock(block) && dcNo < NUM_HUFF_TBLS && acNo < NUM_HUFF_TBLS
      modifies this`dcCounts, this`acCounts
      ensures Valid() && (ok <==> SmallBlock(block, last))
      ensures ok ==> InCounts([Coded(0, block[0] - last)]) && InCounts(AcItems(block, 1, 0))
      ensures ok ==> dcCounts == old(dcCounts)[dcNo := Tally(old(dcCounts[dcNo]), [Coded(0, block[0] - last)])]
      ensures ok ==> acCounts == old(acCounts)[acNo := Tally(old(acCounts[acNo]), AcItems(block, 1, 0))]
    {
      hide Tally, NBits, AcItems, SmallAcs;
      ok := CountDifference(block[0] - last, dcNo);
      if ok {
        ok := CountAcs(block, acNo);
      }
    }
  }

  lemma NoneCounted(counts: seq<int>)
    requires |counts| == SYMBOLS
    ensures InCounts([]) && Tally(counts, []) == counts
  {
  }

  lemma ZeroSmall()
    ensures NBits(Abs(0)) == 0
  {
  }
}
