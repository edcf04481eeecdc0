/**
 Huffman-coded scans (encode_mcu_huff and finish_pass_huff of jchuff.c): the blocks of a scan, each
 predicted from the last block of its component, written to bytes and read back.
 */
module HuffmanScan {
  import opened ByteStreams
  import opened Powers
  import opened Wrappers
  import opened HuffmanCode
  import opened HuffmanBits
  import opened HuffmanBlocks
  import opened HuffmanRoundTrip

  const NUM_HUFF_TBLS: nat := 4

  /** The tables a component uses. */
  datatype Comp = Comp(dcNo: nat, acNo: nat)

  /** A block and the component it belongs to. */
  datatype Unit = Unit(ci: nat, block: seq<int>)

  datatype Tables = Tables(dc: seq<Table>, ac: seq<Table>)

  predicate CompsOk(comps: seq<Comp>)
  {
    forall c :: 0 <= c < |comps| ==> comps[c].dcNo < NUM_HUFF_TBLS && comps[c].acNo < NUM_HUFF_TBLS
  }

  /** Four table slots of each kind; a slot no component uses may hold anything of the right size. */
  predicate Setup(comps: seq<Comp>, t: Tables)
  {
    && CompsOk(comps) && |t.dc| == |t.ac| == NUM_HUFF_TBLS
    && forall k :: 0 <= k < NUM_HUFF_TBLS ==> |t.dc[k].bits| == |t.ac[k].bits| == 17
  }

  predicate UnitsOk(units: seq<Unit>, comps: seq<Comp>)
  {
    forall i :: 0 <= i < |units| ==> units[i].ci < |comps| && IsBlock(units[i].block)
  }

  /** Every block can be coded with the tables of its component, given the predictions at the start. */
  ghost predicate Writable(units: seq<Unit>, comps: seq<Comp>, t: Tables, last: seq<int>)
    requires UnitsOk(units, comps) && Setup(comps, t) && |last| == |comps|
  {
    if units == [] then true
    else
      var u := units[0];
      var (dc, ac) := (t.dc[comps[u.ci].dcNo], t.ac[comps[u.ci].acNo]);
      && IsTable(dc, 15) && IsTable(ac, 255)
      && Encodable(u.block, last[u.ci]) && BlockCoded(u.block, last[u.ci], dc.derived, ac.derived)
      && Writable(units[1..], comps, t, last[u.ci := u.block[0]])
  }

  /** The bits of a run of blocks. */
  ghost function UnitsBits(units: seq<Unit>, comps: seq<Comp>, t: Tables, last: seq<int>): seq<bool>
    requires UnitsOk(units, comps) && Setup(comps, t) && |last| == |comps|
    requires Writable(units, comps, t, last)
  {
    if units == [] then []
    else
      var u := units[0];
      BlockBits(u.block, last[u.ci], t.dc[comps[u.ci].dcNo].derived, t.ac[comps[u.ci].acNo].derived)
        + UnitsBits(units[1..], comps, t, last[u.ci := u.block[0]])
  }

  /** decode_mcu: blocks of the given components in turn. */
  function DecodeUnits(cis: seq<nat>, comps: seq<Comp>, t: Tables, last: seq<int>, s: seq<bool>):
    (r: Option<(seq<Unit>, seq<bool>)>)
    requires Setup(comps, t) && |last| == |comps|
    requires forall i :: 0 <= i < |cis| ==> cis[i] < |comps|
  {
    if cis == [] then Some(([], s))
    else
      var ci := cis[0];
      match DecodeBlock(t.dc[comps[ci].dcNo], t.ac[comps[ci].acNo], last[ci], s)
      case None => None
      case Some((b, rest)) =>
        match DecodeUnits(cis[1..], comps, t, last[ci := b[0]], rest)
        case None => None
        case Some((more, rest')) => Some(([Unit(ci, b)] + more, rest'))
  }

  function Components(units: seq<Unit>): (cis: seq<nat>)
    ensures |cis| == |units| && forall i :: 0 <= i < |cis| ==> cis[i] == units[i].ci
  {
    if units == [] then [] else [units[0].ci] + Components(units[1..])
  }

  /** No AC coefficient of -32768 in any block. */
  ghost predicate UnitsNoLeast(units: seq<Unit>, comps: seq<Comp>)
    requires UnitsOk(units, comps)
  {
    forall i :: 0 <= i < |units| ==> NoLeast(units[i].block)
  }

  /** All blocks of a scan come back, with whatever predictions it starts from. */
  lemma {:induction false} UnitsRoundTrip(units: seq<Unit>, comps: seq<Comp>, t: Tables, last: seq<int>, rest: seq<bool>)
    requires UnitsOk(units, comps) && Setup(comps, t) && |last| == |comps|
    requires Writable(units, comps, t, last) && UnitsNoLeast(units, comps)
    ensures DecodeUnits(Components(units), comps, t, last, UnitsBits(units, comps, t, last) + rest)
      == Some((units, rest))
  {
    hide IsTable, BlockCoded, BlockBits, DecodeBlock, Encodable, NoLeast;
    if units == [] {
      assert [] + rest == rest;
    } else {
      var u := units[0];
      var (dc, ac) := (t.dc[comps[u.ci].dcNo], t.ac[comps[u.ci].acNo]);
      var bits := BlockBits(u.block, last[u.ci], dc.derived, ac.derived);
      var next := last[u.ci := u.block[0]];
      var tail := UnitsBits(units[1..], comps, t, next);
      assert bits + tail + rest == bits + (tail + rest);
      BlockRoundTrip(dc, ac, u.block, last[u.ci], tail + rest);
      UnitsRoundTrip(units[1..], comps, t, next, rest);
      assert Components(units)[1..] == Components(units[1..]);
      assert [Unit(u.ci, u.block)] + units[1..] == units;
    }
  }

  /** Whatever bits are read, with whatever predictions, no block with a coefficient of -32768 comes out. */
  lemma {:induction false} LeastNotRead(units: seq<Unit>, comps: seq<Comp>, t: Tables, last: seq<int>, read: seq<int>, s: seq<bool>)
    requires UnitsOk(units, comps) && Setup(comps, t) && |last| == |read| == |comps|
    requires Writable(units, comps, t, last)
    ensures var r := DecodeUnits(Components(units), comps, t, read, s);
      r.Some? && r.value.0 == units ==> UnitsNoLeast(units, comps)
  {
    hide IsTable, BlockCoded, BlockBits, DecodeBlock, Encodable, NoLeast;
    var r := DecodeUnits(Components(units), comps, t, read, s);
    if units != [] && r.Some? && r.value.0 == units {
      var u := units[0];
      var (dc, ac) := (t.dc[comps[u.ci].dcNo], t.ac[comps[u.ci].acNo]);
      DecodedBlockSmall(dc, ac, read[u.ci], s);
      var (b, rest) := DecodeBlock(dc, ac, read[u.ci], s).value;
      assert Components(units)[1..] == Components(units[1..]);
      var more := DecodeUnits(Components(units[1..]), comps, t, read[u.ci := b[0]], rest).value.0;
      assert ([Unit(u.ci, b)] + more)[0] == Unit(u.ci, b) && ([Unit(u.ci, b)] + more)[1..] == more;
      LeastNotRead(units[1..], comps, t, last[u.ci := u.block[0]], read[u.ci := b[0]], rest);
      assert units == [units[0]] + units[1..];
      forall i | 0 <= i < |units| ensures NoLeast(units[i].block) {
        assert i > 0 ==> units[i] == units[1..][i - 1];
      }
    }
  }

  // ----- writing -----

  function ZeroPredictions(n: nat): (r: seq<int>)
    ensures |r| == n
  {
    seq(n, i => 0)
  }

  /** The bits pending in a 64-bit buffer after the blocks, with n before them. */
  ghost function UnitsAfter(units: seq<Unit>, comps: seq<Comp>, t: Tables, last: seq<int>, n: nat): nat
    requires UnitsOk(units, comps) && Setup(comps, t) && |last| == |comps|
    requires Writable(units, comps, t, last)
  {
    if units == [] then n
    else
      var u := units[0];
      var (dc, ac) := (t.dc[comps[u.ci].dcNo].derived, t.ac[comps[u.ci].acNo].derived);
      UnitsAfter(units[1..], comps, t, last[u.ci := u.block[0]], BlockAfter(u.block, last[u.ci], dc, ac, n))
  }

  /** The blocks of a scan, in order. */
  method EncodeUnits(w: BitWriter, units: seq<Unit>, comps: seq<Comp>, t: Tables)
    requires UnitsOk(units, comps) && Setup(comps, t)
    requires w.Valid() && Writable(units, comps, t, ZeroPredictions(|comps|))
    modifies w
    ensures w.Valid() && old(w.out) <= w.out
    ensures w.Stream() == old(w.Stream()) + UnitsBits(units, comps, t, ZeroPredictions(|comps|))
    ensures w.width == 64 ==> w.putBits == UnitsAfter(units, comps, t, ZeroPredictions(|comps|), old(w.putBits))
  {
    hide w.Valid, w.Sound, w.Stream, IsTable, BlockCoded, BlockBits, BlockAfter, Encodable, ZeroPredictions;
    var lastDcVal := ZeroPredictions(|comps|);
    ghost var start, all := w.Stream(), UnitsBits(units, comps, t, lastDcVal);
    ghost var pending := UnitsAfter(units, comps, t, lastDcVal, w.putBits);
    var i := 0;
    assert units[0..] == units;
    while i < |units|
      invariant 0 <= i <= |units| && |lastDcVal| == |comps| && w.Valid() && old(w.out) <= w.out
      invariant UnitsOk(units[i..], comps) && Writable(units[i..], comps, t, lastDcVal)
      invariant w.Stream() + UnitsBits(units[i..], comps, t, lastDcVal) == start + all
      invariant w.width == 64 ==> UnitsAfter(units[i..], comps, t, lastDcVal, w.putBits) == pending
    {
      var ci, block := units[i].ci, units[i].block;
      assert units[i..][0] == units[i] && units[i..][1..] == units[i + 1..];
      ghost var more := UnitsBits(units[i + 1..], comps, t, lastDcVal[ci := block[0]]);
      ghost var before := w.Stream();
      EncodeOneBlock(w, block, lastDcVal[ci], t.dc[comps[ci].dcNo].derived, t.ac[comps[ci].acNo].derived);
      assert w.Stream() + more == before + (w.Stream()[|before|..] + more);
      lastDcVal := lastDcVal[ci := block[0]];
      i := i + 1;
    }
    assert w.Stream() + [] == w.Stream();
  }

  /** Reading all blocks of a scan from bits padded at the end. */
  predicate ReadsBack(units: seq<Unit>, comps: seq<Comp>, t: Tables, s: seq<bool>)
    requires UnitsOk(units, comps) && Setup(comps, t)
  {
    var r := DecodeUnits(Components(units), comps, t, ZeroPredictions(|comps|), s);
    r.Some? && r.value.0 == units
  }

  /** The bits a scan ends up as: those of its blocks, without what the flush loses. */
  ghost function ScanBits(width: nat, units: seq<Unit>, comps: seq<Comp>, t: Tables): seq<bool>
    requires UnitsOk(units, comps) && Setup(comps, t)
    requires Writable(units, comps, t, ZeroPredictions(|comps|))
  {
    var bits := UnitsBits(units, comps, t, ZeroPredictions(|comps|));
    var n := UnitsAfter(units, comps, t, ZeroPredictions(|comps|), 0);
    if n <= |bits| then Kept(width, bits, n) else bits
  }

  /** Nothing is lost: at most 57 bits are pending at the end, or the ones before the last 57 are all zero. */
  ghost predicate NothingLost(width: nat, units: seq<Unit>, comps: seq<Comp>, t: Tables)
    requires UnitsOk(units, comps) && Setup(comps, t)
    requires Writable(units, comps, t, ZeroPredictions(|comps|))
  {
    var bits := UnitsBits(units, comps, t, ZeroPredictions(|comps|));
    var n := UnitsAfter(units, comps, t, ZeroPredictions(|comps|), 0);
    width == 32 || n <= 57 || forall i :: 0 <= i && |bits| - n <= i < |bits| - 57 ==> !bits[i]
  }

  /** What finish_pass_huff leaves, read up to the next marker. */
  lemma ScanRoundTrip(units: seq<Unit>, comps: seq<Comp>, t: Tables, raw: seq<int>, tail: seq<int>)
    requires UnitsOk(units, comps) && Setup(comps, t)
    requires Writable(units, comps, t, ZeroPredictions(|comps|))
    requires BytesBits(raw) == Padded(UnitsBits(units, comps, t, ZeroPredictions(|comps|)))
    requires tail == [] || StartsMarker(tail)
    ensures ReadsBack(units, comps, t, BytesBits(Unstuff(Stuff(raw) + tail))) <==> UnitsNoLeast(units, comps)
  {
    hide UnitsOk, Setup, Writable, UnitsBits, DecodeUnits, BytesBits, Stuff, Unstuff, ZeroPredictions, UnitsNoLeast;
    var zero := ZeroPredictions(|comps|);
    var bits := UnitsBits(units, comps, t, zero);
    UnstuffStuff(raw, tail);
    if UnitsNoLeast(units, comps) {
      UnitsRoundTrip(units, comps, t, zero, Ones((8 - |bits| % 8) % 8));
    } else {
      LeastNotRead(units, comps, t, zero, zero, BytesBits(raw));
    }
  }

  /** A kept stream is the whole stream exactly when what it clears was clear. */
  lemma KeptIs(width: nat, s: seq<bool>, n: nat)
    requires n <= |s|
    ensures Kept(width, s, n) == s <==>
      width != 64 || n <= 57 || forall i :: |s| - n <= i < |s| - 57 ==> !s[i]
  {
    if width == 64 && n > 57 {
      ClearBits(n - 57);
      var k := Kept(width, s, n);
      assert forall i :: |s| - n <= i < |s| - 57 ==> !k[i];
      if forall i :: |s| - n <= i < |s| - 57 ==> !s[i] {
        assert forall i :: 0 <= i < |s| ==> k[i] == s[i];
      }
    }
  }

  lemma {:induction false} ClearBits(n: nat)
    ensures forall i :: 0 <= i < n ==> !BitsOf(0, n)[i]
  {
    if n > 0 {
      ClearBits(n - 1);
    }
  }

  /**
   A whole scan, read up to the marker that follows it: its bytes are the bits of its blocks but for what the
   flush loses. When nothing is lost they decode to the blocks, unless one has a coefficient of -32768.
   */
  method EncodeScan(width: nat, units: seq<Unit>, comps: seq<Comp>, t: Tables, ghost tail: seq<int>)
    returns (out: seq<int>)
    requires width in {32, 64} && UnitsOk(units, comps) && Setup(comps, t)
    requires Writable(units, comps, t, ZeroPredictions(|comps|))
    requires tail == [] || StartsMarker(tail)
    ensures BytesBits(Unstuff(out + tail)) == Padded(ScanBits(width, units, comps, t))
    ensures BytesBits(Unstuff(out + tail)) == Padded(UnitsBits(units, comps, t, ZeroPredictions(|comps|)))
      <==> NothingLost(width, units, comps, t)
    ensures NothingLost(width, units, comps, t) ==>
      (ReadsBack(units, comps, t, BytesBits(Unstuff(out + tail))) <==> UnitsNoLeast(units, comps))
  {
    hide IsTable, BlockCoded, BlockBits, ZeroPredictions, ReadsBack, UnitsBits, UnitsAfter, Writable, Setup, UnitsOk,
      Pow2, BytesBits, Padded, Stuff, Unstuff, Kept, UnitsNoLeast;
    var w := new BitWriter(width);
    EncodeUnits(w, units, comps, t);
    ghost var bits := UnitsBits(units, comps, t, ZeroPredictions(|comps|));
    assert [] + bits == bits;
    ghost var n := w.putBits;
    w.Flush();
    out := w.out;
    UnstuffStuff(w.raw, tail);
    if width == 64 {
      KeptIs(width, bits, n);
    } else {
      KeptIs(width, bits, n);
      KeptNarrow(bits, n);
    }
    PaddedSame(Kept(width, bits, n), bits);
    if NothingLost(width, units, comps, t) {
      ScanRoundTrip(units, comps, t, w.raw, tail);
    }
  }

  lemma KeptNarrow(s: seq<bool>, n: nat)
    ensures forall m :: 0 <= m <= |s| ==> Kept(32, s, m) == s
  {
  }

  lemma PaddedSame(a: seq<bool>, b: seq<bool>)
    requires |a| == |b|
    ensures Padded(a) == Padded(b) <==> a == b
  {
    if Padded(a) == Padded(b) {
      assert a == Padded(a)[..|a|] == Padded(b)[..|b|] == b;
    }
  }
}
