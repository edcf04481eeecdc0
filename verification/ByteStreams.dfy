/**
 Byte strings as the entropy coders write them: base-256 numbers and fractions, and the
 0xFF/0x00 byte stuffing of section B.1.1.5 of ITU-T T.81.
 */
module ByteStreams {

  predicate IsByte(b: int) { 0 <= b < 256 }

  predicate IsBytes(s: seq<int>) { forall i :: 0 <= i < |s| ==> IsByte(s[i]) }

  /** v shifted left by k places. */
  function Shl(v: int, k: nat): (r: int)
    ensures v >= 0 ==> r >= v
  {
    if k == 0 then v else 2 * Shl(v, k - 1)
  }

  lemma {:induction false} ShlSplit(v: int, j: nat, k: nat)
    ensures Shl(Shl(v, j), k) == Shl(v, j + k)
  {
    if k > 0 {
      ShlSplit(v, j, k - 1);
    }
  }

  lemma {:induction false} ShlAdd(v: int, w: int, k: nat)
    ensures Shl(v + w, k) == Shl(v, k) + Shl(w, k)
  {
    if k > 0 {
      ShlAdd(v, w, k - 1);
    }
  }

  lemma Shl8(v: int)
    ensures Shl(v, 8) == 256 * v
  {
    assert Shl(v, 1) == 2 * v;
    assert Shl(v, 2) == 4 * v;
    assert Shl(v, 3) == 8 * v;
    assert Shl(v, 4) == 16 * v;
    assert Shl(v, 5) == 32 * v;
    assert Shl(v, 6) == 64 * v;
    assert Shl(v, 7) == 128 * v;
  }

  lemma Shl19(v: int)
    ensures Shl(v, 19) == 524288 * v
  {
    Shl8(v);
    Shl8(256 * v);
    ShlSplit(v, 8, 8);
    ShlSplit(v, 16, 3);
    assert Shl(65536 * v, 1) == 131072 * v;
    assert Shl(65536 * v, 2) == 262144 * v;
  }

  /** A value scaled by 2^k. */
  function Dbl(v: real, k: nat): real
  {
    if k == 0 then v else 2.0 * Dbl(v, k - 1)
  }

  function Hlv(v: real, k: nat): real
  {
    if k == 0 then v else Hlv(v, k - 1) / 2.0
  }

  lemma {:induction false} DblSplit(v: real, j: nat, k: nat)
    ensures Dbl(Dbl(v, j), k) == Dbl(v, j + k)
  {
    if k > 0 {
      DblSplit(v, j, k - 1);
    }
  }

  lemma {:induction false} DblHlv(v: real, k: nat)
    ensures Dbl(Hlv(v, k), k) == v
    decreases k
  {
    if k > 0 {
      HlvLinear(v, k - 1);
      DblHlv(v / 2.0, k - 1);
    }
  }

  lemma {:induction false} HlvLinear(v: real, k: nat)
    ensures Hlv(v, k) / 2.0 == Hlv(v / 2.0, k)
  {
    if k > 0 {
      HlvLinear(v, k - 1);
    }
  }

  lemma {:induction false} DblInjective(v: real, w: real, k: nat)
    requires Dbl(v, k) == Dbl(w, k)
    ensures v == w
  {
    if k > 0 {
      DblInjective(v, w, k - 1);
    }
  }

  lemma {:induction false} DblOfInt(v: int, k: nat)
    ensures Dbl(v as real, k) == Shl(v, k) as real
  {
    if k > 0 {
      DblOfInt(v, k - 1);
    }
  }

  /** The base-256 number written by ds, most significant byte first. */
  function Val(ds: seq<int>): int
  {
    if ds == [] then 0 else 256 * Val(ds[..|ds| - 1]) + ds[|ds| - 1]
  }

  lemma ValSnoc(ds: seq<int>, b: int)
    ensures Val(ds + [b]) == 256 * Val(ds) + b
  {
    assert (ds + [b])[..|ds|] == ds;
  }

  /** The same bytes read as a base-256 fraction: 0.d1 d2 d3 ... */
  function Frac(ds: seq<int>): real
  {
    Hlv(Val(ds) as real, 8 * |ds|)
  }

  /** Trailing zero bytes do not change the fraction. */
  lemma FracTrailingZero(ds: seq<int>)
    ensures Frac(ds + [0]) == Frac(ds)
  {
    ValSnoc(ds, 0);
    var k := 8 * |ds|;
    DblHlv(Val(ds) as real, k);
    DblHlv(Val(ds + [0]) as real, k + 8);
    DblSplit(Frac(ds), k, 8);
    DblOfInt(Val(ds), 8);
    Shl8(Val(ds));
    DblInjective(Frac(ds + [0]), Frac(ds), k + 8);
  }

  function Repeat(b: int, n: nat): (r: seq<int>)
    ensures |r| == n
  {
    if n == 0 then [] else Repeat(b, n - 1) + [b]
  }

  lemma {:induction false} FracTrailingZeros(ds: seq<int>, n: nat)
    ensures Frac(ds + Repeat(0, n)) == Frac(ds)
  {
    if n == 0 {
      assert ds + Repeat(0, 0) == ds;
    } else {
      FracTrailingZeros(ds, n - 1);
      FracTrailingZero(ds + Repeat(0, n - 1));
      assert ds + Repeat(0, n) == ds + Repeat(0, n - 1) + [0];
    }
  }

  /** Adding one to a run of stacked 0xFF bytes turns them into zeros and carries into b. */
  lemma {:induction false} CarryThroughFF(ds: seq<int>, b: int, n: nat)
    ensures Val(ds + [b] + Repeat(255, n)) + 1 == Val(ds + [b + 1] + Repeat(0, n))
  {
    if n == 0 {
      assert ds + [b] + Repeat(255, 0) == ds + [b];
      assert ds + [b + 1] + Repeat(0, 0) == ds + [b + 1];
      ValSnoc(ds, b);
      ValSnoc(ds, b + 1);
    } else {
      CarryThroughFF(ds, b, n - 1);
      assert ds + [b] + Repeat(255, n) == ds + [b] + Repeat(255, n - 1) + [255];
      assert ds + [b + 1] + Repeat(0, n) == ds + [b + 1] + Repeat(0, n - 1) + [0];
      ValSnoc(ds + [b] + Repeat(255, n - 1), 255);
      ValSnoc(ds + [b + 1] + Repeat(0, n - 1), 0);
    }
  }

  /** A run of 0xFF bytes is one less than a power of 256. */
  lemma {:induction false} AllFF(n: nat)
    ensures Val(Repeat(255, n)) + 1 == Shl(1, 8 * n)
  {
    if n > 0 {
      AllFF(n - 1);
      assert Repeat(255, n) == Repeat(255, n - 1) + [255];
      ValSnoc(Repeat(255, n - 1), 255);
      ShlSplit(1, 8 * (n - 1), 8);
      Shl8(Shl(1, 8 * (n - 1)));
    }
  }

  // ----- byte stuffing -----

  function StuffByte(b: int): seq<int>
  {
    if b == 255 then [255, 0] else [b]
  }

  function Stuff(ds: seq<int>): seq<int>
  {
    if ds == [] then [] else Stuff(ds[..|ds| - 1]) + StuffByte(ds[|ds| - 1])
  }

  lemma StuffSnoc(ds: seq<int>, b: int)
    ensures Stuff(ds + [b]) == Stuff(ds) + StuffByte(b)
  {
    assert (ds + [b])[..|ds|] == ds;
  }

  lemma {:induction false} StuffConcat(a: seq<int>, b: seq<int>)
    ensures Stuff(a + b) == Stuff(a) + Stuff(b)
  {
    if b == [] {
      assert a + b == a;
    } else {
      var c, z := b[..|b| - 1], b[|b| - 1];
      calc {
        Stuff(a + b);
        { assert a + b == (a + c) + [z]; StuffSnoc(a + c, z); }
        Stuff(a + c) + StuffByte(z);
        { StuffConcat(a, c); }
        (Stuff(a) + Stuff(c)) + StuffByte(z);
        Stuff(a) + (Stuff(c) + StuffByte(z));
        Stuff(a) + Stuff(b);
      }
    }
  }

  /** A run of fill bytes 0xFF is skipped as one. */
  function SkipFF(s: seq<int>): (r: seq<int>)
    ensures |r| <= |s|
  {
    if s != [] && s[0] == 255 then SkipFF(s[1..]) else s
  }

  /** The data bytes a reader of a stuffed stream gets before the first marker or the end. */
  function Unstuff(s: seq<int>): seq<int>
    decreases |s|
  {
    if s == [] then []
    else if s[0] != 255 then [s[0]] + Unstuff(s[1..])
    else
      var t := SkipFF(s[1..]);
      if t != [] && t[0] == 0 then [255] + Unstuff(t[1..]) else []
  }

  lemma {:induction false} UnstuffBytes(s: seq<int>)
    requires IsBytes(s)
    ensures IsBytes(Unstuff(s))
    decreases |s|
  {
    if s != [] {
      if s[0] != 255 {
        UnstuffBytes(s[1..]);
      } else {
        SkipFFBytes(s[1..]);
        var t := SkipFF(s[1..]);
        if t != [] {
          UnstuffBytes(t[1..]);
        }
      }
    }
  }

  lemma {:induction false} SkipFFBytes(s: seq<int>)
    requires IsBytes(s)
    ensures IsBytes(SkipFF(s))
  {
    if s != [] && s[0] == 255 {
      SkipFFBytes(s[1..]);
    }
  }

  /** A marker: 0xFF, then a byte that is neither a stuffed zero nor a fill byte. */
  predicate StartsMarker(s: seq<int>)
  {
    |s| >= 2 && s[0] == 255 && s[1] != 0 && s[1] != 255
  }

  /** Reading a stuffed stream back, up to a marker that may follow it. */
  lemma {:induction false} UnstuffStuff(ds: seq<int>, tail: seq<int>)
    requires tail == [] || StartsMarker(tail)
    ensures Unstuff(Stuff(ds) + tail) == ds
    decreases |ds|
  {
    if ds == [] {
      NothingStuffed(tail);
    } else {
      hide Stuff, Unstuff, StuffByte;
      var rest := ds[1..];
      UnstuffStuff(rest, tail);
      StuffHead(ds, tail);
      UnstuffHead(ds[0], Stuff(rest) + tail);
    }
  }

  lemma NothingStuffed(tail: seq<int>)
    requires tail == [] || StartsMarker(tail)
    ensures Unstuff(Stuff([]) + tail) == []
  {
    assert Stuff([]) + tail == tail;
  }

  lemma StuffHead(ds: seq<int>, tail: seq<int>)
    requires ds != []
    ensures Stuff(ds) + tail == StuffByte(ds[0]) + (Stuff(ds[1..]) + tail)
  {
    hide StuffByte;
    assert ds == [ds[0]] + ds[1..];
    StuffConcat([ds[0]], ds[1..]);
    assert [ds[0]][..0] == [];
    assert Stuff([ds[0]]) == StuffByte(ds[0]);
  }

  lemma UnstuffHead(b: int, s: seq<int>)
    ensures Unstuff(StuffByte(b) + s) == [b] + Unstuff(s)
  {
    var t := StuffByte(b) + s;
    if b == 255 {
      assert t[1..] == [0] + s;
      assert SkipFF(t[1..]) == t[1..];
      assert t[1..][1..] == s;
    } else {
      assert t[1..] == s;
    }
  }

  /** Every 0xFF in a stuffed stream is followed by 0x00. */
  lemma {:induction false} StuffHasNoMarker(ds: seq<int>, i: nat)
    requires i < |Stuff(ds)| && Stuff(ds)[i] == 255
    ensures i + 1 < |Stuff(ds)| && Stuff(ds)[i + 1] == 0
  {
    var init := ds[..|ds| - 1];
    if i < |Stuff(init)| {
      StuffHasNoMarker(init, i);
    }
  }
}
