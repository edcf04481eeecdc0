/**
 The bit buffer of the Huffman encoder (macros EMIT_BYTE to EMIT_CODE and flush_bits of jchuff.c), in
 its 64-bit and 32-bit variants: both write the plain concatenation of the bit strings they are given.
 */
module HuffmanBits {
  import opened Powers
  import opened ByteStreams
  import opened HuffmanCode

  function BytesBits(ds: seq<int>): (r: seq<bool>)
    ensures |r| == 8 * |ds|
  {
    if ds == [] then [] else BytesBits(ds[..|ds| - 1]) + BitsOf(ds[|ds| - 1], 8)
  }

  lemma BytesBitsSnoc(ds: seq<int>, b: int)
    ensures BytesBits(ds + [b]) == BytesBits(ds) + BitsOf(b, 8)
  {
    assert (ds + [b])[..|ds|] == ds;
  }

  lemma ModHalf(v: int, p: int)
    requires p >= 1
    ensures (v % (2 * p)) / 2 == (v / 2) % p && (v % (2 * p)) % 2 == v % 2
  {
    var q, r := v / (2 * p), v % (2 * p);
    assert v == 2 * (q * p) + r by {
      assert q * (2 * p) == 2 * (q * p);
    }
    DivIs(v / 2, p, q, r / 2);
  }

  /** The low bits of a number do not depend on its bits from w up. */
  lemma {:induction false} BitsMod(v: int, n: nat, w: nat)
    requires n <= w
    ensures BitsOf(v % Pow2(w), n) == BitsOf(v, n)
    decreases n
  {
    if n > 0 {
      ModHalf(v, Pow2(w - 1));
      BitsMod(v / 2, n - 1, w - 1);
    }
  }

  lemma DigitRange(b: int, k: int, p: int)
    requires 0 <= b < k && p >= 1
    ensures 0 <= b * p <= p * k - p
  {
    MulMonotone(0, b, p);
    MulMonotone(b, k - 1, p);
  }

  lemma Regroup(a: int, k: int, b: int, p: int)
    ensures (a * k + b) * p == a * (p * k) + b * p
  {
    assert (a * k + b) * p == a * k * p + b * p;
    assert a * k * p == a * (p * k);
  }

  lemma ShiftInFactor(v: int, code: int, p: int, k: int)
    requires 0 <= code < p && k >= 1
    ensures p * k >= 1 && (v * p) % (p * k) + code == (v * p + code) % (p * k) < p * k
    ensures (v * p) % (p * k) >= 0
  {
    var q, r := v / k, v % k;
    DigitRange(r, k, p);
    Regroup(q, k, r, p);
    DivIs(v * p, p * k, q, r * p);
    DivIs(v * p + code, p * k, q, r * p + code);
  }

  /** Shifting code into a register of w bits. */
  lemma ShiftIn(v: int, code: int, size: nat, w: nat)
    requires 0 <= code < Pow2(size) && size <= w
    ensures (v * Pow2(size)) % Pow2(w) + code == (v * Pow2(size) + code) % Pow2(w)
    ensures 0 <= (v * Pow2(size)) % Pow2(w) + code < Pow2(w)
  {
    hide Pow2;
    Pow2Add(size, w - size);
    ShiftInFactor(v, code, Pow2(size), Pow2(w - size));
  }

  /** The top eight of n bits, and the others. */
  lemma TopByte(v: int, n: nat)
    requires n >= 8
    ensures BitsOf(v, n) == BitsOf((v / Pow2(n - 8)) % 256, 8) + BitsOf(v, n - 8)
  {
    hide BitsOf, Pow2;
    var p := Pow2(n - 8);
    var a, b := v / p, v % p;
    BitsConcat(a, b, 8, n - 8);
    BitsMod(v, n - 8, n - 8);
    BitsMod(a, 8, 8);
    Pow2At8();
    assert a * p + b == v;
  }

  lemma Pow2At8()
    ensures Pow2(8) == 256 && Pow2(7) == 128
  {
    assert Pow2(3) == 8 && Pow2(5) == 32;
  }

  function Ones(n: nat): (r: seq<bool>)
    ensures |r| == n
  {
    if n == 0 then [] else Ones(n - 1) + [true]
  }

  /** A bit string filled up to whole bytes with ones. */
  function Padded(s: seq<bool>): (r: seq<bool>)
    ensures |r| % 8 == 0 && |s| <= |r| < |s| + 8
  {
    s + Ones((8 - |s| % 8) % 8)
  }

  // ----- what a flush writes -----

  /** Register v of w bits after seven ones have been shifted in. */
  function SevenIn(v: int, w: nat): int
  {
    (v * Pow2(7) + 127) % Pow2(w)
  }

  lemma {:induction false} BitsZero(q: int, k: nat)
    ensures BitsOf(q, k) == BitsOf(0, k) <==> q % Pow2(k) == 0
    decreases k
  {
    if k > 0 {
      BitsZero(q / 2, k - 1);
      ModHalf(q, Pow2(k - 1));
      assert BitsOf(q, k) == BitsOf(q / 2, k - 1) + [q % 2 == 1];
      assert BitsOf(0, k) == BitsOf(0, k - 1) + [false];
      if BitsOf(q, k) == BitsOf(0, k) {
        assert BitsOf(q, k)[..k - 1] == BitsOf(q / 2, k - 1) && BitsOf(q, k)[k - 1] == (q % 2 == 1);
        assert BitsOf(0, k)[..k - 1] == BitsOf(0, k - 1);
      }
    }
  }

  lemma HighPart(v: int, p: int, k: int)
    requires p >= 1 && k >= 1
    ensures p * k >= 1 && ((v / p) % k == 0 <==> v % (p * k) < p)
  {
    var q, r := v / p, v % p;
    var a, b := q / k, q % k;
    DigitRange(b, k, p);
    Regroup(a, k, b, p);
    DivIs(v, p * k, a, b * p + r);
    if b >= 1 {
      MulMonotone(1, b, p);
    }
  }

  /** The bits of v from place j to place n are zero exactly when its low n bits are less than 2 to the j. */
  lemma HighBitsZero(v: int, j: nat, n: nat)
    requires j <= n
    ensures (v / Pow2(j)) % Pow2(n - j) == 0 <==> v % Pow2(n) < Pow2(j)
  {
    hide Pow2;
    Pow2Add(j, n - j);
    HighPart(v, Pow2(j), Pow2(n - j));
  }

  lemma SevenOnes()
    ensures BitsOf(127, 7) == Ones(7)
  {
    assert BitsOf(1, 1) == BitsOf(0, 0) + [true] == Ones(1);
    assert BitsOf(3, 2) == Ones(2);
    assert BitsOf(7, 3) == Ones(3);
    assert BitsOf(15, 4) == Ones(4);
    assert BitsOf(31, 5) == Ones(5);
    assert BitsOf(63, 6) == Ones(6);
  }

  lemma {:induction false} OnesSplit(j: nat, k: nat)
    ensures Ones(j + k) == Ones(j) + Ones(k)
  {
    if k > 0 {
      OnesSplit(j, k - 1);
    } else {
      assert Ones(j) + [] == Ones(j);
    }
  }

  /** Shifting in seven ones keeps all bits exactly when the pending bits leave room for them. */
  lemma SevenShifted(v: int, n: nat, w: nat)
    requires w >= 7
    ensures BitsOf(v * Pow2(7) + 127, n + 7) == BitsOf(v, n) + Ones(7)
    ensures w < n + 7 ==>
      var x := v * Pow2(7) + 127;
      var k := n + 7 - w;
      BitsOf(x, n + 7) == BitsOf(v / Pow2(w - 7), k) + BitsOf(x % Pow2(w), w) &&
      BitsOf(x % Pow2(w), n + 7) == BitsOf(0, k) + BitsOf(x % Pow2(w), w)
  {
    hide Pow2, BitsOf, Ones;
    Pow2At8();
    SevenOnes();
    BitsConcat(v, 127, n, 7);
    if w < n + 7 {
      var x, k := v * Pow2(7) + 127, n + 7 - w;
      var q, r := v / Pow2(w - 7), v % Pow2(w - 7);
      Pow2Add(7, w - 7);
      DivIs(x, Pow2(w), q, r * 128 + 127) by {
        assert q * (128 * Pow2(w - 7)) == 128 * (q * Pow2(w - 7));
      }
      BitsConcat(q, r * 128 + 127, k, w);
      BitsConcat(0, r * 128 + 127, k, w);
      assert 0 * Pow2(w) == 0;
    }
  }

  /** What a flush keeps of s with n bits pending: with more than 57, those in front of the last 57 become zero. */
  function Kept(width: nat, s: seq<bool>, n: nat): (r: seq<bool>)
    requires n <= |s|
    ensures |r| == |s|
  {
    if width == 64 && n > 57 then s[..|s| - n] + BitsOf(0, n - 57) + s[|s| - 57..] else s
  }

  /** The register after the shift holds what is kept of its n pending bits, and seven ones. */
  lemma KeptRegister(v: int, n: nat, w: nat)
    requires w in {32, 64} && n <= if w == 64 then 63 else 15
    ensures BitsOf(SevenIn(v, w), n + 7) == Kept(w, BitsOf(v, n), n) + Ones(7)
  {
    hide Pow2, BitsOf, Ones;
    var x := v * Pow2(7) + 127;
    SevenShifted(v, n, w);
    if n + 7 <= w {
      BitsMod(x, n + 7, w);
    } else {
      var k := n + 7 - w;
      var rest := BitsOf(x % Pow2(w), w);
      assert rest == (BitsOf(v / Pow2(w - 7), k) + rest)[k..] == (BitsOf(v, n) + Ones(7))[k..];
      assert (BitsOf(v, n) + Ones(7))[k..] == BitsOf(v, n)[k..] + Ones(7);
      assert BitsOf(v, n)[..0] + BitsOf(0, k) == BitsOf(0, k);
      assert (BitsOf(0, k) + BitsOf(v, n)[k..]) + Ones(7) == BitsOf(0, k) + (BitsOf(v, n)[k..] + Ones(7));
    }
  }

  lemma KeptAfter(w: nat, r: seq<bool>, s: seq<bool>)
    ensures Kept(w, r + s, |s|) == r + Kept(w, s, |s|)
  {
    if w == 64 && |s| > 57 {
      assert (r + s)[..|r|] == r;
      assert (r + s)[|r + s| - 57..] == s[|s| - 57..];
      assert s[..0] == [];
    }
  }

  /** The bytes a flush of n pending bits of v writes after r, up to the fewer than eight bits left. */
  lemma FlushedBits(r: seq<int>, raw: seq<int>, v: int, n: nat, w: nat, left: nat)
    requires w in {32, 64} && n <= if w == 64 then 63 else 15
    requires left < 8 && left <= n + 7 && (n + 7 - left) % 8 == 0
    requires BytesBits(raw) + BitsOf(SevenIn(v, w), left) == BytesBits(r) + BitsOf(SevenIn(v, w), n + 7)
    ensures BytesBits(raw) == Padded(Kept(w, BytesBits(r) + BitsOf(v, n), n))
  {
    hide Pow2, BitsOf, BytesBits, Ones, Padded, Kept, SevenIn;
    var y := SevenIn(v, w);
    KeptRegister(v, n, w);
    KeptAfter(w, BytesBits(r), BitsOf(v, n));
    PaddedBits(|r|, BytesBits(r), Kept(w, BitsOf(v, n), n), left);
    WithoutTail(BytesBits(raw), BitsOf(y, left), BytesBits(r), BitsOf(y, n + 7));
  }

  /** Everything is kept exactly when the value of the pending bits fits in 57 bits. */
  lemma KeptWhole(w: nat, r: seq<bool>, v: int, n: nat)
    requires w in {32, 64}
    ensures Kept(w, r + BitsOf(v, n), n) == r + BitsOf(v, n) <==> w == 32 || v % Pow2(n) < Pow2(57)
  {
    hide Pow2, BitsOf;
    if w == 64 && n > 57 {
      var k, s := n - 57, BitsOf(v, n);
      var q, low := v / Pow2(57), v % Pow2(57);
      DivSum(v, Pow2(57));
      BitsConcat(q, low, k, 57);
      HighBitsZero(v, 57, n);
      BitsZero(q, k);
      var rest := BitsOf(low, 57);
      assert (r + s)[..|r|] == r && (r + s)[|r + s| - 57..] == rest;
      assert r + s == r + (BitsOf(q, k) + rest) && r + BitsOf(0, k) + rest == r + (BitsOf(0, k) + rest);
      SameTail(r, BitsOf(0, k) + rest, BitsOf(q, k) + rest);
      SameHead(BitsOf(0, k), BitsOf(q, k), rest);
    } else if w == 64 {
      PowersOrdered(n, 57);
      PowerPositive(n);
    }
  }

  lemma SameHead(a: seq<bool>, b: seq<bool>, rest: seq<bool>)
    requires |a| == |b|
    ensures a + rest == b + rest <==> a == b
  {
    if a + rest == b + rest {
      assert a == (a + rest)[..|a|] == (b + rest)[..|b|] == b;
    }
  }

  lemma WithoutTail(a: seq<bool>, tail: seq<bool>, r: seq<bool>, s: seq<bool>)
    requires a + tail == r + s && |tail| <= |s|
    ensures a == r + s[..|s| - |tail|]
  {
    assert a == (a + tail)[..|a|] == (r + s)[..|a|];
  }

  /** Padding with the first of seven ones. */
  lemma PaddedBits(k: nat, r: seq<bool>, s: seq<bool>, left: nat)
    requires |r| == 8 * k && left < 8 && left <= |s| + 7 && (|s| + 7 - left) % 8 == 0
    ensures Padded(r + s) == r + (s + Ones(7))[..|s| + 7 - left]
  {
    hide Ones;
    OnesSplit(7 - left, left);
    assert (s + Ones(7))[..|s| + 7 - left] == s + Ones(7 - left);
    assert (8 - |r + s| % 8) % 8 == 7 - left;
    assert (r + s) + Ones(7 - left) == r + (s + Ones(7 - left));
  }

  lemma PowersOrdered(k: nat, l: nat)
    requires k <= l
    ensures Pow2(k) <= Pow2(l)
  {
    hide Pow2;
    Pow2Add(k, l - k);
    MulMonotone(1, Pow2(l - k), Pow2(k));
  }

  lemma SameTail(a: seq<bool>, b: seq<bool>, c: seq<bool>)
    ensures a + b == a + c <==> b == c
  {
    if a + b == a + c {
      assert b == (a + b)[|a|..] == (a + c)[|a|..] == c;
    }
  }

  // ----- the writer -----

  /** The bits pending in a 64-bit buffer after a code of size bits, and after a code with value bits. */
  function AfterBits(n: nat, size: nat): nat { n % 48 + size }
  function AfterCode(n: nat, size: nat, nbits: nat): nat { n % 32 + size + nbits }

  class BitWriter {
    const width: nat
    var putBuffer: int
    var putBits: nat
    var out: seq<int>
    /** The bytes written, before zeros are stuffed after each 0xFF. */
    ghost var raw: seq<int>

    ghost predicate Sound()
      reads this
    {
      && width in {32, 64}
      && 0 <= putBuffer < Pow2(width)
      && out == Stuff(raw) && IsBytes(raw)
    }

    ghost predicate Valid()
      reads this
    {
      Sound() && putBits <= if width == 64 then 63 else 15
    }

    /** All bits written so far. The bits of putBuffer above putBits are leftovers. */
    ghost function Stream(): seq<bool>
      reads this
    {
      BytesBits(raw) + BitsOf(putBuffer, putBits)
    }

    constructor (width: nat)
      requires width in {32, 64}
      ensures Valid() && Stream() == [] && this.width == width && out == [] && raw == []
    {
      this.width := width;
      putBuffer := 0;
      putBits := 0;
      out := [];
      raw := [];
    }

    /** EMIT_BYTE */
    method EmitByte()
      requires Sound() && putBits >= 8
      modifies this`putBits, this`out, this`raw
      ensures Sound() && Stream() == old(Stream()) && putBits == old(putBits) - 8
      ensures old(out) <= out && |raw| == |old(raw)| + 1
    {
      hide Stuff, BytesBits, BitsOf, Pow2, IsBytes;
      ghost var r := raw;
      TopByte(putBuffer, putBits);
      putBits := putBits - 8;
      var c := (putBuffer / Pow2(putBits)) % 256;
      out := out + [c];
      if c == 0xFF {
        out := out + [0];
      }
      raw := raw + [c];
      StuffSnoc(r, c);
      BytesBitsSnoc(r, c);
      BytesSnoc(r, c);
      assert out == old(out) + StuffByte(c);
    }

    /** PUT_BITS. No bit of code is set above size, so the source's bitwise or is a sum. */
    method PutBits(code: int, size: nat)
      requires Sound() && 0 <= code < Pow2(size) && putBits + size <= width
      modifies this`putBits, this`putBuffer
      ensures Sound() && Stream() == old(Stream()) + BitsOf(code, size) && putBits == old(putBits) + size
    {
      hide Stuff, BytesBits, BitsOf, Pow2, IsBytes;
      ghost var v, n := putBuffer, putBits;
      putBits := putBits + size;
      putBuffer := (putBuffer * Pow2(size)) % Pow2(width) + code;
      ShiftIn(v, code, size, width);
      BitsMod(v * Pow2(size) + code, putBits, width);
      BitsConcat(v, code, n, size);
    }

    /** CHECKBUF15, CHECKBUF31 and CHECKBUF47: with more than limit bits pending, write count bytes. */
    method CheckBuf(limit: nat, count: nat)
      requires Sound() && limit + 1 >= 8 * count
      modifies this`putBits, this`out, this`raw
      ensures Sound() && Stream() == old(Stream()) && old(out) <= out
      ensures putBits == if old(putBits) > limit then old(putBits) - 8 * count else old(putBits)
    {
      hide Sound, Stream;
      if putBits > limit {
        var i := 0;
        while i < count
          invariant 0 <= i <= count && Sound() && Stream() == old(Stream()) && old(out) <= out
          invariant putBits == old(putBits) - 8 * i
        {
          EmitByte();
          i := i + 1;
        }
      }
    }

    /** EMIT_BITS */
    method EmitBits(code: int, size: nat)
      requires Valid() && size <= 16 && 0 <= code < Pow2(size)
      modifies this`putBits, this`putBuffer, this`out, this`raw
      ensures Valid() && Stream() == old(Stream()) + BitsOf(code, size) && old(out) <= out
      ensures width == 64 ==> putBits == AfterBits(old(putBits), size)
    {
      hide Sound, Stream, Pow2, BitsOf;
      assert width in {32, 64} by {
        Widths();
      }
      if width == 64 {
        CheckBuf(47, 6);
        PutBits(code, size);
      } else {
        PutBits(code, size);
        CheckBuf(15, 2);
      }
    }

    /** EMIT_CODE: a code and the bits of a value, of which the mask keeps the nbits low ones. */
    method EmitCode(code: int, size: nat, value: int, nbits: nat)
      requires Valid() && size <= 16 && 0 <= code < Pow2(size) && nbits <= 16
      modifies this`putBits, this`putBuffer, this`out, this`raw
      ensures Valid() && Stream() == old(Stream()) + (BitsOf(code, size) + BitsOf(value, nbits)) && old(out) <= out
      ensures width == 64 ==> putBits == AfterCode(old(putBits), size, nbits)
    {
      hide Sound, Stream, Pow2, BitsOf;
      Widths();
      var temp2 := value % Pow2(nbits);
      BitsMod(value, nbits, nbits);
      if width == 64 {
        CheckBuf(31, 4);
        PutBits(code, size);
        PutBits(temp2, nbits);
      } else {
        PutBits(code, size);
        CheckBuf(15, 2);
        PutBits(temp2, nbits);
        CheckBuf(15, 2);
      }
    }

    lemma Widths()
      requires Sound()
      ensures width in {32, 64}
    {
    }

    /** The value of the pending bits. */
    ghost function Pending(): int
      reads this
    {
      putBuffer % Pow2(putBits)
    }

    /**
     flush_bits: the bits kept are written, and the last byte is filled with ones. On 64 bits everything is
     kept exactly when the pending bits fit in 57 bits, for seven more are shifted in at once.
     */
    method Flush()
      requires Valid()
      modifies this`putBits, this`putBuffer, this`out, this`raw
      ensures Valid() && putBits == 0 && putBuffer == 0 && old(out) <= out
      ensures |old(Stream())| >= old(putBits)
      ensures BytesBits(raw) == Padded(Kept(width, old(Stream()), old(putBits)))
      ensures Kept(width, old(Stream()), old(putBits)) == old(Stream()) <==> width == 32 || old(Pending()) < Pow2(57)
    {
      hide Stuff, BytesBits, BitsOf, Pow2, IsBytes, Padded, Ones, SevenIn, Kept;
      ghost var v, n, r := putBuffer, putBits, raw;
      ghost var flushed := SevenIn(v, width);
      ShiftInSeven(v, width);
      putBits := putBits + 7;
      putBuffer := (putBuffer * Pow2(7)) % Pow2(width) + 0x7F;
      ghost var k := 0;
      while putBits >= 8
        invariant Sound() && old(out) <= out && putBits + 8 * k == n + 7 && k >= 0
        invariant putBuffer == flushed && Stream() == BytesBits(r) + BitsOf(flushed, n + 7)
        decreases putBits
      {
        EmitByte();
        k := k + 1;
      }
      FlushedBits(r, raw, v, n, width, putBits);
      KeptWhole(width, BytesBits(r), v, n);
      putBuffer := 0;
      putBits := 0;
      PowerPositive(width);
    }
  }

  lemma PowerPositive(k: nat)
    ensures Pow2(k) >= 1
  {
  }

  lemma BytesSnoc(ds: seq<int>, b: int)
    requires IsBytes(ds) && 0 <= b < 256
    ensures IsBytes(ds + [b])
  {
  }

  lemma ShiftInSeven(v: int, w: nat)
    requires w >= 7
    ensures (v * Pow2(7)) % Pow2(w) + 127 == SevenIn(v, w)
    ensures 0 <= SevenIn(v, w) < Pow2(w)
  {
    hide Pow2;
    Pow2At8();
    ShiftIn(v, 127, 7, w);
  }
}
