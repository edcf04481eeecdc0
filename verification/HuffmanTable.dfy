/**
 Huffman tables of jchuff.c: deriving codes from a table definition, and building the best table
 for given symbol counts.
 */
module HuffmanTable {
  import opened Powers
  import opened Wrappers
  import opened HuffmanCode

  /** Code and code length of every symbol; length 0 means the symbol has no code. */
  datatype Derived = Derived(ehufco: seq<int>, ehufsi: seq<int>)

  /** d gives every listed symbol the code of its position, and no code to any other symbol. */
  ghost predicate IsDerived(bits: seq<int>, huffval: seq<int>, d: Derived)
    requires |bits| == 17 && |huffval| == 256
  {
    && |d.ehufco| == |d.ehufsi| == 256
    && (forall p, l :: 0 <= p < 256 && At(bits, p, l) && 0 <= huffval[p] < 256 ==>
        d.ehufsi[huffval[p]] == l && d.ehufco[huffval[p]] == CodeAt(bits, p, l))
    && (forall s :: 0 <= s < 256 && (forall p :: 0 <= p < 256 && p < Total(bits, 16) ==> huffval[p] != s) ==>
        d.ehufsi[s] == 0)
  }

  /** Figure C.1: the code length of every position. */
  method CodeLengths(bits: seq<int>, huffsize: array<int>) returns (lastp: int)
    requires |bits| == 17 && huffsize.Length == 257
    modifies huffsize
    ensures lastp < 0 <==> !(Counts(bits) && Total(bits, 16) <= 256)
    ensures lastp >= 0 ==> lastp == Total(bits, 16) && huffsize[lastp] == 0
    ensures lastp >= 0 ==> forall p :: 0 <= p < lastp ==> huffsize[p] > 0 && At(bits, p, huffsize[p])
  {
    var p, l := 0, 1;
    while l <= 16
      invariant 1 <= l <= 17
      invariant p == Total(bits, l - 1) && 0 <= p <= 256
      invariant forall k :: 1 <= k < l ==> bits[k] >= 0
      invariant forall q :: 0 <= q < p ==> 0 < huffsize[q] < l && At(bits, q, huffsize[q])
    {
      var i := bits[l];
      if i < 0 || p + i > 256 {
        TooMany(bits, l);
        return -1;
      }
      while i > 0
        invariant 0 <= i <= bits[l] && p == Total(bits, l) - i && p + i <= 256
        invariant forall q :: 0 <= q < p ==> 0 < huffsize[q] <= l && At(bits, q, huffsize[q])
      {
        huffsize[p] := l;
        p := p + 1;
        i := i - 1;
      }
      l := l + 1;
    }
    huffsize[p] := 0;
    lastp := p;
  }

  lemma TooMany(bits: seq<int>, l: nat)
    requires 1 <= l < |bits| == 17 && (bits[l] < 0 || Total(bits, l) > 256)
    ensures !(Counts(bits) && Total(bits, 16) <= 256)
  {
    if Counts(bits) {
      SumsMonotone(bits, l, 16);
    }
  }

  /** Figure C.2: the codes themselves; false if some code would be all ones or too long. */
  method AssignCodes(bits: seq<int>, huffsize: array<int>, huffcode: array<int>) returns (ok: bool)
    requires |bits| == 17 && huffsize.Length == huffcode.Length == 257 && huffsize != huffcode
    requires Counts(bits) && 0 <= Total(bits, 16) <= 256
    requires huffsize[Total(bits, 16)] == 0
    requires forall p :: 0 <= p < Total(bits, 16) ==> huffsize[p] > 0 && At(bits, p, huffsize[p])
    modifies huffcode
    ensures ok <==> CodeSum(bits, 16) < Pow2(16)
    ensures ok ==> forall p :: 0 <= p < Total(bits, 16) ==>
      At(bits, p, huffsize[p]) && huffcode[p] == CodeAt(bits, p, huffsize[p])
  {
    hide Counts, Total, CodeSum, Pow2;
    ghost var last := Total(bits, 16);
    var code, si, p := 0, huffsize[0], 0;
    if si == 0 {
      NoCodes(bits, 16);
      return true;
    }
    NoCodes(bits, si - 1);
    while huffsize[p] != 0
      invariant 0 <= p <= last && 1 <= si <= 17
      invariant p < last ==> si <= huffsize[p]
      invariant code == 2 * CodeSum(bits, si - 1) && p == Total(bits, si - 1)
      invariant p == 0 || CodeSum(bits, si - 1) < Pow2(si - 1)
      invariant forall q :: 0 <= q < p ==> huffcode[q] == CodeAt(bits, q, huffsize[q])
      decreases 17 - si
    {
      SumsStep(bits, si);
      while huffsize[p] == si
        invariant Total(bits, si - 1) <= p <= Total(bits, si) <= last
        invariant code == 2 * CodeSum(bits, si - 1) + p - Total(bits, si - 1)
        invariant forall q :: 0 <= q < p ==> huffcode[q] == CodeAt(bits, q, huffsize[q])
        decreases last - p
      {
        AtLength(bits, p, si, huffsize[p]);
        huffcode[p] := code;
        p := p + 1;
        code := code + 1;
      }
      if p < last {
        AtLength(bits, p, si, huffsize[p]);
      }
      if code >= Pow2(si) {
        if CodeSum(bits, 16) < Pow2(16) {
          RoomAtEveryLength(bits, si, 16);
        }
        return false;
      }
      code := 2 * code;
      si := si + 1;
    }
    RestEmpty(bits, si - 1);
    return true;
  }

  lemma SumsStep(bits: seq<int>, l: nat)
    requires Counts(bits) && 1 <= l <= 16 && |bits| == 17
    ensures CodeSum(bits, l) == 2 * CodeSum(bits, l - 1) + bits[l]
    ensures Total(bits, l - 1) <= Total(bits, l) == Total(bits, l - 1) + bits[l] <= Total(bits, 16)
  {
    SumsMonotone(bits, l, 16);
  }

  lemma NoCodes(bits: seq<int>, l: nat)
    requires Counts(bits) && l <= 16 && |bits| == 17 && Total(bits, l) <= 0
    ensures Total(bits, l) == 0 && CodeSum(bits, l) == 0
  {
    SumsMonotone(bits, 0, l);
    EmptyLengths(bits, 0, l);
  }

  /** Below the end of length l, position p has length l exactly when its length is recorded so. */
  lemma AtLength(bits: seq<int>, p: int, l: nat, size: nat)
    requires Counts(bits) && At(bits, p, size) && 1 <= l < |bits| && Total(bits, l - 1) <= p
    ensures size == l <==> p < Total(bits, l)
    ensures size >= l
  {
    if size < l {
      SumsMonotone(bits, size, l - 1);
    } else if l < size {
      SumsMonotone(bits, l, size - 1);
    }
  }

  lemma RestEmpty(bits: seq<int>, l: nat)
    requires |bits| == 17 && Counts(bits) && l <= 16
    requires Total(bits, l) == Total(bits, 16) && CodeSum(bits, l) < Pow2(l)
    ensures CodeSum(bits, 16) < Pow2(16)
  {
    hide Pow2, CodeSum, Total, Counts;
    var tail := 16 - l;
    EmptyLengths(bits, l, 16);
    Pow2Add(l, tail);
    MulMonotone(CodeSum(bits, l) + 1, Pow2(l), Pow2(tail));
  }

  lemma AtInTable(bits: seq<int>, p: int, l: nat)
    requires |bits| == 17 && Counts(bits) && At(bits, p, l)
    ensures 0 <= p < Total(bits, 16)
  {
    SumsMonotone(bits, 0, l - 1);
    SumsMonotone(bits, l, 16);
  }

  /** The first p positions have been entered into the encoding table. */
  ghost predicate Entered(huffval: seq<int>, sizes: seq<int>, codes: seq<int>, maxSymbol: int,
                          ehufco: seq<int>, ehufsi: seq<int>, p: nat)
  {
    && |huffval| == |ehufco| == |ehufsi| == 256 && |sizes| == |codes| == 257 && p <= 256 && maxSymbol <= 255
    && (forall q :: 0 <= q < p ==> 0 <= huffval[q] <= maxSymbol)
    && (forall q, t :: 0 <= q < t < p ==> huffval[q] != huffval[t])
    && (forall q :: 0 <= q < p ==> ehufsi[huffval[q]] == sizes[q] && ehufco[huffval[q]] == codes[q])
    && (forall s :: 0 <= s < 256 && ehufsi[s] != 0 ==> s in huffval[..p])
  }

  lemma EnterNext(huffval: seq<int>, sizes: seq<int>, codes: seq<int>, maxSymbol: int,
                  ehufco: seq<int>, ehufsi: seq<int>, p: nat)
    requires Entered(huffval, sizes, codes, maxSymbol, ehufco, ehufsi, p) && p < 256
    requires 0 <= huffval[p] <= maxSymbol && ehufsi[huffval[p]] == 0
    requires forall q :: 0 <= q < p ==> sizes[q] > 0
    ensures Entered(huffval, sizes, codes, maxSymbol, ehufco[huffval[p] := codes[p]], ehufsi[huffval[p] := sizes[p]], p + 1)
  {
    assert huffval[..p + 1] == huffval[..p] + [huffval[p]];
  }

  /** A symbol out of range or entered before makes the table illegal. */
  lemma NotLegal(bits: seq<int>, huffval: seq<int>, sizes: seq<int>, codes: seq<int>, maxSymbol: int,
                 ehufco: seq<int>, ehufsi: seq<int>, p: nat)
    requires Entered(huffval, sizes, codes, maxSymbol, ehufco, ehufsi, p) && |bits| == 17 && p < Total(bits, 16)
    requires p < 256 && (huffval[p] < 0 || huffval[p] > maxSymbol || ehufsi[huffval[p]] != 0)
    ensures !Legal(bits, huffval, maxSymbol)
  {
    hide Counts, Total, CodeSum, Pow2;
    if 0 <= huffval[p] <= maxSymbol {
      var q :| 0 <= q < p && huffval[..p][q] == huffval[p];
    }
  }

  ghost predicate Codes(bits: seq<int>, sizes: seq<int>, codes: seq<int>, last: int)
  {
    && |bits| == 17 && |sizes| == |codes| == 257 && 0 <= last <= 256
    && forall q :: 0 <= q < last ==> sizes[q] > 0 && At(bits, q, sizes[q]) && codes[q] == CodeAt(bits, q, sizes[q])
  }

  lemma AllEntered(bits: seq<int>, huffval: seq<int>, sizes: seq<int>, codes: seq<int>, maxSymbol: int,
                   ehufco: seq<int>, ehufsi: seq<int>)
    requires |bits| == 17 && Counts(bits) && 0 <= Total(bits, 16) <= 256 && CodeSum(bits, 16) < Pow2(16)
    requires Entered(huffval, sizes, codes, maxSymbol, ehufco, ehufsi, Total(bits, 16))
    requires Codes(bits, sizes, codes, Total(bits, 16))
    ensures Legal(bits, huffval, maxSymbol) && IsDerived(bits, huffval, Derived(ehufco, ehufsi))
  {
    hide Counts, Total, CodeSum, Pow2, CodeAt;
    forall q, l | 0 <= q < 256 && At(bits, q, l) && 0 <= huffval[q] < 256
      ensures ehufsi[huffval[q]] == l && ehufco[huffval[q]] == CodeAt(bits, q, l)
    {
      AtInTable(bits, q, l);
      AtUnique(bits, q, l, sizes[q]);
    }
  }

  /**
   Figure C.3 and the checks of jpeg_make_c_derived_tbl: the table is accepted exactly when it is
   legal, and then every listed symbol gets its canonical code.
   */
  method MakeDerived(isDC: bool, bits: seq<int>, huffval: seq<int>) returns (r: Option<Derived>)
    requires |bits| == 17 && |huffval| == 256
    ensures r.Some? <==> Legal(bits, huffval, if isDC then 15 else 255)
    ensures r.Some? ==> IsDerived(bits, huffval, r.value)
  {
    hide Counts, Total, CodeSum, Pow2, CodeAt, At, Entered, Codes, IsDerived;
    var huffsize, huffcode := new int[257], new int[257];
    var lastp := CodeLengths(bits, huffsize);
    if lastp < 0 {
      return None;
    }
    var ok := AssignCodes(bits, huffsize, huffcode);
    if !ok {
      return None;
    }
    ghost var sizes, codes := huffsize[..], huffcode[..];
    AreCodes(bits, sizes, codes, lastp);
    var ehufco, ehufsi := new int[256](_ => 0), new int[256](_ => 0);
    var maxSymbol := if isDC then 15 else 255;
    NoneEntered(huffval, sizes, codes, maxSymbol, ehufco[..], ehufsi[..]);
    var p := 0;
    while p < lastp
      invariant 0 <= p <= lastp && huffsize[..] == sizes && huffcode[..] == codes
      invariant Entered(huffval, sizes, codes, maxSymbol, ehufco[..], ehufsi[..], p)
    {
      var i := huffval[p];
      if i < 0 || i > maxSymbol || ehufsi[i] != 0 {
        NotLegal(bits, huffval, sizes, codes, maxSymbol, ehufco[..], ehufsi[..], p);
        return None;
      }
      SizesPositive(bits, sizes, codes, lastp);
      EnterNext(huffval, sizes, codes, maxSymbol, ehufco[..], ehufsi[..], p);
      ghost var co, si := ehufco[..], ehufsi[..];
      ehufco[i] := huffcode[p];
      ehufsi[i] := huffsize[p];
      assert ehufco[..] == co[i := codes[p]] && ehufsi[..] == si[i := sizes[p]];
      p := p + 1;
    }
    AllEntered(bits, huffval, sizes, codes, maxSymbol, ehufco[..], ehufsi[..]);
    return Some(Derived(ehufco[..], ehufsi[..]));
  }

  lemma AreCodes(bits: seq<int>, sizes: seq<int>, codes: seq<int>, last: int)
    requires |bits| == 17 && |sizes| == |codes| == 257 && 0 <= last <= 256
    requires forall q :: 0 <= q < last ==> sizes[q] > 0 && At(bits, q, sizes[q])
    requires forall q :: 0 <= q < last ==> At(bits, q, sizes[q]) && codes[q] == CodeAt(bits, q, sizes[q])
    ensures Codes(bits, sizes, codes, last)
  {
  }

  lemma SizesPositive(bits: seq<int>, sizes: seq<int>, codes: seq<int>, last: int)
    requires Codes(bits, sizes, codes, last)
    ensures |sizes| == |codes| == 257 && 0 <= last <= 256 && forall q :: 0 <= q < last ==> sizes[q] > 0
  {
  }

  lemma NoneEntered(huffval: seq<int>, sizes: seq<int>, codes: seq<int>, maxSymbol: int, ehufco: seq<int>, ehufsi: seq<int>)
    requires |huffval| == |ehufco| == |ehufsi| == 256 && |sizes| == |codes| == 257 && maxSymbol <= 255
    requires forall s :: 0 <= s < 256 ==> ehufsi[s] == 0
    ensures Entered(huffval, sizes, codes, maxSymbol, ehufco, ehufsi, 0)
  {
  }
}
