/**
 The probability estimation state machine of the QM coder: Table D.2 of ITU-T T.81, packed four
 components to an integer as in jaricom.c, with the extra state 113 for a fixed probability of 0.5.
 */
module QmTable {

  const STATES: nat := 114

  /** Qe_Value, Next_Index_LPS, Next_Index_MPS and Switch_MPS packed into one integer. */
  function V(qe: int, lps: int, mps: int, switch: int): (v: int)
    requires 1 <= qe <= 0x5b12 && 0 <= lps < STATES && 0 <= mps < STATES && 0 <= switch <= 1
    ensures v / 65536 == qe && v % 128 == lps
    ensures (v / 256) % 256 == mps && (v / 128) % 2 == switch
  {
    var v := qe * 65536 + mps * 256 + switch * 128 + lps;
    assert v / 128 == qe * 512 + mps * 2 + switch;
    assert v / 256 == qe * 256 + mps;
    v
  }

  datatype Row = Row(qe: int, lps: int, mps: int, switch: int)

  predicate RowOk(r: Row)
  {
    1 <= r.qe <= 0x5b12 && 0 <= r.lps < STATES && 0 <= r.mps < STATES && 0 <= r.switch <= 1
  }

  function Rows0(i: nat): (r: Row)
    requires 0 <= i < 8
    ensures RowOk(r)
  {
    if i == 0 then Row(0x5a1d, 1, 1, 1) else
    if i == 1 then Row(0x2586, 14, 2, 0) else
    if i == 2 then Row(0x1114, 16, 3, 0) else
    if i == 3 then Row(0x080b, 18, 4, 0) else
    if i == 4 then Row(0x03d8, 20, 5, 0) else
    if i == 5 then Row(0x01da, 23, 6, 0) else
    if i == 6 then Row(0x00e5, 25, 7, 0) else
    Row(0x006f, 28, 8, 0)
  }

  function Rows8(i: nat): (r: Row)
    requires 8 <= i < 16
    ensures RowOk(r)
  {
    if i == 8 then Row(0x0036, 30, 9, 0) else
    if i == 9 then Row(0x001a, 33, 10, 0) else
    if i == 10 then Row(0x000d, 35, 11, 0) else
    if i == 11 then Row(0x0006, 9, 12, 0) else
    if i == 12 then Row(0x0003, 10, 13, 0) else
    if i == 13 then Row(0x0001, 12, 13, 0) else
    if i == 14 then Row(0x5a7f, 15, 15, 1) else
    Row(0x3f25, 36, 16, 0)
  }

  function Rows16(i: nat): (r: Row)
    requires 16 <= i < 24
    ensures RowOk(r)
  {
    if i == 16 then Row(0x2cf2, 38, 17, 0) else
    if i == 17 then Row(0x207c, 39, 18, 0) else
    if i == 18 then Row(0x17b9, 40, 19, 0) else
    if i == 19 then Row(0x1182, 42, 20, 0) else
    if i == 20 then Row(0x0cef, 43, 21, 0) else
    if i == 21 then Row(0x09a1, 45, 22, 0) else
    if i == 22 then Row(0x072f, 46, 23, 0) else
    Row(0x055c, 48, 24, 0)
  }

  function Rows24(i: nat): (r: Row)
    requires 24 <= i < 32
    ensures RowOk(r)
  {
    if i == 24 then Row(0x0406, 49, 25, 0) else
    if i == 25 then Row(0x0303, 51, 26, 0) else
    if i == 26 then Row(0x0240, 52, 27, 0) else
    if i == 27 then Row(0x01b1, 54, 28, 0) else
    if i == 28 then Row(0x0144, 56, 29, 0) else
    if i == 29 then Row(0x00f5, 57, 30, 0) else
    if i == 30 then Row(0x00b7, 59, 31, 0) else
    Row(0x008a, 60, 32, 0)
  }

  function Rows32(i: nat): (r: Row)
    requires 32 <= i < 40
    ensures RowOk(r)
  {
    if i == 32 then Row(0x0068, 62, 33, 0) else
    if i == 33 then Row(0x004e, 63, 34, 0) else
    if i == 34 then Row(0x003b, 32, 35, 0) else
    if i == 35 then Row(0x002c, 33, 9, 0) else
    if i == 36 then Row(0x5ae1, 37, 37, 1) else
    if i == 37 then Row(0x484c, 64, 38, 0) else
    if i == 38 then Row(0x3a0d, 65, 39, 0) else
    Row(0x2ef1, 67, 40, 0)
  }

  function Rows40(i: nat): (r: Row)
    requires 40 <= i < 48
    ensures RowOk(r)
  {
    if i == 40 then Row(0x261f, 68, 41, 0) else
    if i == 41 then Row(0x1f33, 69, 42, 0) else
    if i == 42 then Row(0x19a8, 70, 43, 0) else
    if i == 43 then Row(0x1518, 72, 44, 0) else
    if i == 44 then Row(0x1177, 73, 45, 0) else
    if i == 45 then Row(0x0e74, 74, 46, 0) else
    if i == 46 then Row(0x0bfb, 75, 47, 0) else
    Row(0x09f8, 77, 48, 0)
  }

  function Rows48(i: nat): (r: Row)
    requires 48 <= i < 56
    ensures RowOk(r)
  {
    if i == 48 then Row(0x0861, 78, 49, 0) else
    if i == 49 then Row(0x0706, 79, 50, 0) else
    if i == 50 then Row(0x05cd, 48, 51, 0) else
    if i == 51 then Row(0x04de, 50, 52, 0) else
    if i == 52 then Row(0x040f, 50, 53, 0) else
    if i == 53 then Row(0x0363, 51, 54, 0) else
    if i == 54 then Row(0x02d4, 52, 55, 0) else
    Row(0x025c, 53, 56, 0)
  }

  function Rows56(i: nat): (r: Row)
    requires 56 <= i < 64
    ensures RowOk(r)
  {
    if i == 56 then Row(0x01f8, 54, 57, 0) else
    if i == 57 then Row(0x01a4, 55, 58, 0) else
    if i == 58 then Row(0x0160, 56, 59, 0) else
    if i == 59 then Row(0x0125, 57, 60, 0) else
    if i == 60 then Row(0x00f6, 58, 61, 0) else
    if i == 61 then Row(0x00cb, 59, 62, 0) else
    if i == 62 then Row(0x00ab, 61, 63, 0) else
    Row(0x008f, 61, 32, 0)
  }

  function Rows64(i: nat): (r: Row)
    requires 64 <= i < 72
    ensures RowOk(r)
  {
    if i == 64 then Row(0x5b12, 65, 65, 1) else
    if i == 65 then Row(0x4d04, 80, 66, 0) else
    if i == 66 then Row(0x412c, 81, 67, 0) else
    if i == 67 then Row(0x37d8, 82, 68, 0) else
    if i == 68 then Row(0x2fe8, 83, 69, 0) else
    if i == 69 then Row(0x293c, 84, 70, 0) else
    if i == 70 then Row(0x2379, 86, 71, 0) else
    Row(0x1edf, 87, 72, 0)
  }

  function Rows72(i: nat): (r: Row)
    requires 72 <= i < 80
    ensures RowOk(r)
  {
    if i == 72 then Row(0x1aa9, 87, 73, 0) else
    if i == 73 then Row(0x174e, 72, 74, 0) else
    if i == 74 then Row(0x1424, 72, 75, 0) else
    if i == 75 then Row(0x119c, 74, 76, 0) else
    if i == 76 then Row(0x0f6b, 74, 77, 0) else
    if i == 77 then Row(0x0d51, 75, 78, 0) else
    if i == 78 then Row(0x0bb6, 77, 79, 0) else
    Row(0x0a40, 77, 48, 0)
  }

  function Rows80(i: nat): (r: Row)
    requires 80 <= i < 88
    ensures RowOk(r)
  {
    if i == 80 then Row(0x5832, 80, 81, 1) else
    if i == 81 then Row(0x4d1c, 88, 82, 0) else
    if i == 82 then Row(0x438e, 89, 83, 0) else
    if i == 83 then Row(0x3bdd, 90, 84, 0) else
    if i == 84 then Row(0x34ee, 91, 85, 0) else
    if i == 85 then Row(0x2eae, 92, 86, 0) else
    if i == 86 then Row(0x299a, 93, 87, 0) else
    Row(0x2516, 86, 71, 0)
  }

  function Rows88(i: nat): (r: Row)
    requires 88 <= i < 96
    ensures RowOk(r)
  {
    if i == 88 then Row(0x5570, 88, 89, 1) else
    if i == 89 then Row(0x4ca9, 95, 90, 0) else
    if i == 90 then Row(0x44d9, 96, 91, 0) else
    if i == 91 then Row(0x3e22, 97, 92, 0) else
    if i == 92 then Row(0x3824, 99, 93, 0) else
    if i == 93 then Row(0x32b4, 99, 94, 0) else
    if i == 94 then Row(0x2e17, 93, 86, 0) else
    Row(0x56a8, 95, 96, 1)
  }

  function Rows96(i: nat): (r: Row)
    requires 96 <= i < 104
    ensures RowOk(r)
  {
    if i == 96 then Row(0x4f46, 101, 97, 0) else
    if i == 97 then Row(0x47e5, 102, 98, 0) else
    if i == 98 then Row(0x41cf, 103, 99, 0) else
    if i == 99 then Row(0x3c3d, 104, 100, 0) else
    if i == 100 then Row(0x375e, 99, 93, 0) else
    if i == 101 then Row(0x5231, 105, 102, 0) else
    if i == 102 then Row(0x4c0f, 106, 103, 0) else
    Row(0x4639, 107, 104, 0)
  }

  function Rows104(i: nat): (r: Row)
    requires 104 <= i < 112
    ensures RowOk(r)
  {
    if i == 104 then Row(0x415e, 103, 99, 0) else
    if i == 105 then Row(0x5627, 105, 106, 1) else
    if i == 106 then Row(0x50e7, 108, 107, 0) else
    if i == 107 then Row(0x4b85, 109, 103, 0) else
    if i == 108 then Row(0x5597, 110, 109, 0) else
    if i == 109 then Row(0x504f, 111, 107, 0) else
    if i == 110 then Row(0x5a10, 110, 111, 1) else
    Row(0x5522, 112, 109, 0)
  }

  function Rows112(i: nat): (r: Row)
    requires 112 <= i < 114
    ensures RowOk(r)
  {
    if i == 112 then Row(0x59eb, 112, 111, 1) else
    Row(0x5a1d, 113, 113, 0)
  }

  /** Table D.2, indexed by state number. */
  function TableD2(i: nat): (r: Row)
    requires i < STATES
    ensures RowOk(r)
  {
    if i < 56 then
      if i < 24 then
        if i < 8 then
          Rows0(i)
        else
          if i < 16 then
            Rows8(i)
          else
            Rows16(i)
      else
        if i < 40 then
          if i < 32 then
            Rows24(i)
          else
            Rows32(i)
        else
          if i < 48 then
            Rows40(i)
          else
            Rows48(i)
    else
      if i < 88 then
        if i < 72 then
          if i < 64 then
            Rows56(i)
          else
            Rows64(i)
        else
          if i < 80 then
            Rows72(i)
          else
            Rows80(i)
      else
        if i < 104 then
          if i < 96 then
            Rows88(i)
          else
            Rows96(i)
        else
          if i < 112 then
            Rows104(i)
          else
            Rows112(i)
  }

  /** The packed table. */
  function Aritab(i: nat): (v: int)
    requires i < STATES
    ensures var r := TableD2(i);
      v / 65536 == r.qe && v % 128 == r.lps && (v / 256) % 256 == r.mps && (v / 128) % 2 == r.switch
  {
    var r := TableD2(i);
    V(r.qe, r.lps, r.mps, r.switch)
  }

  /** A statistics byte: bit 7 is the more probable symbol, the low bits index the table. */
  predicate IsStat(sv: int) { 0 <= sv < 256 && sv % 128 < STATES }

  function Qe(sv: int): (qe: int)
    requires IsStat(sv)
    ensures 1 <= qe <= 0x5b12
  {
    Aritab(sv % 128) / 65536
  }

  /** The sense of the more probable symbol. */
  predicate Mps(sv: int) { sv / 128 == 1 }

  /** Estimate_after_LPS and Estimate_after_MPS of section D.1.5. */
  function NextStat(sv: int, lps: bool): (r: int)
    requires IsStat(sv)
    ensures IsStat(r)
  {
    var row := Aritab(sv % 128);
    if lps then MakeStat(Mps(sv) != ((row / 128) % 2 == 1), row % 128)
    else MakeStat(Mps(sv), (row / 256) % 256)
  }

  function MakeStat(mps: bool, i: nat): (sv: int)
    requires i < STATES
    ensures IsStat(sv) && Mps(sv) == mps && sv % 128 == i
  {
    if mps then
      assert (128 + i) / 128 == 1 && (128 + i) % 128 == i;
      128 + i
    else i
  }
}
