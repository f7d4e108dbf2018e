/**
 * The probability estimation table of jaricom.c (Table D.2 of ITU-T T.81, plus entry 113 for
 * fixed probability 0.5), the packing of its four columns into one integer, and the unpacking
 * that both coders perform.
 */
module Aritab {
  import opened Bits

  datatype Columns = Columns(qe: int, nextLps: int, nextMps: int, switchMps: Bit)

  /** What every row satisfies: checked entry by entry where `TABLE` is built. */
  type Row = r: Columns |
    && 0 < r.qe < 0x8000
    && 0 <= r.nextLps < 114
    && 0 <= r.nextMps < 114
    witness Columns(1, 0, 0, 0)

  function V(qe: int, nextLps: int, nextMps: int, switchMps: Bit): Row
    requires 0 < qe < 0x8000 && 0 <= nextLps < 114 && 0 <= nextMps < 114
  {
    Columns(qe, nextLps, nextMps, switchMps)
  }

  const ROWS_0: seq<Row> := [
    V(0x5a1d, 1, 1, 1),
    V(0x2586, 14, 2, 0),
    V(0x1114, 16, 3, 0),
    V(0x080b, 18, 4, 0),
    V(0x03d8, 20, 5, 0),
    V(0x01da, 23, 6, 0),
    V(0x00e5, 25, 7, 0),
    V(0x006f, 28, 8, 0),
    V(0x0036, 30, 9, 0),
    V(0x001a, 33, 10, 0),
    V(0x000d, 35, 11, 0),
    V(0x0006, 9, 12, 0),
    V(0x0003, 10, 13, 0),
    V(0x0001, 12, 13, 0),
    V(0x5a7f, 15, 15, 1),
    V(0x3f25, 36, 16, 0)
  ]

  const ROWS_16: seq<Row> := [
    V(0x2cf2, 38, 17, 0),
    V(0x207c, 39, 18, 0),
    V(0x17b9, 40, 19, 0),
    V(0x1182, 42, 20, 0),
    V(0x0cef, 43, 21, 0),
    V(0x09a1, 45, 22, 0),
    V(0x072f, 46, 23, 0),
    V(0x055c, 48, 24, 0),
    V(0x0406, 49, 25, 0),
    V(0x0303, 51, 26, 0),
    V(0x0240, 52, 27, 0),
    V(0x01b1, 54, 28, 0),
    V(0x0144, 56, 29, 0),
    V(0x00f5, 57, 30, 0),
    V(0x00b7, 59, 31, 0),
    V(0x008a, 60, 32, 0)
  ]

  const ROWS_32: seq<Row> := [
    V(0x0068, 62, 33, 0),
    V(0x004e, 63, 34, 0),
    V(0x003b, 32, 35, 0),
    V(0x002c, 33, 9, 0),
    V(0x5ae1, 37, 37, 1),
    V(0x484c, 64, 38, 0),
    V(0x3a0d, 65, 39, 0),
    V(0x2ef1, 67, 40, 0),
    V(0x261f, 68, 41, 0),
    V(0x1f33, 69, 42, 0),
    V(0x19a8, 70, 43, 0),
    V(0x1518, 72, 44, 0),
    V(0x1177, 73, 45, 0),
    V(0x0e74, 74, 46, 0),
    V(0x0bfb, 75, 47, 0),
    V(0x09f8, 77, 48, 0)
  ]

  const ROWS_48: seq<Row> := [
    V(0x0861, 78, 49, 0),
    V(0x0706, 79, 50, 0),
    V(0x05cd, 48, 51, 0),
    V(0x04de, 50, 52, 0),
    V(0x040f, 50, 53, 0),
    V(0x0363, 51, 54, 0),
    V(0x02d4, 52, 55, 0),
    V(0x025c, 53, 56, 0),
    V(0x01f8, 54, 57, 0),
    V(0x01a4, 55, 58, 0),
    V(0x0160, 56, 59, 0),
    V(0x0125, 57, 60, 0),
    V(0x00f6, 58, 61, 0),
    V(0x00cb, 59, 62, 0),
    V(0x00ab, 61, 63, 0),
    V(0x008f, 61, 32, 0)
  ]

  const ROWS_64: seq<Row> := [
    V(0x5b12, 65, 65, 1),
    V(0x4d04, 80, 66, 0),
    V(0x412c, 81, 67, 0),
    V(0x37d8, 82, 68, 0),
    V(0x2fe8, 83, 69, 0),
    V(0x293c, 84, 70, 0),
    V(0x2379, 86, 71, 0),
    V(0x1edf, 87, 72, 0),
    V(0x1aa9, 87, 73, 0),
    V(0x174e, 72, 74, 0),
    V(0x1424, 72, 75, 0),
    V(0x119c, 74, 76, 0),
    V(0x0f6b, 74, 77, 0),
    V(0x0d51, 75, 78, 0),
    V(0x0bb6, 77, 79, 0),
    V(0x0a40, 77, 48, 0)
  ]

  const ROWS_80: seq<Row> := [
    V(0x5832, 80, 81, 1),
    V(0x4d1c, 88, 82, 0),
    V(0x438e, 89, 83, 0),
    V(0x3bdd, 90, 84, 0),
    V(0x34ee, 91, 85, 0),
    V(0x2eae, 92, 86, 0),
    V(0x299a, 93, 87, 0),
    V(0x2516, 86, 71, 0),
    V(0x5570, 88, 89, 1),
    V(0x4ca9, 95, 90, 0),
    V(0x44d9, 96, 91, 0),
    V(0x3e22, 97, 92, 0),
    V(0x3824, 99, 93, 0),
    V(0x32b4, 99, 94, 0),
    V(0x2e17, 93, 86, 0),
    V(0x56a8, 95, 96, 1)
  ]

  const ROWS_96: seq<Row> := [
    V(0x4f46, 101, 97, 0),
    V(0x47e5, 102, 98, 0),
    V(0x41cf, 103, 99, 0),
    V(0x3c3d, 104, 100, 0),
    V(0x375e, 99, 93, 0),
    V(0x5231, 105, 102, 0),
    V(0x4c0f, 106, 103, 0),
    V(0x4639, 107, 104, 0),
    V(0x415e, 103, 99, 0),
    V(0x5627, 105, 106, 1),
    V(0x50e7, 108, 107, 0),
    V(0x4b85, 109, 103, 0),
    V(0x5597, 110, 109, 0),
    V(0x504f, 111, 107, 0),
    V(0x5a10, 110, 111, 1),
    V(0x5522, 112, 109, 0)
  ]

  const ROWS_112: seq<Row> := [
    V(0x59eb, 112, 111, 1)
  ]

  const TABLE_SIZE := 113

  /** `jpeg_aritab[i]`. */
  function TableRow(i: nat): Row
    requires i < TABLE_SIZE
  {
    if i < 16 then ROWS_0[i]
    else if i < 32 then ROWS_16[i - 16]
    else if i < 48 then ROWS_32[i - 32]
    else if i < 64 then ROWS_48[i - 48]
    else if i < 80 then ROWS_64[i - 64]
    else if i < 96 then ROWS_80[i - 80]
    else if i < 112 then ROWS_96[i - 96]
    else ROWS_112[i - 112]
  }

  /** The last entry of jpeg_aritab, for the fixed probability estimate of 0.5. */
  const FIXED: Row := V(0x5a1d, 113, 113, 0)

  /** The INT32 the macro V builds. */
  function Packed(r: Row): nat {
    r.qe * 0x10000 + r.nextMps * 0x100 + r.switchMps * 0x80 + r.nextLps
  }

  /** A statistics byte: MPS sense in the top bit, table index in the other seven. */
  type Stat = sv: Byte | sv % 0x80 < 114

  function Mps(sv: Stat): Bit {
    sv / 0x80
  }

  function RowOf(sv: Stat): Row
  {
    if sv % 0x80 < TABLE_SIZE then TableRow(sv % 0x80) else FIXED
  }

  lemma FixedRow(sv: Stat)
    requires sv == 113
    ensures RowOf(sv) == FIXED
  {
    hide TableRow;
  }

  /** The bin for fixed probability never leaves its state. */
  lemma FixedStays()
    ensures AfterLps(113) == 113 && AfterMps(113) == 113
  {
    hide RowOf;
    FixedRow(113);
  }

  function StatOf(sense: Bit, index: nat): Stat
    requires index < 114
  {
    sense * 0x80 + index
  }

  /** The statistics byte after coding an LPS: new index, sense toggled when the row says so. */
  function AfterLps(sv: Stat): Stat {
    var r := RowOf(sv);
    StatOf(if r.switchMps == 1 then 1 - Mps(sv) else Mps(sv), r.nextLps)
  }

  /** The statistics byte after coding an MPS with renormalization. */
  function AfterMps(sv: Stat): Stat {
    StatOf(Mps(sv), RowOf(sv).nextMps)
  }

  /** `(sv & 0x80) ^ n` on bytes. */
  function Xor80(sv: Byte, n: Byte): Byte {
    (sv / 0x80 * 0x80 + n) % 0x100
  }

  lemma XorNext(sense: Bit, index: nat, flip: Bit, next: nat)
    requires index < 0x80 && next < 0x80
    ensures Xor80(sense * 0x80 + index, flip * 0x80 + next)
         == (if flip == 1 then 1 - sense else sense) * 0x80 + next
  {
    assert (sense * 0x80 + index) / 0x80 == sense;
  }

  lemma UnpackColumns(r: Row)
    ensures var q := Packed(r);
            && q / 0x100 / 0x100 == r.qe
            && q % 0x100 == r.switchMps * 0x80 + r.nextLps
            && q / 0x100 % 0x100 == r.nextMps
  {
    var q := Packed(r);
    var lo := r.switchMps * 0x80 + r.nextLps;
    var mid := r.qe * 0x100 + r.nextMps;
    assert q == mid * 0x100 + lo;
    assert q / 0x100 == mid && q % 0x100 == lo;
    assert mid / 0x100 == r.qe && mid % 0x100 == r.nextMps;
  }

  /** Shifting and masking the packed entry recovers Qe and the two successor states. */
  lemma Unpack(sv: Stat)
    ensures var q := Packed(RowOf(sv));
            && q / 0x100 / 0x100 == RowOf(sv).qe
            && Xor80(sv, q % 0x100) == AfterLps(sv)
            && Xor80(sv, q / 0x100 % 0x100) == AfterMps(sv)
  {
    hide RowOf, Packed, Xor80, Mps;
    var r := RowOf(sv);
    UnpackColumns(r);
    SenseAndIndex(sv);
    XorNext(Mps(sv), sv % 0x80, r.switchMps, r.nextLps);
    XorNext(Mps(sv), sv % 0x80, 0, r.nextMps);
  }

  lemma SenseAndIndex(sv: Stat)
    ensures sv == Mps(sv) * 0x80 + sv % 0x80
  {
  }

  /** `qe = jpeg_aritab[sv & 0x7F]; nl = qe & 0xFF; qe >>= 8; nm = qe & 0xFF; qe >>= 8;` */
  method Fetch(sv: Stat) returns (qe: int, nl: Byte, nm: Byte)
    ensures qe == RowOf(sv).qe
    ensures Xor80(sv, nl) == AfterLps(sv)
    ensures Xor80(sv, nm) == AfterMps(sv)
  {
    Unpack(sv);
    qe := Packed(RowOf(sv));
    nl := qe % 0x100;
    qe := qe / 0x100;
    nm := qe % 0x100;
    qe := qe / 0x100;
  }
}
