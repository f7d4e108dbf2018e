/**
 * What the Huffman coders send: symbols and raw bits (sections F.1.2 and F.2.2 of ITU-T T.81). The
 * list of items for a sequential block, how a reader gets the block back from it, and which bits and
 * which symbol counts it stands for.
 */
module HuffmanSymbols {
  import opened Arithmetic
  import opened Bits
  import opened Blocks
  import opened HuffmanBits

  datatype TblId = DcTbl(no: nat) | AcTbl(no: nat)

  /** A symbol of a table, or n bits that are not coded. */
  datatype Item = Sym(tbl: TblId, s: nat) | Raw(bits: nat, n: nat)

  // ----- Magnitudes -----

  /** The number of bits needed for u. */
  function NBits(u: nat): nat {
    if u == 0 then 0 else 1 + NBits(u / 2)
  }

  lemma {:induction false} NBitsBounds(u: nat)
    ensures u < Pow2(NBits(u))
    ensures u > 0 ==> Pow2(NBits(u) - 1) <= u
  {
    if u > 0 {
      NBitsBounds(u / 2);
    }
  }

  lemma {:induction false} NBitsAtMost(u: nat, n: nat)
    requires u < Pow2(n)
    ensures NBits(u) <= n
  {
    if u > 0 {
      NBitsAtMost(u / 2, n - 1);
    }
  }

  /** The low bits of v, or of v - 1 if v is negative. */
  function Extra(v: int): (i: Item)
    ensures i.Raw?
  {
    var n := NBits(Abs(v));
    Raw(Masked(if v < 0 then v - 1 else v, n), n)
  }

  /** Figure F.12 of ITU-T T.81: EXTEND. */
  function Extend(bits: nat, n: nat): int {
    if n > 0 && bits < Pow2(n - 1) then bits - Pow2(n) + 1 else bits
  }

  lemma ExtendsBack(v: int)
    ensures var x := Extra(v); x.n == NBits(Abs(v)) && x.bits < Pow2(x.n) && Extend(x.bits, x.n) == v
  {
    var n := NBits(Abs(v));
    NBitsBounds(Abs(v));
    var p: int := Pow2(n);
    if v > 0 {
      QuotientUnique(v, p, 0, v);
      RemainderUnique(v, p, 0, v);
    } else if v < 0 {
      NegativeRemainder(v - 1, p);
    }
  }

  lemma NegativeRemainder(x: int, p: int)
    requires -p <= x < 0 && p > 0
    ensures x % p == x + p
  {
  }

  // ----- One sequential block -----

  /** The run-length symbol of 16 zeros. */
  const ZRL := 0xF0

  function DcItems(t: nat, diff: int): seq<Item> {
    [Sym(DcTbl(t), NBits(Abs(diff))), Extra(diff)]
  }

  /** From coefficient k on, with r zeros before it. */
  function AcItems(t: nat, z: Zigzag, k: nat, r: nat): seq<Item>
    requires k <= DCTSIZE2
    decreases DCTSIZE2 - k, r
  {
    if k == DCTSIZE2 then
      if r > 0 then [Sym(AcTbl(t), 0)] else []
    else if z[k] == 0 then AcItems(t, z, k + 1, r + 1)
    else if r > 15 then [Sym(AcTbl(t), ZRL)] + AcItems(t, z, k, r - 16)
    else [Sym(AcTbl(t), r * 16 + NBits(Abs(z[k]))), Extra(z[k])] + AcItems(t, z, k + 1, 0)
  }

  function BlockItems(td: nat, ta: nat, z: Zigzag, last: int): seq<Item> {
    DcItems(td, z[0] - last) + AcItems(ta, z, 1, 0)
  }

  const MAX_COEF_BITS := 10

  /** Values the coder accepts: a difference may have one bit more. */
  predicate InRange(z: Zigzag, last: int) {
    NBits(Abs(z[0] - last)) <= MAX_COEF_BITS + 1 && forall k :: 1 <= k < DCTSIZE2 ==> NBits(Abs(z[k])) <= MAX_COEF_BITS
  }

  // ----- Reading a block back -----

  datatype AcResult = AcResult(z: Zigzag, rest: seq<Item>) | BadItems

  /** Figure F.13 of ITU-T T.81: Decode_AC_coefficients, from coefficient k on. */
  function ReadAc(t: nat, items: seq<Item>, z: Zigzag, k: nat): AcResult
    decreases DCTSIZE2 + 16 - k
  {
    if k >= DCTSIZE2 then (if k == DCTSIZE2 then AcResult(z, items) else BadItems)
    else if items == [] || !items[0].Sym? || items[0].tbl != AcTbl(t) then BadItems
    else
      var r, n := items[0].s / 16, items[0].s % 16;
      if n == 0 then
        if r == 15 then ReadAc(t, items[1..], z, k + 16) else AcResult(z, items[1..])
      else if k + r >= DCTSIZE2 || |items| < 2 || !items[1].Raw? || items[1].n != n then BadItems
      else ReadAc(t, items[2..], z[k + r := Extend(items[1].bits, n)], k + r + 1)
  }

  /** z with the coefficients from k on taken from x. */
  function Tailed(z: Zigzag, x: Zigzag, k: nat): Zigzag {
    seq(DCTSIZE2, j requires 0 <= j < DCTSIZE2 => if j >= k then x[j] else z[j])
  }

  /** The reader fills exactly the coefficients that were listed, and stops where the list ends. */
  lemma {:induction false} AcReadBack(t: nat, x: Zigzag, k: nat, r: nat, z: Zigzag, rest: seq<Item>)
    requires r < k <= DCTSIZE2
    requires forall j :: k <= j < DCTSIZE2 ==> NBits(Abs(x[j])) <= 15
    requires forall j :: k - r <= j < k ==> x[j] == 0
    requires forall j :: k - r <= j < DCTSIZE2 ==> z[j] == 0
    ensures ReadAc(t, AcItems(t, x, k, r) + rest, z, k - r) == AcResult(Tailed(z, x, k - r), rest)
    decreases DCTSIZE2 - k, r
  {
    hide Extend, Extra, NBits;
    var items := AcItems(t, x, k, r) + rest;
    if k == DCTSIZE2 {
      assert Tailed(z, x, k - r) == z;
      if r > 0 {
        assert items == [Sym(AcTbl(t), 0)] + rest && items[1..] == rest;
      } else {
        assert items == rest;
      }
    } else if x[k] == 0 {
      AcReadBack(t, x, k + 1, r + 1, z, rest);
    } else if r > 15 {
      var more := AcItems(t, x, k, r - 16) + rest;
      assert items == [Sym(AcTbl(t), ZRL)] + more && items[1..] == more;
      AcReadBack(t, x, k, r - 16, z, rest);
      assert Tailed(z, x, k - r) == Tailed(z, x, k - (r - 16));
    } else {
      CoefReadBack(t, x, k, r, z, rest);
    }
  }

  lemma {:induction false} CoefReadBack(t: nat, x: Zigzag, k: nat, r: nat, z: Zigzag, rest: seq<Item>)
    requires r < k < DCTSIZE2 && r <= 15 && x[k] != 0
    requires forall j :: k <= j < DCTSIZE2 ==> NBits(Abs(x[j])) <= 15
    requires forall j :: k - r <= j < k ==> x[j] == 0
    requires forall j :: k - r <= j < DCTSIZE2 ==> z[j] == 0
    ensures ReadAc(t, AcItems(t, x, k, r) + rest, z, k - r) == AcResult(Tailed(z, x, k - r), rest)
    decreases DCTSIZE2 - k, r, 0
  {
    hide Extend, NBits;
    var items := AcItems(t, x, k, r) + rest;
    var n := NBits(Abs(x[k]));
    var more := AcItems(t, x, k + 1, 0) + rest;
    NBitsPositive(x[k]);
    ExtendsBack(x[k]);
    assert items == [Sym(AcTbl(t), r * 16 + n), Extra(x[k])] + more && items[2..] == more;
    assert (r * 16 + n) / 16 == r && (r * 16 + n) % 16 == n;
    AcReadBack(t, x, k + 1, 0, z[k := x[k]], rest);
    assert Tailed(z, x, k - r) == Tailed(z[k := x[k]], x, k + 1);
  }

  lemma NBitsPositive(v: int)
    requires v != 0
    ensures NBits(Abs(v)) > 0
  {
  }

  datatype BlockResult = BlockResult(z: Zigzag, rest: seq<Item>) | BadBlock

  /** Reads a block into a zeroed one. */
  function ReadBlock(td: nat, ta: nat, items: seq<Item>, last: int): BlockResult {
    if |items| < 2 || !items[0].Sym? || items[0].tbl != DcTbl(td) || !items[1].Raw? || items[1].n != items[0].s then BadBlock
    else
      var z: Zigzag := seq(DCTSIZE2, _ => 0);
      match ReadAc(ta, items[2..], z[0 := last + Extend(items[1].bits, items[1].n)], 1)
      case BadItems => BadBlock
      case AcResult(z', rest) => BlockResult(z', rest)
  }

  /** The symbols and bits of a block determine the block, whatever follows them. */
  lemma BlockReadBack(td: nat, ta: nat, z: Zigzag, last: int, rest: seq<Item>)
    requires InRange(z, last)
    ensures ReadBlock(td, ta, BlockItems(td, ta, z, last) + rest, last) == BlockResult(z, rest)
  {
    hide Extend, NBits, Extra, ReadAc, AcItems;
    var items := BlockItems(td, ta, z, last) + rest;
    var zero: Zigzag := seq(DCTSIZE2, _ => 0);
    ExtendsBack(z[0] - last);
    assert items[0] == Sym(DcTbl(td), NBits(Abs(z[0] - last))) && items[1] == Extra(z[0] - last);
    assert last + Extend(items[1].bits, items[1].n) == z[0];
    assert items[2..] == AcItems(ta, z, 1, 0) + rest;
    AcReadBack(ta, z, 1, 0, zero[0 := z[0]], rest);
    assert Tailed(zero[0 := z[0]], z, 1) == z;
  }

  // ----- What the items stand for -----

  /** Codes and code sizes by symbol; size 0 for a symbol without a code. */
  datatype Codes = Codes(co: seq<nat>, si: seq<nat>)

  type Tables = map<TblId, Codes>

  /** The symbol has a code of its table. */
  predicate Coded(tables: Tables, i: Item) {
    match i
    case Sym(t, s) =>
      && t in tables && |tables[t].co| == |tables[t].si| == 256 && s < 256
      && 0 < tables[t].si[s] <= 16 && tables[t].co[s] < Pow2(tables[t].si[s])
    case Raw(b, n) => n <= 16 && b < Pow2(n)
  }

  predicate AllCoded(tables: Tables, items: seq<Item>) {
    forall j :: 0 <= j < |items| ==> Coded(tables, items[j])
  }

  function AppendItem(tables: Tables, b: BitString, i: Item): BitString
    requires Coded(tables, i)
  {
    match i
    case Sym(t, s) => b.Append(tables[t].co[s], tables[t].si[s])
    case Raw(v, n) => b.Append(v, n)
  }

  /** The bits of the items, one after the other. */
  function AppendItems(tables: Tables, b: BitString, items: seq<Item>): BitString
    requires AllCoded(tables, items)
  {
    if items == [] then b else AppendItem(tables, AppendItems(tables, b, items[..|items| - 1]), items[|items| - 1])
  }

  lemma AppendItemsSnoc(tables: Tables, b: BitString, items: seq<Item>, i: Item)
    requires AllCoded(tables, items) && Coded(tables, i)
    ensures AllCoded(tables, items + [i])
    ensures AppendItems(tables, b, items + [i]) == AppendItem(tables, AppendItems(tables, b, items), i)
  {
    assert (items + [i])[..|items|] == items;
  }

  lemma {:induction false} AppendItemsConcat(tables: Tables, b: BitString, a: seq<Item>, c: seq<Item>)
    requires AllCoded(tables, a) && AllCoded(tables, c)
    ensures AllCoded(tables, a + c)
    ensures AppendItems(tables, b, a + c) == AppendItems(tables, AppendItems(tables, b, a), c)
  {
    hide Coded, AppendItem;
    if c == [] {
      assert a + c == a;
    } else {
      var c', i := c[..|c| - 1], c[|c| - 1];
      AppendItemsConcat(tables, b, a, c');
      assert a + c == (a + c') + [i];
      AppendItemsSnoc(tables, b, a + c', i);
    }
  }

  /** How often a symbol occurs. */
  function CountSym(items: seq<Item>, t: TblId, s: nat): nat {
    if items == [] then 0
    else CountSym(items[..|items| - 1], t, s) + if items[|items| - 1] == Sym(t, s) then 1 else 0
  }

  lemma CountSymSnoc(items: seq<Item>, i: Item, t: TblId, s: nat)
    ensures CountSym(items + [i], t, s) == CountSym(items, t, s) + if i == Sym(t, s) then 1 else 0
  {
    assert (items + [i])[..|items|] == items;
  }

  lemma {:induction false} CountSymConcat(a: seq<Item>, c: seq<Item>, t: TblId, s: nat)
    ensures CountSym(a + c, t, s) == CountSym(a, t, s) + CountSym(c, t, s)
  {
    if c == [] {
      assert a + c == a;
    } else {
      var c', i := c[..|c| - 1], c[|c| - 1];
      CountSymConcat(a, c', t, s);
      assert a + c == (a + c') + [i];
      CountSymSnoc(a + c', i, t, s);
    }
  }

  /** A symbol is counted exactly if it occurs. */
  lemma {:induction false} CountedIffPresent(items: seq<Item>, t: TblId, s: nat)
    ensures CountSym(items, t, s) > 0 <==> Sym(t, s) in items
  {
    if items != [] {
      var n := |items| - 1;
      CountedIffPresent(items[..n], t, s);
      assert items == items[..n] + [items[n]];
    }
  }

  // ----- Items within range -----

  /** Symbols a table has room for (no symbol ends in 12 to 15), raw bits that one call can take. */
  predicate Sane(i: Item) {
    match i
    case Sym(t, s) => s < 256 && s % 16 <= MAX_COEF_BITS + 1 && (t.DcTbl? ==> s <= 15)
    case Raw(b, n) => n <= 16 && b < Pow2(n)
  }

  predicate AllSane(items: seq<Item>) {
    forall j :: 0 <= j < |items| ==> Sane(items[j])
  }

  lemma ExtraSane(v: int)
    requires NBits(Abs(v)) <= 16
    ensures Sane(Extra(v))
  {
  }

  lemma {:induction false} AcItemsSane(t: nat, z: Zigzag, k: nat, r: nat)
    requires k <= DCTSIZE2 && forall j :: k <= j < DCTSIZE2 ==> NBits(Abs(z[j])) <= MAX_COEF_BITS
    ensures AllSane(AcItems(t, z, k, r))
    decreases DCTSIZE2 - k, r
  {
    hide NBits, Extra;
    if k < DCTSIZE2 {
      if z[k] == 0 {
        AcItemsSane(t, z, k + 1, r + 1);
      } else if r > 15 {
        AcItemsSane(t, z, k, r - 16);
      } else {
        AcItemsSane(t, z, k + 1, 0);
        ExtraSane(z[k]);
      }
    }
  }

  lemma BlockItemsSane(td: nat, ta: nat, z: Zigzag, last: int)
    requires InRange(z, last)
    ensures AllSane(BlockItems(td, ta, z, last))
  {
    hide NBits, Extra;
    AcItemsSane(ta, z, 1, 0);
    ExtraSane(z[0] - last);
  }
}
