/**
 * Reading sequential Huffman-coded data (section F.2.2 of ITU-T T.81), as a specification: with the prefix
 * codes of the tables, the bits that the output pass has written are read back as the same blocks.
 */
module HuffmanDecoding {
  import opened Arithmetic
  import opened Bits
  import opened Blocks
  import opened Markers
  import opened HuffmanCodes
  import opened HuffmanBits
  import opened HuffmanSymbols
  import opened HuffmanScan
  import opened HuffmanOutput
  import opened HuffmanTwoPass

  // ----- Bit strings -----

  /** One after the other. */
  function Cat(a: BitString, b: BitString): BitString {
    a.Append(b.v, b.n)
  }

  predicate Proper(b: BitString) {
    b.v < Pow2(b.n)
  }

  lemma CatAssociative(a: BitString, b: BitString, c: BitString)
    ensures Cat(Cat(a, b), c) == Cat(a, Cat(b, c))
  {
    Pow2Add(b.n, c.n);
    hide Pow2;
    Distribute(a.v * Pow2(b.n), b.v, Pow2(c.n));
    MulAssociative(a.v, Pow2(b.n), Pow2(c.n));
  }

  lemma CatProper(a: BitString, b: BitString)
    requires Proper(a) && Proper(b)
    ensures Proper(Cat(a, b))
  {
    AppendFits(a.v, a.n, b.v, b.n);
  }

  /** The first k bits. */
  function First(b: BitString, k: nat): nat
    requires k <= b.n
  {
    QuotientBound(b.v, Pow2(b.n - k), 0);
    b.v / Pow2(b.n - k)
  }

  /** What follows them. */
  function Behind(b: BitString, k: nat): BitString
    requires k <= b.n
  {
    BitString(b.v % Pow2(b.n - k), b.n - k)
  }

  lemma Taken(a: BitString, b: BitString)
    requires Proper(b)
    ensures First(Cat(a, b), a.n) == a.v && Behind(Cat(a, b), a.n) == b
  {
    QuotientUnique(a.v * Pow2(b.n) + b.v, Pow2(b.n), a.v, b.v);
    RemainderUnique(a.v * Pow2(b.n) + b.v, Pow2(b.n), a.v, b.v);
  }

  // ----- Items as bits -----

  function ItemBits(tables: Tables, i: Item): BitString
    requires Coded(tables, i)
  {
    match i
    case Sym(t, s) => BitString(tables[t].co[s], tables[t].si[s])
    case Raw(v, n) => BitString(v, n)
  }

  function BitsOf(tables: Tables, items: seq<Item>): BitString
    requires AllCoded(tables, items)
  {
    AppendItems(tables, NONE, items)
  }

  lemma {:induction false} AppendedBits(tables: Tables, b: BitString, items: seq<Item>)
    requires AllCoded(tables, items)
    ensures AppendItems(tables, b, items) == Cat(b, BitsOf(tables, items)) && Proper(BitsOf(tables, items))
  {
    if items != [] {
      var n := |items| - 1;
      assert Coded(tables, items[n]);
      AppendedBits(tables, b, items[..n]);
      CatAssociative(b, BitsOf(tables, items[..n]), ItemBits(tables, items[n]));
      CatProper(BitsOf(tables, items[..n]), ItemBits(tables, items[n]));
    } else {
      assert Pow2(0) == 1;
    }
  }

  lemma BitsOfConcat(tables: Tables, a: seq<Item>, c: seq<Item>)
    requires AllCoded(tables, a) && AllCoded(tables, c)
    ensures AllCoded(tables, a + c) && BitsOf(tables, a + c) == Cat(BitsOf(tables, a), BitsOf(tables, c))
  {
    hide AppendItems, Coded;
    AppendItemsConcat(tables, NONE, a, c);
    AppendedBits(tables, BitsOf(tables, a), c);
  }

  /** The bits of the first item come first. */
  lemma FirstItem(tables: Tables, items: seq<Item>, rest: BitString)
    requires items != [] && AllCoded(tables, items) && Proper(rest)
    ensures Coded(tables, items[0]) && AllCoded(tables, items[1..])
    ensures var more := Cat(BitsOf(tables, items[1..]), rest);
            Proper(more) && Cat(BitsOf(tables, items), rest) == Cat(ItemBits(tables, items[0]), more)
  {
    assert Coded(tables, items[0]);
    assert items == [items[0]] + items[1..];
    OneItem(tables, items[0]);
    hide Coded, AppendItems;
    BitsOfConcat(tables, [items[0]], items[1..]);
    CatAssociative(ItemBits(tables, items[0]), BitsOf(tables, items[1..]), rest);
    AppendedBits(tables, NONE, items[1..]);
    CatProper(BitsOf(tables, items[1..]), rest);
  }

  lemma OneItem(tables: Tables, i: Item)
    requires Coded(tables, i)
    ensures AllCoded(tables, [i]) && BitsOf(tables, [i]) == ItemBits(tables, i)
  {
    assert [i][..0] == [] && AppendItems(tables, NONE, []) == NONE;
    Empty(i, tables);
  }

  lemma Empty(i: Item, tables: Tables)
    requires Coded(tables, i)
    ensures AppendItem(tables, NONE, i) == ItemBits(tables, i)
  {
  }

  // ----- A symbol -----

  predicate Matches(c: Codes, b: BitString, s: nat)
    requires |c.co| == |c.si| == 256
  {
    s < 256 && 0 < c.si[s] <= b.n && First(b, c.si[s]) == c.co[s]
  }

  datatype Decoded = Decoded(s: nat, rest: BitString) | NoSymbol

  /** Figure F.16 of ITU-T T.81: DECODE, the symbol whose code comes next. */
  ghost function DecodeSym(c: Codes, b: BitString): Decoded {
    if |c.co| == |c.si| == 256 && exists s: nat :: Matches(c, b, s) then
      var s: nat :| Matches(c, b, s);
      Decoded(s, Behind(b, c.si[s]))
    else NoSymbol
  }

  /** Dividing twice. */
  lemma QuotientTwice(x: nat, a: nat, b: nat)
    requires a > 0 && b > 0
    ensures a * b > 0 && x / a / b == x / (a * b)
  {
    var q, r := x / a, x % a;
    DivMod(x, a);
    QuotientBound(x, a, 0);
    DivMod(q, b);
    QuotientBound(q, b, 0);
    var y, s := q / b, q % b;
    MulAtLeast(a, b);
    assert x == y * (a * b) + (s * a + r) by {
      Distribute(y * b, s, a);
      MulAssociative(y, b, a);
      assert b * a == a * b;
    }
    assert s * a + r < a * b by {
      MulMonotone(s + 1, b, a);
      Distribute(s, 1, a);
    }
    QuotientUnique(x, a * b, y, s * a + r);
  }

  /** Of two codes that come next the shorter one begins the longer one. */
  lemma ShorterBegins(c: Codes, b: BitString, s: nat, t: nat)
    requires |c.co| == |c.si| == 256 && Matches(c, b, s) && Matches(c, b, t) && c.si[s] <= c.si[t]
    ensures c.co[t] / Pow2(c.si[t] - c.si[s]) == c.co[s]
  {
    var d := c.si[t] - c.si[s];
    Pow2Add(b.n - c.si[t], d);
    assert b.n - c.si[t] + d == b.n - c.si[s];
    hide Pow2;
    QuotientTwice(b.v, Pow2(b.n - c.si[t]), Pow2(d));
  }

  /** Only one code of a prefix code can come next. */
  lemma OnlyOne(c: Codes, b: BitString, s: nat, t: nat)
    requires PrefixCode(c.co, c.si) && Matches(c, b, s) && Matches(c, b, t)
    ensures s == t
  {
    hide Pow2, First;
    if c.si[s] <= c.si[t] {
      ShorterBegins(c, b, s, t);
    } else {
      ShorterBegins(c, b, t, s);
    }
  }

  lemma SymbolComes(tables: Tables, t: TblId, s: nat, rest: BitString)
    requires Coded(tables, Sym(t, s)) && Proper(rest)
    ensures var b := Cat(ItemBits(tables, Sym(t, s)), rest); Matches(tables[t], b, s) && Behind(b, tables[t].si[s]) == rest
  {
    Taken(ItemBits(tables, Sym(t, s)), rest);
    hide Pow2;
  }

  /** The symbol that was sent is decoded. */
  lemma SymbolDecoded(tables: Tables, t: TblId, s: nat, rest: BitString)
    requires Coded(tables, Sym(t, s)) && PrefixCode(tables[t].co, tables[t].si) && Proper(rest)
    ensures DecodeSym(tables[t], Cat(ItemBits(tables, Sym(t, s)), rest)) == Decoded(s, rest)
  {
    var c, b := tables[t], Cat(ItemBits(tables, Sym(t, s)), rest);
    SymbolComes(tables, t, s, rest);
    hide PrefixCode, Pow2, Cat, Behind, ItemBits, Matches;
    assert Matches(c, b, s);
    var u: nat :| Matches(c, b, u) && DecodeSym(c, b) == Decoded(u, Behind(b, c.si[u]));
    OnlyOne(c, b, s, u);
  }

  // ----- A block -----

  datatype AcBits = AcBits(z: Zigzag, rest: BitString) | BadAcBits

  /** Figure F.13 of ITU-T T.81 on bits: the AC coefficients from k on. */
  ghost function DecodeAc(c: Codes, b: BitString, z: Zigzag, k: nat): AcBits
    decreases DCTSIZE2 + 16 - k
  {
    if k >= DCTSIZE2 then (if k == DCTSIZE2 then AcBits(z, b) else BadAcBits)
    else
      match DecodeSym(c, b)
      case NoSymbol => BadAcBits
      case Decoded(s, rest) =>
        var r, n := s / 16, s % 16;
        if n == 0 then (if r == 15 then DecodeAc(c, rest, z, k + 16) else AcBits(z, rest))
        else if k + r >= DCTSIZE2 || n > rest.n then BadAcBits
        else DecodeAc(c, Behind(rest, n), z[k + r := Extend(First(rest, n), n)], k + r + 1)
  }

  /** What a reader of items makes of them, a reader of their bits makes of these. */
  lemma {:induction false} AcBitsRead(tables: Tables, t: nat, items: seq<Item>, z: Zigzag, k: nat, z': Zigzag, rest: BitString)
    requires AllCoded(tables, items) && AcTbl(t) in tables && PrefixCode(tables[AcTbl(t)].co, tables[AcTbl(t)].si) && Proper(rest)
    requires ReadAc(t, items, z, k) == AcResult(z', [])
    ensures DecodeAc(tables[AcTbl(t)], Cat(BitsOf(tables, items), rest), z, k) == AcBits(z', rest)
    decreases DCTSIZE2 + 16 - k
  {
    hide Extend, PrefixCode, Coded, AppendItems, DecodeSym, First, Behind, Cat, Proper, ItemBits;
    if k < DCTSIZE2 {
      var s := items[0].s;
      var r, n := s / 16, s % 16;
      var more := Cat(BitsOf(tables, items[1..]), rest);
      FirstItem(tables, items, rest);
      SymbolDecoded(tables, AcTbl(t), s, more);
      if n == 0 {
        if r == 15 {
          AcBitsRead(tables, t, items[1..], z, k + 16, z', rest);
        } else {
          NoItems(tables, items[1..], rest);
        }
      } else {
        var raw := items[1].bits;
        FirstItem(tables, items[1..], rest);
        assert items[1..][0] == items[1] && items[1..][1..] == items[2..];
        RawRead(tables, raw, n, Cat(BitsOf(tables, items[2..]), rest));
        AcBitsRead(tables, t, items[2..], z[k + r := Extend(raw, n)], k + r + 1, z', rest);
      }
    } else {
      NoItems(tables, items, rest);
    }
  }

  lemma NoItems(tables: Tables, items: seq<Item>, rest: BitString)
    requires items == []
    ensures AllCoded(tables, items) && Cat(BitsOf(tables, items), rest) == rest
  {
  }

  lemma RawRead(tables: Tables, bits: nat, n: nat, more: BitString)
    requires Coded(tables, Raw(bits, n)) && Proper(more)
    ensures var b := Cat(ItemBits(tables, Raw(bits, n)), more); n <= b.n && First(b, n) == bits && Behind(b, n) == more
  {
    Taken(ItemBits(tables, Raw(bits, n)), more);
  }

  datatype BlockBits = BlockBits(z: Zigzag, rest: BitString) | BadBlockBits

  /** A block, with the DC value of the one before it. */
  ghost function DecodeBlock(dc: Codes, ac: Codes, b: BitString, last: int): BlockBits {
    match DecodeSym(dc, b)
    case NoSymbol => BadBlockBits
    case Decoded(n, rest) =>
      if n > rest.n then BadBlockBits
      else
        var z: Zigzag := seq(DCTSIZE2, _ => 0);
        match DecodeAc(ac, Behind(rest, n), z[0 := last + Extend(First(rest, n), n)], 1)
        case BadAcBits => BadBlockBits
        case AcBits(z', rest') => BlockBits(z', rest')
  }

  lemma BlockDecoded(tables: Tables, td: nat, ta: nat, z: Zigzag, last: int, rest: BitString)
    requires InRange(z, last) && AllCoded(tables, BlockItems(td, ta, z, last)) && Proper(rest)
    requires DcTbl(td) in tables && PrefixCode(tables[DcTbl(td)].co, tables[DcTbl(td)].si)
    requires AcTbl(ta) in tables && PrefixCode(tables[AcTbl(ta)].co, tables[AcTbl(ta)].si)
    ensures DecodeBlock(tables[DcTbl(td)], tables[AcTbl(ta)], Cat(BitsOf(tables, BlockItems(td, ta, z, last)), rest), last) == BlockBits(z, rest)
  {
    hide Extend, PrefixCode, Coded, AppendItems, DecodeSym, First, Behind, Cat, Proper, ItemBits, ReadAc, AcItems, NBits;
    var items := BlockItems(td, ta, z, last);
    BlockReadBack(td, ta, z, last, []);
    assert items + [] == items;
    var more := items[2..];
    FirstItem(tables, items, rest);
    SymbolDecoded(tables, DcTbl(td), items[0].s, Cat(BitsOf(tables, items[1..]), rest));
    FirstItem(tables, items[1..], rest);
    assert items[1..][0] == items[1] && items[1..][1..] == more;
    RawRead(tables, items[1].bits, items[1].n, Cat(BitsOf(tables, more), rest));
    var zero: Zigzag := seq(DCTSIZE2, _ => 0);
    AcBitsRead(tables, ta, more, zero[0 := last + Extend(items[1].bits, items[1].n)], 1, z, rest);
  }

  // ----- A segment -----

  datatype SegBitsRead = SegBitsRead(vs: seq<Visit>, rest: BitString) | BadSegBits

  /** The blocks of the components cis, one after the other, predictions starting from zero. */
  ghost function DecodeSegment(sc: HScan, tables: Tables, cis: seq<nat>, b: BitString): SegBitsRead
    requires HScanOk(sc) && TablesFor(sc, tables) && forall i :: 0 <= i < |cis| ==> cis[i] < |sc.dcTbl|
    decreases |cis|
  {
    if cis == [] then SegBitsRead([], b)
    else
      var ci := cis[|cis| - 1];
      match DecodeSegment(sc, tables, cis[..|cis| - 1], b)
      case BadSegBits => BadSegBits
      case SegBitsRead(vs, rest) =>
        match DecodeBlock(tables[DcTbl(sc.dcTbl[ci])], tables[AcTbl(sc.acTbl[ci])], rest, LastDc(vs, ci))
        case BadBlockBits => BadSegBits
        case BlockBits(z, rest') => SegBitsRead(vs + [Visit(ci, z)], rest')
  }

  function Components(vs: seq<Visit>): (cis: seq<nat>)
    ensures |cis| == |vs|
  {
    seq(|vs|, i requires 0 <= i < |vs| => vs[i].ci)
  }

  /** A segment's bits determine its blocks, whatever bits follow. */
  lemma {:induction false} SegmentDecoded(sc: HScan, tables: Tables, vs: seq<Visit>, rest: BitString)
    requires HScanOk(sc) && TablesFor(sc, tables) && AreMembers(sc, vs) && SegCoded(sc, tables, vs) && SegInRange(sc, vs) && Proper(rest)
    ensures DecodeSegment(sc, tables, Components(vs), Cat(SegBits(sc, tables, vs), rest)) == SegBitsRead(vs, rest)
    decreases |vs|
  {
    hide Coded, AppendItems, Cat, Proper, BlockItems, InRange, PrefixCode, DecodeBlock, LastDc;
    if vs == [] {
      NoItems(tables, [], rest);
    } else {
      var n := |vs| - 1;
      var front, v := vs[..n], vs[n];
      var items := VisitItems(sc, front, v);
      CodedParts(tables, SegItems(sc, front), items);
      ShorterInRange(sc, vs);
      BitsOfConcat(tables, SegItems(sc, front), items);
      CatAssociative(SegBits(sc, tables, front), BitsOf(tables, items), rest);
      AppendedBits(tables, NONE, items);
      CatProper(BitsOf(tables, items), rest);
      SegmentDecoded(sc, tables, front, Cat(BitsOf(tables, items), rest));
      BlockDecoded(tables, sc.dcTbl[v.ci], sc.acTbl[v.ci], v.z, LastDc(front, v.ci), rest);
      assert Components(vs)[..n] == Components(front);
      assert vs == front + [v];
    }
  }

  /** The padded bytes of a segment decode to its blocks. */
  lemma PackedDecoded(sc: HScan, tables: Tables, vs: seq<Visit>, w: seq<Byte>)
    requires HScanOk(sc) && TablesFor(sc, tables) && AreMembers(sc, vs) && SegCoded(sc, tables, vs) && SegInRange(sc, vs)
    requires Packs(SegBits(sc, tables, vs), w)
    ensures var r := DecodeSegment(sc, tables, Components(vs), BitString(Val(w), 8 * |w|)); r.SegBitsRead? && r.vs == vs
  {
    hide Coded, AppendItems, DecodeSegment, SegItems;
    var b := SegBits(sc, tables, vs);
    var pad := 8 * |w| - b.n;
    var ones := BitString(Pow2(pad) - 1, pad);
    assert BitString(Val(w), 8 * |w|) == Cat(b, ones);
    SegmentDecoded(sc, tables, vs, ones);
  }

  // ----- A scan -----

  /** The data of n segments: each up to the next marker, with stuffing removed. */
  function ReadData(src: seq<Byte>, n: nat): seq<seq<Byte>>
    decreases n
  {
    if n == 0 then [] else [Unstuff(src)] + ReadData(Marker(src).rest, n - 1)
  }

  /** The closed segments from number k on. */
  function From(ws: seq<seq<Byte>>, k: nat): seq<Byte>
    requires k <= |ws|
    decreases |ws| - k
  {
    if k == |ws| then [] else Stuff(ws[k]) + Rst(k) + From(ws, k + 1)
  }

  lemma {:induction false} ClosedFrom(ws: seq<seq<Byte>>, k: nat)
    requires k <= |ws|
    ensures Closed(ws) == Closed(ws[..k]) + From(ws, k)
    decreases |ws| - k
  {
    hide Stuff;
    if k == |ws| {
      assert ws[..k] == ws;
    } else {
      ClosedFrom(ws, k + 1);
      assert ws[..k + 1] == ws[..k] + [ws[k]];
      ClosedSnoc(ws[..k], ws[k]);
      assert Closed(ws[..k]) + (Stuff(ws[k]) + Rst(k)) + From(ws, k + 1) == Closed(ws[..k]) + (Stuff(ws[k]) + Rst(k) + From(ws, k + 1));
    }
  }

  lemma {:induction false} ReadLater(ws: seq<seq<Byte>>, k: nat, rest: seq<Byte>, w: seq<Byte>, more: seq<Byte>)
    requires k <= |ws| && rest == From(ws, k) && Unstuff(more) == []
    ensures ReadData(rest + (Stuff(w) + more), |ws| - k + 1) == ws[k..] + [w]
    decreases |ws| - k
  {
    hide Unstuff, Marker, Stuff;
    if k == |ws| {
      assert rest + (Stuff(w) + more) == Stuff(w) + more;
      UnstuffStuff(w, more);
      assert ReadData(Marker(Stuff(w) + more).rest, 0) == [];
      assert ws[k..] + [w] == [w];
    } else {
      var tail := From(ws, k + 1) + (Stuff(w) + more);
      assert rest + (Stuff(w) + more) == Stuff(ws[k]) + (Rst(k) + tail);
      MarkerRst(k, tail);
      UnstuffStuff(ws[k], Rst(k) + tail);
      MarkerStuff(ws[k], Rst(k) + tail);
      ReadLater(ws, k + 1, From(ws, k + 1), w, more);
      assert ws[k..] == [ws[k]] + ws[k + 1..];
    }
  }

  lemma ClosedAll(ws: seq<seq<Byte>>)
    ensures Closed(ws) == From(ws, 0)
  {
    hide Stuff;
    ClosedFrom(ws, 0);
    assert ws[..0] == [] && Closed([]) == [];
  }

  /** The segments' data are found, whatever marker follows the scan. */
  lemma DataRead(ws: seq<seq<Byte>>, tail: seq<Byte>)
    requires ws != [] && Unstuff(tail) == []
    ensures ReadData(ScanData(ws) + tail, |ws|) == ws
  {
    hide Unstuff, Marker, Stuff, Closed, From, ReadData;
    var n := |ws| - 1;
    var front := ws[..n];
    ClosedAll(front);
    ReadLater(front, 0, From(front, 0), ws[n], tail);
    assert ScanData(ws) + tail == From(front, 0) + (Stuff(ws[n]) + tail);
    assert front[0..] == front && ws == front + [ws[n]];
  }

  /** The segments of a scan, read from its bytes. */
  ghost predicate ReadsAs(sc: HScan, tables: Tables, src: seq<Byte>, segs: seq<seq<Visit>>)
    requires HScanOk(sc) && TablesFor(sc, tables) && SegmentsOk(sc, segs)
  {
    var ws := ReadData(src, |segs|);
    |ws| == |segs| && forall i :: 0 <= i < |segs| ==> SegReadsAs(sc, tables, ws[i], segs[i])
  }

  ghost predicate SegReadsAs(sc: HScan, tables: Tables, w: seq<Byte>, vs: seq<Visit>)
    requires HScanOk(sc) && TablesFor(sc, tables) && AreMembers(sc, vs)
  {
    var r := DecodeSegment(sc, tables, Components(vs), BitString(Val(w), 8 * |w|));
    r.SegBitsRead? && r.vs == vs
  }

  /**
   * The bytes of a sequential scan, restart markers included, are read back as the blocks that were
   * written, if the values were in range and the tables are prefix codes.
   */
  lemma ScanDecoded(sc: HScan, tables: Tables, segs: seq<seq<Visit>>, ws: seq<seq<Byte>>, tail: seq<Byte>)
    requires HScanOk(sc) && TablesFor(sc, tables) && SegmentsOk(sc, segs) && segs != [] && PacksAll(sc, tables, segs, ws)
    requires (forall i :: 0 <= i < |segs| ==> SegInRange(sc, segs[i])) && Unstuff(tail) == []
    ensures ReadsAs(sc, tables, ScanData(ws) + tail, segs)
  {
    hide SegBits, SegCoded, Packs, DecodeSegment, Unstuff, ReadData, ScanData, SegInRange, TablesFor;
    DataRead(ws, tail);
    forall i | 0 <= i < |segs| ensures SegReadsAs(sc, tables, ws[i], segs[i]) {
      PackedDecoded(sc, tables, segs[i], ws[i]);
    }
  }
}
