/**
 * From the statistics pass to the output pass of jchuff.c: finish_pass_gather makes a table for every
 * count array, start_pass_huff derives the codes, and then every symbol that was counted has one.
 */
module HuffmanTwoPass {
  import opened Bits
  import opened Blocks
  import opened HuffmanCost
  import opened HuffmanDepth
  import opened HuffmanTree
  import opened HuffmanTable
  import opened HuffmanCodes
  import opened HuffmanBits
  import opened HuffmanSymbols
  import opened HuffmanSequential
  import opened HuffmanScan
  import opened HuffmanOutput

  // ----- One table -----

  /** Every symbol with a nonzero count has a code, and the codes are a prefix code. */
  predicate CodesFor(row: seq<nat>, c: Codes)
    requires |row| == NUM_SYMBOLS
  {
    && PrefixCode(c.co, c.si)
    && forall s: Byte :: c.si[s] > 0 <==> row[s] > 0
  }

  lemma TableCodes(f: seq<nat>, lengths: seq<nat>, tbl: HuffTable, co: seq<nat>, si: seq<nat>)
    requires |f| == NUM_SYMBOLS == |lengths| && TableFor(WithPseudo(f), lengths, tbl) && |co| == |si| == 256
    requires var sizes := Sizes(Counts1(tbl.bits), 16);
             Ascending(sizes) && |sizes| <= |tbl.huffval| && Offset(sizes, |sizes|) < Pow2(16)
             && Derives(sizes, tbl.huffval[..|sizes|], co, si)
    ensures CodesFor(f, Codes(co, si))
  {
    hide Pow2, Offset, IsCode, Derives, KraftBits, PrefixCode, Used;
    var sizes := Sizes(Counts1(tbl.bits), 16);
    AcceptableSizes(tbl.bits);
    assert Counts1(tbl.bits) == tbl.bits;
    assert tbl.huffval[..|sizes|] == tbl.huffval;
    DerivedIsPrefixCode(sizes, tbl.huffval, co, si);
  }

  /** A complete code for the counted symbols and the pseudo-symbol that no other code beats. */
  ghost predicate Optimal(row: seq<nat>, lengths: seq<nat>)
    requires |row| == NUM_SYMBOLS
  {
    var f := WithPseudo(row);
    Complete(f, lengths) && forall l, e :: Feasible(f, l, e) ==> Cost(f, lengths) <= Cost(f, l)
  }

  /** The codes are those of a table for the counts and their lengths. */
  ghost predicate CodesOfTable(row: seq<nat>, lengths: seq<nat>, c: Codes)
    requires |row| == NUM_SYMBOLS == |lengths|
  {
    exists tbl :: TableFor(WithPseudo(row), lengths, tbl) && DerivedFrom(tbl, c)
  }

  predicate DerivedFrom(tbl: HuffTable, c: Codes) {
    && |c.co| == |c.si| == 256 && |tbl.bits| == 17
    && var sizes := Sizes(Counts1(tbl.bits), 16);
       Ascending(sizes) && |sizes| == |tbl.huffval| && Derives(sizes, tbl.huffval, c.co, c.si)
  }

  /** If the optimal code has no length above 16, every symbol's code is exactly as long as there. */
  lemma AsLong(row: seq<nat>, lengths: seq<nat>, c: Codes)
    requires |row| == NUM_SYMBOLS == |lengths| && CodesOfTable(row, lengths, c) && AtMost(lengths, 16)
    requires lengths == MergeLengths(WithPseudo(row)) && Sum(WithPseudo(row)) <= CUTOFF
    requires forall s :: 0 <= s < NUM_SYMBOLS ==> (lengths[s] > 0 <==> WithPseudo(row)[s] > 0)
    ensures |c.si| == 256 && forall s: Byte :: c.si[s] == lengths[s]
  {
    hide Offset, IsCode, MergeLengths, Sum;
    var tbl :| TableFor(WithPseudo(row), lengths, tbl) && DerivedFrom(tbl, c);
    AllInTable(row, lengths, tbl);
    hide TableFor;
    forall s: Byte ensures c.si[s] == lengths[s] {
      if s in tbl.huffval {
        var p: nat :| p < |tbl.huffval| && tbl.huffval[p] == s;
        OptimalLengths(WithPseudo(row), lengths, tbl, p);
      }
    }
  }

  lemma AllInTable(row: seq<nat>, lengths: seq<nat>, tbl: HuffTable)
    requires |row| == NUM_SYMBOLS == |lengths| && TableFor(WithPseudo(row), lengths, tbl)
    ensures forall s: nat :: s < 256 && WithPseudo(row)[s] > 0 ==> s in tbl.huffval
  {
  }

  /** jpeg_gen_optimal_table on the counts, then jpeg_make_c_derived_tbl on its table. */
  method OptimizeTable(isDC: bool, row: seq<nat>) returns (ok: bool, c: Codes)
    requires |row| == NUM_SYMBOLS && 1 <= Used(row[..256]) <= 254 && Sum(row[..256]) < CUTOFF
    requires isDC ==> forall s :: 15 < s < 256 ==> row[s] == 0
    ensures ok <==> AtMost(MergeLengths(WithPseudo(row)), MAX_CLEN)
    ensures Optimal(row, MergeLengths(WithPseudo(row)))
    ensures ok ==> CodesFor(row, c) && CodesOfTable(row, MergeLengths(WithPseudo(row)), c)
    ensures ok && AtMost(MergeLengths(WithPseudo(row)), 16) ==>
              |c.si| == 256 && forall s: Byte :: c.si[s] == MergeLengths(WithPseudo(row))[s]
  {
    hide MergeLengths, Pow2, Offset, IsCode, Derives, KraftBits, PrefixCode, Used, Sum, TableFor, CodesFor, CodesOfTable, Acceptable,
      Feasible, Kraft, AtMost, Histogram, LongestDropped;
    var freq := new nat[NUM_SYMBOLS](i requires 0 <= i < NUM_SYMBOLS => row[i]);
    assert freq[..] == row;
    var r;
    ghost var lengths;
    r, lengths := GenOptimalTable(freq);
    c := Codes([], []);
    match r
    case ClenOverflow => ok := false;
    case Table(tbl) =>
      TableShape(WithPseudo(row), lengths, tbl);
      OptimalTableAccepted(isDC, WithPseudo(row), lengths, tbl);
      var ehufco, ehufsi := new nat[256], new nat[256];
      ok := MakeDerivedTbl(isDC, tbl, ehufco, ehufsi);
      TableCodes(row, lengths, tbl, ehufco[..], ehufsi[..]);
      c := Codes(ehufco[..], ehufsi[..]);
      if ok {
        MadeFrom(row, lengths, tbl, c);
        if AtMost(lengths, 16) {
          PseudoCounts(row);
          AsLong(row, lengths, c);
        }
      }
  }

  lemma MadeFrom(row: seq<nat>, lengths: seq<nat>, tbl: HuffTable, c: Codes)
    requires |row| == NUM_SYMBOLS == |lengths| && TableFor(WithPseudo(row), lengths, tbl) && |c.co| == |c.si| == 256
    requires var sizes := Sizes(Counts1(tbl.bits), 16);
             Ascending(sizes) && |sizes| <= |tbl.huffval| && Derives(sizes, tbl.huffval[..|sizes|], c.co, c.si)
    ensures CodesOfTable(row, lengths, c)
  {
    hide Derives, TableFor;
    TableShape(WithPseudo(row), lengths, tbl);
    var sizes := Sizes(Counts1(tbl.bits), 16);
    AcceptableSizes(tbl.bits);
    assert tbl.huffval[..|sizes|] == tbl.huffval;
    assert DerivedFrom(tbl, c);
  }

  lemma TableShape(f: seq<nat>, lengths: seq<nat>, tbl: HuffTable)
    requires |f| == NUM_SYMBOLS == |lengths| && TableFor(f, lengths, tbl)
    ensures |tbl.bits| == 17 && Sum(Counts1(tbl.bits)) == |tbl.huffval|
  {
    assert Counts1(tbl.bits) == tbl.bits;
  }

  /** Every component's tables are there, and they are prefix codes. */
  predicate TablesFor(sc: HScan, tables: Tables)
    requires HScanOk(sc)
  {
    forall ci :: 0 <= ci < |sc.dcTbl| ==>
      && DcTbl(sc.dcTbl[ci]) in tables && PrefixCode(tables[DcTbl(sc.dcTbl[ci])].co, tables[DcTbl(sc.dcTbl[ci])].si)
      && AcTbl(sc.acTbl[ci]) in tables && PrefixCode(tables[AcTbl(sc.acTbl[ci])].co, tables[AcTbl(sc.acTbl[ci])].si)
  }

  /** jpeg_gen_optimal_table can deal with the counts of every table in use. */
  predicate TablesFit(sc: HScan, items: seq<Item>)
    requires HScanOk(sc)
  {
    forall ci :: 0 <= ci < |sc.dcTbl| ==> CodesFit(items, DcTbl(sc.dcTbl[ci])) && CodesFit(items, AcTbl(sc.acTbl[ci]))
  }

  // ----- All tables of a scan -----

  lemma InsaneAbsent(items: seq<Item>, i: Item)
    requires AllSane(items) && !Sane(i)
    ensures i !in items
  {
  }

  /** The symbols in `items` that belong to table t leave its counts usable. */
  lemma RowUsable(items: seq<Item>, t: TblId, row: seq<nat>)
    requires AllSane(items) && |row| == NUM_SYMBOLS && forall s :: 0 <= s < NUM_SYMBOLS ==> row[s] == CountSym(items, t, s)
    requires Occurs(items, t)
    ensures 1 <= Used(row[..256]) <= 254
    ensures t.DcTbl? ==> forall s :: 15 < s < 256 ==> row[s] == 0
  {
    hide CountSym, Used;
    forall s: nat | s < 256 && (s == 12 || s == 13 || (t.DcTbl? && s > 15)) ensures row[s] == 0 {
      CountedIffPresent(items, t, s);
      InsaneAbsent(items, Sym(t, s));
    }
    var s: nat :| Sym(t, s) in items;
    assert Sane(Sym(t, s));
    CountedIffPresent(items, t, s);
    var f := row[..256];
    assert f[s] > 0;
    UsedBetween(f, s);
  }

  lemma UsedBetween(f: seq<nat>, s: nat)
    requires |f| == 256 && s < 256 && f[s] > 0 && f[12] == 0 && f[13] == 0
    ensures 1 <= Used(f) <= 254
  {
    SumUpdate(f, s, 0);
    var g := f[12 := 1];
    var h := g[13 := 1];
    SumUpdate(f, 12, 1);
    SumUpdate(g, 13, 1);
    UsedAtMost(h);
  }

  /** Every symbol of the items has a code in the tables. */
  lemma NothingMissing(items: seq<Item>, tables: Tables)
    requires AllSane(items)
    requires forall t, s :: Sym(t, s) in items ==> t in tables
    requires forall t :: t in tables ==> exists row: seq<nat> :: RowOf(items, t, row) && CodesFor(row, tables[t])
    ensures AllCoded(tables, items)
  {
    hide CountSym;
    forall j | 0 <= j < |items| ensures Coded(tables, items[j]) {
      assert Sane(items[j]) && items[j] in items;
      match items[j]
      case Raw(b, n) =>
      case Sym(t, s) =>
        assert t in tables;
        var row: seq<nat> :| RowOf(items, t, row) && CodesFor(row, tables[t]);
        CountedIffPresent(items, t, s);
    }
  }

  predicate RowOf(items: seq<Item>, t: TblId, row: seq<nat>) {
    |row| == NUM_SYMBOLS && forall s :: 0 <= s < NUM_SYMBOLS ==> row[s] == CountSym(items, t, s)
  }

  /** The counts of the table's symbols. */
  function CountsOf(items: seq<Item>, t: TblId): (row: seq<nat>)
    ensures RowOf(items, t, row)
  {
    seq(NUM_SYMBOLS, s requires 0 <= s < NUM_SYMBOLS => CountSym(items, t, s))
  }

  /** Huffman's algorithm gives the table no code of more than 32 bits: what jpeg_gen_optimal_table can deal with. */
  predicate CodesFit(items: seq<Item>, t: TblId) {
    AtMost(MergeLengths(WithPseudo(CountsOf(items, t))), MAX_CLEN)
  }

  lemma RowIsCounts(items: seq<Item>, t: TblId, row: seq<nat>)
    requires RowOf(items, t, row)
    ensures row == CountsOf(items, t)
  {
    hide CountSym;
  }

  /** A scan of fewer than nine million items cannot have longer codes. */
  lemma FewItemsFit(items: seq<Item>, t: TblId)
    requires |items| < 9_227_464
    ensures CodesFit(items, t)
  {
    hide CountSym, MergeLengths, Sum;
    var row := CountsOf(items, t);
    RowSum(items, t, row);
    PseudoCounts(row);
    FewCountsShortCodes(WithPseudo(row));
  }

  /** The components' tables do occur: every block has a DC symbol and at least one AC symbol. */
  lemma {:induction false} AcSymbolExists(t: nat, z: Zigzag, k: nat, r: nat) returns (s: nat)
    requires k <= DCTSIZE2 && (k == DCTSIZE2 ==> r > 0)
    ensures Sym(AcTbl(t), s) in AcItems(t, z, k, r)
    decreases DCTSIZE2 - k, r
  {
    if k == DCTSIZE2 {
      s := 0;
    } else if z[k] == 0 {
      s := AcSymbolExists(t, z, k + 1, r + 1);
    } else if r > 15 {
      s := ZRL;
      assert AcItems(t, z, k, r)[0] == Sym(AcTbl(t), ZRL);
    } else {
      s := r * 16 + NBits(Abs(z[k]));
      assert AcItems(t, z, k, r)[0] == Sym(AcTbl(t), s);
    }
  }

  /** Only tables of the scan's components occur. */
  lemma {:induction false} AcTablesOnly(t: nat, z: Zigzag, k: nat, r: nat)
    requires k <= DCTSIZE2
    ensures forall u, s :: Sym(u, s) in AcItems(t, z, k, r) ==> u == AcTbl(t)
    decreases DCTSIZE2 - k, r
  {
    hide NBits;
    if k < DCTSIZE2 {
      if z[k] == 0 {
        AcTablesOnly(t, z, k + 1, r + 1);
      } else if r > 15 {
        AcTablesOnly(t, z, k, r - 16);
      } else {
        AcTablesOnly(t, z, k + 1, 0);
      }
    }
  }

  predicate TableInUse(sc: HScan, t: TblId) {
    exists ci :: 0 <= ci < |sc.dcTbl| && |sc.acTbl| == |sc.dcTbl| && (t == DcTbl(sc.dcTbl[ci]) || t == AcTbl(sc.acTbl[ci]))
  }

  lemma {:induction false} SegTablesOnly(sc: HScan, vs: seq<Visit>)
    requires HScanOk(sc) && AreMembers(sc, vs)
    ensures forall t, s :: Sym(t, s) in SegItems(sc, vs) ==> TableInUse(sc, t)
  {
    if vs != [] {
      var v := vs[|vs| - 1];
      SegTablesOnly(sc, vs[..|vs| - 1]);
      AcTablesOnly(sc.acTbl[v.ci], v.z, 1, 0);
    }
  }

  lemma {:induction false} ScanTablesOnly(sc: HScan, segs: seq<seq<Visit>>)
    requires HScanOk(sc) && SegmentsOk(sc, segs)
    ensures forall t, s :: Sym(t, s) in ScanItems(sc, segs) ==> TableInUse(sc, t)
  {
    hide TableInUse, AreMembers;
    if segs != [] {
      ScanTablesOnly(sc, segs[..|segs| - 1]);
      SegTablesOnly(sc, segs[|segs| - 1]);
    }
  }

  /** The counts of a table add up to no more than the number of items. */
  lemma RowSum(items: seq<Item>, t: TblId, row: seq<nat>)
    requires RowOf(items, t, row)
    ensures Sum(row[..256]) <= |items|
  {
    CountTotal(items, t, row[..256]);
  }

  lemma {:induction false} CountTotal(items: seq<Item>, t: TblId, row: seq<nat>)
    requires forall s :: 0 <= s < |row| ==> row[s] == CountSym(items, t, s)
    ensures Sum(row) <= |items|
    decreases |items|
  {
    if items == [] {
      SumZero(row);
    } else {
      var n := |items| - 1;
      var row' := seq(|row|, s requires 0 <= s < |row| => CountSym(items[..n], t, s));
      CountTotal(items[..n], t, row');
      match items[n]
      case Raw(_, _) => assert row == row';
      case Sym(u, s) =>
        if u == t && s < |row| {
          SumUpdate(row', s, row'[s] + 1);
          assert row == row'[s := row'[s] + 1];
        } else {
          assert row == row';
        }
    }
  }

  /** Some symbol of the table occurs. */
  ghost predicate Occurs(items: seq<Item>, t: TblId) {
    exists s: nat :: Sym(t, s) in items
  }

  lemma OccursConcat(a: seq<Item>, b: seq<Item>, t: TblId)
    requires Occurs(a, t) || Occurs(b, t)
    ensures Occurs(a + b, t)
  {
    if Occurs(a, t) {
      var s: nat :| Sym(t, s) in a;
      assert Sym(t, s) in a + b;
    } else {
      var s: nat :| Sym(t, s) in b;
      assert Sym(t, s) in a + b;
    }
  }

  lemma BlockOccurs(td: nat, ta: nat, z: Zigzag, last: int)
    ensures Occurs(BlockItems(td, ta, z, last), DcTbl(td)) && Occurs(BlockItems(td, ta, z, last), AcTbl(ta))
  {
    hide AcItems, Extra, NBits;
    var dc, ac := DcItems(td, z[0] - last), AcItems(ta, z, 1, 0);
    assert dc[0] == Sym(DcTbl(td), NBits(Abs(z[0] - last)));
    assert Occurs(dc, DcTbl(td));
    var s := AcSymbolExists(ta, z, 1, 0);
    assert Occurs(ac, AcTbl(ta));
    OccursConcat(dc, ac, DcTbl(td));
    OccursConcat(dc, ac, AcTbl(ta));
  }

  /** The component's tables occur. */
  ghost predicate BothOccur(sc: HScan, items: seq<Item>, ci: nat)
    requires HScanOk(sc) && ci < |sc.dcTbl|
  {
    Occurs(items, DcTbl(sc.dcTbl[ci])) && Occurs(items, AcTbl(sc.acTbl[ci]))
  }

  lemma {:induction false} VisitInSegment(sc: HScan, vs: seq<Visit>, j: nat)
    requires HScanOk(sc) && AreMembers(sc, vs) && j < |vs|
    ensures vs[j].ci < |sc.dcTbl| && BothOccur(sc, SegItems(sc, vs), vs[j].ci)
    decreases |vs|
  {
    hide Occurs, BlockItems;
    var n := |vs| - 1;
    var front, more, ci := SegItems(sc, vs[..n]), VisitItems(sc, vs[..n], vs[n]), vs[j].ci;
    if j < n {
      VisitInSegment(sc, vs[..n], j);
    } else {
      BlockOccurs(sc.dcTbl[ci], sc.acTbl[ci], vs[n].z, LastDc(vs[..n], ci));
    }
    OccursConcat(front, more, DcTbl(sc.dcTbl[ci]));
    OccursConcat(front, more, AcTbl(sc.acTbl[ci]));
  }

  lemma {:induction false} ComponentInScan(sc: HScan, segs: seq<seq<Visit>>, k: nat, j: nat)
    requires HScanOk(sc) && SegmentsOk(sc, segs) && k < |segs| && j < |segs[k]|
    ensures segs[k][j].ci < |sc.dcTbl| && BothOccur(sc, ScanItems(sc, segs), segs[k][j].ci)
    decreases |segs|
  {
    hide Occurs, SegItems;
    var n := |segs| - 1;
    if k < n {
      ComponentInScan(sc, segs[..n], k, j);
    } else {
      VisitInSegment(sc, segs[n], j);
    }
    var front, more, ci := ScanItems(sc, segs[..n]), SegItems(sc, segs[n]), segs[k][j].ci;
    OccursConcat(front, more, DcTbl(sc.dcTbl[ci]));
    OccursConcat(front, more, AcTbl(sc.acTbl[ci]));
  }

  // ----- The output pass meets its precondition -----

  /** The items of more blocks begin with those of fewer. */
  lemma {:induction false} SegItemsPrefix(sc: HScan, vs: seq<Visit>, us: seq<Visit>) returns (rest: seq<Item>)
    requires HScanOk(sc) && AreMembers(sc, vs + us)
    ensures AreMembers(sc, vs) && SegItems(sc, vs + us) == SegItems(sc, vs) + rest
    decreases |us|
  {
    hide SegItems, AreMembers, VisitItems;
    if us == [] {
      rest := [];
      assert vs + us == vs;
    } else {
      var n := |us| - 1;
      assert vs + us == (vs + us[..n]) + [us[n]];
      SplitLastVisit(sc, vs + us[..n], us[n]);
      rest := SegItemsPrefix(sc, vs, us[..n]);
      rest := rest + VisitItems(sc, vs + us[..n], us[n]);
    }
  }

  lemma SplitLastVisit(sc: HScan, vs: seq<Visit>, v: Visit)
    requires HScanOk(sc) && AreMembers(sc, vs + [v])
    ensures AreMembers(sc, vs) && v.ci < |sc.dcTbl| && SegItems(sc, vs + [v]) == SegItems(sc, vs) + VisitItems(sc, vs, v)
  {
    assert (vs + [v])[|vs|] == v;
    forall i | 0 <= i < |vs| ensures vs[i].ci < |sc.dcTbl| {
      assert (vs + [v])[i] == vs[i];
    }
    hide SegItems, VisitItems;
    OneMoreVisit(sc, vs, v);
  }

  /** If a scan is coded, so is the scan without its last MCU. */
  lemma ShorterScanCoded(sc: HScan, tables: Tables, interval: nat, ms: seq<Mcu>)
    requires HScanOk(sc) && ms != [] && SegmentsOk(sc, Segments(interval, ms))
    requires AllCoded(tables, ScanItems(sc, Segments(interval, ms)))
    ensures SegmentsOk(sc, Segments(interval, ms[..|ms| - 1]))
    ensures AllCoded(tables, ScanItems(sc, Segments(interval, ms[..|ms| - 1])))
  {
    hide SegmentsOk, AllCoded, ScanItems, RestartBefore, Segments;
    var n := |ms| - 1;
    var segs' := Segments(interval, ms[..n]);
    assert ms == ms[..n] + [ms[n]];
    SegmentsSnoc(interval, ms[..n], ms[n]);
    if RestartBefore(interval, n) {
      FrontCoded(sc, tables, segs', ms[n]);
    } else {
      var closed, cur := segs'[..|segs'| - 1], segs'[|segs'| - 1];
      assert segs' == closed + [cur];
      LastShortened(sc, tables, closed, cur, ms[n]);
    }
  }

  lemma FrontCoded(sc: HScan, tables: Tables, segs: seq<seq<Visit>>, m: seq<Visit>)
    requires HScanOk(sc) && SegmentsOk(sc, segs + [m]) && AllCoded(tables, ScanItems(sc, segs + [m]))
    ensures SegmentsOk(sc, segs) && AllCoded(tables, ScanItems(sc, segs))
  {
    hide SegItems, AreMembers, Coded;
    assert forall i :: 0 <= i < |segs| ==> (segs + [m])[i] == segs[i];
    OneMoreSegment(sc, segs, m);
    CodedParts(tables, ScanItems(sc, segs), SegItems(sc, m));
  }

  lemma LastShortened(sc: HScan, tables: Tables, closed: seq<seq<Visit>>, cur: seq<Visit>, m: seq<Visit>)
    requires HScanOk(sc) && SegmentsOk(sc, closed + [cur + m]) && AllCoded(tables, ScanItems(sc, closed + [cur + m]))
    ensures SegmentsOk(sc, closed + [cur]) && AllCoded(tables, ScanItems(sc, closed + [cur]))
  {
    hide SegItems, AreMembers, Coded;
    var all := closed + [cur + m];
    assert all[|closed|] == cur + m;
    assert forall i :: 0 <= i < |closed| ==> all[i] == closed[i];
    OneMoreSegment(sc, closed, cur + m);
    CodedParts(tables, ScanItems(sc, closed), SegItems(sc, cur + m));
    var rest := SegItemsPrefix(sc, cur, m);
    CodedParts(tables, SegItems(sc, cur), rest);
    OneMoreSegment(sc, closed, cur);
    AppendItemsConcat(tables, NONE, ScanItems(sc, closed), SegItems(sc, cur));
  }

  /** With all symbols of the scan coded, every MCU of the output pass finds codes for its symbols. */
  lemma {:induction false} OutputFindsCodes(sc: HScan, tables: Tables, interval: nat, ms: seq<Mcu>, n: nat)
    requires HScanOk(sc) && n < |ms| && SegmentsOk(sc, Segments(interval, ms))
    requires AllCoded(tables, ScanItems(sc, Segments(interval, ms)))
    ensures var segs := Segments(interval, ms[..n + 1]); var cur := segs[|segs| - 1];
            AreMembers(sc, cur) && SegCoded(sc, tables, cur)
    decreases |ms|
  {
    hide AreMembers, SegItems, Segments, Coded;
    if n + 1 == |ms| {
      assert ms[..n + 1] == ms;
      var segs := Segments(interval, ms);
      CodedParts(tables, ScanItems(sc, segs[..|segs| - 1]), SegItems(sc, segs[|segs| - 1]));
    } else {
      ShorterScanCoded(sc, tables, interval, ms);
      OutputFindsCodes(sc, tables, interval, ms[..|ms| - 1], n);
      assert ms[..|ms| - 1][..n + 1] == ms[..n + 1];
    }
  }

  /** What becomes of a scan with optimized tables. */
  datatype ScanResult = Written(out: seq<Byte>, tables: Tables) | OutOfRange | CodeTooLong

  class TwoPass {
    const gather: GatherPass
    var tables: Tables               // the derived tables

    constructor (gather: GatherPass)
      ensures this.gather == gather && tables == map[]
    {
      this.gather := gather;
      tables := map[];
    }

    ghost function Items(): seq<Item>
      requires gather.Valid()
      reads gather, gather.lastDcVal, gather.stats.dcCounts, gather.stats.acCounts
    {
      gather.SegmentsShape();
      ScanItems(gather.scan, gather.Segs())
    }

    /** The tables made so far belong to the counts. */
    ghost predicate Made()
      requires gather.Valid()
      reads this, gather, gather.lastDcVal, gather.stats.dcCounts, gather.stats.acCounts
    {
      forall t :: t in tables ==> CodesFor(CountsOf(Items(), t), tables[t]) && CodesFit(Items(), t)
    }

    /** jpeg_gen_optimal_table and jpeg_make_c_derived_tbl, once per table. */
    method MakeTable(t: TblId) returns (ok: bool)
      requires gather.Valid() && t.no < NUM_HUFF_TBLS && Made()
      requires Occurs(Items(), t)
      requires |Items()| < CUTOFF
      modifies this
      ensures gather.Valid() && Made() && tables.Keys == old(tables.Keys) + if ok then {t} else {}
      ensures ok <==> CodesFit(Items(), t)
    {
      hide CodesFor, CodesOfTable, CountSym, Used, Sum, GatherPass.Valid, ScanItems, AtMost, MergeLengths, Optimal;
      ok := true;
      if t !in tables {
        gather.SegmentsShape();
        var row := gather.stats.Row(t);
        forall s: nat | s < NUM_SYMBOLS ensures row[s] == CountSym(Items(), t, s) {
          gather.CountsAreOccurrences(t, s);
        }
        gather.CountsAreOccurrences(t, 0);
        RowUsable(Items(), t, row);
        RowSum(Items(), t, row);
        RowIsCounts(Items(), t, row);
        var c;
        ok, c := OptimizeTable(t.DcTbl?, row);
        if ok {
          tables := tables[t := c];
        }
      }
    }

    /** finish_pass_gather and start_pass_huff: a table for every table number the components use. */
    method MakeTables() returns (ok: bool)
      requires gather.Valid() && Made() && gather.given != [] && gather.EveryComponent()
      requires |Items()| < CUTOFF
      modifies this
      ensures gather.Valid() && HScanOk(gather.scan) && (ok <==> TablesFit(gather.scan, Items()))
      ensures ok ==> AllCoded(tables, Items()) && TablesFor(gather.scan, tables)
    {
      hide CodesFor, CountSym, GatherPass.Valid, ScanItems, GatherPass.EveryComponent, CodesFit;
      gather.SegmentsShape();
      var sc := gather.scan;
      for ci := 0 to |sc.dcTbl|
        invariant gather.Valid() && Made()
        invariant forall i :: 0 <= i < ci ==> DcTbl(sc.dcTbl[i]) in tables && AcTbl(sc.acTbl[i]) in tables
        invariant forall i :: 0 <= i < ci ==> CodesFit(Items(), DcTbl(sc.dcTbl[i])) && CodesFit(Items(), AcTbl(sc.acTbl[i]))
      {
        ComponentOccurs(ci);
        ok := MakeTable(DcTbl(sc.dcTbl[ci]));
        if !ok {
          return;
        }
        ok := MakeTable(AcTbl(sc.acTbl[ci]));
        if !ok {
          return;
        }
      }
      ScanTablesOnly(sc, gather.Segs());
      gather.CountsAreOccurrences(DcTbl(0), 0);
      MadeRows();
      NothingMissing(Items(), tables);
      MadeCodes();
      ok := true;
    }

    lemma MadeRows()
      requires gather.Valid() && Made()
      ensures forall t :: t in tables ==> exists row: seq<nat> :: RowOf(Items(), t, row) && CodesFor(row, tables[t])
    {
      hide GatherPass.Valid, CountSym, CodesFor;
    }

    lemma MadeCodes()
      requires gather.Valid() && Made()
      ensures forall t :: t in tables ==> PrefixCode(tables[t].co, tables[t].si)
    {
      hide GatherPass.Valid, PrefixCode, CountSym;
      forall t | t in tables ensures PrefixCode(tables[t].co, tables[t].si) {
      }
    }

    lemma ComponentOccurs(ci: nat)
      requires gather.Valid() && gather.EveryComponent() && ci < |gather.scan.dcTbl|
      ensures HScanOk(gather.scan) && BothOccur(gather.scan, Items(), ci)
    {
      gather.SegmentsShape();
      var segs := gather.Segs();
      assert Seen(segs, ci);
      var k: nat, j: nat :| k < |segs| && j < |segs[k]| && segs[k][j].ci == ci;
      ComponentInScan(gather.scan, segs, k, j);
    }
  }
}
