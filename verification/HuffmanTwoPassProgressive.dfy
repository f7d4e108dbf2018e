/**
 * Both passes over a progressive scan: statistics, finish_pass_gather_phuff, start_pass_phuff and output.
 * The output pass finds a code for every symbol and every MCU in range.
 */
module HuffmanTwoPassProgressive {
  import opened Bits
  import opened Blocks
  import opened Markers
  import opened NaturalOrder
  import opened HuffmanCodes
  import opened HuffmanCost
  import opened HuffmanDepth
  import opened HuffmanBits
  import opened HuffmanSymbols
  import opened HuffmanSequential
  import opened HuffmanEobRuns
  import opened HuffmanScan
  import opened HuffmanOutput
  import opened HuffmanTwoPass
  import opened HuffmanProgressive
  import opened HuffmanProgressiveScan

  // ----- The output pass meets its precondition -----

  /** What has been sent before an MCU is a prefix of what has been sent after it. */
  lemma SentGrows(sc: PScan, interval: nat, given: seq<Mcu>, m: Mcu)
    requires PScanOk(sc) && AllInScan(sc, Segments(interval, given + [m]))
    ensures AllInScan(sc, Segments(interval, given))
    ensures SentSoFar(sc, Segments(interval, given)) <= SentSoFar(sc, Segments(interval, given + [m]))
  {
    hide SegOut, InScan, WholeScan, WholeSegment, RestartBefore;
    SegmentsSnoc(interval, given, m);
    var segs, segs' := Segments(interval, given), Segments(interval, given + [m]);
    var closed, cur := segs[..|segs| - 1], segs[|segs| - 1];
    assert segs == closed + [cur];
    if RestartBefore(interval, |given|) {
      assert segs' == segs + [m];
      ClosedGrows(sc, segs, closed, cur, m);
    } else {
      assert segs' == closed + [cur + m];
      OpenGrows(sc, closed, cur, m);
    }
  }

  lemma ClosedGrows(sc: PScan, segs: seq<seq<Visit>>, closed: seq<seq<Visit>>, cur: seq<Visit>, m: Mcu)
    requires PScanOk(sc) && segs == closed + [cur] && AllInScan(sc, segs + [m])
    ensures AllInScan(sc, segs) && SentSoFar(sc, segs) <= SentSoFar(sc, segs + [m])
  {
    hide SegOut, InScan, EobItems;
    assert (segs + [m])[..|segs|] == segs && (segs + [m])[|segs|] == m;
    assert forall i :: 0 <= i < |segs| ==> (segs + [m])[i] == segs[i];
    assert segs[..|closed|] == closed;
  }

  lemma OpenGrows(sc: PScan, closed: seq<seq<Visit>>, cur: seq<Visit>, m: Mcu)
    requires PScanOk(sc) && AllInScan(sc, closed + [cur + m])
    ensures AllInScan(sc, closed + [cur]) && SentSoFar(sc, closed + [cur]) <= SentSoFar(sc, closed + [cur + m])
  {
    hide SegOut, InScan, WholeScan;
    var u, v := closed + [cur], closed + [cur + m];
    assert u[..|closed|] == closed == v[..|closed|] && u[|closed|] == cur && v[|closed|] == cur + m;
    assert forall i :: 0 <= i < |closed| ==> u[i] == v[i];
    assert (cur + m)[..|cur|] == cur;
    SegOutPrefix(sc, cur + m, |cur|);
  }

  lemma {:induction false} SentIsPrefix(sc: PScan, interval: nat, ms: seq<Mcu>, n: nat)
    requires PScanOk(sc) && AllInScan(sc, Segments(interval, ms)) && n <= |ms|
    ensures AllInScan(sc, Segments(interval, ms[..n]))
    ensures SentSoFar(sc, Segments(interval, ms[..n])) <= SentSoFar(sc, Segments(interval, ms))
    decreases |ms|
  {
    hide SentSoFar, Segments, AllInScan;
    if n == |ms| {
      assert ms[..n] == ms;
    } else {
      var k := |ms| - 1;
      assert ms == ms[..k] + [ms[k]] && ms[..k][..n] == ms[..n];
      SentGrows(sc, interval, ms[..k], ms[k]);
      SentIsPrefix(sc, interval, ms[..k], n);
    }
  }

  /** With all symbols of the scan coded, every MCU finds codes for its symbols. */
  lemma McusFindCodes(sc: PScan, tables: Tables, interval: nat, ms: seq<Mcu>, n: nat)
    requires PScanOk(sc) && AllInScan(sc, Segments(interval, ms)) && n <= |ms|
    requires AllCoded(tables, WholeScan(sc, Segments(interval, ms)))
    ensures AllInScan(sc, Segments(interval, ms[..n])) && AllCoded(tables, SentSoFar(sc, Segments(interval, ms[..n])))
  {
    hide SegOut, InScan, AllCoded;
    var segs := Segments(interval, ms);
    SentIsPrefix(sc, interval, ms, n);
    assert SentSoFar(sc, segs) <= WholeScan(sc, segs);
    CodedPrefix(tables, SentSoFar(sc, Segments(interval, ms[..n])), WholeScan(sc, segs));
  }

  // ----- Every table in use has a symbol -----

  /** A coefficient that is not yet accounted for leads to a symbol, or to an end-of-block. */
  lemma {:induction false} BandTalks(t: nat, refine: bool, x: Zigzag, se: nat, eob: nat, k: nat, r: nat, br: seq<Bit>, p: Pend)
    requires eob <= se < DCTSIZE2 && k <= se + 1 && (k <= se || r > 0 || br != [])
    ensures var q := BandItems(t, refine, x, se, eob, k, r, br, p);
            Occurs(q.items, AcTbl(t)) || q.r > 0 || q.br != []
    decreases se + 1 - k, r
  {
    hide Raws, Extra, NBits, EobItems;
    if k <= se {
      if x[k] == 0 {
        BandTalks(t, refine, x, se, eob, k + 1, r + 1, br, p);
      } else if r > 15 && k <= eob {
        SymbolIn(t, ZRL, EobItems(t, p), [], Raws(br), BandItems(t, refine, x, se, eob, k, r - 16, [], NO_PEND).items);
      } else if IsOld(refine, x[k]) {
        BandTalks(t, refine, x, se, eob, k + 1, r, br + [Abs(x[k]) % 2], p);
      } else {
        SymbolIn(t, r * 16 + NBits(Abs(x[k])), EobItems(t, p), [Extra(x[k])], Raws(br), BandItems(t, refine, x, se, eob, k + 1, 0, [], NO_PEND).items);
      }
    }
  }

  lemma SymbolIn(t: nat, s: nat, a: seq<Item>, b: seq<Item>, c: seq<Item>, d: seq<Item>)
    ensures Occurs(a + ([Sym(AcTbl(t), s)] + b + c) + d, AcTbl(t))
  {
    assert (a + ([Sym(AcTbl(t), s)] + b + c) + d)[|a|] == Sym(AcTbl(t), s);
  }

  lemma RunTalks(t: nat, a: seq<Item>, p: Pend)
    requires p.eobrun > 0
    ensures Occurs(a + EobItems(t, p), AcTbl(t))
  {
    assert (a + EobItems(t, p))[|a|] == Sym(AcTbl(t), (NBits(p.eobrun) - 1) * 16);
  }

  lemma BlockTalks(t: nat, refine: bool, x: Zigzag, ss: nat, se: nat, p: Pend)
    requires 1 <= ss <= se < DCTSIZE2
    ensures var (items, p') := BlockOut(t, refine, x, ss, se, p); Occurs(items, AcTbl(t)) || p'.eobrun > 0
  {
    hide BandItems, EobItems;
    var eob := LastNew(refine, x, ss, se);
    var q := BandItems(t, refine, x, se, eob, ss, 0, [], p);
    BandTalks(t, refine, x, se, eob, ss, 0, [], p);
    RunTalks(t, q.items, Pend(q.p.eobrun + 1, q.p.be + q.br));
  }

  /** The table of the block at j has a symbol in the segment, or is going to. */
  lemma {:induction false} OpenSegmentTalks(sc: PScan, vs: seq<Visit>, j: nat)
    requires PScanOk(sc) && InScan(sc, vs) && j < |vs| && !(sc.IsDc() && sc.Refines())
    ensures vs[j].ci < |sc.tbl|
    ensures Occurs(SegOut(sc, vs).items, sc.Tbl(sc.tbl[vs[j].ci])) || (!sc.IsDc() && SegOut(sc, vs).p.eobrun > 0)
    decreases |vs|
  {
    hide BlockOut, Occurs, DcItems;
    var n := |vs| - 1;
    var s, t := SegOut(sc, vs[..n]), sc.Tbl(sc.tbl[vs[j].ci]);
    var items := VisitOut(sc, vs[..n], vs[n], s.p).0;
    if !sc.IsDc() {
      BlockTalks(sc.tbl[0], sc.Refines(), Trunc(vs[n].z, sc.al), sc.ss, sc.se, s.p);
    } else if j == n {
      DcTalks(sc.tbl[vs[n].ci], DcDiff(sc, vs[..n], vs[n]));
    } else {
      OpenSegmentTalks(sc, vs[..n], j);
    }
    if Occurs(s.items, t) || Occurs(items, t) {
      OccursConcat(s.items, items, t);
    }
  }

  lemma DcTalks(t: nat, diff: int)
    ensures Occurs(DcItems(t, diff), DcTbl(t))
  {
    assert DcItems(t, diff)[0] == Sym(DcTbl(t), NBits(Abs(diff)));
  }

  lemma SegmentTalks(sc: PScan, vs: seq<Visit>, j: nat)
    requires PScanOk(sc) && InScan(sc, vs) && j < |vs| && !(sc.IsDc() && sc.Refines())
    ensures vs[j].ci < |sc.tbl| && Occurs(WholeSegment(sc, vs), sc.Tbl(sc.tbl[vs[j].ci]))
  {
    hide SegOut, EobItems, Occurs;
    OpenSegmentTalks(sc, vs, j);
    var s, t := SegOut(sc, vs), sc.Tbl(sc.tbl[vs[j].ci]);
    if Occurs(s.items, t) {
      OccursConcat(s.items, EobItems(sc.tbl[0], s.p), t);
    } else {
      RunTalks(sc.tbl[0], s.items, s.p);
    }
  }

  lemma {:induction false} ComponentTalks(sc: PScan, segs: seq<seq<Visit>>, k: nat, j: nat)
    requires PScanOk(sc) && AllInScan(sc, segs) && k < |segs| && j < |segs[k]| && !(sc.IsDc() && sc.Refines())
    ensures segs[k][j].ci < |sc.tbl| && Occurs(WholeScan(sc, segs), sc.Tbl(sc.tbl[segs[k][j].ci]))
    decreases |segs|
  {
    hide Occurs, WholeSegment;
    var n := |segs| - 1;
    if k < n {
      ComponentTalks(sc, segs[..n], k, j);
    } else {
      SegmentTalks(sc, segs[n], j);
    }
    OccursConcat(WholeScan(sc, segs[..n]), WholeSegment(sc, segs[n]), sc.Tbl(sc.tbl[segs[k][j].ci]));
  }

  // ----- The passes -----

  predicate AllFitScan(sc: PScan, data: seq<McuData>) {
    forall i :: 0 <= i < |data| ==> FitsScan(sc, data[i].members, data[i].blocks)
  }

  /** Every MCU is in range. */
  predicate McusInRange(sc: PScan, interval: nat, ms: seq<Mcu>)
    requires PScanOk(sc)
  {
    forall n :: 0 <= n < |ms| ==> McuInRange(sc, interval, ms[..n], ms[n])
  }

  lemma {:induction false} AllMcusInScan(sc: PScan, interval: nat, ms: seq<Mcu>)
    requires PScanOk(sc) && forall i :: 0 <= i < |ms| ==> InScan(sc, ms[i])
    ensures AllInScan(sc, Segments(interval, ms))
  {
    if ms != [] {
      AllMcusInScan(sc, interval, ms[..|ms| - 1]);
    }
  }

  /** Everything known about the MCUs of a scan before a pass over them. */
  ghost predicate Prepared(p: ProgressivePass, data: seq<McuData>, ms: seq<Mcu>) {
    && IsNaturalOrder(p.enc.order) && PScanOk(p.enc.scan) && AllFitScan(p.enc.scan, data) && ms == McusOf(p.enc.order, data)
    && AllInScan(p.enc.scan, Segments(p.restartInterval, ms))
    && p.enc.CanSend(WholeScan(p.enc.scan, Segments(p.restartInterval, ms)))
  }

  /** A pass over all MCUs of a scan; false if one is out of range. */
  method RunPass(p: ProgressivePass, data: seq<McuData>, ghost ms: seq<Mcu>) returns (ok: bool)
    requires p.Valid() && p.given == [] && Prepared(p, data, ms)
    modifies p, p.lastDcVal, p.enc`past, p.enc`items, p.enc`eobrun, p.enc`be, p.enc.counts, p.enc.writer, p.enc.bitBuffer
    ensures PScanOk(p.enc.scan) && (ok <==> McusInRange(p.enc.scan, p.restartInterval, ms))
    ensures ok ==> p.enc.Counted() && p.enc.past + p.enc.items == WholeScan(p.enc.scan, Segments(p.restartInterval, ms))
    ensures ok && !p.enc.gather ==> PacksScan(p.enc.scan, p.enc.tables, Segments(p.restartInterval, ms), p.ws) && p.ws != []
                                    && p.enc.writer.out == ScanData(p.ws)
  {
    hide ProgressivePass.Valid, PhuffEncoder.Counted, IsNaturalOrder, PScanOk, AllInScan, Segments, SentSoFar, WholeScan, AllCoded, PacksScan, ScanData, McuInRange;
    for i := 0 to |data|
      invariant p.Valid() && p.given == ms[..i]
      invariant forall n :: 0 <= n < i ==> McuInRange(p.enc.scan, p.restartInterval, ms[..n], ms[n])
    {
      ghost var m := VisitsOf(p.enc.order, data[i].members, data[i].blocks);
      assert ms[..i + 1] == ms[..i] + [m] && ms[i] == m;
      NextMcu(p, data, ms, i);
      ok := p.EncodeMcu(data[i].members, data[i].blocks);
      if !ok {
        return;
      }
    }
    assert ms[..|data|] == ms;
    p.FinishPass();
    ok := true;
  }

  lemma NextMcu(p: ProgressivePass, data: seq<McuData>, ms: seq<Mcu>, i: nat)
    requires Prepared(p, data, ms) && i < |data|
    ensures FitsScan(p.enc.scan, data[i].members, data[i].blocks)
    ensures var segs := Segments(p.restartInterval, ms[..i + 1]); AllInScan(p.enc.scan, segs) && p.enc.CanSend(SentSoFar(p.enc.scan, segs))
  {
    hide IsNaturalOrder, PScanOk, AllInScan, Segments, SentSoFar, WholeScan, AllCoded;
    SentIsPrefix(p.enc.scan, p.restartInterval, ms, i + 1);
    if !p.enc.gather {
      McusFindCodes(p.enc.scan, p.enc.tables, p.restartInterval, ms, i + 1);
    }
  }

  /** The count array of a table. */
  method CountRow(enc: PhuffEncoder, no: nat) returns (row: seq<nat>)
    requires enc.Counted() && enc.gather && no < NUM_HUFF_TBLS
    ensures RowOf(enc.past + enc.items, enc.scan.Tbl(no), row)
  {
    var a := enc.counts;
    row := seq(257, s requires 0 <= s < 257 reads a => a[no, s]);
  }

  /** The tables made so far belong to the counts. */
  ghost predicate MadeFor(items: seq<Item>, tables: Tables) {
    forall t :: t in tables ==> CodesFor(CountsOf(items, t), tables[t]) && CodesFit(items, t)
  }

  /** jpeg_gen_optimal_table can deal with the counts of every table in use; a DC refinement uses none. */
  predicate TablesFit(sc: PScan, items: seq<Item>)
    requires PScanOk(sc)
  {
    !(sc.IsDc() && sc.Refines()) ==> forall ci :: 0 <= ci < |sc.tbl| ==> CodesFit(items, sc.Tbl(sc.tbl[ci]))
  }

  /** jpeg_gen_optimal_table once per table, and jpeg_make_c_derived_tbl. */
  method AddTable(enc: PhuffEncoder, no: nat, tables: Tables) returns (ok: bool, tables': Tables)
    requires enc.Counted() && enc.gather && no < NUM_HUFF_TBLS
    requires MadeFor(enc.past + enc.items, tables) && Occurs(enc.past + enc.items, enc.scan.Tbl(no)) && |enc.past + enc.items| < CUTOFF
    ensures ok <==> CodesFit(enc.past + enc.items, enc.scan.Tbl(no))
    ensures ok ==> MadeFor(enc.past + enc.items, tables') && tables'.Keys == tables.Keys + {enc.scan.Tbl(no)}
  {
    hide CodesFor, CountSym, Used, Sum, AtMost, MergeLengths;
    ghost var items := enc.past + enc.items;
    var t := enc.scan.Tbl(no);
    ok, tables' := true, tables;
    if t !in tables {
      var row := CountRow(enc, no);
      RowUsable(items, t, row);
      RowSum(items, t, row);
      RowIsCounts(items, t, row);
      var c;
      ok, c := OptimizeTable(enc.scan.IsDc(), row);
      tables' := tables[t := c];
    }
  }

  /** finish_pass_gather_phuff: a table for every table number in use, none for the refinement of DC coefficients. */
  method MakeTables(enc: PhuffEncoder) returns (ok: bool, tables: Tables)
    requires enc.Counted() && enc.gather && |enc.past + enc.items| < CUTOFF
    requires !(enc.scan.IsDc() && enc.scan.Refines()) ==>
               forall ci :: 0 <= ci < |enc.scan.tbl| ==> Occurs(enc.past + enc.items, enc.scan.Tbl(enc.scan.tbl[ci]))
    ensures PScanOk(enc.scan) && (ok <==> TablesFit(enc.scan, enc.past + enc.items))
    ensures ok ==> AllCoded(tables, enc.past + enc.items) && UsableTables(enc.scan, tables)
  {
    hide CodesFor, CountSym, Occurs, IsNaturalOrder, CodesFit;
    tables := map[];
    if !(enc.scan.IsDc() && enc.scan.Refines()) {
      for ci := 0 to |enc.scan.tbl|
        invariant MadeFor(enc.past + enc.items, tables)
        invariant forall i :: 0 <= i < ci ==> enc.scan.Tbl(enc.scan.tbl[i]) in tables && CodesFit(enc.past + enc.items, enc.scan.Tbl(enc.scan.tbl[i]))
      {
        ok, tables := AddTable(enc, enc.scan.tbl[ci], tables);
        if !ok {
          return;
        }
      }
    }
    MadeRows(enc.past + enc.items, tables);
    NothingMissing(enc.past + enc.items, tables);
    MadeCodes(enc.past + enc.items, tables);
    ok := true;
  }

  lemma MadeRows(items: seq<Item>, tables: Tables)
    requires MadeFor(items, tables)
    ensures forall t :: t in tables ==> exists row: seq<nat> :: RowOf(items, t, row) && CodesFor(row, tables[t])
  {
    hide CountSym, CodesFor;
  }

  lemma MadeCodes(items: seq<Item>, tables: Tables)
    requires MadeFor(items, tables)
    ensures forall t :: t in tables ==> PrefixCode(tables[t].co, tables[t].si)
  {
    hide PrefixCode, CountSym;
    forall t | t in tables ensures PrefixCode(tables[t].co, tables[t].si) {
    }
  }

  /**
   * A scan with optimized tables. The statistics pass fails exactly if a value is out of range; if the
   * tables can be made, the output pass does not fail, and every segment's data are the codes of its items.
   */
  method OptimizedScan(order: seq<int>, sc: PScan, interval: nat, data: seq<McuData>) returns (r: ScanResult, ghost ws: seq<seq<Byte>>)
    requires IsNaturalOrder(order) && PScanOk(sc) && AllFitScan(sc, data)
    requires var segs := Segments(interval, McusOf(order, data));
             && (forall ci :: 0 <= ci < |sc.tbl| ==> Seen(segs, ci))
             && (AllInScan(sc, segs) ==> |WholeScan(sc, segs)| < CUTOFF)
    ensures AllInScan(sc, Segments(interval, McusOf(order, data)))
    ensures r.OutOfRange? <==> !McusInRange(sc, interval, McusOf(order, data))
    ensures !r.OutOfRange? ==> (r.CodeTooLong? <==> !TablesFit(sc, WholeScan(sc, Segments(interval, McusOf(order, data)))))
    ensures |WholeScan(sc, Segments(interval, McusOf(order, data)))| < 9_227_464 ==> !r.CodeTooLong?
    ensures r.Written? ==> UsableTables(sc, r.tables)
    ensures r.Written? ==> PacksScan(sc, r.tables, Segments(interval, McusOf(order, data)), ws) && ws != [] && r.out == ScanData(ws)
  {
    hide ProgressivePass.Valid, PhuffEncoder.Counted, IsNaturalOrder, PScanOk, AllInScan, Segments, WholeScan, AllCoded, PacksScan, ScanData, McuInRange, Occurs, Seen;
    ghost var ms := McusOf(order, data);
    GivenInScan(order, sc, data);
    AllMcusInScan(sc, interval, ms);
    FewSymbolsFit(sc, WholeScan(sc, Segments(interval, ms)));
    ws := [];
    var gather := new ProgressivePass(true, order, sc, map[], interval);
    var ok := RunPass(gather, data, ms);
    if !ok {
      return OutOfRange, ws;
    }
    forall ci: nat | !(sc.IsDc() && sc.Refines()) && ci < |sc.tbl| ensures Occurs(WholeScan(sc, Segments(interval, ms)), sc.Tbl(sc.tbl[ci])) {
      SeenTalks(sc, Segments(interval, ms), ci);
    }
    CountedShape(gather.enc);
    var derived;
    ok, derived := MakeTables(gather.enc);
    if !ok {
      return CodeTooLong, ws;
    }
    var output := new ProgressivePass(false, order, sc, derived, interval);
    ok := RunPass(output, data, ms);
    return Written(output.enc.writer.out, derived), output.ws;
  }

  lemma GivenInScan(order: seq<int>, sc: PScan, data: seq<McuData>)
    requires IsNaturalOrder(order) && AllFitScan(sc, data)
    ensures forall i :: 0 <= i < |data| ==> InScan(sc, McusOf(order, data)[i])
  {
    forall i | 0 <= i < |data| ensures InScan(sc, McusOf(order, data)[i]) {
      assert FitsScan(sc, data[i].members, data[i].blocks);
    }
  }

  lemma FewSymbolsFit(sc: PScan, items: seq<Item>)
    requires PScanOk(sc)
    ensures |items| < 9_227_464 ==> TablesFit(sc, items)
  {
    hide CodesFit;
    if |items| < 9_227_464 {
      forall ci: nat | ci < |sc.tbl| ensures CodesFit(items, sc.Tbl(sc.tbl[ci])) {
        FewItemsFit(items, sc.Tbl(sc.tbl[ci]));
      }
    }
  }

  lemma CountedShape(enc: PhuffEncoder)
    requires enc.Counted()
    ensures enc.Shape()
  {
  }

  lemma SeenTalks(sc: PScan, segs: seq<seq<Visit>>, ci: nat)
    requires PScanOk(sc) && AllInScan(sc, segs) && Seen(segs, ci) && ci < |sc.tbl| && !(sc.IsDc() && sc.Refines())
    ensures Occurs(WholeScan(sc, segs), sc.Tbl(sc.tbl[ci]))
  {
    var k: nat, j: nat :| k < |segs| && j < |segs[k]| && segs[k][j].ci == ci;
    ComponentTalks(sc, segs, k, j);
  }
}
