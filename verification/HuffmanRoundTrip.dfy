/**
 * A sequential Huffman-coded scan with optimized tables: statistics pass, tables, output pass, and what a
 * reader of the bytes finds.
 */
module HuffmanRoundTrip {
  import opened Bits
  import opened Blocks
  import opened Markers
  import opened NaturalOrder
  import opened HuffmanCost
  import opened HuffmanBits
  import opened HuffmanSymbols
  import opened HuffmanSequential
  import opened HuffmanScan
  import opened HuffmanOutput
  import opened HuffmanTwoPass
  import opened HuffmanDecoding

  predicate AllGood(sc: HScan, data: seq<McuData>) {
    forall i :: 0 <= i < |data| ==> GoodMcu(sc, data[i].members, data[i].blocks)
  }

  /** Every block of the scan is in range. */
  predicate ScanInRange(sc: HScan, interval: nat, ms: seq<Mcu>) {
    SegmentsOk(sc, Segments(interval, ms)) && AllInRange(sc, Segments(interval, ms))
  }

  /** A segment that is not in range when an MCU has joined it does not get better. */
  lemma {:induction false} StaysOutOfRange(sc: HScan, interval: nat, ms: seq<Mcu>, n: nat)
    requires n < |ms| && !NextInRange(sc, interval, ms[..n], ms[n])
    ensures !ScanInRange(sc, interval, ms)
    decreases |ms|
  {
    hide SegInRange, AreMembers, RestartBefore;
    var k := |ms| - 1;
    assert ms == ms[..k] + [ms[k]];
    SegmentsSnoc(interval, ms[..k], ms[k]);
    if n < k {
      assert ms[..k][..n] == ms[..n];
      StaysOutOfRange(sc, interval, ms[..k], n);
      if ScanInRange(sc, interval, ms) {
        ShorterScanInRange(sc, interval, ms);
      }
    }
  }

  lemma ShorterScanInRange(sc: HScan, interval: nat, ms: seq<Mcu>)
    requires ms != [] && ScanInRange(sc, interval, ms)
    ensures ScanInRange(sc, interval, ms[..|ms| - 1])
  {
    hide RestartBefore;
    var k := |ms| - 1;
    var segs, segs' := Segments(interval, ms), Segments(interval, ms[..k]);
    if RestartBefore(interval, k) {
      assert forall i :: 0 <= i < |segs'| ==> segs'[i] == segs[i];
    } else {
      var last := segs'[|segs'| - 1];
      assert segs[|segs| - 1] == last + ms[k];
      PrefixInRange(sc, last, ms[k]);
      assert forall i :: 0 <= i < |segs'| - 1 ==> segs'[i] == segs[i];
    }
  }

  lemma PrefixInRange(sc: HScan, vs: seq<Visit>, us: seq<Visit>)
    requires AreMembers(sc, vs + us) && SegInRange(sc, vs + us)
    ensures AreMembers(sc, vs) && SegInRange(sc, vs)
  {
    hide InRange, LastDc;
    forall i | 0 <= i < |vs| ensures vs[i].ci < |sc.dcTbl| && InRange(vs[i].z, LastDc(vs[..i], vs[i].ci)) {
      assert (vs + us)[i] == vs[i] && (vs + us)[..i] == vs[..i];
    }
  }

  /** The statistics pass over all MCUs; false if a value is out of range. */
  method Gather(order: seq<int>, sc: HScan, interval: nat, data: seq<McuData>) returns (ok: bool, p: GatherPass)
    requires IsNaturalOrder(order) && HScanOk(sc) && AllGood(sc, data)
    ensures fresh(p) && (ok <==> ScanInRange(sc, interval, McusOf(order, data)))
    ensures ok ==> p.Valid() && p.scan == sc && p.restartInterval == interval && p.given == McusOf(order, data)
  {
    hide GatherPass.Behind, SegInRange, IsNaturalOrder, HScanOk, Segments, NextInRange, ToGo;
    ghost var ms := McusOf(order, data);
    p := new GatherPass(order, sc, interval);
    p.SegmentsShape();
    for i := 0 to |data|
      invariant p.Valid() && p.stats.Shape() && p.scan == sc && p.restartInterval == interval && p.given == ms[..i]
      modifies p, p.lastDcVal, p.stats.dcCounts, p.stats.acCounts
    {
      assert ms[..i + 1] == ms[..i] + [ms[i]];
      ok := p.EncodeMcuGather(data[i].members, data[i].blocks);
      if !ok {
        StaysOutOfRange(sc, interval, ms, i);
        return;
      }
    }
    assert ms[..|data|] == ms;
    GatheredInRange(p);
    ok := true;
  }

  lemma GatheredInRange(p: GatherPass)
    requires p.Valid()
    ensures ScanInRange(p.scan, p.restartInterval, p.given)
  {
    var segs := p.Segs();
    assert segs == segs[..|segs| - 1] + [segs[|segs| - 1]];
  }

  /** The output pass over all MCUs. */
  method Output(order: seq<int>, sc: HScan, tables: Tables, interval: nat, data: seq<McuData>) returns (out: seq<Byte>, ghost ws: seq<seq<Byte>>)
    requires IsNaturalOrder(order) && HScanOk(sc) && AllGood(sc, data)
    requires var segs := Segments(interval, McusOf(order, data)); SegmentsOk(sc, segs) && AllCoded(tables, ScanItems(sc, segs))
    ensures PacksAll(sc, tables, Segments(interval, McusOf(order, data)), ws) && ws != [] && out == ScanData(ws)
  {
    hide OutputPass.InSegment, OutputPass.BehindClosed, IsNaturalOrder, HScanOk, Segments, AllCoded, SegCoded, PacksAll, ScanData, SegmentsOk, ScanItems;
    ghost var ms := McusOf(order, data);
    var p := new OutputPass(order, sc, tables, interval);
    for i := 0 to |data|
      invariant p.Valid() && p.given == ms[..i]
      modifies p, p.lastDcVal, p.enc.writer
    {
      assert ms[..i + 1] == ms[..i] + [ms[i]];
      OutputFindsCodes(sc, tables, interval, ms, i);
      p.EncodeMcuHuff(data[i].members, data[i].blocks);
    }
    assert ms[..|data|] == ms;
    p.FinishPass();
    out, ws := p.enc.writer.out, p.ws;
    DataLength(sc, tables, Segments(interval, ms), ws);
  }

  lemma DataLength(sc: HScan, tables: Tables, segs: seq<seq<Visit>>, ws: seq<seq<Byte>>)
    requires HScanOk(sc) && PacksAll(sc, tables, segs, ws)
    ensures |ws| == |segs|
  {
  }

  lemma FewSymbolsFit(sc: HScan, items: seq<Item>)
    requires HScanOk(sc)
    ensures |items| < 9_227_464 ==> TablesFit(sc, items)
  {
    hide CodesFit;
    if |items| < 9_227_464 {
      forall ci: nat | ci < |sc.dcTbl| ensures CodesFit(items, DcTbl(sc.dcTbl[ci])) && CodesFit(items, AcTbl(sc.acTbl[ci])) {
        FewItemsFit(items, DcTbl(sc.dcTbl[ci]));
        FewItemsFit(items, AcTbl(sc.acTbl[ci]));
      }
    }
  }

  /**
   * Both passes. The result is an error for values out of range exactly if there are any; if the tables can
   * be made, the output pass finds a code for every symbol, and whatever marker follows, the bytes are read
   * back as the blocks that were given.
   */
  method OptimizedScan(order: seq<int>, sc: HScan, interval: nat, data: seq<McuData>) returns (r: ScanResult)
    requires IsNaturalOrder(order) && HScanOk(sc) && AllGood(sc, data) && data != []
    requires var segs := Segments(interval, McusOf(order, data));
             && (forall ci :: 0 <= ci < |sc.dcTbl| ==> Seen(segs, ci))
             && (SegmentsOk(sc, segs) ==> |ScanItems(sc, segs)| < CUTOFF)
    ensures r.OutOfRange? <==> !ScanInRange(sc, interval, McusOf(order, data))
    ensures var segs := Segments(interval, McusOf(order, data)); !r.OutOfRange? ==> SegmentsOk(sc, segs) && (r.CodeTooLong? <==> !TablesFit(sc, ScanItems(sc, segs)))
    ensures var segs := Segments(interval, McusOf(order, data)); r.CodeTooLong? ==> SegmentsOk(sc, segs) && |ScanItems(sc, segs)| >= 9_227_464
    ensures r.Written? ==> TablesFor(sc, r.tables) && SegmentsOk(sc, Segments(interval, McusOf(order, data)))
    ensures r.Written? ==> forall tail :: Unstuff(tail) == [] ==> ReadsAs(sc, r.tables, r.out + tail, Segments(interval, McusOf(order, data)))
  {
    hide GatherPass.Behind, SegInRange, IsNaturalOrder, HScanOk, Segments, AllCoded, ScanItems, PacksAll, ScanData, ReadsAs, Unstuff, TablesFor, Seen;
    ghost var ms := McusOf(order, data);
    ghost var segs := Segments(interval, ms);
    var ok, gather := Gather(order, sc, interval, data);
    if !ok {
      return OutOfRange;
    }
    gather.SegmentsShape();
    var twoPass := new TwoPass(gather);
    ok := twoPass.MakeTables();
    FewSymbolsFit(sc, ScanItems(sc, segs));
    if !ok {
      return CodeTooLong;
    }
    var tables := twoPass.tables;
    var out;
    ghost var ws;
    out, ws := Output(order, sc, tables, interval, data);
    forall tail | Unstuff(tail) == [] ensures ReadsAs(sc, tables, out + tail, segs) {
      ScanDecoded(sc, tables, segs, ws, tail);
    }
    r := Written(out, tables);
  }
}
