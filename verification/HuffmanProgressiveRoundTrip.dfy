/**
 * A progressive Huffman-coded scan with optimized tables: statistics pass, tables, output pass, and what a
 * reader of the bytes makes of the blocks as earlier scans have left them.
 */
module HuffmanProgressiveRoundTrip {
  import opened Bits
  import opened Blocks
  import opened Markers
  import opened NaturalOrder
  import opened HuffmanCost
  import opened HuffmanCodes
  import opened HuffmanSymbols
  import opened HuffmanScan
  import opened HuffmanOutput
  import opened HuffmanTwoPass
  import opened HuffmanDecoding
  import opened HuffmanProgressive
  import opened HuffmanProgressiveScan
  import opened HuffmanProgressiveDecoding
  import P = HuffmanTwoPassProgressive

  /** Every block of an AC scan that is in range is one the reader can complete. */
  lemma {:induction false} InRangeIsSendable(sc: PScan, interval: nat, ms: seq<Mcu>)
    requires PScanOk(sc) && !sc.IsDc() && P.McusInRange(sc, interval, ms)
    ensures forall k, i :: 0 <= k < |Segments(interval, ms)| && 0 <= i < |Segments(interval, ms)[k]| ==> Sendable(sc, Segments(interval, ms)[k][i].z)
  {
    hide RestartBefore, Sendable, McuInRange, Segments;
    if ms == [] {
      NothingToSend(interval);
    } else {
      var n := |ms| - 1;
      var front, m := ms[..n], ms[n];
      assert forall j :: 0 <= j < n ==> front[..j] == ms[..j] && front[j] == ms[j];
      InRangeIsSendable(sc, interval, front);
      assert ms == front + [m];
      OneMoreMcu(sc, interval, front, m);
    }
  }

  lemma NothingToSend(interval: nat)
    ensures Segments(interval, []) == [[]]
  {
  }

  lemma OneMoreMcu(sc: PScan, interval: nat, front: seq<Mcu>, m: Mcu)
    requires PScanOk(sc) && !sc.IsDc() && McuInRange(sc, interval, front, m)
    requires forall k, i :: 0 <= k < |Segments(interval, front)| && 0 <= i < |Segments(interval, front)[k]| ==> Sendable(sc, Segments(interval, front)[k][i].z)
    ensures forall k, i :: 0 <= k < |Segments(interval, front + [m])| && 0 <= i < |Segments(interval, front + [m])[k]| ==>
              Sendable(sc, Segments(interval, front + [m])[k][i].z)
  {
    hide RestartBefore, Segments, BandInRange, Sendable, InRangeFrom;
    SegmentsSnoc(interval, front, m);
    var before, segs := Segments(interval, front), Segments(interval, front + [m]);
    var last := segs[|segs| - 1];
    LastSendable(sc, last, |last| - |m|);
    forall k, i | 0 <= k < |segs| && 0 <= i < |segs[k]| ensures Sendable(sc, segs[k][i].z) {
      if k < |before| && i < |before[k]| {
        assert segs[k][i] == before[k][i];
      } else {
        assert k == |segs| - 1 && i >= |last| - |m|;
      }
    }
  }

  lemma LastSendable(sc: PScan, cur: seq<Visit>, n: nat)
    requires PScanOk(sc) && !sc.IsDc() && InRangeFrom(sc, cur, n)
    ensures forall i :: n <= i < |cur| ==> Sendable(sc, cur[i].z)
  {
    hide BandInRange;
    forall i | n <= i < |cur| ensures Sendable(sc, cur[i].z) {
      assert VisitInRange(sc, cur[..i], cur[i]);
    }
  }

  /** Every segment read from the bytes completes its blocks. */
  ghost predicate ScanCompleted(sc: PScan, tables: Tables, src: seq<Byte>, segs: seq<seq<Visit>>)
    requires PScanOk(sc) && UsableTables(sc, tables)
  {
    var ws := ReadData(src, |segs|);
    |ws| == |segs| && forall k :: 0 <= k < |segs| ==> Completed(sc, tables, segs[k], ws[k])
  }

  ghost predicate Completed(sc: PScan, tables: Tables, vs: seq<Visit>, w: seq<Byte>)
    requires PScanOk(sc) && UsableTables(sc, tables)
  {
    TablesThere(sc, tables);
    InScan(sc, vs) && if sc.IsDc() then DcSegmentCompleted(sc, tables, vs, w) else SegmentCompleted(sc, tables, vs, w)
  }

  lemma TablesThere(sc: PScan, tables: Tables)
    requires PScanOk(sc) && UsableTables(sc, tables)
    ensures if sc.IsDc() then !sc.Refines() ==> DcTablesFor(sc, tables) else AcTbl(sc.tbl[0]) in tables
  {
    hide PrefixCode;
    assert forall ci :: 0 <= ci < |sc.tbl| ==> sc.Tbl(sc.tbl[ci]) == if sc.IsDc() then DcTbl(sc.tbl[ci]) else AcTbl(sc.tbl[ci]);
  }

  lemma ScanCompletes(sc: PScan, tables: Tables, interval: nat, ms: seq<Mcu>, ws: seq<seq<Byte>>, tail: seq<Byte>)
    requires PScanOk(sc) && Progresses(sc) && UsableTables(sc, tables) && P.McusInRange(sc, interval, ms)
    requires PacksScan(sc, tables, Segments(interval, ms), ws) && ws != [] && Unstuff(tail) == []
    ensures ScanCompleted(sc, tables, ScanData(ws) + tail, Segments(interval, ms))
  {
    hide Packed, WholeSegment, PrefixCode, Unstuff, ScanData, ReadData, Segments, DcSegmentCompleted, SegmentCompleted, Sendable;
    var segs := Segments(interval, ms);
    if sc.IsDc() {
      DcScanCompletes(sc, tables, segs, ws, tail);
    } else {
      InRangeIsSendable(sc, interval, ms);
      AcScanCompletes(sc, tables, segs, ws, tail);
    }
  }

  /**
   * Both passes of any kind of progressive scan. The result is an error for values out of range exactly if
   * there are any, and for a code that is too long exactly if Huffman's algorithm gives one; otherwise,
   * whatever marker follows, the bytes complete every block as the scan is meant to.
   */
  method OptimizedScan(order: seq<int>, sc: PScan, interval: nat, data: seq<McuData>) returns (r: ScanResult)
    requires IsNaturalOrder(order) && PScanOk(sc) && Progresses(sc) && P.AllFitScan(sc, data)
    requires var segs := Segments(interval, McusOf(order, data));
             (forall ci :: 0 <= ci < |sc.tbl| ==> Seen(segs, ci)) && (AllInScan(sc, segs) ==> |WholeScan(sc, segs)| < CUTOFF)
    ensures AllInScan(sc, Segments(interval, McusOf(order, data)))
    ensures r.OutOfRange? <==> !P.McusInRange(sc, interval, McusOf(order, data))
    ensures !r.OutOfRange? ==> (r.CodeTooLong? <==> !P.TablesFit(sc, WholeScan(sc, Segments(interval, McusOf(order, data)))))
    ensures |WholeScan(sc, Segments(interval, McusOf(order, data)))| < 9_227_464 ==> !r.CodeTooLong?
    ensures r.Written? ==> UsableTables(sc, r.tables)
    ensures r.Written? ==> forall tail :: Unstuff(tail) == [] ==> ScanCompleted(sc, r.tables, r.out + tail, Segments(interval, McusOf(order, data)))
  {
    hide IsNaturalOrder, PScanOk, AllInScan, Segments, WholeScan, PacksScan, ScanData, P.McusInRange, Unstuff, ScanCompleted, UsableTables, Seen;
    ghost var ws;
    r, ws := P.OptimizedScan(order, sc, interval, data);
    if r.Written? {
      forall tail | Unstuff(tail) == [] ensures ScanCompleted(sc, r.tables, r.out + tail, Segments(interval, McusOf(order, data))) {
        ScanCompletes(sc, r.tables, interval, McusOf(order, data), ws, tail);
      }
    }
  }
}
