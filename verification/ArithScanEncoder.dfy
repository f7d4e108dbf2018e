/**
 * A whole scan of jcarith.c: start_pass, the restart markers, the MCU routines, finish_pass. What is
 * written is, segment by segment, a data string for exactly the blocks that were handed over.
 */
module ArithScanEncoder {
  import opened Bits
  import opened Blocks
  import opened Markers
  import opened ArithSpec
  import opened ArithScan
  import opened ArithSegments
  import opened ArithDecoder
  import opened NaturalOrder
  import opened ArithEncoder
  import opened ArithStats
  import opened ArithMcuEncoder

  lemma EmptyScan(sc: Scan, interval: nat)
    requires ScanOk(sc)
    ensures Segments(interval, []) == [[]] && Closed([]) == [] && EncodesAll(sc, [], [])
    ensures interval > 0 ==> ToGo(interval, 0) == interval
  {
  }

  /** A block is coded with the DC predictions, or with none if the scan does not use them. */
  lemma BlockAnyDc(sc: Scan, ci: nat, d: DcState, d': DcState, z: Zigzag)
    requires ScanOk(sc) && DcOk(sc, d) && DcOk(sc, d') && ci < |sc.comps| && (UsesDc(sc) ==> d == d')
    ensures BlockDecisions(sc, ci, d, z) == BlockDecisions(sc, ci, d', z)
    ensures UsesDc(sc) ==> NextDc(sc, ci, d, z) == NextDc(sc, ci, d', z)
    ensures !UsesDc(sc) ==> NextDc(sc, ci, d', z) == d'
  {
    hide BlockDecisions, NextDc;
    if !UsesDc(sc) {
      DcUnused(sc, ci, d, d', z);
      DcUnused(sc, ci, d', d, z);
    }
  }

  class ScanEncoder {
    const mcu: McuEncoder
    var restartInterval: nat
    var restartsToGo: nat
    var nextRestartNum: nat

    ghost var given: seq<Mcu>        // the MCUs handed over so far
    ghost var ws: seq<seq<Byte>>     // the data of the closed segments
    ghost var base: seq<Byte>        // the output before the scan

    constructor (order: seq<int>)
      requires IsNaturalOrder(order)
      ensures Idle() && mcu.order == order && mcu.core.out == []
      ensures fresh(mcu) && fresh(mcu.core) && fresh(mcu.core.stats) && fresh(mcu.core.stats.dcStats) && fresh(mcu.core.stats.acStats) && fresh(mcu.core.stats.fixedBin)
      ensures fresh(mcu.lastDcVal) && fresh(mcu.dcContext)
    {
      mcu := new McuEncoder(order);
      restartInterval, restartsToGo, nextRestartNum := 0, 0, 0;
      given, ws, base := [], [], [];
    }

    /** Between scans. */
    ghost predicate Idle()
      reads mcu, mcu.lastDcVal, mcu.dcContext, mcu.core, mcu.core.stats, mcu.core.stats.dcStats, mcu.core.stats.acStats, mcu.core.stats.fixedBin
    {
      && mcu.Shape()
      && mcu.core.stats.Agrees(mcu.core.coder.bins) && Get(mcu.core.coder.bins, Fixed) == 113
    }

    /** The DC predictions, where the scan has any. */
    ghost function DcView(): DcState
      requires mcu.Shape() && ScanOk(mcu.scan)
      reads mcu, mcu.lastDcVal, mcu.dcContext
    {
      if UsesDc(mcu.scan) then mcu.DcNow() else Fresh(mcu.scan)
    }

    /** The coder stands behind the blocks cur of the current segment. */
    ghost predicate InSegment(cur: seq<Visit>)
      reads mcu, mcu.lastDcVal, mcu.dcContext, mcu.core, mcu.core.stats, mcu.core.stats.dcStats, mcu.core.stats.acStats, mcu.core.stats.fixedBin
    {
      && mcu.Ready() && VisitsOk(mcu.scan, cur)
      && mcu.core.coder == CodeAll(START, SegmentDecisions(mcu.scan, Fresh(mcu.scan), cur))
      && DcView() == DcAfter(mcu.scan, Fresh(mcu.scan), cur)
    }

    /** Behind the closed segments and their restart markers. */
    ghost predicate BehindClosed(closed: seq<seq<Visit>>)
      reads this, mcu, mcu.core
    {
      && ScanOk(mcu.scan) && EncodesAll(mcu.scan, closed, ws)
      && mcu.core.prior == base + Closed(ws) && nextRestartNum == |ws| % 8
    }

    ghost function Segs(): (segs: seq<seq<Visit>>)
      reads this
      ensures segs != []
    {
      Segments(restartInterval, given)
    }

    ghost predicate Valid()
      reads this, mcu, mcu.lastDcVal, mcu.dcContext, mcu.core, mcu.core.stats, mcu.core.stats.dcStats, mcu.core.stats.acStats, mcu.core.stats.fixedBin
    {
      && mcu.Shape() && ScanOk(mcu.scan) && McusOk(mcu.scan, given)
      && BehindClosed(Segs()[..|Segs()| - 1]) && InSegment(Segs()[|Segs()| - 1])
      && (restartInterval > 0 ==> restartsToGo == ToGo(restartInterval, |given|))
    }

    /** Zero the statistics areas and the DC predictions of the scan's components. */
    method ResetStatistics()
      requires mcu.Shape() && ScanOk(mcu.scan) && mcu.core.stats.Agrees(map[])
      modifies mcu.core.stats, mcu.core.stats.dcStats, mcu.core.stats.acStats, mcu.lastDcVal, mcu.dcContext
      ensures mcu.DcReady() && mcu.TablesReady() && mcu.core.stats.Agrees(map[])
      ensures DcView() == Fresh(mcu.scan)
    {
      hide Statistics.Agrees, IsNaturalOrder;
      var sc := mcu.scan;
      for ci := 0 to |sc.comps|
        invariant mcu.core.stats.Agrees(map[])
        invariant KindOf(sc).Sequential? || KindOf(sc).DcFirst? ==>
          forall i :: 0 <= i < ci ==> sc.comps[i].dcTbl in mcu.core.stats.dcTables && mcu.lastDcVal[i] == 0 && mcu.dcContext[i] == 0
        invariant KindOf(sc).Sequential? || KindOf(sc).AcFirst? || KindOf(sc).AcRefine? ==>
          forall i :: 0 <= i < ci ==> sc.comps[i].acTbl in mcu.core.stats.acTables
      {
        // DC needs no table for refinement scan
        if !sc.progressive || (sc.ss == 0 && sc.ah == 0) {
          mcu.core.stats.ZeroDc(sc.comps[ci].dcTbl);
          mcu.lastDcVal[ci] := 0;
          mcu.dcContext[ci] := 0;
        }
        // AC needs no table when not present
        if !sc.progressive || sc.se != 0 {
          mcu.core.stats.ZeroAc(sc.comps[ci].acTbl);
        }
      }
    }

    /** Fresh statistics and registers: the coder stands at the start of a segment. */
    method BeginSegment()
      requires mcu.Shape() && ScanOk(mcu.scan)
      requires mcu.core.stats.Agrees(mcu.core.coder.bins) && Get(mcu.core.coder.bins, Fixed) == 113
      modifies mcu.core, mcu.core.stats, mcu.core.stats.dcStats, mcu.core.stats.acStats, mcu.lastDcVal, mcu.dcContext
      ensures InSegment([]) && mcu.core.prior == mcu.core.out == old(mcu.core.out)
    {
      hide Statistics.Agrees, IsNaturalOrder, McuEncoder.DcReady, McuEncoder.TablesReady, Encoder.Valid, Get;
      mcu.core.stats.BeginTables(mcu.core.coder.bins);
      ResetStatistics();
      mcu.core.InitRegisters();
    }

    /** Initialize for an arithmetic-compressed scan. */
    method StartPass(sc: Scan, interval: nat)
      requires Idle() && ScanOk(sc)
      modifies this, mcu, mcu.lastDcVal, mcu.dcContext, mcu.core, mcu.core.stats, mcu.core.stats.dcStats, mcu.core.stats.acStats, mcu.core.stats.fixedBin
      ensures Valid() && given == [] && base == old(mcu.core.out) && mcu.scan == sc && restartInterval == interval
    {
      hide InSegment, Statistics.Agrees, Get, Segments, Closed, ScanOk, IsNaturalOrder, EncodesAll;
      EmptyScan(sc, interval);
      mcu.scan := sc;
      BeginSegment();
      restartInterval := interval;
      restartsToGo := interval;
      nextRestartNum := 0;
      given, ws, base := [], [], mcu.core.out;
    }

    /** finish_pass on the current segment: w is a data string for its blocks. */
    method FinishSegment(ghost cur: seq<Visit>)
      requires InSegment(cur)
      modifies mcu.core
      ensures mcu.Shape() && ScanOk(mcu.scan) && VisitsOk(mcu.scan, cur)
      ensures mcu.core.out == old(mcu.core.prior) + Stuff(mcu.core.w) && Encodes(mcu.scan, cur, mcu.core.w)
      ensures mcu.core.stats.Agrees(mcu.core.coder.bins) && Get(mcu.core.coder.bins, Fixed) == 113
    {
      hide Statistics.Agrees, IsNaturalOrder, McuEncoder.TablesReady, Stuff, In, SegmentDecisions, CodeAll, ScanOk;
      FixedForEver(START, SegmentDecisions(mcu.scan, Fresh(mcu.scan), cur));
      mcu.core.FinishPass();
    }

    /** Emit a restart marker and resynchronize predictions. */
    method EmitRestart(ghost closed: seq<seq<Visit>>, ghost cur: seq<Visit>)
      requires BehindClosed(closed) && InSegment(cur)
      modifies this`nextRestartNum, this`ws, mcu, mcu.lastDcVal, mcu.dcContext, mcu.core, mcu.core.stats, mcu.core.stats.dcStats, mcu.core.stats.acStats, mcu.core.stats.fixedBin
      ensures BehindClosed(closed + [cur]) && InSegment([]) && mcu.scan == old(mcu.scan)
    {
      hide Statistics.Agrees, IsNaturalOrder, McuEncoder.DcReady, McuEncoder.TablesReady, Stuff, Encodes, EncodesAll, Closed, ScanOk, InSegment, VisitsOk;
      FinishSegment(cur);
      mcu.core.EmitByte(0xFF);
      mcu.core.EmitByte(RST0 + nextRestartNum);
      ClosedSnoc(ws, mcu.core.w);
      EncodesAllSnoc(mcu.scan, closed, ws, cur, mcu.core.w);
      ws := ws + [mcu.core.w];
      BeginSegment();
      nextRestartNum := (nextRestartNum + 1) % 8;
    }

    /** The MCU data blocks. */
    method EncodeBlocks(members: seq<nat>, blocks: seq<Block>, ghost cur: seq<Visit>)
      requires mcu.Shape() && InSegment(cur) && |members| == |blocks|
      requires forall i :: 0 <= i < |blocks| ==> members[i] < |mcu.scan.comps| && forall j :: 0 <= j < DCTSIZE2 ==> IsCoef(blocks[i][j])
      modifies mcu.lastDcVal, mcu.dcContext, mcu.core, mcu.core.stats, mcu.core.stats.dcStats, mcu.core.stats.acStats, mcu.core.stats.fixedBin
      ensures mcu.core.prior == old(mcu.core.prior)
      ensures InSegment(cur + VisitsOf(mcu.order, members, blocks))
    {
      hide InSegment, IsNaturalOrder;
      var blkn := 0;
      ghost var vs := VisitsOf(mcu.order, members, blocks);
      assert cur + vs[..0] == cur;
      while blkn < |blocks|
        invariant blkn <= |blocks| && mcu.core.prior == old(mcu.core.prior)
        invariant InSegment(cur + vs[..blkn])
      {
        OneMoreBlock(members[blkn], blocks[blkn], cur + vs[..blkn]);
        assert cur + vs[..blkn + 1] == (cur + vs[..blkn]) + [vs[blkn]];
        blkn := blkn + 1;
      }
      assert vs[..|blocks|] == vs;
    }

    method OneMoreBlock(ci: nat, block: Block, ghost cur: seq<Visit>)
      requires mcu.Shape() && InSegment(cur) && ci < |mcu.scan.comps|
      requires forall j :: 0 <= j < DCTSIZE2 ==> IsCoef(block[j])
      modifies mcu.lastDcVal, mcu.dcContext, mcu.core, mcu.core.stats, mcu.core.stats.dcStats, mcu.core.stats.acStats, mcu.core.stats.fixedBin
      ensures mcu.core.prior == old(mcu.core.prior)
      ensures InSegment(cur + [Visit(ci, Zz(mcu.order, block))])
    {
      hide McuEncoder.TablesReady, Encoder.Valid, IsNaturalOrder, BlockDecisions, NextDc, SegmentDecisions, CodeAll, DcAfter, Zz, VisitsOk;
      ghost var z := Zz(mcu.order, block);
      SegmentSnoc(mcu.scan, cur, Visit(ci, z));
      BlockAnyDc(mcu.scan, ci, mcu.DcNow(), DcView(), z);
      mcu.EncodeBlock(ci, block);
    }

    /** One MCU, by the routine that start_pass selected; a restart marker first if one is due. */
    method EncodeMcu(members: seq<nat>, blocks: seq<Block>)
      requires Valid() && |members| == |blocks|
      requires forall i :: 0 <= i < |blocks| ==> members[i] < |mcu.scan.comps| && forall j :: 0 <= j < DCTSIZE2 ==> IsCoef(blocks[i][j])
      modifies this, mcu, mcu.lastDcVal, mcu.dcContext, mcu.core, mcu.core.stats, mcu.core.stats.dcStats, mcu.core.stats.acStats, mcu.core.stats.fixedBin
      ensures Valid() && mcu.scan == old(mcu.scan) && restartInterval == old(restartInterval) && base == old(base)
      ensures given == old(given) + [VisitsOf(mcu.order, members, blocks)]
    {
      hide InSegment, EncodesAll, Closed, Segments, IsNaturalOrder, ScanOk, ToGo;
      ghost var segs, n, m := Segs(), |given|, VisitsOf(mcu.order, members, blocks);
      assert [] + m == m;
      ghost var closed, cur := segs[..|segs| - 1], segs[|segs| - 1];
      assert segs == closed + [cur];
      SegmentsSnoc(restartInterval, given, m);
      if restartInterval != 0 {
        ToGoCounts(restartInterval, n);
        if restartsToGo == 0 {
          EmitRestart(closed, cur);
          closed, cur := segs, [];
          restartsToGo := restartInterval;
        }
        restartsToGo := restartsToGo - 1;
      }
      EncodeBlocks(members, blocks, cur);
      given := given + [m];
      assert Segs() == closed + [cur + m];
      assert Segs()[..|Segs()| - 1] == closed;
    }

    /** Finish up at the end of the scan. */
    method FinishPass()
      requires Valid()
      modifies this`ws, mcu.core
      ensures Idle() && EncodesAll(mcu.scan, Segs(), ws) && mcu.core.out == base + ScanData(ws)
    {
      hide Statistics.Agrees, Segments, Encodes, Closed, ScanOk, InSegment, VisitsOk, EncodesAll, Stuff, Get;
      ghost var segs := Segs();
      ghost var closed, cur := segs[..|segs| - 1], segs[|segs| - 1];
      assert segs == closed + [cur];
      FinishSegment(cur);
      EncodesAllSnoc(mcu.scan, closed, ws, cur, mcu.core.w);
      assert (ws + [mcu.core.w])[..|ws|] == ws;
      ws := ws + [mcu.core.w];
    }
  }
}
