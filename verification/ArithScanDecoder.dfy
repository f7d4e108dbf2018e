/**
 * A whole scan of jdarith.c: start_pass, restart markers, the MCU routines. The coefficients are
 * left exactly as ReadScan says, in place, block by block.
 */
module ArithScanDecoder {
  import opened Bits
  import opened Blocks
  import opened Markers
  import opened ArithSpec
  import opened ArithScan
  import opened ArithSegments
  import opened NaturalOrder
  import opened ArithDecoder
  import opened ArithStats
  import opened ArithMcuDecoder

  /** The blocks of an MCU as they are now. */
  ghost function VisitsNow(order: seq<int>, members: seq<nat>, blocks: seq<array<int>>): (vs: Mcu)
    requires IsNaturalOrder(order) && |members| == |blocks|
    requires forall i :: 0 <= i < |blocks| ==> blocks[i].Length == DCTSIZE2
    reads blocks
    ensures |vs| == |blocks|
  {
    seq(|blocks|, i requires 0 <= i < |blocks| reads blocks => Visit(members[i], Zz(order, blocks[i][..])))
  }

  /** The blocks of an MCU are distinct objects, and components of the scan. */
  ghost predicate McuBlocksOk(sc: Scan, members: seq<nat>, blocks: seq<array<int>>) {
    && |members| == |blocks|
    && (forall i :: 0 <= i < |blocks| ==> blocks[i].Length == DCTSIZE2 && members[i] < |sc.comps|)
    && (forall i, j :: 0 <= i < j < |blocks| ==> blocks[i] != blocks[j])
  }

  /** A block is parsed with the DC predictions, or with none if the scan does not use them. */
  lemma ParseAnyDc(w: seq<Byte>, s: Coder, sc: Scan, ci: nat, d: DcState, d': DcState, z: Zigzag)
    requires ScanOk(sc) && DcOk(sc, d) && DcOk(sc, d') && ci < |sc.comps| && (UsesDc(sc) ==> d == d')
    ensures var r, r' := ParseBlock(w, s, sc, ci, d, z), ParseBlock(w, s, sc, ci, d', z);
            && r'.ok == r.ok && r'.z == r.z && r'.s == r.s
            && r'.d == if UsesDc(sc) then r.d else d'
  {
    hide ParseBlock;
    if !UsesDc(sc) {
      ParseDcUnused(w, s, sc, ci, d, d', z);
    }
  }

  /** What the blocks of the segments have become. */
  predicate AreOutcomes(outs: seq<SegmentOut>, left: seq<seq<Visit>>) {
    |outs| == |left| && forall i :: 0 <= i < |outs| ==> outs[i].vs == left[i]
  }

  lemma OneMoreOutcome(outs: seq<SegmentOut>, left: seq<seq<Visit>>, o: SegmentOut)
    requires AreOutcomes(outs, left)
    ensures AreOutcomes(outs + [o], left + [o.vs])
  {
  }

  class ScanDecoder {
    const mcu: McuDecoder
    var restartInterval: nat
    var restartsToGo: nat
    var nextRestartNum: nat

    ghost var given: seq<Mcu>        // the MCUs of the scan so far, as they were handed over
    ghost var left: seq<Mcu>         // the same MCUs, as they were left
    ghost var start: seq<Byte>       // the source at the start of the scan
    ghost var here: seq<Byte>        // the source at the start of the current segment

    constructor (order: seq<int>, src: seq<Byte>)
      requires IsNaturalOrder(order)
      ensures Idle() && mcu.order == order && mcu.core.src == src && mcu.core.pos == 0
      ensures fresh(mcu) && fresh(mcu.core) && fresh(mcu.core.stats) && fresh(mcu.core.stats.dcStats) && fresh(mcu.core.stats.acStats) && fresh(mcu.core.stats.fixedBin)
      ensures fresh(mcu.lastDcVal) && fresh(mcu.dcContext)
    {
      mcu := new McuDecoder(order, src);
      restartInterval, restartsToGo, nextRestartNum := 0, 0, 0;
      given, left, start, here := [], [], src, src;
    }

    /** Between scans: the source stands behind the header of the next one. */
    ghost predicate Idle()
      reads mcu, mcu.core, mcu.core.stats, mcu.core.stats.dcStats, mcu.core.stats.acStats, mcu.core.stats.fixedBin
    {
      mcu.Shape() && mcu.core.Settled() && mcu.core.unreadMarker == 0 && mcu.core.pos <= |mcu.core.src|
    }

    /** The DC predictions, where the scan has any. */
    ghost function DcView(): DcState
      requires mcu.Shape() && ScanOk(mcu.scan)
      reads mcu, mcu.lastDcVal, mcu.dcContext
    {
      if UsesDc(mcu.scan) then mcu.DcNow() else Fresh(mcu.scan)
    }

    /** The decoder has turned the blocks cur of the current segment into done. */
    ghost predicate InSegment(cur: seq<Visit>, done: seq<Visit>)
      reads mcu, mcu.lastDcVal, mcu.dcContext, mcu.core, mcu.core.stats, mcu.core.stats.dcStats, mcu.core.stats.acStats, mcu.core.stats.fixedBin
    {
      && mcu.DcReady() && mcu.TablesReady() && VisitsOk(mcu.scan, cur)
      && (if mcu.core.ct == -1 then mcu.core.Fed() && mcu.core.Settled() else mcu.core.Valid())
      && ParseSegment(mcu.core.w, START, mcu.scan, Fresh(mcu.scan), cur)
         == SegmentRead(mcu.core.ct != -1, done, DcView(), mcu.core.coder)
    }

    /** Zero the statistics areas and the DC predictions of the scan's components. */
    method ResetStatistics()
      requires mcu.Shape() && ScanOk(mcu.scan) && mcu.core.stats.Agrees(map[])
      modifies mcu.core.stats, mcu.core.stats.dcStats, mcu.core.stats.acStats, mcu.lastDcVal, mcu.dcContext
      ensures mcu.DcReady() && mcu.TablesReady() && mcu.core.stats.Agrees(map[])
      ensures DcView() == Fresh(mcu.scan)
    {
      hide Statistics.Agrees, IsNaturalOrder;
      var sc := mcu.scan;
      for ci := 0 to |sc.comps|
        invariant mcu.core.stats.Agrees(map[])
        invariant KindOf(sc).Sequential? || KindOf(sc).DcFirst? ==>
          forall i :: 0 <= i < ci ==> sc.comps[i].dcTbl in mcu.core.stats.dcTables && mcu.lastDcVal[i] == 0 && mcu.dcContext[i] == 0
        invariant KindOf(sc).Sequential? || KindOf(sc).AcFirst? || KindOf(sc).AcRefine? ==>
          forall i :: 0 <= i < ci ==> sc.comps[i].acTbl in mcu.core.stats.acTables
      {
        if !sc.progressive || (sc.ss == 0 && sc.ah == 0) {
          mcu.core.stats.ZeroDc(sc.comps[ci].dcTbl);
          mcu.lastDcVal[ci] := 0;
          mcu.dcContext[ci] := 0;
        }
        if !sc.progressive || sc.ss != 0 {
          mcu.core.stats.ZeroAc(sc.comps[ci].acTbl);
        }
      }
    }

    /** Fresh statistics and registers, at the start of a segment's data. */
    method BeginSegment()
      requires Idle() && ScanOk(mcu.scan)
      modifies mcu.core, mcu.core.stats, mcu.core.stats.dcStats, mcu.core.stats.acStats, mcu.lastDcVal, mcu.dcContext
      ensures InSegment([], [])
      ensures mcu.core.src == old(mcu.core.src)
      ensures var here := old(mcu.core.src[mcu.core.pos..]); mcu.core.w == Unstuff(here) && mcu.core.next == Marker(here)
    {
      hide Statistics.Agrees, IsNaturalOrder, McuDecoder.DcReady, McuDecoder.TablesReady, Decoder.Valid, Get, Unstuff, Marker;
      mcu.core.stats.BeginTables(mcu.core.coder.bins);
      ResetStatistics();
      mcu.core.InitRegisters();
      mcu.core.ValidRuns();
    }

    ghost predicate BehindClosed(closed: seq<seq<Visit>>, closedLeft: seq<seq<Visit>>)
      reads this, mcu, mcu.core
    {
      && ScanOk(mcu.scan) && SegmentsFit(mcu.scan, closed) && |closed| == |closedLeft|
      && nextRestartNum == |closed| % 8
      && mcu.core.w == Unstuff(here) && mcu.core.next == Marker(here)
      && var r := ReadClosed(start, mcu.scan, closed);
         r.ScanRead? && r.rest == here && AreOutcomes(r.outs, closedLeft)
    }

    ghost function Segs(): (segs: seq<seq<Visit>>)
      reads this
      ensures segs != []
    {
      Segments(restartInterval, given)
    }

    ghost function SegsLeft(): (segs: seq<seq<Visit>>)
      reads this
      ensures segs != []
    {
      Segments(restartInterval, left)
    }

    ghost predicate Valid()
      reads this, mcu, mcu.lastDcVal, mcu.dcContext, mcu.core, mcu.core.stats, mcu.core.stats.dcStats, mcu.core.stats.acStats, mcu.core.stats.fixedBin
    {
      && mcu.Shape() && ScanOk(mcu.scan) && McusOk(mcu.scan, given)
      && |given| == |left| && (forall i :: 0 <= i < |given| ==> |left[i]| == |given[i]|)
      && BehindClosed(Segs()[..|Segs()| - 1], SegsLeft()[..|SegsLeft()| - 1])
      && InSegment(Segs()[|Segs()| - 1], SegsLeft()[|SegsLeft()| - 1])
      && (restartInterval > 0 ==> restartsToGo == ToGo(restartInterval, |given|))
    }

    lemma EmptyScan(sc: Scan, src: seq<Byte>, interval: nat)
      requires ScanOk(sc)
      ensures Segments(interval, []) == [[]] && ReadClosed(src, sc, []) == ScanRead([], src)
      ensures interval > 0 ==> ToGo(interval, 0) == interval
    {
    }

    /** Initialize for an arithmetic-compressed scan; false stands for an error exit. */
    method StartPass(sc: Scan, interval: nat) returns (ok: bool)
      requires Idle()
      modifies this, mcu, mcu.lastDcVal, mcu.dcContext, mcu.core, mcu.core.stats, mcu.core.stats.dcStats, mcu.core.stats.acStats, mcu.core.stats.fixedBin
      ensures ok <==> ScanOk(sc)
      ensures ok ==> Valid() && given == left == [] && mcu.scan == sc && restartInterval == interval
      ensures ok ==> start == old(mcu.core.src[mcu.core.pos..])
    {
      hide InSegment, Decoder.Settled, Segments, ReadClosed, ScanOk, IsNaturalOrder, Unstuff, Marker;
      ok := ScanOk(sc);
      if !ok {
        return;
      }
      start := mcu.core.src[mcu.core.pos..];
      here := start;
      EmptyScan(sc, start, interval);
      mcu.scan := sc;
      BeginSegment();
      restartInterval := interval;
      restartsToGo := interval;
      nextRestartNum := 0;
      given, left := [], [];
    }

    /** What the segment behind which the decoder stands has come to. */
    lemma SegmentSoFar(cur: seq<Visit>, done: seq<Visit>)
      requires InSegment(cur, done) && mcu.core.w == Unstuff(here)
      ensures ScanOk(mcu.scan) && VisitsOk(mcu.scan, cur)
      ensures ReadSegment(here, mcu.scan, cur) == SegmentOut(mcu.core.ct != -1, done)
    {
      hide ParseSegment, Unstuff, Decoder.Valid;
    }

    lemma StillFed(cur: seq<Visit>, done: seq<Visit>)
      requires InSegment(cur, done)
      ensures mcu.core.Fed() && mcu.core.Settled() && mcu.Shape() && ScanOk(mcu.scan) && VisitsOk(mcu.scan, cur)
    {
    }

    /** Check for a restart marker and resynchronize the decoder; false if the marker is not the one that is due. */
    method ProcessRestart(ghost closed: seq<seq<Visit>>, ghost closedLeft: seq<seq<Visit>>, ghost cur: seq<Visit>, ghost done: seq<Visit>)
      returns (ok: bool)
      requires BehindClosed(closed, closedLeft) && InSegment(cur, done)
      modifies this`nextRestartNum, this`here, mcu.lastDcVal, mcu.dcContext, mcu.core, mcu.core.stats, mcu.core.stats.dcStats, mcu.core.stats.acStats, mcu.core.stats.fixedBin
      ensures SegmentsFit(mcu.scan, closed + [cur])
      ensures ok ==> BehindClosed(closed + [cur], closedLeft + [done]) && InSegment([], [])
      ensures !ok ==> ReadClosed(start, mcu.scan, closed + [cur]) == Resync
    {
      hide ParseSegment, Unstuff, Marker, ReadClosed, ReadSegment, IsNaturalOrder, ScanOk, VisitsOk, AreOutcomes, InSegment, Statistics.Agrees;
      StillFed(cur, done);
      SegmentSoFar(cur, done);
      OneMoreClosed(start, mcu.scan, closed, cur);
      OneMoreOutcome(ReadClosed(start, mcu.scan, closed).outs, closedLeft, ReadSegment(here, mcu.scan, cur));
      ok := mcu.core.ReadRestartMarker(nextRestartNum);
      if ok {
        here := mcu.core.src[mcu.core.pos..];
        nextRestartNum := (nextRestartNum + 1) % 8;
        BeginSegment();
      }
    }

    lemma OneMoreClosed(src: seq<Byte>, sc: Scan, closed: seq<seq<Visit>>, cur: seq<Visit>)
      requires ScanOk(sc) && SegmentsFit(sc, closed) && VisitsOk(sc, cur)
      ensures SegmentsFit(sc, closed + [cur])
      ensures ReadClosed(src, sc, closed + [cur])
           == match ReadClosed(src, sc, closed)
              case Resync => Resync
              case ScanRead(outs, at) =>
                if Marker(at).code == RST0 + |closed| % 8 then ScanRead(outs + [ReadSegment(at, sc, cur)], Marker(at).rest) else Resync
    {
      hide Marker, ReadSegment, VisitsOk;
      assert (closed + [cur])[..|closed|] == closed;
    }

    twostate predicate SameSegment()
      reads mcu.core
    {
      mcu.core.w == old(mcu.core.w) && mcu.core.next == old(mcu.core.next) && mcu.core.src == old(mcu.core.src)
    }

    method OneMoreBlock(ci: nat, block: array<int>, ghost cur: seq<Visit>, ghost done: seq<Visit>)
      requires mcu.Shape() && InSegment(cur, done) && ci < |mcu.scan.comps| && mcu.core.ct != -1
      requires block.Length == DCTSIZE2 && block != mcu.lastDcVal
      modifies mcu.lastDcVal, mcu.dcContext, mcu.core, mcu.core.stats, mcu.core.stats.dcStats, mcu.core.stats.acStats, mcu.core.stats.fixedBin, block
      ensures SameSegment()
      ensures InSegment(cur + [Visit(ci, old(Zz(mcu.order, block[..])))], done + [Visit(ci, Zz(mcu.order, block[..]))])
    {
      hide ParseSegment, ParseBlock, Zz, McuDecoder.TablesReady, Decoder.Valid, Decoder.Fed, Decoder.Settled, IsNaturalOrder, VisitsOk;
      ghost var v := Visit(ci, Zz(mcu.order, block[..]));
      ParseSegmentSnoc(mcu.core.w, mcu.scan, cur, v);
      ParseAnyDc(mcu.core.w, mcu.core.coder, mcu.scan, ci, mcu.DcNow(), DcView(), v.z);
      var ok := mcu.DecodeBlock(ci, block);
    }

    /** After a bad code the remaining blocks stay as they are. */
    lemma RestLeft(cur: seq<Visit>, done: seq<Visit>, us: seq<Visit>)
      requires InSegment(cur, done) && mcu.core.ct == -1 && VisitsOk(mcu.scan, us)
      ensures InSegment(cur + us, done + us)
    {
      hide ParseSegment, McuDecoder.TablesReady, Decoder.Valid, Decoder.Fed, Decoder.Settled, IsNaturalOrder;
      ParseSegmentConcat(mcu.core.w, START, mcu.scan, Fresh(mcu.scan), cur, us);
    }

    /** The blocks of an MCU, until one ends in a bad code. */
    method DecodeBlocks(members: seq<nat>, blocks: seq<array<int>>, ghost cur: seq<Visit>, ghost done: seq<Visit>)
      requires mcu.Shape() && InSegment(cur, done) && McuBlocksOk(mcu.scan, members, blocks) && mcu.lastDcVal !in blocks
      modifies mcu.lastDcVal, mcu.dcContext, mcu.core, mcu.core.stats, mcu.core.stats.dcStats, mcu.core.stats.acStats, mcu.core.stats.fixedBin, blocks
      ensures SameSegment()
      ensures InSegment(cur + old(VisitsNow(mcu.order, members, blocks)), done + VisitsNow(mcu.order, members, blocks))
    {
      hide InSegment, Zz, IsNaturalOrder;
      ghost var vs := VisitsNow(mcu.order, members, blocks);
      var blkn := 0;
      ghost var now: seq<Visit> := [];
      assert cur + vs[..0] == cur && done + now == done;
      while blkn < |blocks| && mcu.core.ct != -1
        invariant blkn <= |blocks| && SameSegment()
        invariant |now| == blkn && InSegment(cur + vs[..blkn], done + now)
        invariant forall i :: 0 <= i < blkn ==> now[i] == Visit(members[i], Zz(mcu.order, blocks[i][..]))
        invariant forall i :: blkn <= i < |blocks| ==> vs[i] == Visit(members[i], Zz(mcu.order, blocks[i][..]))
      {
        OneMoreBlock(members[blkn], blocks[blkn], cur + vs[..blkn], done + now);
        assert cur + vs[..blkn + 1] == (cur + vs[..blkn]) + [vs[blkn]];
        ghost var v := Visit(members[blkn], Zz(mcu.order, blocks[blkn][..]));
        assert done + (now + [v]) == (done + now) + [v];
        now := now + [v];
        blkn := blkn + 1;
      }
      FinishBlocks(cur, done, vs, now);
      assert now + vs[blkn..] == VisitsNow(mcu.order, members, blocks);
    }

    lemma FinishBlocks(cur: seq<Visit>, done: seq<Visit>, vs: seq<Visit>, now: seq<Visit>)
      requires |now| <= |vs| && InSegment(cur + vs[..|now|], done + now) && VisitsOk(mcu.scan, vs[|now|..])
      requires |now| == |vs| || mcu.core.ct == -1
      ensures InSegment(cur + vs, done + (now + vs[|now|..]))
    {
      hide InSegment;
      var us := vs[|now|..];
      assert cur + vs == (cur + vs[..|now|]) + us;
      assert done + (now + us) == (done + now) + us;
      if us == [] {
        assert (cur + vs[..|now|]) + us == cur + vs[..|now|] && (done + now) + us == done + now;
      } else {
        RestLeft(cur + vs[..|now|], done + now, us);
      }
    }

    /** Process a restart marker if needed; closed and cur are the segments the next MCU extends. */
    method StartMcu() returns (ok: bool, ghost closed: seq<seq<Visit>>, ghost cur: seq<Visit>, ghost closedLeft: seq<seq<Visit>>, ghost done: seq<Visit>)
      requires Valid()
      modifies this`restartsToGo, this`nextRestartNum, this`here, mcu.lastDcVal, mcu.dcContext, mcu.core, mcu.core.stats, mcu.core.stats.dcStats, mcu.core.stats.acStats, mcu.core.stats.fixedBin
      ensures SegmentsFit(mcu.scan, Segs())
      ensures ok ==> BehindClosed(closed, closedLeft) && InSegment(cur, done)
      ensures ok && restartInterval > 0 ==> restartsToGo == ToGo(restartInterval, |given| + 1)
      ensures ok ==> if RestartBefore(restartInterval, |given|) then closed == Segs() && cur == [] && closedLeft == SegsLeft() && done == []
                     else closed + [cur] == Segs() && closedLeft + [done] == SegsLeft()
      ensures !ok ==> ReadClosed(start, mcu.scan, Segs()) == Resync && RestartBefore(restartInterval, |given|)
    {
      hide InSegment, Segments, IsNaturalOrder, ScanOk, ToGo, ReadClosed, Unstuff, Marker;
      ghost var segs, segsLeft, n := Segs(), SegsLeft(), |given|;
      SegmentsOk(mcu.scan, restartInterval, given);
      ok := true;
      closed, cur := segs[..|segs| - 1], segs[|segs| - 1];
      closedLeft, done := segsLeft[..|segsLeft| - 1], segsLeft[|segsLeft| - 1];
      assert segs == closed + [cur] && segsLeft == closedLeft + [done];
      if restartInterval != 0 {
        ToGoCounts(restartInterval, n);
        if restartsToGo == 0 {
          ok := ProcessRestart(closed, closedLeft, cur, done);
          if !ok {
            return;
          }
          closed, cur, closedLeft, done := segs, [], segsLeft, [];
          restartsToGo := restartInterval;
        }
        restartsToGo := restartsToGo - 1;
      }
    }

    /** One MCU, a restart marker first if one is due; false if that marker is not found (resynchronization). */
    method DecodeMcu(members: seq<nat>, blocks: seq<array<int>>) returns (ok: bool)
      requires Valid() && McuBlocksOk(mcu.scan, members, blocks) && mcu.lastDcVal !in blocks
      modifies this, mcu, mcu.lastDcVal, mcu.dcContext, mcu.core, mcu.core.stats, mcu.core.stats.dcStats, mcu.core.stats.acStats, mcu.core.stats.fixedBin, blocks
      ensures mcu.scan == old(mcu.scan) && restartInterval == old(restartInterval) && start == old(start)
      ensures ok ==> Valid()
      ensures ok ==> given == old(given) + [old(VisitsNow(mcu.order, members, blocks))]
      ensures ok ==> left == old(left) + [VisitsNow(mcu.order, members, blocks)]
      ensures !ok ==> given == old(given) && SegmentsFit(mcu.scan, Segs()) && ReadClosed(start, mcu.scan, Segs()) == Resync
      ensures !ok ==> RestartBefore(restartInterval, |given|)
    {
      hide InSegment, Segments, IsNaturalOrder, ScanOk, ToGo, ReadClosed, Unstuff, Marker, Zz, VisitsOk, RestartBefore, BehindClosed;
      ghost var closed, cur, closedLeft, done;
      ok, closed, cur, closedLeft, done := StartMcu();
      if ok {
        DecodeInto(members, blocks, closed, cur, closedLeft, done);
      }
    }

    /** The blocks of the MCU, behind the segments `closed` and the blocks `cur` of the current one. */
    method DecodeInto(members: seq<nat>, blocks: seq<array<int>>, ghost closed: seq<seq<Visit>>, ghost cur: seq<Visit>,
                      ghost closedLeft: seq<seq<Visit>>, ghost done: seq<Visit>)
      requires mcu.Shape() && ScanOk(mcu.scan) && McusOk(mcu.scan, given)
      requires |given| == |left| && forall i :: 0 <= i < |given| ==> |left[i]| == |given[i]|
      requires BehindClosed(closed, closedLeft) && InSegment(cur, done)
      requires restartInterval > 0 ==> restartsToGo == ToGo(restartInterval, |given| + 1)
      requires if RestartBefore(restartInterval, |given|) then closed == Segs() && cur == [] && closedLeft == SegsLeft() && done == []
               else closed + [cur] == Segs() && closedLeft + [done] == SegsLeft()
      requires McuBlocksOk(mcu.scan, members, blocks) && mcu.lastDcVal !in blocks
      modifies this`given, this`left, mcu.lastDcVal, mcu.dcContext, mcu.core, mcu.core.stats, mcu.core.stats.dcStats, mcu.core.stats.acStats, mcu.core.stats.fixedBin, blocks
      ensures Valid()
      ensures given == old(given) + [old(VisitsNow(mcu.order, members, blocks))]
      ensures left == old(left) + [VisitsNow(mcu.order, members, blocks)]
    {
      hide InSegment, Segments, IsNaturalOrder, ScanOk, ToGo, ReadClosed, Unstuff, Marker, Zz, VisitsOk, RestartBefore;
      ghost var m := VisitsNow(mcu.order, members, blocks);
      DecodeBlocks(members, blocks, cur, done);
      ghost var m' := VisitsNow(mcu.order, members, blocks);
      Extended(restartInterval, given, m, closed, cur);
      Extended(restartInterval, left, m', closedLeft, done);
      given, left := given + [m], left + [m'];
      MembersOk(mcu.scan, m);
    }

    lemma Extended(interval: nat, ms: seq<Mcu>, m: Mcu, closed: seq<seq<Visit>>, cur: seq<Visit>)
      requires var segs := Segments(interval, ms);
               if RestartBefore(interval, |ms|) then closed == segs && cur == [] else closed + [cur] == segs
      ensures var segs := Segments(interval, ms + [m]); segs[..|segs| - 1] == closed && segs[|segs| - 1] == cur + m
    {
      hide Segments;
      SegmentsSnoc(interval, ms, m);
      assert [] + m == m;
    }

    lemma MembersOk(sc: Scan, m: Mcu)
      requires forall i :: 0 <= i < |m| ==> m[i].ci < |sc.comps|
      ensures VisitsOk(sc, m)
    {
    }

    lemma Sizes()
      requires Valid()
      ensures |given| == |left| && forall i :: 0 <= i < |given| ==> |left[i]| == |given[i]|
    {
    }

    /** The blocks are left as the whole scan reads. */
    lemma Outcome()
      requires Valid()
      ensures SegmentsFit(mcu.scan, Segs()) && |SegsLeft()| == |Segs()|
      ensures var r := ReadScan(start, mcu.scan, Segs());
              r.ScanRead? && forall i :: 0 <= i < |Segs()| ==> r.outs[i].vs == SegsLeft()[i]
    {
      hide ParseSegment, Unstuff, Marker, ReadClosed, ReadSegment, IsNaturalOrder, ScanOk, VisitsOk, InSegment, Segments, ToGo, Decoder.Valid;
      var segs, segsLeft := Segs(), SegsLeft();
      SegmentSoFar(segs[|segs| - 1], segsLeft[|segsLeft| - 1]);
    }
  }
}
