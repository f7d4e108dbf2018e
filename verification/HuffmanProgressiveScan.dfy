/**
 * A progressive Huffman-coded scan of jcphuff.c, MCU by MCU with restarts, either gathering statistics
 * or writing. What each pass sends is the same function of the MCUs.
 */
module HuffmanProgressiveScan {
  import opened Bits
  import opened Blocks
  import opened Markers
  import opened NaturalOrder
  import opened HuffmanCodes
  import opened HuffmanBits
  import opened HuffmanSymbols
  import opened HuffmanSequential
  import opened HuffmanEobRuns
  import opened HuffmanScan
  import opened HuffmanOutput
  import opened HuffmanProgressive

  // ----- What a scan sends -----

  predicate InScan(sc: PScan, vs: seq<Visit>) {
    forall i :: 0 <= i < |vs| ==> vs[i].ci < |sc.tbl|
  }

  predicate AllInScan(sc: PScan, segs: seq<seq<Visit>>) {
    forall i :: 0 <= i < |segs| ==> InScan(sc, segs[i])
  }

  /** The difference that is sent for a block behind the blocks vs. */
  function DcDiff(sc: PScan, vs: seq<Visit>, v: Visit): int {
    Shift(v.z[0], sc.al) - Shift(LastDc(vs, v.ci), sc.al)
  }

  /** One block behind the blocks vs, with p pending. */
  function VisitOut(sc: PScan, vs: seq<Visit>, v: Visit, p: Pend): (seq<Item>, Pend)
    requires PScanOk(sc) && v.ci < |sc.tbl|
  {
    if !sc.IsDc() then BlockOut(sc.tbl[0], sc.Refines(), Trunc(v.z, sc.al), sc.ss, sc.se, p)
    else if sc.Refines() then ([Raw(Masked(Shift(v.z[0], sc.al), 1), 1)], p)
    else (DcItems(sc.tbl[v.ci], DcDiff(sc, vs, v)), p)
  }

  /** Whether the coder accepts the block. */
  predicate VisitInRange(sc: PScan, vs: seq<Visit>, v: Visit)
    requires PScanOk(sc)
  {
    if sc.Refines() then true
    else if sc.IsDc() then NBits(Abs(DcDiff(sc, vs, v))) <= MAX_COEF_BITS + 1
    else BandInRange(Trunc(v.z, sc.al), sc.ss, sc.se + 1)
  }

  predicate InRangeFrom(sc: PScan, vs: seq<Visit>, n: nat)
    requires PScanOk(sc)
  {
    forall i :: n <= i < |vs| ==> VisitInRange(sc, vs[..i], vs[i])
  }

  /** The MCU m, behind the blocks before it in its segment, is in range. */
  predicate McuInRange(sc: PScan, interval: nat, given: seq<Mcu>, m: Mcu)
    requires PScanOk(sc)
  {
    var segs := Segments(interval, given + [m]);
    var cur := segs[|segs| - 1];
    |m| <= |cur| && InRangeFrom(sc, cur, |cur| - |m|)
  }

  /** The blocks of a segment so far. */
  function SegOut(sc: PScan, vs: seq<Visit>): Stream
    requires PScanOk(sc) && InScan(sc, vs)
  {
    if vs == [] then Stream([], NO_PEND)
    else
      var n := |vs| - 1;
      var s := SegOut(sc, vs[..n]);
      var (items, p) := VisitOut(sc, vs[..n], vs[n], s.p);
      Stream(s.items + items, p)
  }

  /** A complete segment. */
  function WholeSegment(sc: PScan, vs: seq<Visit>): seq<Item>
    requires PScanOk(sc) && InScan(sc, vs)
  {
    SegOut(sc, vs).items + EobItems(sc.tbl[0], SegOut(sc, vs).p)
  }

  function WholeScan(sc: PScan, segs: seq<seq<Visit>>): seq<Item>
    requires PScanOk(sc) && AllInScan(sc, segs)
  {
    if segs == [] then [] else WholeScan(sc, segs[..|segs| - 1]) + WholeSegment(sc, segs[|segs| - 1])
  }

  lemma OneMoreOut(sc: PScan, vs: seq<Visit>, v: Visit)
    requires PScanOk(sc) && InScan(sc, vs) && v.ci < |sc.tbl|
    ensures var (items, p) := VisitOut(sc, vs, v, SegOut(sc, vs).p);
            InScan(sc, vs + [v]) && SegOut(sc, vs + [v]) == Stream(SegOut(sc, vs).items + items, p)
    ensures forall ci :: LastDc(vs + [v], ci) == if ci == v.ci then v.z[0] else LastDc(vs, ci)
  {
    hide VisitOut;
    assert (vs + [v])[..|vs|] == vs;
  }

  lemma OneMoreSegmentOut(sc: PScan, segs: seq<seq<Visit>>, vs: seq<Visit>)
    requires PScanOk(sc) && AllInScan(sc, segs) && InScan(sc, vs)
    ensures AllInScan(sc, segs + [vs]) && WholeScan(sc, segs + [vs]) == WholeScan(sc, segs) + WholeSegment(sc, vs)
  {
    hide InScan, WholeSegment;
    assert (segs + [vs])[..|segs|] == segs;
  }

  /** What has been sent when the last segment is still open. */
  function SentSoFar(sc: PScan, segs: seq<seq<Visit>>): seq<Item>
    requires PScanOk(sc) && segs != [] && AllInScan(sc, segs)
  {
    WholeScan(sc, segs[..|segs| - 1]) + SegOut(sc, segs[|segs| - 1]).items
  }

  lemma {:induction false} SegOutPrefix(sc: PScan, vs: seq<Visit>, n: nat)
    requires PScanOk(sc) && InScan(sc, vs) && n <= |vs|
    ensures InScan(sc, vs[..n]) && SegOut(sc, vs[..n]).items <= SegOut(sc, vs).items
    decreases |vs|
  {
    hide VisitOut;
    if n == |vs| {
      assert vs[..n] == vs;
    } else {
      SegOutPrefix(sc, vs[..|vs| - 1], n);
      assert vs[..|vs| - 1][..n] == vs[..n];
    }
  }

  lemma CodedPrefix(tables: Tables, a: seq<Item>, b: seq<Item>)
    requires AllCoded(tables, b) && a <= b
    ensures AllCoded(tables, a)
  {
    hide Coded;
    forall j | 0 <= j < |a| ensures Coded(tables, a[j]) {
      assert a[j] == b[j];
    }
  }

  // ----- AC scans read back -----

  /** The bands of the blocks, after the point transform. */
  function Bands(vs: seq<Visit>, al: nat): seq<Zigzag> {
    seq(|vs|, i requires 0 <= i < |vs| => Trunc(vs[i].z, al))
  }

  /** A segment of an AC scan is a stream of bands. */
  lemma {:induction false} SegmentIsStream(sc: PScan, vs: seq<Visit>)
    requires PScanOk(sc) && !sc.IsDc() && InScan(sc, vs)
    ensures SegOut(sc, vs) == StreamOut(sc.tbl[0], sc.Refines(), Bands(vs, sc.al), sc.ss, sc.se)
  {
    hide Trunc, BlockOut;
    if vs != [] {
      var n := |vs| - 1;
      SegmentIsStream(sc, vs[..n]);
      assert Bands(vs, sc.al)[..n] == Bands(vs[..n], sc.al);
    }
  }

  /** A reader that knows which coefficients are nonzero already gets the segment's bands back. */
  lemma AcSegmentReadBack(sc: PScan, vs: seq<Visit>, flags: seq<Flags>, rest: seq<Item>)
    requires PScanOk(sc) && !sc.IsDc() && InScan(sc, vs) && AllFit(sc.Refines(), Bands(vs, sc.al), flags, sc.ss, sc.se)
    ensures ReadBlocks(sc.tbl[0], WholeSegment(sc, vs) + rest, flags, sc.ss, sc.se)
         == Read(AllSent(sc.Refines(), Bands(vs, sc.al), sc.ss, sc.se), rest, 0)
  {
    hide SegOut, StreamOut, ReadBlocks, AllSent, AllFit, EobItems;
    SegmentIsStream(sc, vs);
    StreamReadBack(sc.tbl[0], sc.Refines(), Bands(vs, sc.al), flags, sc.ss, sc.se, rest);
  }

  /** The tables the scan uses are there, and they are prefix codes. */
  predicate UsableTables(sc: PScan, tables: Tables) {
    !(sc.IsDc() && sc.Refines()) ==>
      forall ci :: 0 <= ci < |sc.tbl| ==>
        sc.Tbl(sc.tbl[ci]) in tables && PrefixCode(tables[sc.Tbl(sc.tbl[ci])].co, tables[sc.Tbl(sc.tbl[ci])].si)
  }

  // ----- One pass -----

  /** The MCU's blocks fit the scan: an MCU of an AC scan is one block. */
  predicate FitsScan(sc: PScan, members: seq<nat>, blocks: seq<Block>) {
    |members| == |blocks| && (!sc.IsDc() ==> |blocks| == 1) && forall i :: 0 <= i < |blocks| ==> members[i] < |sc.tbl|
  }

  /** The segment's data bytes are the codes and bits of its items. */
  predicate Packed(tables: Tables, items: seq<Item>, w: seq<Byte>) {
    AllCoded(tables, items) && Packs(AppendItems(tables, NONE, items), w)
  }

  predicate PacksScan(sc: PScan, tables: Tables, segs: seq<seq<Visit>>, ws: seq<seq<Byte>>)
    requires PScanOk(sc)
  {
    |ws| == |segs| && forall i :: 0 <= i < |segs| ==> InScan(sc, segs[i]) && Packed(tables, WholeSegment(sc, segs[i]), ws[i])
  }

  lemma PacksOneMore(sc: PScan, tables: Tables, segs: seq<seq<Visit>>, ws: seq<seq<Byte>>, vs: seq<Visit>, w: seq<Byte>)
    requires PScanOk(sc) && PacksScan(sc, tables, segs, ws) && InScan(sc, vs) && Packed(tables, WholeSegment(sc, vs), w)
    ensures PacksScan(sc, tables, segs + [vs], ws + [w])
  {
    hide InScan, WholeSegment, Packed;
  }

  class ProgressivePass {
    const enc: PhuffEncoder
    const lastDcVal: array<int>
    const restartInterval: nat
    var restartsToGo: nat
    var nextRestartNum: nat

    ghost var given: seq<Mcu>
    ghost var ws: seq<seq<Byte>>     // the data of the closed segments

    /** start_pass_phuff. */
    constructor (gather: bool, order: seq<int>, sc: PScan, tables: Tables, interval: nat)
      requires IsNaturalOrder(order) && PScanOk(sc)
      ensures given == [] && enc.gather == gather && enc.scan == sc && enc.order == order && enc.tables == tables
      ensures restartInterval == interval && Valid()
      ensures fresh(enc) && fresh(enc.counts) && fresh(enc.writer) && fresh(enc.bitBuffer) && fresh(lastDcVal)
    {
      enc := new PhuffEncoder(gather, order, sc, tables);
      lastDcVal := new int[4](_ => 0);
      restartInterval, restartsToGo, nextRestartNum, given, ws := interval, interval, 0, [], [];
      new;
      hide *;
      Initial();
    }

    lemma Initial()
      requires enc.Synced() && PScanOk(enc.scan) && enc.eobrun == enc.be == 0 && enc.past == enc.items == [] && enc.writer.prior == []
      requires lastDcVal.Length == 4 && forall i :: 0 <= i < 4 ==> lastDcVal[i] == 0
      requires given == [] && ws == [] && restartsToGo == restartInterval && nextRestartNum == 0
      ensures Valid()
    {
      hide LeftWriter.Valid, PhuffEncoder.Synced, IsNaturalOrder, InScan, SegOut, WholeScan, PacksScan, Shift, LastDc, Closed, AllInScan;
      assert Segments(restartInterval, []) == [[]];
      EmptySegments();
      assert enc.bitBuffer[..0] == [];
    }

    lemma EmptySegments()
      requires PScanOk(enc.scan) && enc.Synced()
      ensures InScan(enc.scan, []) && SegOut(enc.scan, []) == Stream([], NO_PEND) && AllInScan(enc.scan, []) && WholeScan(enc.scan, []) == []
      ensures forall ci :: LastDc([], ci) == 0
      ensures Shift(0, enc.scan.al) == 0 && Closed([]) == [] && PacksScan(enc.scan, enc.tables, [], [])
      ensures enc.bitBuffer.Length == MAX_CORR_BITS && (!enc.gather ==> enc.writer.Valid())
    {
      hide LeftWriter.Valid;
      ZeroShift(Pow2(enc.scan.al));
    }

    lemma ZeroShift(p: nat)
      requires p > 0
      ensures 0 / p == 0
    {
    }

    /** Behind the blocks cur of the current segment. */
    ghost predicate InSegment(cur: seq<Visit>)
      reads lastDcVal, enc, enc.counts, enc.writer, enc.bitBuffer
    {
      && PScanOk(enc.scan) && InScan(enc.scan, cur) && lastDcVal.Length == 4
      && enc.Synced() && enc.be <= enc.bitBuffer.Length && enc.Pending() == SegOut(enc.scan, cur).p && enc.items == SegOut(enc.scan, cur).items
      && PendOk(enc.Pending()) && (enc.scan.IsDc() ==> enc.eobrun == 0) && (!enc.scan.Refines() ==> enc.be == 0)
      && (enc.scan.IsDc() && !enc.scan.Refines() ==>
            forall ci :: 0 <= ci < |enc.scan.tbl| ==> lastDcVal[ci] == Shift(LastDc(cur, ci), enc.scan.al))
    }

    ghost predicate BehindClosed(closed: seq<seq<Visit>>)
      reads this, enc, enc.writer
    {
      && PScanOk(enc.scan) && AllInScan(enc.scan, closed) && enc.past == WholeScan(enc.scan, closed)
      && nextRestartNum == |closed| % 8
      && (!enc.gather ==> PacksScan(enc.scan, enc.tables, closed, ws) && enc.writer.prior == Closed(ws))
    }

    ghost function Segs(): (segs: seq<seq<Visit>>)
      reads this
      ensures segs != []
    {
      Segments(restartInterval, given)
    }

    ghost predicate Valid()
      reads this, lastDcVal, enc, enc.counts, enc.writer, enc.bitBuffer
    {
      && BehindClosed(Segs()[..|Segs()| - 1]) && InSegment(Segs()[|Segs()| - 1])
      && (restartInterval > 0 ==> restartsToGo == ToGo(restartInterval, |given|))
    }

    lemma BlockShape(cur: seq<Visit>, v: Visit)
      requires InSegment(cur) && v.ci < |enc.scan.tbl|
      requires InScan(enc.scan, cur + [v]) && enc.CanSend(SegOut(enc.scan, cur + [v]).items)
      ensures InScan(enc.scan, cur + [v]) && enc.CanSend(enc.items + VisitOut(enc.scan, cur, v, enc.Pending()).0)
      ensures enc.CanSend(VisitOut(enc.scan, cur, v, enc.Pending()).0)
      ensures enc.Shape() && |enc.order| == DCTSIZE2 && enc.order[0] == 0 && forall k :: 0 <= k < |enc.order| ==> 0 <= enc.order[k] < DCTSIZE2
    {
      hide LeftWriter.Valid, PhuffEncoder.Synced, VisitOut, SegOut;
      OneMoreOut(enc.scan, cur, v);
      enc.SyncedShape();
      if !enc.gather {
        CodedParts(enc.tables, enc.items, VisitOut(enc.scan, cur, v, enc.Pending()).0);
      }
    }

    /** The block of a first DC scan. */
    method EncodeDcBlock(ci: nat, block: Block, ghost cur: seq<Visit>) returns (ok: bool)
      requires InSegment(cur) && ci < |enc.scan.tbl| && IsNaturalOrder(enc.order) && enc.scan.IsDc() && !enc.scan.Refines()
      requires var v := Visit(ci, Zz(enc.order, block)); enc.CanSend(VisitOut(enc.scan, cur, v, enc.Pending()).0)
      modifies lastDcVal, enc`items, enc.counts, enc.writer
      ensures ok <==> VisitInRange(enc.scan, cur, Visit(ci, Zz(enc.order, block)))
      ensures ok ==> InSegment(cur + [Visit(ci, Zz(enc.order, block))]) && enc.writer.prior == old(enc.writer.prior)
    {
      hide LeftWriter.Valid, PhuffEncoder.Synced, AllCoded, DcItems, NBits, LastDc, SegOut, Pow2;
      ghost var v := Visit(ci, Zz(enc.order, block));
      OneMoreOut(enc.scan, cur, v);
      var temp2 := Shift(block[0], enc.scan.al);
      // DC differences are figured on the point-transformed values
      var temp := temp2 - lastDcVal[ci];
      lastDcVal[ci] := temp2;
      ok := enc.EncodeDcFirst(enc.scan.tbl[ci], temp);
    }

    /** The block of a DC refinement scan. */
    method EncodeDcBit(ci: nat, block: Block, ghost cur: seq<Visit>)
      requires InSegment(cur) && ci < |enc.scan.tbl| && IsNaturalOrder(enc.order) && enc.scan.IsDc() && enc.scan.Refines()
      modifies enc`items, enc.writer
      ensures InSegment(cur + [Visit(ci, Zz(enc.order, block))]) && enc.writer.prior == old(enc.writer.prior)
    {
      hide LeftWriter.Valid, PhuffEncoder.Synced, LastDc, SegOut, Pow2;
      OneMoreOut(enc.scan, cur, Visit(ci, Zz(enc.order, block)));
      enc.EncodeDcRefine(block);
    }

    /** The block of an AC scan. */
    method EncodeAcBlock(ci: nat, block: Block, ghost cur: seq<Visit>) returns (ok: bool)
      requires InSegment(cur) && ci < |enc.scan.tbl| && IsNaturalOrder(enc.order) && !enc.scan.IsDc()
      requires var v := Visit(ci, Zz(enc.order, block)); enc.CanSend(enc.items + VisitOut(enc.scan, cur, v, enc.Pending()).0)
      modifies enc`items, enc`eobrun, enc`be, enc.counts, enc.writer, enc.bitBuffer
      ensures ok <==> VisitInRange(enc.scan, cur, Visit(ci, Zz(enc.order, block)))
      ensures ok ==> InSegment(cur + [Visit(ci, Zz(enc.order, block))]) && enc.writer.prior == old(enc.writer.prior)
    {
      hide LeftWriter.Valid, PhuffEncoder.Synced, PhuffEncoder.CanSend, BlockOut, LastDc, SegOut, BandInRange, Trunc;
      OneMoreOut(enc.scan, cur, Visit(ci, Zz(enc.order, block)));
      if enc.scan.Refines() {
        enc.EncodeAcRefine(block);
        ok := true;
      } else {
        ok := enc.EncodeAcFirst(block);
      }
    }

    method EncodeBlock(ci: nat, block: Block, ghost cur: seq<Visit>) returns (ok: bool)
      requires InSegment(cur) && ci < |enc.scan.tbl| && IsNaturalOrder(enc.order)
      requires var all := cur + [Visit(ci, Zz(enc.order, block))]; InScan(enc.scan, all) && enc.CanSend(SegOut(enc.scan, all).items)
      modifies lastDcVal, enc`items, enc`eobrun, enc`be, enc.counts, enc.writer, enc.bitBuffer
      ensures ok <==> VisitInRange(enc.scan, cur, Visit(ci, Zz(enc.order, block)))
      ensures ok ==> InSegment(cur + [Visit(ci, Zz(enc.order, block))]) && enc.writer.prior == old(enc.writer.prior)
    {
      hide ProgressivePass.InSegment, VisitOut, AllCoded;
      BlockShape(cur, Visit(ci, Zz(enc.order, block)));
      InSegmentShape(cur);
      if enc.scan.IsDc() {
        if enc.scan.Refines() {
          EncodeDcBit(ci, block, cur);
          ok := true;
        } else {
          ok := EncodeDcBlock(ci, block, cur);
        }
      } else {
        ok := EncodeAcBlock(ci, block, cur);
      }
    }

    lemma InSegmentShape(cur: seq<Visit>)
      requires InSegment(cur)
      ensures enc.Shape() && PScanOk(enc.scan) && lastDcVal.Length == 4 && enc.be <= enc.bitBuffer.Length && InScan(enc.scan, cur)
    {
      enc.SyncedShape();
    }

    lemma VisitsInScan(members: seq<nat>, blocks: seq<Block>)
      requires IsNaturalOrder(enc.order) && FitsScan(enc.scan, members, blocks)
      ensures InScan(enc.scan, VisitsOf(enc.order, members, blocks))
    {
    }

    /** The blocks of an MCU; false stands for the error exit on a value out of range. */
    method EncodeBlocks(members: seq<nat>, blocks: seq<Block>, ghost cur: seq<Visit>) returns (ok: bool)
      requires InSegment(cur) && IsNaturalOrder(enc.order) && FitsScan(enc.scan, members, blocks)
      requires var all := cur + VisitsOf(enc.order, members, blocks); InScan(enc.scan, all) && enc.CanSend(SegOut(enc.scan, all).items)
      modifies lastDcVal, enc`items, enc`eobrun, enc`be, enc.counts, enc.writer, enc.bitBuffer
      ensures ok <==> InRangeFrom(enc.scan, cur + VisitsOf(enc.order, members, blocks), |cur|)
      ensures ok ==> InSegment(cur + VisitsOf(enc.order, members, blocks)) && enc.writer.prior == old(enc.writer.prior)
    {
      hide ProgressivePass.InSegment, AllCoded, VisitInRange, SegOut, LeftWriter.Valid, PhuffEncoder.Synced, InScan;
      InSegmentShape(cur);
      ghost var vs := VisitsOf(enc.order, members, blocks);
      ghost var all := cur + vs;
      assert cur + vs[..0] == cur;
      for blkn := 0 to |blocks|
        invariant InSegment(cur + vs[..blkn]) && enc.writer.prior == old(enc.writer.prior)
        invariant forall i :: |cur| <= i < |cur| + blkn ==> VisitInRange(enc.scan, all[..i], all[i])
      {
        ghost var now := cur + vs[..blkn];
        assert all[..|cur| + blkn] == now && all[|cur| + blkn] == vs[blkn] && all[..|cur| + blkn + 1] == now + [vs[blkn]];
        SegOutPrefix(enc.scan, all, |cur| + blkn + 1);
        if !enc.gather {
          CodedPrefix(enc.tables, SegOut(enc.scan, now + [vs[blkn]]).items, SegOut(enc.scan, all).items);
        }
        ok := EncodeBlock(members[blkn], blocks[blkn], now);
        if !ok {
          return;
        }
        assert cur + vs[..blkn + 1] == now + [vs[blkn]];
      }
      assert vs[..|blocks|] == vs;
      ok := true;
    }

    // ----- Segments -----

    /** emit_eobrun at the end of a segment: its items are complete. */
    method SendLastRun(ghost cur: seq<Visit>)
      requires InSegment(cur) && enc.CanSend(WholeSegment(enc.scan, cur))
      modifies enc`items, enc`eobrun, enc`be, enc.counts, enc.writer
      ensures enc.Synced() && enc.eobrun == enc.be == 0 && enc.items == WholeSegment(enc.scan, cur) && enc.writer.prior == old(enc.writer.prior)
    {
      hide LeftWriter.Valid, PhuffEncoder.Synced, SegOut, AllCoded, EobItems;
      InSegmentShape(cur);
      if !enc.gather {
        CodedParts(enc.tables, SegOut(enc.scan, cur).items, EobItems(enc.scan.tbl[0], SegOut(enc.scan, cur).p));
      }
      enc.EmitEobrun(enc.scan.tbl[0]);
    }

    /** flush_bits: the segment's data bytes are complete. */
    method FlushSegment(ghost closed: seq<seq<Visit>>, ghost cur: seq<Visit>)
      requires BehindClosed(closed) && !enc.gather && InScan(enc.scan, cur)
      requires enc.Synced() && enc.items == WholeSegment(enc.scan, cur)
      modifies this`ws, enc.writer
      ensures PacksScan(enc.scan, enc.tables, closed + [cur], ws) && ws != [] && enc.writer.out == ScanData(ws)
      ensures |ws| == |closed| + 1 && enc.writer.putBuffer == enc.writer.putBits == 0
    {
      hide Pow2, Val, Stuff, PacksScan, IsNaturalOrder, LeftWriter.Valid, Closed, WholeScan, WholeSegment, AllCoded, InScan;
      enc.writer.FlushBits();
      assert Packed(enc.tables, WholeSegment(enc.scan, cur), enc.writer.w);
      PacksLength(closed);
      PacksOneMore(enc.scan, enc.tables, closed, ws, cur, enc.writer.w);
      assert (ws + [enc.writer.w])[..|ws|] == ws;
      ws := ws + [enc.writer.w];
    }

    lemma PacksLength(closed: seq<seq<Visit>>)
      requires PScanOk(enc.scan) && PacksScan(enc.scan, enc.tables, closed, ws)
      ensures |ws| == |closed|
    {
    }

    /** The marker behind a segment that has been flushed. */
    method EmitMarker(ghost n: nat)
      requires |ws| == n + 1 && enc.writer.out == ScanData(ws) && enc.writer.putBuffer == enc.writer.putBits == 0
      requires nextRestartNum == n % 8
      modifies enc.writer
      ensures enc.writer.Valid() && enc.writer.all == NONE && enc.writer.prior == Closed(ws)
    {
      hide Stuff, Closed, LeftWriter.Valid;
      ClosedSnoc(ws[..n], ws[n]);
      assert ws == ws[..n] + [ws[n]];
      enc.writer.EmitByte(0xFF);
      enc.writer.EmitByte(RST0 + nextRestartNum);
      enc.writer.StartRun();
    }

    /** Emit a restart marker and resynchronize predictions. */
    method EmitRestart(ghost closed: seq<seq<Visit>>, ghost cur: seq<Visit>)
      requires BehindClosed(closed) && InSegment(cur) && enc.CanSend(WholeSegment(enc.scan, cur))
      modifies this`ws, this`nextRestartNum, lastDcVal, enc`past, enc`items, enc`eobrun, enc`be, enc.counts, enc.writer
      ensures BehindClosed(closed + [cur]) && InSegment([])
    {
      hide ProgressivePass.InSegment, Stuff, Closed, LeftWriter.Valid, PhuffEncoder.Counted, SegOut, WholeSegment, WholeScan, AllCoded, PacksScan, InScan, LastDc, ScanData, AppendItems, IsNaturalOrder;
      InSegmentShape(cur);
      OneMoreSegmentOut(enc.scan, closed, cur);
      SendLastRun(cur);
      if !enc.gather {
        FlushSegment(closed, cur);
        EmitMarker(|closed|);
      }
      enc.NextSegment();
      nextRestartNum := (nextRestartNum + 1) % 8;
      ResetPredictions();
    }

    /** Re-initialize DC predictions, or all AC-related fields, to 0. */
    method ResetPredictions()
      requires enc.Synced() && PScanOk(enc.scan) && lastDcVal.Length == 4 && enc.items == [] && enc.eobrun == enc.be == 0
      modifies lastDcVal, enc`eobrun, enc`be
      ensures InSegment([])
    {
      hide LeftWriter.Valid, PhuffEncoder.Synced, SegOut, InScan, LastDc;
      if enc.scan.IsDc() {
        for ci := 0 to |enc.scan.tbl|
          invariant forall i :: 0 <= i < ci ==> lastDcVal[i] == 0
          modifies lastDcVal
        {
          lastDcVal[ci] := 0;
        }
      } else {
        enc.eobrun, enc.be := 0, 0;
      }
      assert enc.bitBuffer[..0] == [];
      EmptySegments();
    }

    /** What an MCU needs codes for. */
    lemma SentParts(closed: seq<seq<Visit>>, cur: seq<Visit>, m: Mcu)
      requires PScanOk(enc.scan) && Segs() == closed + [cur] && AllInScan(enc.scan, Segs()) && InScan(enc.scan, m)
      requires AllInScan(enc.scan, Segments(restartInterval, given + [m]))
               && enc.CanSend(SentSoFar(enc.scan, Segments(restartInterval, given + [m])))
      ensures InScan(enc.scan, cur)
      ensures if RestartBefore(restartInterval, |given|) then enc.CanSend(WholeSegment(enc.scan, cur)) && enc.CanSend(SegOut(enc.scan, m).items)
              else InScan(enc.scan, cur + m) && enc.CanSend(SegOut(enc.scan, cur + m).items)
    {
      hide SegOut, WholeSegment, InScan, AllCoded;
      SegmentsSnoc(restartInterval, given, m);
      assert Segs()[..|closed|] == closed && Segs()[|closed|] == cur;
      var segs := Segments(restartInterval, given + [m]);
      if RestartBefore(restartInterval, |given|) {
        assert segs[..|segs| - 1] == Segs();
        if !enc.gather {
          CodedParts(enc.tables, WholeScan(enc.scan, Segs()), SegOut(enc.scan, m).items);
          CodedParts(enc.tables, WholeScan(enc.scan, closed), WholeSegment(enc.scan, cur));
        }
      } else {
        assert segs[..|segs| - 1] == closed && segs[|segs| - 1] == cur + m;
        if !enc.gather {
          CodedParts(enc.tables, WholeScan(enc.scan, closed), SegOut(enc.scan, cur + m).items);
        }
      }
    }

    /** Emit a restart marker if one is due; `closed` and `cur` are the segments the MCU m extends. */
    method StartMcu(ghost m: Mcu) returns (ghost closed: seq<seq<Visit>>, ghost cur: seq<Visit>)
      requires Valid() && InScan(enc.scan, m)
      requires var segs := Segments(restartInterval, given + [m]); AllInScan(enc.scan, segs) && enc.CanSend(SentSoFar(enc.scan, segs))
      modifies this`restartsToGo, this`nextRestartNum, this`ws, lastDcVal
      modifies enc`past, enc`items, enc`eobrun, enc`be, enc.counts, enc.writer
      ensures BehindClosed(closed) && InSegment(cur) && Segments(restartInterval, given + [m]) == closed + [cur + m]
      ensures restartInterval > 0 ==> restartsToGo == ToGo(restartInterval, |given| + 1)
      ensures InScan(enc.scan, cur + m) && enc.CanSend(SegOut(enc.scan, cur + m).items)
    {
      hide ProgressivePass.InSegment, Segments, ToGo, PacksScan, InScan, Closed, SegOut, WholeSegment, WholeScan, SentSoFar, AllCoded, PScanOk;
      ghost var segs := Segs();
      closed, cur := segs[..|segs| - 1], segs[|segs| - 1];
      assert [] + m == m && segs == closed + [cur];
      InSegmentShape(cur);
      SegmentsSnoc(restartInterval, given, m);
      SentParts(closed, cur, m);
      if restartInterval != 0 {
        ToGoCounts(restartInterval, |given|);
        if restartsToGo == 0 {
          EmitRestart(closed, cur);
          closed, cur := segs, [];
          restartsToGo := restartInterval;
        }
        restartsToGo := restartsToGo - 1;
      }
    }

    /** Encode one MCU; false stands for the error exit on a value out of range. */
    method EncodeMcu(members: seq<nat>, blocks: seq<Block>) returns (ok: bool)
      requires Valid() && IsNaturalOrder(enc.order) && FitsScan(enc.scan, members, blocks)
      requires var segs := Segments(restartInterval, given + [VisitsOf(enc.order, members, blocks)]);
               AllInScan(enc.scan, segs) && enc.CanSend(SentSoFar(enc.scan, segs))
      modifies this`restartsToGo, this`nextRestartNum, this`given, this`ws, lastDcVal
      modifies enc`past, enc`items, enc`eobrun, enc`be, enc.counts, enc.writer, enc.bitBuffer
      ensures PScanOk(enc.scan) && (ok <==> McuInRange(enc.scan, restartInterval, old(given), VisitsOf(enc.order, members, blocks)))
      ensures ok ==> Valid() && given == old(given) + [VisitsOf(enc.order, members, blocks)]
    {
      hide ProgressivePass.InSegment, Segments, ToGo, PacksScan, InScan, AllInScan, Closed, SegOut, WholeScan, SentSoFar, AllCoded, VisitInRange, PScanOk;
      ghost var m := VisitsOf(enc.order, members, blocks);
      VisitsInScan(members, blocks);
      ghost var closed, cur := StartMcu(m);
      InSegmentShape(cur);
      ok := EncodeBlocks(members, blocks, cur);
      if ok {
        given := given + [m];
        assert Segs()[..|Segs()| - 1] == closed;
      }
    }

    /** Finish up at the end of a scan: all counts, or all data. */
    method FinishPass()
      requires Valid() && AllInScan(enc.scan, Segs()) && enc.CanSend(WholeScan(enc.scan, Segs()))
      modifies this`ws, enc`items, enc`eobrun, enc`be, enc.counts, enc.writer
      ensures PScanOk(enc.scan) && enc.Counted() && enc.past + enc.items == WholeScan(enc.scan, Segs())
      ensures !enc.gather ==> PacksScan(enc.scan, enc.tables, Segs(), ws) && ws != [] && enc.writer.out == ScanData(ws)
    {
      hide PacksScan, LeftWriter.Valid, Segments, ScanData, PhuffEncoder.Counted, AllCoded, WholeSegment, InScan, SegOut, AppendItems;
      ghost var segs := Segs();
      ghost var closed, cur := segs[..|segs| - 1], segs[|segs| - 1];
      assert segs == closed + [cur];
      InSegmentShape(cur);
      if !enc.gather {
        CodedParts(enc.tables, WholeScan(enc.scan, closed), WholeSegment(enc.scan, cur));
      }
      SendLastRun(cur);
      if !enc.gather {
        FlushSegment(closed, cur);
      }
    }
  }
}
