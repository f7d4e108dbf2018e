/**
 * The output pass of jchuff.c: encode_mcu_huff, emit_restart and finish_pass_huff. What is written is,
 * segment by segment, the concatenated codes and bits of the segment's items, padded with ones.
 */
module HuffmanOutput {
  import opened Arithmetic
  import opened Bits
  import opened Blocks
  import opened Markers
  import opened NaturalOrder
  import opened HuffmanBits
  import opened HuffmanSymbols
  import opened HuffmanSequential
  import opened HuffmanScan

  /** The data bytes are the bits, and then at most seven ones. */
  predicate Packs(b: BitString, w: seq<Byte>) {
    var pad := 8 * |w| - b.n;
    0 <= pad <= 7 && Val(w) == b.v * Pow2(pad) + (Pow2(pad) - 1)
  }

  predicate SegCoded(sc: HScan, tables: Tables, vs: seq<Visit>)
    requires HScanOk(sc) && AreMembers(sc, vs)
  {
    AllCoded(tables, SegItems(sc, vs))
  }

  /** The bits of a segment. */
  function SegBits(sc: HScan, tables: Tables, vs: seq<Visit>): BitString
    requires HScanOk(sc) && AreMembers(sc, vs) && SegCoded(sc, tables, vs)
  {
    AppendItems(tables, NONE, SegItems(sc, vs))
  }

  /** Section F.1.2.3: the bytes are the bits, highest first, and ones up to the next byte boundary. */
  lemma PaddedWithOnes(b: BitString, w: seq<Byte>, i: nat)
    requires Packs(b, w)
    ensures var pad := 8 * |w| - b.n;
            && 0 <= pad <= 7 && Val(w) / Pow2(pad) == b.v
            && (i < pad ==> Val(w) / Pow2(i) % 2 == 1)
  {
    var pad := 8 * |w| - b.n;
    QuotientUnique(Val(w), Pow2(pad), b.v, Pow2(pad) - 1);
    if i < pad {
      var p, q := Pow2(i), Pow2(pad - 1 - i);
      Pow2Add(pad - 1 - i, i);
      assert Pow2(pad) == 2 * Pow2(pad - 1);
      OnesBelow(Val(w), b.v, p, q);
    }
  }

  lemma OnesBelow(x: nat, v: nat, p: nat, q: nat)
    requires p > 0 && q > 0 && x == v * (2 * (q * p)) + (2 * (q * p) - 1)
    ensures x / p % 2 == 1
  {
    var h := v * q + q - 1;
    Regrouped(v, p, q);
    QuotientUnique(x, p, 2 * h + 1, p - 1);
  }

  lemma Regrouped(v: int, p: int, q: int)
    ensures v * (2 * (q * p)) + (2 * (q * p) - 1) == (2 * (v * q + q - 1) + 1) * p + (p - 1)
  {
    MulAssociative(v, q, p);
    Twice(v, q * p);
    Expanded(v * q, q, p);
  }

  lemma Twice(v: int, t: int)
    ensures v * (2 * t) == 2 * (v * t)
  {
  }

  lemma Expanded(a: int, q: int, p: int)
    ensures (2 * (a + q - 1) + 1) * p == 2 * (a * p) + 2 * (q * p) - p
  {
    Distribute(a + q, 1, p);
    Distribute(a, q, p);
  }

  predicate PacksAll(sc: HScan, tables: Tables, segs: seq<seq<Visit>>, ws: seq<seq<Byte>>)
    requires HScanOk(sc)
  {
    && |ws| == |segs|
    && forall i :: 0 <= i < |segs| ==> AreMembers(sc, segs[i]) && SegCoded(sc, tables, segs[i]) && Packs(SegBits(sc, tables, segs[i]), ws[i])
  }

  lemma PacksAllSnoc(sc: HScan, tables: Tables, segs: seq<seq<Visit>>, ws: seq<seq<Byte>>, vs: seq<Visit>, w: seq<Byte>)
    requires HScanOk(sc) && PacksAll(sc, tables, segs, ws)
    requires AreMembers(sc, vs) && SegCoded(sc, tables, vs) && Packs(SegBits(sc, tables, vs), w)
    ensures PacksAll(sc, tables, segs + [vs], ws + [w])
  {
    hide AreMembers, SegCoded, SegBits, Packs;
  }

  lemma OneMoreBits(sc: HScan, tables: Tables, vs: seq<Visit>, v: Visit)
    requires HScanOk(sc) && AreMembers(sc, vs) && v.ci < |sc.dcTbl| && SegCoded(sc, tables, vs)
    requires AllCoded(tables, VisitItems(sc, vs, v))
    ensures AreMembers(sc, vs + [v]) && SegCoded(sc, tables, vs + [v])
    ensures SegBits(sc, tables, vs + [v]) == AppendItems(tables, SegBits(sc, tables, vs), VisitItems(sc, vs, v))
  {
    hide VisitItems, AllCoded;
    OneMoreVisit(sc, vs, v);
    AppendItemsConcat(tables, NONE, SegItems(sc, vs), VisitItems(sc, vs, v));
  }

  /** A part of a segment that has codes. */
  lemma {:induction false} PrefixCoded(sc: HScan, tables: Tables, vs: seq<Visit>, n: nat)
    requires HScanOk(sc) && AreMembers(sc, vs) && SegCoded(sc, tables, vs) && n < |vs|
    ensures AreMembers(sc, vs[..n]) && vs[n].ci < |sc.dcTbl| && AllCoded(tables, VisitItems(sc, vs[..n], vs[n]))
    decreases |vs|
  {
    hide VisitItems, Coded;
    var m := |vs| - 1;
    var front, more := SegItems(sc, vs[..m]), VisitItems(sc, vs[..m], vs[m]);
    CodedParts(tables, front, more);
    if n < m {
      PrefixCoded(sc, tables, vs[..m], n);
      assert vs[..m][..n] == vs[..n];
    }
  }

  lemma CodedParts(tables: Tables, a: seq<Item>, b: seq<Item>)
    requires AllCoded(tables, a + b)
    ensures AllCoded(tables, a) && AllCoded(tables, b)
  {
    hide Coded;
    forall j | 0 <= j < |a| ensures Coded(tables, a[j]) {
      assert (a + b)[j] == a[j];
    }
    forall j | 0 <= j < |b| ensures Coded(tables, b[j]) {
      assert (a + b)[|a| + j] == b[j];
    }
  }

  class OutputPass {
    const enc: BlockEncoder
    const lastDcVal: array<int>
    const tables: Tables
    const scan: HScan
    const restartInterval: nat
    var restartsToGo: nat
    var nextRestartNum: nat

    ghost var given: seq<Mcu>
    ghost var ws: seq<seq<Byte>>     // the data of the closed segments

    /** start_pass_huff with derived tables. */
    constructor (order: seq<int>, sc: HScan, tables: Tables, interval: nat)
      requires IsNaturalOrder(order) && HScanOk(sc)
      ensures given == [] && scan == sc && restartInterval == interval && enc.order == order && this.tables == tables && Valid()
      ensures fresh(enc) && fresh(enc.writer) && fresh(lastDcVal)
    {
      enc := new BlockEncoder(order);
      lastDcVal := new int[4](_ => 0);
      this.tables, scan, restartInterval, restartsToGo, nextRestartNum := tables, sc, interval, interval, 0;
      given, ws := [], [];
      new;
      hide Pow2;
      assert Segments(interval, []) == [[]];
      assert SegItems(sc, []) == [] && Closed([]) == [];
    }

    /** Behind the blocks cur of the current segment. */
    ghost predicate InSegment(cur: seq<Visit>)
      reads lastDcVal, enc.writer
    {
      && enc.writer.Valid() && IsNaturalOrder(enc.order) && lastDcVal.Length == 4
      && HScanOk(scan) && AreMembers(scan, cur) && SegCoded(scan, tables, cur)
      && (forall ci :: 0 <= ci < |scan.dcTbl| ==> lastDcVal[ci] == LastDc(cur, ci))
      && enc.writer.all == SegBits(scan, tables, cur)
    }

    ghost predicate BehindClosed(closed: seq<seq<Visit>>)
      reads this, enc.writer
    {
      && HScanOk(scan) && PacksAll(scan, tables, closed, ws)
      && enc.writer.prior == Closed(ws) && nextRestartNum == |ws| % 8
    }

    ghost function Segs(): (segs: seq<seq<Visit>>)
      reads this
      ensures segs != []
    {
      Segments(restartInterval, given)
    }

    ghost predicate Valid()
      reads this, lastDcVal, enc.writer
    {
      && BehindClosed(Segs()[..|Segs()| - 1]) && InSegment(Segs()[|Segs()| - 1])
      && (restartInterval > 0 ==> restartsToGo == ToGo(restartInterval, |given|))
    }

    /** flush_bits at the end of a segment: its data bytes are complete. */
    method FlushSegment(ghost closed: seq<seq<Visit>>, ghost cur: seq<Visit>)
      requires BehindClosed(closed) && InSegment(cur)
      modifies this`ws, enc.writer
      ensures HScanOk(scan) && PacksAll(scan, tables, closed + [cur], ws)
      ensures ws != [] && enc.writer.out == ScanData(ws) && |ws| == old(|ws|) + 1
      ensures enc.writer.putBuffer == enc.writer.putBits == 0
    {
      hide Pow2, Val, Stuff, PacksAll, IsNaturalOrder, RightWriter.Valid, Closed;
      enc.writer.FlushBits();
      PacksAllSnoc(scan, tables, closed, ws, cur, enc.writer.w);
      assert (ws + [enc.writer.w])[..|ws|] == ws;
      ws := ws + [enc.writer.w];
    }

    /** The marker behind a segment that has been flushed. */
    method EmitMarker()
      requires ws != [] && enc.writer.out == ScanData(ws) && enc.writer.putBuffer == enc.writer.putBits == 0
      requires nextRestartNum == (|ws| - 1) % 8
      modifies this`nextRestartNum, enc.writer
      ensures enc.writer.Valid() && enc.writer.all == NONE && enc.writer.prior == Closed(ws) && nextRestartNum == |ws| % 8
    {
      hide Stuff, Closed, RightWriter.Valid;
      ghost var n := |ws| - 1;
      ClosedSnoc(ws[..n], ws[n]);
      assert ws == ws[..n] + [ws[n]];
      enc.writer.out := enc.writer.out + [0xFF];
      enc.writer.out := enc.writer.out + [RST0 + nextRestartNum];
      enc.writer.StartRun();
      nextRestartNum := (nextRestartNum + 1) % 8;
    }

    /** Emit a restart marker and resynchronize predictions. */
    method EmitRestart(ghost closed: seq<seq<Visit>>, ghost cur: seq<Visit>)
      requires BehindClosed(closed) && InSegment(cur)
      modifies this`nextRestartNum, this`ws, lastDcVal, enc.writer
      ensures BehindClosed(closed + [cur]) && InSegment([])
    {
      hide PacksAll, IsNaturalOrder, RightWriter.Valid, ScanData, Closed, SegBits, SegCoded, LastDc;
      FlushSegment(closed, cur);
      EmitMarker();
      for ci := 0 to |scan.dcTbl|
        invariant forall i :: 0 <= i < ci ==> lastDcVal[i] == 0
        modifies lastDcVal
      {
        lastDcVal[ci] := 0;
      }
      EmptySegment();
    }

    lemma EmptySegment()
      requires HScanOk(scan)
      ensures AreMembers(scan, []) && SegCoded(scan, tables, []) && SegBits(scan, tables, []) == NONE
      ensures forall ci :: LastDc([], ci) == 0
    {
    }

    method EncodeBlock(ci: nat, block: Block, ghost cur: seq<Visit>)
      requires InSegment(cur) && ci < |scan.dcTbl|
      requires AllCoded(tables, VisitItems(scan, cur, Visit(ci, Zz(enc.order, block))))
      modifies lastDcVal, enc.writer
      ensures InSegment(cur + [Visit(ci, Zz(enc.order, block))]) && enc.writer.prior == old(enc.writer.prior)
    {
      hide BlockItems, AllCoded, RightWriter.Valid, SegBits, SegCoded, AreMembers, AppendItems, LastDc;
      ghost var v := Visit(ci, Zz(enc.order, block));
      OneMoreBits(scan, tables, cur, v);
      OneMoreVisit(scan, cur, v);
      enc.EncodeOneBlock(tables, scan.dcTbl[ci], scan.acTbl[ci], block, lastDcVal[ci]);
      lastDcVal[ci] := block[0];
    }

    method EncodeBlocks(members: seq<nat>, blocks: seq<Block>, ghost cur: seq<Visit>)
      requires InSegment(cur) && GoodMcu(scan, members, blocks)
      requires var all := cur + VisitsOf(enc.order, members, blocks); AreMembers(scan, all) && SegCoded(scan, tables, all)
      modifies lastDcVal, enc.writer
      ensures InSegment(cur + VisitsOf(enc.order, members, blocks)) && enc.writer.prior == old(enc.writer.prior)
    {
      hide InSegment, AllCoded, VisitItems;
      SegmentShape(cur);
      ghost var vs := VisitsOf(enc.order, members, blocks);
      ghost var all := cur + vs;
      assert cur + vs[..0] == cur;
      for blkn := 0 to |blocks|
        invariant InSegment(cur + vs[..blkn]) && enc.writer.prior == old(enc.writer.prior)
      {
        PrefixCoded(scan, tables, all, |cur| + blkn);
        assert all[..|cur| + blkn] == cur + vs[..blkn] && all[|cur| + blkn] == vs[blkn];
        EncodeBlock(members[blkn], blocks[blkn], cur + vs[..blkn]);
        assert cur + vs[..blkn + 1] == (cur + vs[..blkn]) + [vs[blkn]];
      }
      assert vs[..|blocks|] == vs;
    }

    lemma SegmentShape(cur: seq<Visit>)
      requires InSegment(cur)
      ensures IsNaturalOrder(enc.order) && HScanOk(scan)
    {
    }

    /** Encode and output one MCU, all of whose symbols have codes. */
    method EncodeMcuHuff(members: seq<nat>, blocks: seq<Block>)
      requires Valid() && IsNaturalOrder(enc.order) && GoodMcu(scan, members, blocks)
      requires var segs := Segments(restartInterval, given + [VisitsOf(enc.order, members, blocks)]);
               AreMembers(scan, segs[|segs| - 1]) && SegCoded(scan, tables, segs[|segs| - 1])
      modifies this`restartsToGo, this`nextRestartNum, this`given, this`ws, lastDcVal, enc.writer
      ensures Valid() && given == old(given) + [VisitsOf(enc.order, members, blocks)]
    {
      hide InSegment, Segments, ToGo, PacksAll, SegCoded, AreMembers, Closed;
      ghost var segs, n, m := Segs(), |given|, VisitsOf(enc.order, members, blocks);
      ghost var closed, cur := segs[..|segs| - 1], segs[|segs| - 1];
      assert [] + m == m && segs == closed + [cur];
      SegmentsSnoc(restartInterval, given, m);
      if restartInterval != 0 {
        ToGoCounts(restartInterval, n);
        if restartsToGo == 0 {
          EmitRestart(closed, cur);
          closed, cur := segs, [];
          restartsToGo := restartInterval;
        }
        restartsToGo := restartsToGo - 1;
      }
      assert Segments(restartInterval, given + [m]) == closed + [cur + m];
      EncodeBlocks(members, blocks, cur);
      given := given + [m];
      assert Segs()[..|Segs()| - 1] == closed;
    }

    /** Finish up at the end of a Huffman-compressed scan. */
    method FinishPass()
      requires Valid()
      modifies this`ws, enc.writer
      ensures PacksAll(scan, tables, Segs(), ws) && enc.writer.out == ScanData(ws)
    {
      hide PacksAll, RightWriter.Valid, Segments, InSegment, ScanData;
      ghost var segs := Segs();
      ghost var closed, cur := segs[..|segs| - 1], segs[|segs| - 1];
      assert segs == closed + [cur];
      FlushSegment(closed, cur);
    }
  }
}
