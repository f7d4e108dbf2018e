/**
 * The coefficient buffer controllers of the compressor: compress_data, compress_first_pass and
 * compress_output of jccoefct.c, and compress_output of jctrans.c. However the blocks of an MCU are found
 * and however often the entropy coder suspends, the same MCUs are sent in the same order.
 */
module CoefControl {
  import opened Arithmetic
  import opened Blocks
  import opened McuGeometry
  import opened McuSequence

  /** The entropy encoder, seen from here: it takes an MCU or suspends. Any finite pattern of refusals. */
  class EntropySink {
    const answers: seq<bool>
    var used: nat
    var sent: seq<seq<Block>>

    constructor (answers: seq<bool>)
      ensures this.answers == answers && used == 0 && sent == []
    {
      this.answers, used, sent := answers, 0, [];
    }

    /** The refusals that may still come. */
    function Refusals(): nat
      reads this
    {
      if used < |answers| then |answers| - used else 0
    }

    method EncodeMcu(mcu: seq<Block>) returns (ok: bool)
      modifies this
      ensures sent == if ok then old(sent) + [mcu] else old(sent)
      ensures Refusals() <= old(Refusals()) && (!ok ==> Refusals() < old(Refusals()))
    {
      ok := used >= |answers| || answers[used];
      used := used + 1;
      if ok {
        sent := sent + [mcu];
      }
    }
  }

  /** The counters of a controller, and start_iMCU_row. */
  class RowCounter {
    const f: Frame
    const scan: seq<nat>
    const l: Layout
    var iMcuRowNum: nat              // iMCU row # within image
    var mcuCtr: nat                  // counts MCUs processed in current row
    var mcuVertOffset: nat           // counts MCU rows within iMCU row
    var mcuRowsPerIMcuRow: nat       // number of such rows needed

    ghost predicate Shape() {
      FrameOk(f) && ScanInFrame(f, scan) && LayoutOk(f, scan, l)
    }

    ghost predicate Valid()
      reads this
    {
      && Shape() && iMcuRowNum <= f.iMcuRows && mcuCtr <= l.mcusPerRow
      && if iMcuRowNum < f.iMcuRows then mcuRowsPerIMcuRow == RowsIn(f, l, iMcuRowNum) && mcuVertOffset < mcuRowsPerIMcuRow
         else mcuCtr == 0
    }

    /** The current MCU row within the scan. */
    ghost function Row(): nat
      requires Valid()
      reads this
    {
      if iMcuRowNum < f.iMcuRows then FirstRow(f, l, iMcuRowNum) + mcuVertOffset else l.mcuRows
    }

    constructor (f: Frame, scan: seq<nat>, l: Layout)
      requires FrameOk(f) && ScanInFrame(f, scan) && LayoutOk(f, scan, l)
      ensures Valid() && this.f == f && this.scan == scan && this.l == l && iMcuRowNum == 0 && mcuCtr == 0 && Row() == 0
    {
      this.f, this.scan, this.l := f, scan, l;
      iMcuRowNum, mcuCtr, mcuVertOffset := 0, 0, 0;
      new;
      hide DivRoundUp;
      RowsAddUp(f, scan, l, 0) by { SomeRows(); }
      SomeRows();
      StartIMcuRow();
    }

    lemma SomeRows()
      requires Shape()
      ensures f.iMcuRows > 0 && 1 <= |scan| == |l.comps| && l.comps[0].c.v > 0
    {
      assert l.comps[0] == PlacedAs(f, scan, 0);
      McusTile(f, f.comps[scan[0]]);
    }

    /** Reset within-iMCU-row counters for a new row. */
    method StartIMcuRow()
      requires Shape() && iMcuRowNum <= f.iMcuRows
      modifies this`mcuCtr, this`mcuVertOffset, this`mcuRowsPerIMcuRow
      ensures Valid() && mcuCtr == mcuVertOffset == 0
    {
      hide DivRoundUp;
      SomeRows();
      if |l.comps| > 1 {
        mcuRowsPerIMcuRow := 1;
      } else if iMcuRowNum < f.iMcuRows - 1 {
        mcuRowsPerIMcuRow := l.comps[0].c.v;
      } else {
        mcuRowsPerIMcuRow := l.comps[0].lastRowHeight;
      }
      mcuCtr, mcuVertOffset := 0, 0;
      if iMcuRowNum < f.iMcuRows {
        RowsAddUp(f, scan, l, iMcuRowNum);
      }
    }

    /** The next iMCU row. */
    method NextIMcuRow()
      requires Valid() && iMcuRowNum < f.iMcuRows
      modifies this
      ensures Valid() && iMcuRowNum == old(iMcuRowNum) + 1 && mcuCtr == 0 && Row() == FirstRow(f, l, old(iMcuRowNum)) + RowsIn(f, l, old(iMcuRowNum))
    {
      RowsAddUp(f, scan, l, iMcuRowNum);
      iMcuRowNum := iMcuRowNum + 1;
      StartIMcuRow();
    }
  }

  /** Where the blocks come from. */
  datatype Mode = SinglePass | Buffered | Transcoding

  /** The rows of DCT blocks of one iMCU row, per component of the image; what lies below the image is arbitrary. */
  type Strip = seq<Plane>

  predicate StripOf(f: Frame, img: seq<Plane>, k: nat, strip: Strip) {
    && |strip| == |img| == |f.comps|
    && forall ci: nat, y: nat :: ci < |strip| && y < f.comps[ci].v ==> RowThere(f.comps[ci].v, img[ci], k, strip[ci], y)
  }

  /** If row y of the strip lies in the image, it is the image's. */
  predicate RowThere(v: nat, rows: Plane, k: nat, strip: Plane, y: nat) {
    k * v + y < |rows| ==> y < |strip| && strip[y] == rows[k * v + y]
  }

  /** A block of the padded plane by its coordinates. */
  function PaddedXY(c: McuGeometry.Component, rows: Plane, y: nat, x: nat): Block
    requires PlaneOk(c, rows) && c.h > 0
  {
    PaddedAt(Placed(0, c, c.h, c.v, 0, 0), rows, y, x / c.h, x % c.h)
  }

  /** Only the component and the width of its part of an MCU matter. */
  lemma {:induction false} SamePadding(p: Placed, q: Placed, rows: Plane, y: nat, col: nat, i: nat)
    requires PlaneOk(p.c, rows) && p.c == q.c && p.mcuWidth == q.mcuWidth > 0
    ensures PaddedAt(p, rows, y, col, i) == PaddedAt(q, rows, y, col, i)
    decreases y
  {
    if y >= p.c.heightInBlocks {
      SamePadding(p, q, rows, y - 1, col, p.mcuWidth - 1);
    }
  }

  /** Real blocks, and the padding of an interleaved scan, are found at their coordinates. */
  lemma PaddedThere(p: Placed, rows: Plane, y: nat, col: nat, i: nat)
    requires PlaneOk(p.c, rows) && p.c.h > 0 && i < p.mcuWidth
    requires p.mcuWidth == p.c.h || (y < p.c.heightInBlocks && col * p.mcuWidth + i < p.c.widthInBlocks)
    ensures PaddedXY(p.c, rows, y, col * p.mcuWidth + i) == PaddedAt(p, rows, y, col, i)
  {
    var x := col * p.mcuWidth + i;
    DivMod(x, p.c.h);
    if p.mcuWidth == p.c.h {
      QuotientUnique(x, p.c.h, col, i);
      SamePadding(p, Placed(0, p.c, p.c.h, p.c.v, 0, 0), rows, y, col, i);
    }
  }

  /** A row of blocks within the MCU that is being put together. */
  datatype Spot = Spot(p: Placed, ghost rows: Plane, k: nat, offset: nat, col: nat)
  {
    /** The block row within the component. */
    function Y(): nat {
      k * p.c.v + offset
    }
  }

  class CoefController {
    const ctr: RowCounter
    const sink: EntropySink
    const mode: Mode
    const mcuBuffer: array<Block>
    const wholeImage: seq<array2<Block>>
    ghost const img: seq<Plane>

    /** start_pass_coef. */
    constructor (mode: Mode, f: Frame, scan: seq<nat>, l: Layout, sink: EntropySink, wholeImage: seq<array2<Block>>, ghost img: seq<Plane>)
      requires FrameOk(f) && ScanInFrame(f, scan) && LayoutOk(f, scan, l) && ImageOk(f, img) && sink.sent == []
      requires mode != SinglePass ==> |wholeImage| == |f.comps|
      requires mode == Buffered ==> forall ci :: 0 <= ci < |f.comps| ==> PaddedSize(f, f.comps[ci], wholeImage[ci])
      requires mode == Transcoding ==> forall ci :: 0 <= ci < |f.comps| ==> RealSize(f.comps[ci], wholeImage[ci])
      requires mode == Buffered ==> forall ci, cj :: 0 <= ci < cj < |f.comps| ==> wholeImage[ci] != wholeImage[cj]
      ensures Valid() && this.mode == mode && this.sink == sink && this.wholeImage == wholeImage && this.img == img
      ensures ctr.f == f && ctr.scan == scan && ctr.l == l && ctr.iMcuRowNum == 0 && fresh(ctr) && fresh(mcuBuffer)
    {
      hide DivRoundUp;
      ctr := new RowCounter(f, scan, l);
      this.mode, this.sink, this.wholeImage, this.img := mode, sink, wholeImage, img;
      mcuBuffer := new Block[C_MAX_BLOCKS_IN_MCU](_ => Dummy(0));
      ComponentsPlaced(f, scan, l, img);
    }

    ghost predicate Shape() {
      && ctr.Shape() && ImageOk(ctr.f, img) && PlacedOk(img, ctr.l.comps) && mcuBuffer.Length == C_MAX_BLOCKS_IN_MCU
      && (mode != SinglePass ==> |wholeImage| == |ctr.f.comps|)
      && (mode == Buffered ==> forall ci :: 0 <= ci < |ctr.f.comps| ==> PaddedSize(ctr.f, ctr.f.comps[ci], wholeImage[ci]))
      && (mode == Buffered ==> forall ci, cj :: 0 <= ci < cj < |ctr.f.comps| ==> wholeImage[ci] != wholeImage[cj])
      && (mode == Transcoding ==> forall ci :: 0 <= ci < |ctr.f.comps| ==> RealSize(ctr.f.comps[ci], wholeImage[ci]))
    }

    /** What has been sent is what comes before the current MCU. */
    ghost predicate Valid()
      reads this, ctr, sink
    {
      Shape() && ctr.Valid() && sink.sent == Before(ctr.l, img, ctr.Row(), ctr.mcuCtr)
    }

    /** The blocks of iMCU row k are where the mode looks for them. */
    ghost predicate Ready(k: nat, strip: Strip)
      requires Shape()
      reads wholeImage
    {
      match mode
      case SinglePass => StripOf(ctr.f, img, k, strip)
      case Buffered => forall i :: 0 <= i < |ctr.l.comps| ==> StripHeld(ctr.f.comps[ctr.l.comps[i].index], img[ctr.l.comps[i].index], wholeImage[ctr.l.comps[i].index], k)
      case Transcoding => forall ci :: 0 <= ci < |img| ==> PlaneHeld(ctr.f.comps[ci], img[ci], wholeImage[ci])
    }

    /** What a row builder may rely on. */
    ghost predicate SpotOk(s: Spot, blkn: nat)
      reads mcuBuffer
    {
      && s.p.mcuWidth > 0 && PlaneOk(s.p.c, s.rows) && blkn + s.p.mcuWidth <= mcuBuffer.Length
      && (s.Y() >= s.p.c.heightInBlocks ==> blkn > 0 && s.Y() > 0 && mcuBuffer[blkn - 1] == PaddedAt(s.p, s.rows, s.Y() - 1, s.col, s.p.mcuWidth - 1))
    }

    /** The first n blocks of the row have been put together. */
    ghost predicate Filled(s: Spot, blkn: nat, n: nat)
      requires s.p.mcuWidth > 0 && PlaneOk(s.p.c, s.rows) && blkn + n <= mcuBuffer.Length
      reads mcuBuffer
    {
      forall i: nat :: i < n ==> mcuBuffer[blkn + i] == PaddedAt(s.p, s.rows, s.Y(), s.col, i)
    }

    /** `MCU_buffer[blkn + n] = b`. */
    method Put(s: Spot, blkn: nat, n: nat, b: Block)
      requires s.p.mcuWidth > 0 && PlaneOk(s.p.c, s.rows) && blkn + n < mcuBuffer.Length
      requires Filled(s, blkn, n) && b == PaddedAt(s.p, s.rows, s.Y(), s.col, n)
      modifies mcuBuffer
      ensures Filled(s, blkn, n + 1) && mcuBuffer[blkn + n] == b && mcuBuffer[..blkn] == old(mcuBuffer[..blkn])
    {
      hide PaddedAt;
      mcuBuffer[blkn + n] := b;
    }

    /** A real block. */
    lemma RealBlock(s: Spot, i: nat)
      requires s.p.mcuWidth > 0 && PlaneOk(s.p.c, s.rows) && s.Y() < s.p.c.heightInBlocks && s.col * s.p.mcuWidth + i < s.p.c.widthInBlocks
      ensures PaddedAt(s.p, s.rows, s.Y(), s.col, i) == s.rows[s.Y()][s.col * s.p.mcuWidth + i]
    {
    }

    /** The DC value of all dummy blocks of a row, from the block before the first of them. */
    lemma DummyBlocks(s: Spot, bi: nat, before: Block)
      requires s.p.mcuWidth > 0 && PlaneOk(s.p.c, s.rows)
      requires if s.Y() < s.p.c.heightInBlocks then
                 bi > 0 && s.col * s.p.mcuWidth + bi == s.p.c.widthInBlocks && before == PaddedAt(s.p, s.rows, s.Y(), s.col, bi - 1)
               else s.Y() > 0 && before == PaddedAt(s.p, s.rows, s.Y() - 1, s.col, s.p.mcuWidth - 1)
      ensures forall i: nat :: bi <= i ==> PaddedAt(s.p, s.rows, s.Y(), s.col, i) == Dummy(before[0])
      ensures Dummy(before[0])[0] == before[0]
    {
      if s.Y() < s.p.c.heightInBlocks {
        RealBlock(s, bi - 1);
      }
    }

    /** Fill with dummy blocks from bi on: the DC value of the block before. */
    method FillDummies(s: Spot, blkn: nat, bi: nat)
      requires SpotOk(s, blkn) && bi <= s.p.mcuWidth && Filled(s, blkn, bi)
      requires bi > 0 <==> s.Y() < s.p.c.heightInBlocks
      requires 0 < bi < s.p.mcuWidth ==> s.col * s.p.mcuWidth + bi == s.p.c.widthInBlocks
      modifies mcuBuffer
      ensures Filled(s, blkn, s.p.mcuWidth) && mcuBuffer[..blkn] == old(mcuBuffer[..blkn])
    {
      if bi < s.p.mcuWidth {
        DummyBlocks(s, bi, mcuBuffer[blkn + bi - 1]);
        hide PaddedAt, Dummy;
        ghost var dc := mcuBuffer[blkn + bi - 1][0];
        for x := bi to s.p.mcuWidth
          invariant Filled(s, blkn, x) && mcuBuffer[blkn + x - 1][0] == dc && mcuBuffer[..blkn] == old(mcuBuffer[..blkn])
        {
          Put(s, blkn, x, Dummy(mcuBuffer[blkn + x - 1][0]));
        }
      }
    }

    /** compress_data: from the samples, with dummy blocks where they are needed. */
    method SinglePassRow(s: Spot, blkn: nat, blockcnt: nat, isReal: bool, strip: Strip)
      requires SpotOk(s, blkn) && 1 <= blockcnt <= s.p.mcuWidth && (isReal <==> s.Y() < s.p.c.heightInBlocks)
      requires s.col * s.p.mcuWidth + blockcnt <= s.p.c.widthInBlocks
      requires blockcnt < s.p.mcuWidth ==> s.col * s.p.mcuWidth + blockcnt == s.p.c.widthInBlocks
      requires isReal ==> s.p.index < |strip| && s.offset < |strip[s.p.index]| && strip[s.p.index][s.offset] == s.rows[s.Y()]
      modifies mcuBuffer
      ensures Filled(s, blkn, s.p.mcuWidth) && mcuBuffer[..blkn] == old(mcuBuffer[..blkn])
    {
      hide PaddedAt;
      var bi := 0;
      if isReal {
        var xpos := s.col * s.p.mcuWidth;
        for i := 0 to blockcnt
          invariant Filled(s, blkn, i) && mcuBuffer[..blkn] == old(mcuBuffer[..blkn])
        {
          RealBlock(s, i);
          Put(s, blkn, i, strip[s.p.index][s.offset][xpos + i]);
        }
        bi := blockcnt;
      }
      FillDummies(s, blkn, bi);
    }

    /** compress_output of jctrans.c: from arrays without padding. */
    method TranscodingRow(s: Spot, blkn: nat, blockcnt: nat, isReal: bool, a: array2<Block>)
      requires PlaneOk(s.p.c, s.rows) && RealSize(s.p.c, a) && PlaneHeld(s.p.c, s.rows, a)
      requires SpotOk(s, blkn) && 1 <= blockcnt <= s.p.mcuWidth && (isReal <==> s.Y() < s.p.c.heightInBlocks)
      requires s.col * s.p.mcuWidth + blockcnt <= s.p.c.widthInBlocks
      requires blockcnt < s.p.mcuWidth ==> s.col * s.p.mcuWidth + blockcnt == s.p.c.widthInBlocks
      modifies mcuBuffer
      ensures Filled(s, blkn, s.p.mcuWidth) && mcuBuffer[..blkn] == old(mcuBuffer[..blkn])
    {
      hide PaddedAt;
      var xindex := 0;
      if isReal {
        var startCol := s.col * s.p.mcuWidth;
        for i := 0 to blockcnt
          invariant Filled(s, blkn, i) && mcuBuffer[..blkn] == old(mcuBuffer[..blkn])
        {
          RealBlock(s, i);
          Put(s, blkn, i, a[s.Y(), startCol + i]);
        }
        xindex := blockcnt;
      }
      FillDummies(s, blkn, xindex);
    }

    /** compress_output of jccoefct.c: from padded arrays. */
    method BufferedRow(s: Spot, blkn: nat, a: array2<Block>)
      requires s.p.c.h > 0 && SpotOk(s, blkn) && StripHeld(s.p.c, s.rows, a, s.k) && s.offset < s.p.c.v
      requires s.Y() < a.Length0 && s.col * s.p.mcuWidth + s.p.mcuWidth <= a.Length1
      requires s.p.mcuWidth == s.p.c.h || (s.Y() < s.p.c.heightInBlocks && s.col * s.p.mcuWidth + s.p.mcuWidth <= s.p.c.widthInBlocks)
      modifies mcuBuffer
      ensures Filled(s, blkn, s.p.mcuWidth) && mcuBuffer[..blkn] == old(mcuBuffer[..blkn])
    {
      hide PaddedAt;
      var startCol := s.col * s.p.mcuWidth;
      Distribute(s.k, 1, s.p.c.v);
      for xindex := 0 to s.p.mcuWidth
        invariant Filled(s, blkn, xindex) && mcuBuffer[..blkn] == old(mcuBuffer[..blkn])
      {
        PaddedThere(s.p, s.rows, s.Y(), s.col, xindex);
        assert a[s.Y(), startCol + xindex] == PaddedXY(s.p.c, s.rows, s.Y(), startCol + xindex);
        Put(s, blkn, xindex, a[s.Y(), startCol + xindex]);
      }
    }

    /** Everything the row builders ask for at component ci, row yindex of the MCU in column col. */
    lemma SpotFacts(ci: nat, k: nat, yoffset: nat, yindex: nat, col: nat)
      requires Shape() && ci < |ctr.l.comps| && k < ctr.f.iMcuRows && yoffset < RowsIn(ctr.f, ctr.l, k) && col < ctr.l.mcusPerRow
      requires yindex < ctr.l.comps[ci].mcuHeight
      ensures var p := ctr.l.comps[ci];
              var y := (FirstRow(ctr.f, ctr.l, k) + yoffset) * p.mcuHeight + yindex;
              var n := if col < ctr.l.mcusPerRow - 1 then p.mcuWidth else p.lastColWidth;
              && p.index < |img| && p.c == ctr.f.comps[p.index] && p.c.h > 0 && p.mcuWidth > 0
              && y == k * p.c.v + (yoffset + yindex) && yoffset + yindex < p.c.v
              && (y < p.c.heightInBlocks <==> k < ctr.f.iMcuRows - 1 || yoffset + yindex < p.lastRowHeight)
              && 1 <= n <= p.mcuWidth && col * p.mcuWidth + n <= p.c.widthInBlocks
              && (n < p.mcuWidth ==> col * p.mcuWidth + n == p.c.widthInBlocks)
              && (p.mcuWidth == p.c.h || (y < p.c.heightInBlocks && col * p.mcuWidth + p.mcuWidth <= p.c.widthInBlocks))
              && (y >= p.c.heightInBlocks ==> yindex > 0)
    {
      assert ctr.l.comps[ci] == PlacedAs(ctr.f, ctr.scan, ci) && ctr.l.comps[0] == PlacedAs(ctr.f, ctr.scan, 0);
      RealRow(ctr.f, ctr.scan, ctr.l, ci, k, yoffset, yindex);
      RealBlocks(ctr.f, ctr.scan, ctr.l, ci, col);
      McusTile(ctr.f, ctr.f.comps[ctr.scan[ci]]);
      hide DivRoundUp;
    }

    /** The padded array reaches as far as the MCUs do. */
    lemma WithinArray(ci: nat, k: nat, offset: nat, col: nat)
      requires Shape() && mode == Buffered && ci < |ctr.l.comps| && k < ctr.f.iMcuRows && offset < ctr.l.comps[ci].c.v && col < ctr.l.mcusPerRow
      ensures var p := ctr.l.comps[ci];
              && p.index < |wholeImage| && k * p.c.v + offset < wholeImage[p.index].Length0
              && col * p.mcuWidth + p.mcuWidth <= wholeImage[p.index].Length1
    {
      assert ctr.l.comps[ci] == PlacedAs(ctr.f, ctr.scan, ci);
      var c := ctr.f.comps[ctr.scan[ci]];
      assert PaddedSize(ctr.f, c, wholeImage[ctr.scan[ci]]);
      McusTile(ctr.f, c);
      hide DivRoundUp, CoefController.Shape, LayoutOk, FrameOk;
      InGrid(k, ctr.f.iMcuRows, c.v, offset);
      if ctr.l.comps[ci].mcuWidth == c.h && ctr.l.mcusPerRow == McusAcross(ctr.f) {
        InGrid(col, McusAcross(ctr.f), c.h, c.h - 1);
      } else {
        Distribute(McusAcross(ctr.f), 1, c.h);
      }
    }

    lemma InGrid(k: nat, n: nat, v: nat, i: nat)
      requires k < n && i < v
      ensures k * v + i < n * v
    {
      MulMonotone(k + 1, n, v);
      Distribute(k, 1, v);
    }

    lemma CompFacts(ci: nat)
      requires Shape() && ci < |ctr.l.comps|
      ensures var p := ctr.l.comps[ci];
              && p.index < |img| == |ctr.f.comps| && p.c == ctr.f.comps[p.index] && PlaneOk(p.c, img[p.index])
              && p.mcuWidth > 0 && p.c.h > 0 && (mode != SinglePass ==> p.index < |wholeImage|)
              && (mode == Transcoding ==> RealSize(p.c, wholeImage[p.index]))
    {
      hide DivRoundUp;
      assert ctr.l.comps[ci] == PlacedAs(ctr.f, ctr.scan, ci);
    }

    /** What being ready means for one row of one component. */
    lemma SourceRow(ci: nat, k: nat, offset: nat, strip: Strip)
      requires Shape() && Ready(k, strip) && ci < |ctr.l.comps| && offset < ctr.l.comps[ci].c.v
      ensures var p := ctr.l.comps[ci];
              && p.index < |img| && PlaneOk(p.c, img[p.index]) && p.c.h > 0
              && (mode == SinglePass ==> p.index < |strip| && RowThere(p.c.v, img[p.index], k, strip[p.index], offset))
              && (mode == Buffered ==> p.index < |wholeImage| && StripHeld(p.c, img[p.index], wholeImage[p.index], k))
              && (mode == Transcoding ==>
                    p.index < |wholeImage| && RealSize(p.c, wholeImage[p.index]) && PlaneHeld(p.c, img[p.index], wholeImage[p.index]))
    {
      hide DivRoundUp, StripHeld, PlaneHeld, CoefController.Shape, PlaneOk, RealSize, RowThere;
      CompFacts(ci);
    }

    /** One row of blocks, in the way of the mode. */
    method BuildRow(ci: nat, k: nat, yoffset: nat, yindex: nat, col: nat, blkn: nat, strip: Strip)
      requires Shape() && Ready(k, strip) && ci < |ctr.l.comps| && k < ctr.f.iMcuRows && yoffset < RowsIn(ctr.f, ctr.l, k) && col < ctr.l.mcusPerRow
      requires var p := ctr.l.comps[ci]; yindex < p.mcuHeight && p.index < |img| && SpotOk(Spot(p, img[p.index], k, yoffset + yindex, col), blkn)
      modifies mcuBuffer
      ensures var p := ctr.l.comps[ci];
              Filled(Spot(p, img[p.index], k, yoffset + yindex, col), blkn, p.mcuWidth) && mcuBuffer[..blkn] == old(mcuBuffer[..blkn])
    {
      hide PaddedAt, DivRoundUp, CoefController.Shape, CoefController.Ready, StripHeld, PlaneHeld, FrameOk, LayoutOk, RowsIn, FirstRow;
      var p := ctr.l.comps[ci];
      SpotFacts(ci, k, yoffset, yindex, col);
      SourceRow(ci, k, yoffset + yindex, strip);
      var s := Spot(p, img[p.index], k, yoffset + yindex, col);
      var isReal := k < ctr.f.iMcuRows - 1 || yoffset + yindex < p.lastRowHeight;
      var blockcnt := if col < ctr.l.mcusPerRow - 1 then p.mcuWidth else p.lastColWidth;
      match mode
      case SinglePass =>
        SinglePassRow(s, blkn, blockcnt, isReal, strip);
      case Buffered =>
        WithinArray(ci, k, yoffset + yindex, col);
        BufferedRow(s, blkn, wholeImage[p.index]);
      case Transcoding =>
        TranscodingRow(s, blkn, blockcnt, isReal, wholeImage[p.index]);
    }

    /** The last block of the rows so far. */
    lemma LastOfRows(p: Placed, rows: Plane, y0: nat, col: nat, n: nat)
      requires PlaneOk(p.c, rows) && p.mcuWidth > 0 && n > 0
      ensures CompBlocks(p, rows, y0, col, n) != []
      ensures CompBlocks(p, rows, y0, col, n)[|CompBlocks(p, rows, y0, col, n)| - 1] == PaddedAt(p, rows, y0 + n - 1, col, p.mcuWidth - 1)
    {
      hide PaddedAt;
    }

    lemma RowDone(s: Spot, blkn: nat, pre: seq<Block>, y0: nat, n: nat)
      requires s.p.mcuWidth > 0 && PlaneOk(s.p.c, s.rows) && blkn + s.p.mcuWidth <= mcuBuffer.Length && s.Y() == y0 + n
      requires Filled(s, blkn, s.p.mcuWidth) && mcuBuffer[..blkn] == pre + CompBlocks(s.p, s.rows, y0, s.col, n)
      ensures mcuBuffer[..blkn + s.p.mcuWidth] == pre + CompBlocks(s.p, s.rows, y0, s.col, n + 1)
    {
      hide PaddedAt;
      var row := RowBlocks(s.p, s.rows, y0 + n, s.col);
      assert mcuBuffer[..blkn + s.p.mcuWidth] == mcuBuffer[..blkn] + row;
      assert pre + CompBlocks(s.p, s.rows, y0, s.col, n) + row == pre + (CompBlocks(s.p, s.rows, y0, s.col, n) + row);
    }

    /** The blocks of one component; blkn is the number of blocks before them. */
    method BuildComp(ci: nat, p: Placed, k: nat, yoffset: nat, col: nat, blkn0: nat, strip: Strip, ghost rows: Plane, ghost row: nat) returns (blkn: nat)
      requires p.mcuWidth > 0 && PlaneOk(p.c, rows) && mcuBuffer.Length == C_MAX_BLOCKS_IN_MCU
      requires blkn0 + p.mcuHeight * p.mcuWidth <= C_MAX_BLOCKS_IN_MCU
      requires ci < |ctr.l.comps| && p == ctr.l.comps[ci] && p.index < |img| && rows == img[p.index]
      requires k < ctr.f.iMcuRows && yoffset < RowsIn(ctr.f, ctr.l, k) && col < ctr.l.mcusPerRow && row == FirstRow(ctr.f, ctr.l, k) + yoffset
      requires Shape() && Ready(k, strip)
      modifies mcuBuffer
      ensures blkn == blkn0 + p.mcuHeight * p.mcuWidth
      ensures mcuBuffer[..blkn] == old(mcuBuffer[..blkn0]) + CompBlocks(p, rows, row * p.mcuHeight, col, p.mcuHeight)
    {
      hide PaddedAt, DivRoundUp, CompBlocks, CoefController.Ready, CoefController.Shape, FrameOk, LayoutOk, RowsIn, FirstRow;
      ghost var pre := mcuBuffer[..blkn0];
      ghost var y0 := row * p.mcuHeight;
      blkn := blkn0;
      NoRows(p, rows, y0, col, pre);
      for yindex := 0 to p.mcuHeight
        invariant blkn == blkn0 + yindex * p.mcuWidth
        invariant blkn <= C_MAX_BLOCKS_IN_MCU && mcuBuffer[..blkn] == pre + CompBlocks(p, rows, y0, col, yindex)
      {
        MulMonotone(yindex + 1, p.mcuHeight, p.mcuWidth);
        Distribute(yindex, 1, p.mcuWidth);
        SpotFacts(ci, k, yoffset, yindex, col);
        if yindex > 0 {
          LastOfRows(p, rows, y0, col, yindex);
          ghost var done := CompBlocks(p, rows, y0, col, yindex);
          assert mcuBuffer[..blkn][blkn - 1] == (pre + done)[|pre| + |done| - 1];
        }
        BuildRow(ci, k, yoffset, yindex, col, blkn, strip);
        RowDone(Spot(p, rows, k, yoffset + yindex, col), blkn, pre, y0, yindex);
        blkn := blkn + p.mcuWidth;
      }
    }

    lemma NoRows(p: Placed, rows: Plane, y0: nat, col: nat, pre: seq<Block>)
      requires PlaneOk(p.c, rows) && p.mcuWidth > 0
      ensures pre + CompBlocks(p, rows, y0, col, 0) == pre
    {
    }

    /** The blocks of one component more. */
    lemma NextComponent(row: nat, col: nat, ci: nat)
      requires PlacedOk(img, ctr.l.comps) && ci < |ctr.l.comps|
      ensures var comps := ctr.l.comps; var p := comps[ci];
              && p.index < |img| && PlaneOk(p.c, img[p.index]) && p.mcuWidth > 0
              && BlocksOf(comps[..ci + 1]) == BlocksOf(comps[..ci]) + p.mcuWidth * p.mcuHeight <= BlocksOf(comps)
              && McuBlocks(comps[..ci + 1], img, row, col) == McuBlocks(comps[..ci], img, row, col) + CompBlocks(p, img[p.index], row * p.mcuHeight, col, p.mcuHeight)
    {
      hide CompBlocks, PlaneOk;
      assert ctr.l.comps[..ci + 1][..ci] == ctr.l.comps[..ci];
      MoreBlocks(ctr.l.comps, ci + 1);
    }

    lemma NoComponents(row: nat, col: nat)
      ensures BlocksOf([]) == 0 && McuBlocks([], img, row, col) == []
    {
    }

    /** All blocks of the MCU in column col of MCU row yoffset of iMCU row k. */
    method BuildMcu(k: nat, yoffset: nat, col: nat, strip: Strip) returns (blkn: nat)
      requires Shape() && Ready(k, strip) && k < ctr.f.iMcuRows && yoffset < RowsIn(ctr.f, ctr.l, k) && col < ctr.l.mcusPerRow
      requires PlacedOk(img, ctr.l.comps)
      modifies mcuBuffer
      ensures blkn == ctr.l.blocksInMcu <= mcuBuffer.Length
      ensures mcuBuffer[..blkn] == McuBlocks(ctr.l.comps, img, FirstRow(ctr.f, ctr.l, k) + yoffset, col)
    {
      hide DivRoundUp, CompBlocks, CoefController.Ready, CoefController.Shape, FrameOk, LayoutOk, RowsIn, FirstRow, StripOf, StripHeld, PlaneHeld, BlocksOf, McuBlocks;
      Basics();
      blkn := 0;
      ghost var row := FirstRow(ctr.f, ctr.l, k) + yoffset;
      var comps := ctr.l.comps;
      assert comps[..0] == [];
      NoComponents(row, col);
      for ci := 0 to |comps|
        invariant blkn == BlocksOf(comps[..ci]) && blkn <= mcuBuffer.Length && mcuBuffer[..blkn] == McuBlocks(comps[..ci], img, row, col)
      {
        NextComponent(row, col, ci);
        blkn := BuildComp(ci, comps[ci], k, yoffset, col, blkn, strip, img[comps[ci].index], row);
      }
      assert comps[..|comps|] == comps;
    }

    lemma Basics()
      requires Shape()
      ensures ctr.Shape() && PlacedOk(img, ctr.l.comps) && mcuBuffer.Length == C_MAX_BLOCKS_IN_MCU && |ctr.l.comps| > 0
      ensures ctr.l.blocksInMcu == BlocksOf(ctr.l.comps) <= C_MAX_BLOCKS_IN_MCU
    {
    }

    /** Within iMCU row k, before the MCU in column col of MCU row yoffset. */
    ghost predicate At(k: nat, yoffset: nat, col: nat)
      reads ctr, sink
    {
      && Shape() && PlacedOk(img, ctr.l.comps) && |ctr.l.comps| > 0 && ctr.iMcuRowNum == k < ctr.f.iMcuRows
      && ctr.mcuRowsPerIMcuRow == RowsIn(ctr.f, ctr.l, k) && col <= ctr.l.mcusPerRow
      && sink.sent == Before(ctr.l, img, FirstRow(ctr.f, ctr.l, k) + yoffset, col)
    }

    /** The loop over the MCUs of one row. */
    method ProcessMcuRow(yoffset: nat, strip: Strip) returns (done: bool)
      requires At(ctr.iMcuRowNum, yoffset, ctr.mcuCtr) && Ready(ctr.iMcuRowNum, strip) && yoffset < ctr.mcuRowsPerIMcuRow
      modifies ctr`mcuCtr, ctr`mcuVertOffset, sink, mcuBuffer
      ensures done ==> At(ctr.iMcuRowNum, yoffset + 1, 0) && ctr.mcuCtr == 0
      ensures !done ==> At(ctr.iMcuRowNum, yoffset, ctr.mcuCtr) && ctr.mcuVertOffset == yoffset
      ensures sink.Refusals() <= old(sink.Refusals()) && (!done ==> sink.Refusals() < old(sink.Refusals()))
    {
      hide DivRoundUp, McuBlocks, PlacedOk, CoefController.Ready, CoefController.Shape, RowsIn, FirstRow, Before, EntropySink.Refusals;
      ghost var k := ctr.iMcuRowNum;
      ghost var row := FirstRow(ctr.f, ctr.l, k) + yoffset;
      for col := ctr.mcuCtr to ctr.l.mcusPerRow
        invariant At(k, yoffset, col) && sink.Refusals() <= old(sink.Refusals())
      {
        var blkn := BuildMcu(ctr.iMcuRowNum, yoffset, col, strip);
        NextColumn(ctr.l, img, row, col);
        var ok := sink.EncodeMcu(mcuBuffer[..blkn]);
        if !ok {
          // suspension forced; update state counters and exit
          ctr.mcuVertOffset := yoffset;
          ctr.mcuCtr := col;
          return false;
        }
      }
      NextRow(ctr.l, img, row);
      ctr.mcuCtr := 0;
      done := true;
    }

    /** The loop over the MCU rows of one iMCU row; false if the entropy coder has suspended. */
    method ProcessRow(strip: Strip) returns (done: bool)
      requires Valid() && ctr.iMcuRowNum < ctr.f.iMcuRows && Ready(ctr.iMcuRowNum, strip)
      modifies ctr, sink, mcuBuffer
      ensures Valid() && ctr.iMcuRowNum == old(ctr.iMcuRowNum) + if done then 1 else 0
      ensures sink.Refusals() <= old(sink.Refusals()) && (!done ==> sink.Refusals() < old(sink.Refusals()))
    {
      hide DivRoundUp, McuBlocks, PlacedOk, CoefController.Ready, CoefController.Shape, RowsIn, FirstRow, Before, EntropySink.Refusals;
      ghost var k := ctr.iMcuRowNum;
      Basics();
      for yoffset := ctr.mcuVertOffset to ctr.mcuRowsPerIMcuRow
        invariant At(k, yoffset, ctr.mcuCtr) && sink.Refusals() <= old(sink.Refusals())
        invariant yoffset > old(ctr.mcuVertOffset) ==> ctr.mcuCtr == 0
      {
        done := ProcessMcuRow(yoffset, strip);
        if !done {
          return;
        }
      }
      // completed the iMCU row, advance counters for next one
      ctr.mcuVertOffset := 0;
      ctr.NextIMcuRow();
      done := true;
    }

    /** compress_data. */
    method CompressData(strip: Strip) returns (done: bool)
      requires Valid() && mode == SinglePass && ctr.iMcuRowNum < ctr.f.iMcuRows && StripOf(ctr.f, img, ctr.iMcuRowNum, strip)
      modifies ctr, sink, mcuBuffer
      ensures Valid() && ctr.iMcuRowNum == old(ctr.iMcuRowNum) + if done then 1 else 0
      ensures sink.Refusals() <= old(sink.Refusals()) && (!done ==> sink.Refusals() < old(sink.Refusals()))
    {
      done := ProcessRow(strip);
    }

    /** compress_output, in either file. */
    method CompressOutput() returns (done: bool)
      requires Valid() && mode != SinglePass && ctr.iMcuRowNum < ctr.f.iMcuRows && Ready(ctr.iMcuRowNum, [])
      modifies ctr, sink, mcuBuffer
      ensures Valid() && ctr.iMcuRowNum == old(ctr.iMcuRowNum) + if done then 1 else 0
      ensures sink.Refusals() <= old(sink.Refusals()) && (!done ==> sink.Refusals() < old(sink.Refusals()))
    {
      done := ProcessRow([]);
    }

    /** The arrays hold all of iMCU row k, whatever the scan. */
    ghost predicate AllHeld(k: nat)
      requires Shape() && mode == Buffered
      reads wholeImage
    {
      forall ci :: 0 <= ci < |img| ==> ctr.f.comps[ci].h > 0 && StripHeld(ctr.f.comps[ci], img[ci], wholeImage[ci], k)
    }

    /** All components are loaded into the virtual arrays. */
    method FillAll(strip: Strip)
      requires Shape() && mode == Buffered && ctr.iMcuRowNum < ctr.f.iMcuRows && StripOf(ctr.f, img, ctr.iMcuRowNum, strip)
      modifies wholeImage
      ensures AllHeld(ctr.iMcuRowNum)
      ensures forall k: nat :: k != ctr.iMcuRowNum && old(AllHeld(k)) ==> AllHeld(k)
    {
      hide DivRoundUp, PaddedXY, FrameOk, LayoutOk, PlacedOk, PaddedSize, PlaneOk;
      ghost var k := ctr.iMcuRowNum;
      for ci := 0 to |ctr.f.comps|
        invariant forall i :: 0 <= i < ci ==> ctr.f.comps[i].h > 0 && StripHeld(ctr.f.comps[i], img[i], wholeImage[i], k)
        invariant forall i, j: nat :: 0 <= i < |img| && j != k && ctr.f.comps[i].h > 0 && old(StripHeld(ctr.f.comps[i], img[i], wholeImage[i], j)) ==>
                    StripHeld(ctr.f.comps[i], img[i], wholeImage[i], j)
      {
        ComponentFacts(ci);
        FillStrip(ctr.f, ctr.f.comps[ci], img[ci], wholeImage[ci], ctr.iMcuRowNum, strip[ci]);
      }
    }

    lemma ComponentFacts(ci: nat)
      requires Shape() && mode == Buffered && ci < |ctr.f.comps|
      ensures |img| == |ctr.f.comps| == |wholeImage| && FrameOk(ctr.f) && ComponentOk(ctr.f, ctr.f.comps[ci]) && PlaneOk(ctr.f.comps[ci], img[ci])
      ensures PaddedSize(ctr.f, ctr.f.comps[ci], wholeImage[ci])
    {
    }

    lemma HeldIsReady(k: nat)
      requires Shape() && mode == Buffered && AllHeld(k)
      ensures Ready(k, [])
    {
      hide DivRoundUp, StripHeld, PlaneHeld, CoefController.Shape, PlaneOk;
      forall i: nat | i < |ctr.l.comps| ensures ctr.l.comps[i].index < |img| {
        CompFacts(i);
      }
    }

    /** compress_first_pass: fill the current strip of the virtual arrays for all components, then send from them. */
    method CompressFirstPass(strip: Strip) returns (done: bool)
      requires Valid() && mode == Buffered && ctr.iMcuRowNum < ctr.f.iMcuRows && StripOf(ctr.f, img, ctr.iMcuRowNum, strip)
      modifies ctr, sink, mcuBuffer, wholeImage
      ensures Valid() && ctr.iMcuRowNum == old(ctr.iMcuRowNum) + if done then 1 else 0
      ensures sink.Refusals() <= old(sink.Refusals()) && (!done ==> sink.Refusals() < old(sink.Refusals()))
      ensures AllHeld(old(ctr.iMcuRowNum))
      ensures forall k: nat :: k != old(ctr.iMcuRowNum) && old(AllHeld(k)) ==> AllHeld(k)
    {
      hide DivRoundUp, StripOf, CoefController.Shape, CoefController.Ready, CoefController.AllHeld, RowCounter.Valid, Before, EntropySink.Refusals;
      ghost var k := ctr.iMcuRowNum;
      FillAll(strip);
      HeldIsReady(k);
      done := ProcessRow([]);
    }

    // ----- Whole passes -----

    lemma Finished()
      requires Valid() && ctr.iMcuRowNum == ctr.f.iMcuRows
      ensures PlacedOk(img, ctr.l.comps) && sink.sent == AllMcus(ctr.l, img)
    {
      assert RowMcus(ctr.l, img, ctr.l.mcuRows, 0) == [];
    }

    /** A single pass over an image: each iMCU row is offered until it has been taken. */
    method RunSinglePass(strips: seq<Strip>)
      requires Valid() && mode == SinglePass && ctr.iMcuRowNum == 0
      requires |strips| == ctr.f.iMcuRows && forall k :: 0 <= k < |strips| ==> StripOf(ctr.f, img, k, strips[k])
      modifies ctr, sink, mcuBuffer
      ensures PlacedOk(img, ctr.l.comps) && sink.sent == AllMcus(ctr.l, img)
    {
      hide DivRoundUp, StripOf, CoefController.Shape, RowCounter.Shape, Before, EntropySink.Refusals;
      while ctr.iMcuRowNum < ctr.f.iMcuRows
        invariant Valid()
        decreases ctr.f.iMcuRows - ctr.iMcuRowNum, sink.Refusals()
      {
        var done := CompressData(strips[ctr.iMcuRowNum]);
      }
      Finished();
    }

    /** The first of several passes: it also leaves all blocks of all components in the arrays. */
    method RunFirstPass(strips: seq<Strip>)
      requires Valid() && mode == Buffered && ctr.iMcuRowNum == 0
      requires |strips| == ctr.f.iMcuRows && forall k :: 0 <= k < |strips| ==> StripOf(ctr.f, img, k, strips[k])
      modifies ctr, sink, mcuBuffer, wholeImage
      ensures PlacedOk(img, ctr.l.comps) && sink.sent == AllMcus(ctr.l, img)
      ensures forall k: nat :: k < ctr.f.iMcuRows ==> AllHeld(k)
    {
      hide DivRoundUp, StripOf, CoefController.Shape, CoefController.AllHeld, RowCounter.Shape, Before, EntropySink.Refusals;
      while ctr.iMcuRowNum < ctr.f.iMcuRows
        invariant Valid()
        invariant forall k: nat :: k < ctr.iMcuRowNum ==> AllHeld(k)
        decreases ctr.f.iMcuRows - ctr.iMcuRowNum, sink.Refusals()
      {
        var done := CompressFirstPass(strips[ctr.iMcuRowNum]);
      }
      Finished();
    }

    /** A later pass, or a pass of the transcoder. */
    method RunOutput()
      requires Valid() && mode != SinglePass && ctr.iMcuRowNum == 0
      requires forall k: nat :: k < ctr.f.iMcuRows ==> Ready(k, [])
      modifies ctr, sink, mcuBuffer
      ensures PlacedOk(img, ctr.l.comps) && sink.sent == AllMcus(ctr.l, img)
    {
      hide DivRoundUp, CoefController.Shape, CoefController.Ready, RowCounter.Shape, Before, EntropySink.Refusals;
      while ctr.iMcuRowNum < ctr.f.iMcuRows
        invariant Valid() && forall k: nat :: k < ctr.f.iMcuRows ==> Ready(k, [])
        decreases ctr.f.iMcuRows - ctr.iMcuRowNum, sink.Refusals()
      {
        var done := CompressOutput();
      }
      Finished();
    }
  }

  // ----- Arrays of blocks -----

  /** Padded to a multiple of the sampling factors in each direction. */
  predicate PaddedSize(f: Frame, c: McuGeometry.Component, a: array2<Block>)
    requires f.maxH > 0
  {
    a.Length0 == f.iMcuRows * c.v && a.Length1 == McusAcross(f) * c.h
  }

  /** Block row y belongs to iMCU row k. */
  predicate InStrip(y: nat, k: nat, v: nat) {
    k * v <= y < (k + 1) * v
  }

  predicate RealSize(c: McuGeometry.Component, a: array2<Block>) {
    a.Length0 >= c.heightInBlocks && a.Length1 >= c.widthInBlocks
  }

  /** The array holds the block rows of iMCU row k, padding included. */
  ghost predicate StripHeld(c: McuGeometry.Component, rows: Plane, a: array2<Block>, k: nat)
    requires PlaneOk(c, rows) && c.h > 0
    reads a
  {
    forall y: nat, x: nat :: InStrip(y, k, c.v) && y < a.Length0 && x < a.Length1 ==> a[y, x] == PaddedXY(c, rows, y, x)
  }

  /** The array holds the real blocks. */
  ghost predicate PlaneHeld(c: McuGeometry.Component, rows: Plane, a: array2<Block>)
    requires PlaneOk(c, rows) && RealSize(c, a)
    reads a
  {
    forall y: nat, x: nat :: y < c.heightInBlocks && x < c.widthInBlocks ==> a[y, x] == rows[y][x]
  }

  // ----- compress_first_pass: filling the padded arrays -----

  ghost predicate RowHeld(c: McuGeometry.Component, rows: Plane, a: array2<Block>, y: nat, n: nat)
    requires PlaneOk(c, rows) && c.h > 0 && y < a.Length0 && n <= a.Length1
    reads a
  {
    forall x: nat :: x < n ==> a[y, x] == PaddedXY(c, rows, y, x)
  }

  /** Only row y may have changed. */
  twostate predicate OnlyRow(a: array2<Block>, y: nat)
    reads a
  {
    forall j: nat, x: nat :: j < a.Length0 && x < a.Length1 && j != y ==> a[j, x] == old(a[j, x])
  }

  lemma RealXY(c: McuGeometry.Component, rows: Plane, y: nat, x: nat)
    requires PlaneOk(c, rows) && c.h > 0 && y < c.heightInBlocks
    ensures PaddedXY(c, rows, y, x) == if x < c.widthInBlocks then rows[y][x] else Dummy(rows[y][c.widthInBlocks - 1][0])
  {
    DivMod(x, c.h);
  }

  lemma DummyXY(c: McuGeometry.Component, rows: Plane, y: nat, m: nat, i: nat)
    requires PlaneOk(c, rows) && c.h > 0 && y >= c.heightInBlocks && i < c.h
    ensures PaddedXY(c, rows, y, m * c.h + i) == Dummy(PaddedXY(c, rows, y - 1, m * c.h + (c.h - 1))[0])
  {
    QuotientUnique(m * c.h + i, c.h, m, i);
    QuotientUnique(m * c.h + (c.h - 1), c.h, m, c.h - 1);
    DivMod(m * c.h + i, c.h);
    DivMod(m * c.h + (c.h - 1), c.h);
  }

  /** A row of real blocks, and the dummy blocks at its right edge. */
  method FillRow(c: McuGeometry.Component, ghost rows: Plane, a: array2<Block>, y: nat, data: seq<Block>, ndummy: nat)
    requires PlaneOk(c, rows) && c.h > 0 && y < c.heightInBlocks && y < a.Length0 && a.Length1 == c.widthInBlocks + ndummy && data == rows[y]
    modifies a
    ensures RowHeld(c, rows, a, y, a.Length1) && OnlyRow(a, y)
  {
    hide PaddedXY, Dummy;
    for x := 0 to c.widthInBlocks
      invariant RowHeld(c, rows, a, y, x) && OnlyRow(a, y)
    {
      RealXY(c, rows, y, x);
      a[y, x] := data[x];
    }
    if ndummy > 0 {
      RealXY(c, rows, y, c.widthInBlocks - 1);
      assert a[y, c.widthInBlocks - 1] == PaddedXY(c, rows, y, c.widthInBlocks - 1);
      var lastDC := a[y, c.widthInBlocks - 1][0];
      for bi := 0 to ndummy
        invariant RowHeld(c, rows, a, y, c.widthInBlocks + bi) && OnlyRow(a, y)
      {
        RealXY(c, rows, y, c.widthInBlocks + bi);
        a[y, c.widthInBlocks + bi] := Dummy(lastDC);
      }
    }
  }

  /** A row of dummy blocks: within each MCU, the DC value of the last block of the row above. */
  method FillDummyRow(c: McuGeometry.Component, ghost rows: Plane, a: array2<Block>, y: nat, mcusAcross: nat)
    requires PlaneOk(c, rows) && c.h > 0 && 0 < c.heightInBlocks <= y < a.Length0 && a.Length1 == mcusAcross * c.h
    requires RowHeld(c, rows, a, y - 1, a.Length1)
    modifies a
    ensures RowHeld(c, rows, a, y, a.Length1) && OnlyRow(a, y)
  {
    hide PaddedXY, Dummy;
    for m := 0 to mcusAcross
      invariant 0 <= m * c.h <= a.Length1 && RowHeld(c, rows, a, y, m * c.h) && OnlyRow(a, y)
    {
      MulMonotone(m + 1, mcusAcross, c.h);
      Distribute(m, 1, c.h);
      FillDummyGroup(c, rows, a, y, m);
    }
  }

  method FillDummyGroup(c: McuGeometry.Component, ghost rows: Plane, a: array2<Block>, y: nat, m: nat)
    requires PlaneOk(c, rows) && c.h > 0 && 0 < c.heightInBlocks <= y < a.Length0 && m * c.h + c.h <= a.Length1
    requires RowHeld(c, rows, a, y - 1, a.Length1) && RowHeld(c, rows, a, y, m * c.h)
    modifies a
    ensures RowHeld(c, rows, a, y, m * c.h + c.h) && OnlyRow(a, y)
  {
    hide PaddedXY, Dummy;
    var start: nat := m * c.h;
    assert a[y - 1, start + (c.h - 1)] == PaddedXY(c, rows, y - 1, start + (c.h - 1));
    var lastDC := a[y - 1, start + (c.h - 1)][0];
    for bi := 0 to c.h
      invariant RowHeld(c, rows, a, y, start + bi) && OnlyRow(a, y)
    {
      DummyXY(c, rows, y, m, bi);
      a[y, start + bi] := Dummy(lastDC);
    }
  }

  lemma PaddedWidth(f: Frame, c: McuGeometry.Component, ndummy: nat)
    requires FrameOk(f) && ComponentOk(f, c) && ndummy == if c.widthInBlocks % c.h > 0 then c.h - c.widthInBlocks % c.h else 0
    ensures c.widthInBlocks + ndummy == McusAcross(f) * c.h && (c.widthInBlocks + ndummy) / c.h == McusAcross(f)
  {
    McusTile(f, c);
    hide DivRoundUp;
    Distribute(McusAcross(f), 1, c.h);
    QuotientUnique(c.widthInBlocks + ndummy, c.h, McusAcross(f), 0);
  }

  /** The real block rows of iMCU row k come first. */
  lemma StripRows(f: Frame, c: McuGeometry.Component, k: nat, blockRows: nat)
    requires FrameOk(f) && ComponentOk(f, c) && k < f.iMcuRows
    requires blockRows == if k == f.iMcuRows - 1 then LastPart(c.heightInBlocks, c.v) else c.v
    ensures 1 <= blockRows <= c.v && k * c.v + blockRows <= c.heightInBlocks && k * c.v + c.v <= f.iMcuRows * c.v
    ensures blockRows < c.v ==> k * c.v + blockRows == c.heightInBlocks
    ensures (k + 1) * c.v == k * c.v + c.v
  {
    McusTile(f, c);
    hide DivRoundUp;
    Distribute(k, 1, c.v);
    MulMonotone(k + 1, f.iMcuRows, c.v);
    if k < f.iMcuRows - 1 {
      MulMonotone(k + 1, f.iMcuRows - 1, c.v);
    }
  }

  lemma DifferentStrips(j: nat, k: nat, v: nat, y: nat)
    requires j != k && InStrip(y, j, v)
    ensures !InStrip(y, k, v)
  {
    if j < k {
      MulMonotone(j + 1, k, v);
    } else {
      MulMonotone(k + 1, j, v);
    }
  }

  /** Only the rows of iMCU row k may have changed. */
  twostate predicate OnlyStrip(a: array2<Block>, k: nat, v: nat)
    reads a
  {
    forall j: nat, x: nat :: j < a.Length0 && x < a.Length1 && !InStrip(j, k, v) ==> a[j, x] == old(a[j, x])
  }

  /** The first n block rows from y0 on are filled. */
  ghost predicate RowsHeld(c: McuGeometry.Component, rows: Plane, a: array2<Block>, y0: nat, n: nat)
    requires PlaneOk(c, rows) && c.h > 0 && y0 + n <= a.Length0
    reads a
  {
    forall y: nat, x: nat :: y0 <= y < y0 + n && x < a.Length1 ==> a[y, x] == PaddedXY(c, rows, y, x)
  }

  method FillRealRows(c: McuGeometry.Component, ghost rows: Plane, a: array2<Block>, k: nat, blockRows: nat, ndummy: nat, strip: Plane)
    requires PlaneOk(c, rows) && c.h > 0 && a.Length1 == c.widthInBlocks + ndummy && blockRows <= c.v
    requires 0 <= k * c.v && k * c.v + c.v == (k + 1) * c.v <= a.Length0 && k * c.v + blockRows <= c.heightInBlocks
    requires forall y: nat :: y < c.v ==> RowThere(c.v, rows, k, strip, y)
    modifies a
    ensures OnlyStrip(a, k, c.v) && RowsHeld(c, rows, a, k * c.v, blockRows)
  {
    hide PaddedXY;
    for i := 0 to blockRows
      invariant OnlyStrip(a, k, c.v) && RowsHeld(c, rows, a, k * c.v, i)
    {
      assert RowThere(c.v, rows, k, strip, i);
      FillRow(c, rows, a, k * c.v + i, strip[i], ndummy);
    }
  }

  method FillDummyRows(c: McuGeometry.Component, ghost rows: Plane, a: array2<Block>, k: nat, blockRows: nat, mcusAcross: nat)
    requires PlaneOk(c, rows) && c.h > 0 && a.Length1 == mcusAcross * c.h && 1 <= blockRows <= c.v
    requires 0 <= k * c.v && k * c.v + c.v == (k + 1) * c.v <= a.Length0 && (blockRows < c.v ==> k * c.v + blockRows == c.heightInBlocks)
    requires RowsHeld(c, rows, a, k * c.v, blockRows)
    modifies a
    ensures OnlyStrip(a, k, c.v) && RowsHeld(c, rows, a, k * c.v, c.v)
  {
    hide PaddedXY;
    for i := blockRows to c.v
      invariant OnlyStrip(a, k, c.v) && RowsHeld(c, rows, a, k * c.v, i)
    {
      FillDummyRow(c, rows, a, k * c.v + i, mcusAcross);
    }
  }

  /** One component's block rows of iMCU row k. */
  method FillStrip(f: Frame, c: McuGeometry.Component, ghost rows: Plane, a: array2<Block>, k: nat, strip: Plane)
    requires FrameOk(f) && ComponentOk(f, c) && PlaneOk(c, rows) && k < f.iMcuRows && PaddedSize(f, c, a)
    requires forall y: nat :: y < c.v ==> RowThere(c.v, rows, k, strip, y)
    modifies a
    ensures StripHeld(c, rows, a, k)
    ensures forall j: nat :: j != k && old(StripHeld(c, rows, a, j)) ==> StripHeld(c, rows, a, j)
  {
    McusTile(f, c);
    hide DivRoundUp, PaddedXY, FrameOk, ComponentOk, RowHeld, StripHeld;
    var blockRows := c.v;
    if k == f.iMcuRows - 1 {
      blockRows := c.heightInBlocks % c.v;
      if blockRows == 0 {
        blockRows := c.v;
      }
    }
    var ndummy := c.widthInBlocks % c.h;
    if ndummy > 0 {
      ndummy := c.h - ndummy;
    }
    PaddedWidth(f, c, ndummy);
    StripRows(f, c, k, blockRows);
    FillRealRows(c, rows, a, k, blockRows, ndummy, strip);
    FillDummyRows(c, rows, a, k, blockRows, (c.widthInBlocks + ndummy) / c.h);
    forall j: nat, y: nat | j != k && InStrip(y, j, c.v) ensures !InStrip(y, k, c.v) {
      DifferentStrips(j, k, c.v, y);
    }
  }
}
