/**
 * The decoder's side of MCU placement: consume_data of jdcoefct.c. However often the entropy decoder suspends,
 * it is handed over every MCU of the scan once and in raster order, each block as the scan found it, and what
 * it makes of the blocks ends up where the compressor's compress_output takes it from.
 */
module CoefConsume {
  import opened Arithmetic
  import opened Blocks
  import opened McuGeometry
  import opened McuSequence
  import opened McuPositions
  import opened CoefControl

  /**
   * The entropy decoder, seen from here: it turns the blocks of the next MCU, which must be the `given` ones,
   * into new ones, or suspends. Any finite pattern of refusals.
   */
  class EntropySource {
    const answers: seq<bool>
    const mcus: seq<seq<Block>>
    ghost const given: seq<seq<Block>>
    var used: nat
    var taken: nat

    constructor (answers: seq<bool>, mcus: seq<seq<Block>>, ghost given: seq<seq<Block>>)
      ensures this.answers == answers && this.mcus == mcus && this.given == given && used == 0 && taken == 0
    {
      this.answers, this.mcus, this.given, used, taken := answers, mcus, given, 0, 0;
    }

    function Refusals(): nat
      reads this
    {
      if used < |answers| then |answers| - used else 0
    }

    method DecodeMcu(blocks: seq<Block>) returns (ok: bool, mcu: seq<Block>)
      requires taken < |mcus| == |given| && blocks == given[taken]
      modifies this
      ensures ok ==> mcu == mcus[old(taken)]
      ensures taken == old(taken) + if ok then 1 else 0
      ensures Refusals() <= old(Refusals()) && (!ok ==> Refusals() < old(Refusals()))
    {
      ok := used >= |answers| || answers[used];
      used := used + 1;
      mcu := [];
      if ok {
        mcu := mcus[taken];
        taken := taken + 1;
      }
    }
  }

  /** The MCU at (r, c) is before the one at (row, col). */
  predicate Earlier(r: nat, c: nat, row: nat, col: nat) {
    r < row || (r == row && c < col)
  }

  datatype Status = RowCompleted | ScanCompleted | Suspended

  class CoefReader {
    const ctr: RowCounter            // iMcuRowNum is input_iMCU_row
    const source: EntropySource
    const mcuBuffer: array<Pos>      // pointers to the blocks of an MCU
    const wholeImage: seq<array2<Block>>
    ghost const was: seq<Plane>      // what the arrays hold before the scan
    ghost const want: seq<Plane>     // what they hold after it

    ghost predicate Shape() {
      && ctr.Shape() && mcuBuffer.Length == C_MAX_BLOCKS_IN_MCU
      && source.given == McusAt(ctr.l, was) && source.mcus == McusAt(ctr.l, want)
      && ArraysOk(ctr.f, wholeImage)
    }

    /** There is such a block. */
    predicate InArrays(q: Pos) {
      q.index < |wholeImage| && q.y < wholeImage[q.index].Length0 && q.x < wholeImage[q.index].Length1
    }

    /** The array has the final block at q. */
    ghost predicate Right(q: Pos)
      reads wholeImage
    {
      InArrays(q) && wholeImage[q.index][q.y, q.x] == BlockAt(want, q)
    }

    /** The array has the initial block at q. */
    ghost predicate Intact(q: Pos)
      reads wholeImage
    {
      InArrays(q) && wholeImage[q.index][q.y, q.x] == BlockAt(was, q)
    }

    /** All blocks of the MCU are final. */
    ghost predicate McuRight(row: nat, col: nat)
      reads wholeImage
    {
      forall q :: q in McuPos(ctr.l.comps, row, col) ==> Right(q)
    }

    /** No block of the MCU has been touched. */
    ghost predicate McuIntact(row: nat, col: nat)
      reads wholeImage
    {
      forall q :: q in McuPos(ctr.l.comps, row, col) ==> Intact(q)
    }

    /** The MCUs before (row, col) have been read and stored, the others are as the scan found them. */
    ghost predicate ReadUpTo(row: nat, col: nat)
      reads source, wholeImage
    {
      && source.taken == row * ctr.l.mcusPerRow + col
      && forall r: nat, c: nat :: r < ctr.l.mcuRows && c < ctr.l.mcusPerRow ==> if Earlier(r, c, row, col) then McuRight(r, c) else McuIntact(r, c)
    }

    /** Blocks that are not to change have not changed. */
    ghost predicate OthersKept()
      reads wholeImage
    {
      forall q: Pos :: InArrays(q) && BlockAt(was, q) == BlockAt(want, q) ==> Right(q)
    }

    ghost predicate Valid()
      reads this, ctr, source, wholeImage
    {
      Shape() && ctr.Valid() && ReadUpTo(ctr.Row(), ctr.mcuCtr) && OthersKept()
    }

    /** start_input_pass. */
    constructor (f: Frame, scan: seq<nat>, l: Layout, source: EntropySource, wholeImage: seq<array2<Block>>, ghost was: seq<Plane>, ghost want: seq<Plane>)
      requires FrameOk(f) && ScanInFrame(f, scan) && LayoutOk(f, scan, l) && source.taken == 0
      requires source.given == McusAt(l, was) && source.mcus == McusAt(l, want)
      requires ArraysOk(f, wholeImage) && Hold(wholeImage, was)
      ensures Valid() && ctr.iMcuRowNum == 0 && ctr.f == f && ctr.scan == scan && ctr.l == l
      ensures this.source == source && this.wholeImage == wholeImage && this.was == was && this.want == want && fresh(ctr) && fresh(mcuBuffer)
    {
      hide DivRoundUp, McuPos, McusAt;
      ctr := new RowCounter(f, scan, l);
      this.source, this.wholeImage, this.was, this.want := source, wholeImage, was, want;
      mcuBuffer := new Pos[C_MAX_BLOCKS_IN_MCU](_ => Pos(0, 0, 0));
      new;
      NothingRead();
    }

    /** BlockAt the beginning every block is as the scan found it. */
    lemma NothingRead()
      requires Shape() && source.taken == 0 && Hold(wholeImage, was)
      ensures ReadUpTo(0, 0) && OthersKept()
    {
      hide McuPos, McusAt, DivRoundUp;
      forall r: nat, c: nat, q | r < ctr.l.mcuRows && c < ctr.l.mcusPerRow && q in McuPos(ctr.l.comps, r, c) ensures Intact(q) {
        VisitedExists(ctr.f, ctr.scan, ctr.l, r, c, q);
        Exists(q);
      }
    }

    lemma Exists(q: Pos)
      requires Shape() && q.index < |ctr.f.comps|
      requires q.y < ctr.f.iMcuRows * ctr.f.comps[q.index].v && q.x < McusAcross(ctr.f) * ctr.f.comps[q.index].h
      ensures InArrays(q)
    {
      assert PaddedSize(ctr.f, ctr.f.comps[q.index], wholeImage[q.index]);
    }

    lemma Basics()
      requires Shape()
      ensures ctr.Shape() && mcuBuffer.Length == C_MAX_BLOCKS_IN_MCU && |ctr.l.comps| > 0
      ensures ctr.l.blocksInMcu == BlocksOf(ctr.l.comps) <= C_MAX_BLOCKS_IN_MCU
    {
    }

    // ----- Pointers to the blocks of an MCU -----

    /** The pointers to the blocks of one component. */
    method PointComp(p: Placed, k: nat, yoffset: nat, col: nat, blkn0: nat, ghost row: nat) returns (blkn: nat)
      requires blkn0 + p.mcuHeight * p.mcuWidth <= mcuBuffer.Length
      requires k * p.c.v + yoffset == row * p.mcuHeight
      modifies mcuBuffer
      ensures blkn == blkn0 + p.mcuHeight * p.mcuWidth
      ensures mcuBuffer[..blkn] == old(mcuBuffer[..blkn0]) + CompPos(p, row * p.mcuHeight, col, p.mcuHeight)
    {
      ghost var pre := mcuBuffer[..blkn0];
      ghost var y0: nat := row * p.mcuHeight;
      blkn := blkn0;
      assert pre + CompPos(p, y0, col, 0) == pre;
      for yindex := 0 to p.mcuHeight
        invariant blkn == blkn0 + yindex * p.mcuWidth && blkn <= mcuBuffer.Length
        invariant mcuBuffer[..blkn] == pre + CompPos(p, y0, col, yindex)
      {
        MulMonotone(yindex + 1, p.mcuHeight, p.mcuWidth);
        Distribute(yindex, 1, p.mcuWidth);
        blkn := PointRow(p, k * p.c.v + (yindex + yoffset), col, blkn);
        assert pre + CompPos(p, y0, col, yindex) + RowPos(p, y0 + yindex, col) == pre + (CompPos(p, y0, col, yindex) + RowPos(p, y0 + yindex, col));
      }
    }

    /** The pointers to a row of blocks. */
    method PointRow(p: Placed, y: nat, col: nat, blkn0: nat) returns (blkn: nat)
      requires blkn0 + p.mcuWidth <= mcuBuffer.Length
      modifies mcuBuffer
      ensures blkn == blkn0 + p.mcuWidth && mcuBuffer[..blkn] == old(mcuBuffer[..blkn0]) + RowPos(p, y, col)
    {
      ghost var before, row := mcuBuffer[..blkn0], RowPos(p, y, col);
      var startCol: nat := col * p.mcuWidth;
      blkn := blkn0;
      assert before + row[..0] == before;
      for xindex := 0 to p.mcuWidth
        invariant blkn == blkn0 + xindex && mcuBuffer[..blkn] == before + row[..xindex]
      {
        mcuBuffer[blkn] := Pos(p.index, y, startCol + xindex);
        assert row[..xindex + 1] == row[..xindex] + [row[xindex]];
        blkn := blkn + 1;
        assert mcuBuffer[..blkn] == mcuBuffer[..blkn - 1] + [row[xindex]];
      }
      assert row[..p.mcuWidth] == row;
    }

    lemma CompRows(ci: nat, k: nat, yoffset: nat)
      requires Shape() && ci < |ctr.l.comps| && k < ctr.f.iMcuRows && yoffset < RowsIn(ctr.f, ctr.l, k)
      ensures var p := ctr.l.comps[ci]; k * p.c.v + yoffset == (FirstRow(ctr.f, ctr.l, k) + yoffset) * p.mcuHeight
    {
      assert ctr.l.comps[ci] == PlacedAs(ctr.f, ctr.scan, ci) && ctr.l.comps[0] == PlacedAs(ctr.f, ctr.scan, 0);
      McusTile(ctr.f, ctr.f.comps[ctr.scan[ci]]);
      hide DivRoundUp;
      RealRow(ctr.f, ctr.scan, ctr.l, ci, k, yoffset, 0);
    }

    lemma NextComponent(row: nat, col: nat, ci: nat)
      requires ci < |ctr.l.comps|
      ensures var comps := ctr.l.comps; var p := comps[ci];
              && BlocksOf(comps[..ci + 1]) == BlocksOf(comps[..ci]) + p.mcuWidth * p.mcuHeight <= BlocksOf(comps)
              && McuPos(comps[..ci + 1], row, col) == McuPos(comps[..ci], row, col) + CompPos(p, row * p.mcuHeight, col, p.mcuHeight)
    {
      hide CompPos;
      assert ctr.l.comps[..ci + 1][..ci] == ctr.l.comps[..ci];
      MoreBlocks(ctr.l.comps, ci + 1);
    }

    lemma NoComponents(row: nat, col: nat)
      ensures BlocksOf([]) == 0 && McuPos([], row, col) == []
    {
    }

    /** Construct the list of pointers to the blocks of this MCU. */
    method PointMcu(k: nat, yoffset: nat, col: nat) returns (blkn: nat)
      requires Shape() && k < ctr.f.iMcuRows && |ctr.l.comps| > 0 && yoffset < RowsIn(ctr.f, ctr.l, k) && col < ctr.l.mcusPerRow
      modifies mcuBuffer
      ensures blkn <= mcuBuffer.Length && mcuBuffer[..blkn] == McuPos(ctr.l.comps, FirstRow(ctr.f, ctr.l, k) + yoffset, col)
    {
      hide DivRoundUp, CompPos, McuPos, BlocksOf, RowsIn, FirstRow, CoefReader.Shape;
      Basics();
      blkn := 0;
      ghost var row := FirstRow(ctr.f, ctr.l, k) + yoffset;
      var comps := ctr.l.comps;
      assert comps[..0] == [];
      NoComponents(row, col);
      for ci := 0 to |comps|
        invariant blkn == BlocksOf(comps[..ci]) && blkn <= mcuBuffer.Length && mcuBuffer[..blkn] == McuPos(comps[..ci], row, col)
      {
        NextComponent(row, col, ci);
        CompRows(ci, k, yoffset);
        blkn := PointComp(comps[ci], k, yoffset, col, blkn, row);
      }
      assert comps[..|comps|] == comps;
    }

    // ----- An MCU goes through the entropy decoder -----

    /** What the pointers lead to. */
    method LoadMcu(blkn: nat, ghost row: nat, ghost col: nat) returns (blocks: seq<Block>)
      requires Shape() && blkn <= mcuBuffer.Length && mcuBuffer[..blkn] == McuPos(ctr.l.comps, row, col) && McuIntact(row, col)
      ensures blocks == McuAt(was, McuPos(ctr.l.comps, row, col))
    {
      hide CoefReader.Shape, McuPos, BlockAt;
      ghost var qs := McuPos(ctr.l.comps, row, col);
      blocks := [];
      for i := 0 to blkn
        invariant |blocks| == i && forall j :: 0 <= j < i ==> blocks[j] == BlockAt(was, qs[j])
      {
        assert mcuBuffer[i] == qs[i] && qs[i] in qs && Intact(qs[i]);
        var q := mcuBuffer[i];
        blocks := blocks + [wholeImage[q.index][q.y, q.x]];
      }
    }

    /** Through one of the pointers. */
    method StoreBlock(q: Pos, b: Block)
      requires Shape() && InArrays(q) && b == BlockAt(want, q)
      modifies wholeImage
      ensures Right(q) && forall q': Pos :: old(Right(q')) ==> Right(q')
      ensures forall q': Pos :: q' != q && old(Intact(q')) ==> Intact(q')
    {
      hide DivRoundUp, FrameOk, LayoutOk, McusAt;
      wholeImage[q.index][q.y, q.x] := b;
    }

    /** Through all of them. */
    method StoreMcu(mcu: seq<Block>, blkn: nat, ghost row: nat, ghost col: nat)
      requires Shape() && blkn <= mcuBuffer.Length && mcuBuffer[..blkn] == McuPos(ctr.l.comps, row, col)
      requires mcu == McuAt(want, McuPos(ctr.l.comps, row, col)) && McuIntact(row, col)
      modifies wholeImage
      ensures McuRight(row, col) && forall q': Pos :: old(Right(q')) ==> Right(q')
      ensures forall q': Pos :: q' !in McuPos(ctr.l.comps, row, col) && old(Intact(q')) ==> Intact(q')
    {
      hide CoefReader.Shape, CoefReader.Right, McuPos, BlockAt;
      ghost var qs := McuPos(ctr.l.comps, row, col);
      assert forall i :: 0 <= i < |qs| ==> qs[i] in qs && InArrays(qs[i]);
      for i := 0 to blkn
        invariant forall q': Pos :: old(Right(q')) ==> Right(q')
        invariant forall q': Pos :: q' !in qs && old(Intact(q')) ==> Intact(q')
        invariant forall j :: 0 <= j < i ==> Right(qs[j])
      {
        assert mcuBuffer[i] == qs[i];
        StoreBlock(mcuBuffer[i], mcu[i]);
      }
    }

    // ----- consume_data -----

    /** Within iMCU row k, before the MCU in column col of MCU row yoffset. */
    ghost predicate Amid(k: nat, yoffset: nat, col: nat)
      reads ctr, source, wholeImage
    {
      && Shape() && |ctr.l.comps| > 0 && ctr.iMcuRowNum == k < ctr.f.iMcuRows
      && ctr.mcuRowsPerIMcuRow == RowsIn(ctr.f, ctr.l, k) && col <= ctr.l.mcusPerRow
      && FirstRow(ctr.f, ctr.l, k) + RowsIn(ctr.f, ctr.l, k) <= ctr.l.mcuRows
      && ReadUpTo(FirstRow(ctr.f, ctr.l, k) + yoffset, col) && OthersKept()
    }

    /** What the entropy decoder expects and what it is about to deliver. */
    lemma NextMcu(row: nat, col: nat)
      requires Shape() && row < ctr.l.mcuRows && col < ctr.l.mcusPerRow && ReadUpTo(row, col)
      ensures McuIntact(row, col) && source.taken < |source.mcus| == |source.given|
      ensures source.given[source.taken] == McuAt(was, McuPos(ctr.l.comps, row, col))
      ensures source.mcus[source.taken] == McuAt(want, McuPos(ctr.l.comps, row, col))
    {
      hide DivRoundUp, McuPos, McuAt, CoefReader.McuRight, CoefReader.McuIntact, FrameOk, LayoutOk;
      assert !Earlier(row, col, row, col);
      McuNumber(ctr.l, row, col);
    }

    lemma RowEnds(row: nat)
      requires ReadUpTo(row, ctr.l.mcusPerRow)
      ensures ReadUpTo(row + 1, 0)
    {
      hide McuPos, CoefReader.McuRight, CoefReader.McuIntact;
      Distribute(row, 1, ctr.l.mcusPerRow);
    }

    lemma NotThere(r: nat, c: nat, row: nat, col: nat, q: Pos)
      requires Shape() && q in McuPos(ctr.l.comps, r, c) && (r != row || c != col)
      ensures q !in McuPos(ctr.l.comps, row, col)
    {
      hide McuPos, FrameOk, LayoutOk, McusAt;
      if q in McuPos(ctr.l.comps, row, col) {
        McusApart(ctr.f, ctr.scan, ctr.l, r, c, row, col, q);
      }
    }

    /** The entropy decoder changes the blocks of an MCU, or suspends. */
    method DecodeInto(blocks: seq<Block>, blkn: nat, ghost row: nat, ghost col: nat) returns (ok: bool)
      requires Shape() && ReadUpTo(row, col) && OthersKept() && row < ctr.l.mcuRows && col < ctr.l.mcusPerRow
      requires blkn <= mcuBuffer.Length && mcuBuffer[..blkn] == McuPos(ctr.l.comps, row, col) && blocks == McuAt(was, McuPos(ctr.l.comps, row, col))
      modifies source, wholeImage
      ensures ReadUpTo(row, if ok then col + 1 else col) && OthersKept()
      ensures source.Refusals() <= old(source.Refusals()) && (!ok ==> source.Refusals() < old(source.Refusals()))
    {
      hide DivRoundUp, McuPos, McuAt, CoefReader.Shape, CoefReader.Right, CoefReader.Intact, EntropySource.Refusals;
      NextMcu(row, col);
      var mcu;
      ok, mcu := source.DecodeMcu(blocks);
      if ok {
        StoreMcu(mcu, blkn, row, col);
        // the MCUs already stored and those still to come are left alone
        forall r: nat, c: nat | r < ctr.l.mcuRows && c < ctr.l.mcusPerRow
          ensures if Earlier(r, c, row, col + 1) then McuRight(r, c) else McuIntact(r, c)
        {
          if Earlier(r, c, row, col) {
            assert old(McuRight(r, c));
          } else if !Earlier(r, c, row, col + 1) {
            assert old(McuIntact(r, c));
            forall q | q in McuPos(ctr.l.comps, r, c) ensures Intact(q) {
              NotThere(r, c, row, col, q);
            }
          }
        }
      }
    }

    /** One MCU: point at its blocks and let the entropy decoder change them. */
    method ConsumeMcu(yoffset: nat, col: nat) returns (ok: bool)
      requires Amid(ctr.iMcuRowNum, yoffset, col) && yoffset < ctr.mcuRowsPerIMcuRow && col < ctr.l.mcusPerRow
      modifies source, mcuBuffer, wholeImage
      ensures Amid(ctr.iMcuRowNum, yoffset, if ok then col + 1 else col)
      ensures source.Refusals() <= old(source.Refusals()) && (!ok ==> source.Refusals() < old(source.Refusals()))
    {
      hide DivRoundUp, McuPos, McuAt, CoefReader.Shape, CoefReader.McuRight, CoefReader.McuIntact, CoefReader.ReadUpTo, CoefReader.OthersKept,
        CoefReader.Right, CoefReader.Intact, RowsIn, FirstRow, EntropySource.Refusals;
      ghost var row := FirstRow(ctr.f, ctr.l, ctr.iMcuRowNum) + yoffset;
      var blkn := PointMcu(ctr.iMcuRowNum, yoffset, col);
      NextMcu(row, col);
      var blocks := LoadMcu(blkn, row, col);
      ok := DecodeInto(blocks, blkn, row, col);
    }

    /** The loop over the MCUs of one row. */
    method ConsumeMcuRow(yoffset: nat) returns (done: bool)
      requires Amid(ctr.iMcuRowNum, yoffset, ctr.mcuCtr) && yoffset < ctr.mcuRowsPerIMcuRow
      modifies ctr`mcuCtr, ctr`mcuVertOffset, source, mcuBuffer, wholeImage
      ensures done ==> Amid(ctr.iMcuRowNum, yoffset + 1, 0) && ctr.mcuCtr == 0
      ensures !done ==> Amid(ctr.iMcuRowNum, yoffset, ctr.mcuCtr) && ctr.mcuVertOffset == yoffset
      ensures source.Refusals() <= old(source.Refusals()) && (!done ==> source.Refusals() < old(source.Refusals()))
    {
      hide DivRoundUp, McuPos, CoefReader.Shape, CoefReader.ReadUpTo, CoefReader.OthersKept, RowsIn, FirstRow, EntropySource.Refusals;
      ghost var k := ctr.iMcuRowNum;
      ghost var row := FirstRow(ctr.f, ctr.l, k) + yoffset;
      for col := ctr.mcuCtr to ctr.l.mcusPerRow
        invariant Amid(k, yoffset, col) && source.Refusals() <= old(source.Refusals())
      {
        var ok := ConsumeMcu(yoffset, col);
        if !ok {
          // suspension forced; update state counters and exit
          ctr.mcuVertOffset := yoffset;
          ctr.mcuCtr := col;
          return false;
        }
      }
      RowEnds(row);
      ctr.mcuCtr := 0;
      done := true;
    }

    method ConsumeData() returns (status: Status)
      requires Valid() && ctr.iMcuRowNum < ctr.f.iMcuRows
      modifies ctr, source, mcuBuffer, wholeImage
      ensures Valid() && ctr.iMcuRowNum == old(ctr.iMcuRowNum) + if status == Suspended then 0 else 1
      ensures status == ScanCompleted <==> ctr.iMcuRowNum == ctr.f.iMcuRows
      ensures source.Refusals() <= old(source.Refusals()) && (status == Suspended ==> source.Refusals() < old(source.Refusals()))
    {
      hide DivRoundUp, McuPos, CoefReader.Shape, CoefReader.ReadUpTo, CoefReader.OthersKept, EntropySource.Refusals;
      ghost var k := ctr.iMcuRowNum;
      Basics();
      LastRowEnds(k);
      for yoffset := ctr.mcuVertOffset to ctr.mcuRowsPerIMcuRow
        invariant Amid(k, yoffset, ctr.mcuCtr) && source.Refusals() <= old(source.Refusals())
        invariant yoffset > old(ctr.mcuVertOffset) ==> ctr.mcuCtr == 0
      {
        var done := ConsumeMcuRow(yoffset);
        if !done {
          return Suspended;
        }
      }
      // completed the iMCU row, advance counters for next one
      ctr.iMcuRowNum := ctr.iMcuRowNum + 1;
      if ctr.iMcuRowNum < ctr.f.iMcuRows {
        ctr.StartIMcuRow();
        return RowCompleted;
      }
      return ScanCompleted;
    }

    lemma LastRowEnds(k: nat)
      requires Shape() && k < ctr.f.iMcuRows && |ctr.l.comps| > 0
      ensures FirstRow(ctr.f, ctr.l, k) + RowsIn(ctr.f, ctr.l, k) <= ctr.l.mcuRows
      ensures k + 1 < ctr.f.iMcuRows ==> FirstRow(ctr.f, ctr.l, k + 1) == FirstRow(ctr.f, ctr.l, k) + RowsIn(ctr.f, ctr.l, k)
      ensures k + 1 == ctr.f.iMcuRows ==> FirstRow(ctr.f, ctr.l, k) + RowsIn(ctr.f, ctr.l, k) == ctr.l.mcuRows
    {
      hide McusAt, FirstRow, RowsIn, FrameOk, LayoutOk;
      RowsAddUp(ctr.f, ctr.scan, ctr.l, k);
      RowsInside(ctr.f, ctr.scan, ctr.l, k);
    }

    /** Behind the scan, every visited block and every block that was not to change is the final one. */
    ghost predicate Finished()
      reads wholeImage
    {
      forall q: Pos :: InArrays(q) && (Visited(ctr.l, q) || BlockAt(was, q) == BlockAt(want, q)) ==> Right(q)
    }

    lemma AllRight()
      requires Valid() && ctr.iMcuRowNum == ctr.f.iMcuRows
      ensures Finished()
    {
      hide DivRoundUp, McusAt, FrameOk, LayoutOk, McuPos, CoefReader.Right;
      forall q: Pos | InArrays(q) && Visited(ctr.l, q) ensures Right(q) {
        var r: nat, c: nat :| r < ctr.l.mcuRows && c < ctr.l.mcusPerRow && q in McuPos(ctr.l.comps, r, c);
        assert Earlier(r, c, ctr.l.mcuRows, 0);
        assert McuRight(r, c);
      }
    }

    /** A whole scan: calls of consume_data until it is completed. */
    method RunScan()
      requires Valid() && ctr.iMcuRowNum == 0
      modifies ctr, source, mcuBuffer, wholeImage
      ensures Shape() && Finished()
    {
      hide DivRoundUp, CoefReader.Shape, RowCounter.Shape, CoefReader.ReadUpTo, CoefReader.OthersKept, EntropySource.Refusals, CoefReader.Finished;
      SomeRows();
      var status := RowCompleted;
      while status != ScanCompleted
        invariant Valid() && (status == ScanCompleted <==> ctr.iMcuRowNum == ctr.f.iMcuRows)
        decreases ctr.f.iMcuRows - ctr.iMcuRowNum, source.Refusals()
      {
        status := ConsumeData();
      }
      AllRight();
    }

    lemma SomeRows()
      requires Shape()
      ensures ctr.f.iMcuRows > 0
    {
      McusTile(ctr.f, ctr.f.comps[0]);
    }
  }

  // ----- The arrays -----

  /** Virtual arrays, padded, one for each component. */
  predicate ArraysOk(f: Frame, a: seq<array2<Block>>)
    requires f.maxH > 0
  {
    && |a| == |f.comps| && (forall ci :: 0 <= ci < |a| ==> PaddedSize(f, f.comps[ci], a[ci]))
    && (forall ci, cj :: 0 <= ci < cj < |a| ==> a[ci] != a[cj])
  }

  /** Their contents. */
  ghost predicate Hold(a: seq<array2<Block>>, st: seq<Plane>)
    reads a
  {
    forall ci: nat, y: nat, x: nat :: ci < |a| && y < a[ci].Length0 && x < a[ci].Length1 ==> a[ci][y, x] == BlockAt(st, Pos(ci, y, x))
  }
}
