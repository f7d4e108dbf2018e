/**
 * The MCUs of a scan in the order in which they are coded: real blocks of the image, and dummy blocks
 * where an interleaved MCU sticks out at the right or at the bottom.
 */
module McuSequence {
  import opened Arithmetic
  import opened Blocks
  import opened McuGeometry

  /** The blocks of one component: heightInBlocks rows of widthInBlocks blocks. */
  type Plane = seq<seq<Block>>

  predicate PlaneOk(c: Component, rows: Plane) {
    && c.heightInBlocks > 0 && c.widthInBlocks > 0 && |rows| == c.heightInBlocks
    && forall y :: 0 <= y < |rows| ==> |rows[y]| == c.widthInBlocks
  }

  predicate ImageOk(f: Frame, img: seq<Plane>) {
    |img| == |f.comps| && forall ci :: 0 <= ci < |img| ==> PlaneOk(f.comps[ci], img[ci])
  }

  /** All AC coefficients zero. */
  function Dummy(dc: int): Block {
    seq(DCTSIZE2, k => if k == 0 then dc else 0)
  }

  /**
   * Block i of block row y in MCU column col. Dummy blocks repeat the DC value of the block before them:
   * at the right edge the last one of the row, at the bottom the last one of the row above within the MCU.
   */
  function PaddedAt(p: Placed, rows: Plane, y: nat, col: nat, i: nat): Block
    requires PlaneOk(p.c, rows) && p.mcuWidth > 0
    decreases y
  {
    var x := col * p.mcuWidth + i;
    if y < p.c.heightInBlocks then
      if x < p.c.widthInBlocks then rows[y][x] else Dummy(rows[y][p.c.widthInBlocks - 1][0])
    else Dummy(PaddedAt(p, rows, y - 1, col, p.mcuWidth - 1)[0])
  }

  function RowBlocks(p: Placed, rows: Plane, y: nat, col: nat): (s: seq<Block>)
    requires PlaneOk(p.c, rows) && p.mcuWidth > 0
    ensures |s| == p.mcuWidth
  {
    seq(p.mcuWidth, i requires 0 <= i < p.mcuWidth => PaddedAt(p, rows, y, col, i))
  }

  /** The first n rows of a component's part of an MCU. */
  function CompBlocks(p: Placed, rows: Plane, y0: nat, col: nat, n: nat): (s: seq<Block>)
    requires PlaneOk(p.c, rows) && p.mcuWidth > 0
    ensures |s| == n * p.mcuWidth
  {
    if n == 0 then []
    else
      Distribute(n - 1, 1, p.mcuWidth);
      CompBlocks(p, rows, y0, col, n - 1) + RowBlocks(p, rows, y0 + n - 1, col)
  }

  predicate PlacedOk(img: seq<Plane>, comps: seq<Placed>) {
    forall i :: 0 <= i < |comps| ==>
      comps[i].index < |img| && PlaneOk(comps[i].c, img[comps[i].index]) && comps[i].mcuWidth > 0 && comps[i].mcuHeight > 0
  }

  /** The blocks of the MCU at (row, col) that belong to the given components. */
  function McuBlocks(comps: seq<Placed>, img: seq<Plane>, row: nat, col: nat): (s: seq<Block>)
    requires PlacedOk(img, comps)
    ensures |s| == BlocksOf(comps)
  {
    if comps == [] then []
    else
      var p := comps[|comps| - 1];
      McuBlocks(comps[..|comps| - 1], img, row, col) + CompBlocks(p, img[p.index], row * p.mcuHeight, col, p.mcuHeight)
  }

  /** The first n MCUs of a row. */
  function RowMcus(l: Layout, img: seq<Plane>, row: nat, n: nat): (s: seq<seq<Block>>)
    requires PlacedOk(img, l.comps)
    ensures |s| == n
  {
    seq(n, col requires 0 <= col < n => McuBlocks(l.comps, img, row, col))
  }

  /** The first n rows of MCUs. */
  function RowsMcus(l: Layout, img: seq<Plane>, n: nat): seq<seq<Block>>
    requires PlacedOk(img, l.comps)
  {
    if n == 0 then [] else RowsMcus(l, img, n - 1) + RowMcus(l, img, n - 1, l.mcusPerRow)
  }

  /** The MCUs before the one at (row, col), in raster order. */
  function Before(l: Layout, img: seq<Plane>, row: nat, col: nat): seq<seq<Block>>
    requires PlacedOk(img, l.comps)
  {
    RowsMcus(l, img, row) + RowMcus(l, img, row, col)
  }

  /** All MCUs of the scan. */
  function AllMcus(l: Layout, img: seq<Plane>): seq<seq<Block>>
    requires PlacedOk(img, l.comps)
  {
    RowsMcus(l, img, l.mcuRows)
  }

  lemma NextColumn(l: Layout, img: seq<Plane>, row: nat, col: nat)
    requires PlacedOk(img, l.comps)
    ensures Before(l, img, row, col + 1) == Before(l, img, row, col) + [McuBlocks(l.comps, img, row, col)]
  {
    assert RowMcus(l, img, row, col + 1) == RowMcus(l, img, row, col) + [McuBlocks(l.comps, img, row, col)];
  }

  lemma NextRow(l: Layout, img: seq<Plane>, row: nat)
    requires PlacedOk(img, l.comps)
    ensures Before(l, img, row, l.mcusPerRow) == Before(l, img, row + 1, 0)
  {
    assert RowMcus(l, img, row + 1, 0) == [];
  }

  lemma ComponentsPlaced(f: Frame, scan: seq<nat>, l: Layout, img: seq<Plane>)
    requires FrameOk(f) && ScanInFrame(f, scan) && LayoutOk(f, scan, l) && ImageOk(f, img)
    ensures PlacedOk(img, l.comps)
  {
    hide DivRoundUp;
    forall i | 0 <= i < |l.comps| ensures l.comps[i].index < |img| && PlaneOk(l.comps[i].c, img[l.comps[i].index]) && l.comps[i].mcuWidth > 0 && l.comps[i].mcuHeight > 0 {
      assert l.comps[i] == PlacedAs(f, scan, i);
    }
  }

  // ----- iMCU rows -----

  /** The number of MCU rows of a scan in iMCU row k. */
  function RowsIn(f: Frame, l: Layout, k: nat): nat
    requires |l.comps| > 0
  {
    if |l.comps| > 1 then 1 else if k + 1 < f.iMcuRows then l.comps[0].c.v else l.comps[0].lastRowHeight
  }

  /** The first MCU row of iMCU row k. */
  function FirstRow(f: Frame, l: Layout, k: nat): nat
    requires |l.comps| > 0
  {
    if |l.comps| > 1 then k else if k < f.iMcuRows then k * l.comps[0].c.v else l.mcuRows
  }

  /** The iMCU rows cut the MCU rows of every scan into pieces without gap or overlap. */
  lemma RowsAddUp(f: Frame, scan: seq<nat>, l: Layout, k: nat)
    requires FrameOk(f) && ScanInFrame(f, scan) && LayoutOk(f, scan, l) && k < f.iMcuRows
    ensures RowsIn(f, l, k) > 0 && FirstRow(f, l, k + 1) == FirstRow(f, l, k) + RowsIn(f, l, k)
    ensures FirstRow(f, l, 0) == 0 && FirstRow(f, l, f.iMcuRows) == l.mcuRows
  {
    assert l.comps[0] == PlacedAs(f, scan, 0);
    var c := f.comps[scan[0]];
    McusTile(f, c);
    hide DivRoundUp;
    Distribute(k, 1, c.v);
  }

  lemma RowsInside(f: Frame, scan: seq<nat>, l: Layout, k: nat)
    requires FrameOk(f) && ScanInFrame(f, scan) && LayoutOk(f, scan, l) && k < f.iMcuRows
    ensures FirstRow(f, l, k + 1) <= l.mcuRows
  {
    assert l.comps[0] == PlacedAs(f, scan, 0);
    McusTile(f, f.comps[scan[0]]);
    hide DivRoundUp;
    if |scan| == 1 && k + 1 < f.iMcuRows {
      MulMonotone(k + 1, f.iMcuRows - 1, f.comps[scan[0]].v);
    }
  }

  /** Whether a row of blocks of an iMCU row is real: the test at the bottom of the image. */
  lemma RealRow(f: Frame, scan: seq<nat>, l: Layout, i: nat, k: nat, yoffset: nat, yindex: nat)
    requires FrameOk(f) && ScanInFrame(f, scan) && LayoutOk(f, scan, l) && i < |scan| && k < f.iMcuRows
    requires yoffset < RowsIn(f, l, k) && yindex < l.comps[i].mcuHeight
    ensures var p := l.comps[i];
            var y := (FirstRow(f, l, k) + yoffset) * p.mcuHeight + yindex;
            && y == k * p.c.v + (yoffset + yindex) && yoffset + yindex < p.c.v
            && (y < p.c.heightInBlocks <==> k < f.iMcuRows - 1 || yoffset + yindex < p.lastRowHeight)
  {
    assert l.comps[0] == PlacedAs(f, scan, 0) && l.comps[i] == PlacedAs(f, scan, i);
    var c := f.comps[scan[i]];
    McusTile(f, c);
    hide DivRoundUp;
    if k < f.iMcuRows - 1 {
      MulMonotone(k + 1, f.iMcuRows - 1, c.v);
      Distribute(k, 1, c.v);
    }
  }

  /** How many of the blocks in MCU column col are real: the test at the right edge. */
  lemma RealBlocks(f: Frame, scan: seq<nat>, l: Layout, i: nat, col: nat)
    requires FrameOk(f) && ScanInFrame(f, scan) && LayoutOk(f, scan, l) && i < |scan| && col < l.mcusPerRow
    ensures var p := l.comps[i];
            var n := if col < l.mcusPerRow - 1 then p.mcuWidth else p.lastColWidth;
            && 1 <= n <= p.mcuWidth
            && col * p.mcuWidth + n <= p.c.widthInBlocks
            && (n < p.mcuWidth ==> col * p.mcuWidth + n == p.c.widthInBlocks)
  {
    assert l.comps[i] == PlacedAs(f, scan, i);
    var c := f.comps[scan[i]];
    McusTile(f, c);
    hide DivRoundUp;
    if |scan| > 1 && col < l.mcusPerRow - 1 {
      MulMonotone(col + 1, l.mcusPerRow - 1, c.h);
      Distribute(col, 1, c.h);
    }
  }
}
