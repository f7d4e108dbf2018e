/**
 * What each block of an MCU is: the block of the component at its place if there is one, and otherwise a
 * dummy block that costs next to nothing to code (section A.2.4 of ITU-T T.81).
 */
module McuContents {
  import opened Arithmetic
  import opened Blocks
  import opened McuGeometry
  import opened McuSequence
  import opened McuPositions

  /** The number of the block in row j, column i of component ci within an MCU. */
  function BlockNumber(comps: seq<Placed>, ci: nat, j: nat, i: nat): nat
    requires ci < |comps|
  {
    BlocksOf(comps[..ci]) + j * comps[ci].mcuWidth + i
  }

  /** The block is a dummy: no AC coefficients, and the DC value of the block coded just before it. */
  predicate RepeatsDc(m: seq<Block>, b: nat) {
    0 < b < |m| && m[b][0] == m[b - 1][0] && forall k :: 1 <= k < DCTSIZE2 ==> m[b][k] == 0
  }

  lemma {:induction false} CompBlockAt(p: Placed, rows: Plane, y0: nat, col: nat, n: nat, j: nat, i: nat)
    requires PlaneOk(p.c, rows) && j < n && i < p.mcuWidth
    ensures j * p.mcuWidth + i < |CompBlocks(p, rows, y0, col, n)|
    ensures CompBlocks(p, rows, y0, col, n)[j * p.mcuWidth + i] == PaddedAt(p, rows, y0 + j, col, i)
    decreases n
  {
    hide PaddedAt;
    Distribute(n - 1, 1, p.mcuWidth);
    MulMonotone(j + 1, n, p.mcuWidth);
    Distribute(j, 1, p.mcuWidth);
    if j < n - 1 {
      CompBlockAt(p, rows, y0, col, n - 1, j, i);
    }
  }

  lemma {:induction false} McuBlockAt(comps: seq<Placed>, img: seq<Plane>, row: nat, col: nat, ci: nat, j: nat, i: nat)
    requires PlacedOk(img, comps) && ci < |comps| && j < comps[ci].mcuHeight && i < comps[ci].mcuWidth
    ensures BlockNumber(comps, ci, j, i) < |McuBlocks(comps, img, row, col)|
    ensures var p := comps[ci];
            McuBlocks(comps, img, row, col)[BlockNumber(comps, ci, j, i)] == PaddedAt(p, img[p.index], row * p.mcuHeight + j, col, i)
    decreases |comps|
  {
    hide PaddedAt, CompBlocks;
    var n := |comps| - 1;
    if ci == n {
      CompBlockAt(comps[n], img[comps[n].index], row * comps[n].mcuHeight, col, comps[n].mcuHeight, j, i);
    } else {
      McuBlockAt(comps[..n], img, row, col, ci, j, i);
      assert comps[..n][..ci] == comps[..ci];
    }
  }

  /** A block outside the component has the DC value of the one before it in its part of the MCU. */
  lemma PaddingRepeats(p: Placed, rows: Plane, y0: nat, col: nat, j: nat, i: nat)
    requires PlaneOk(p.c, rows) && i < p.mcuWidth && y0 < p.c.heightInBlocks && col * p.mcuWidth < p.c.widthInBlocks
    requires y0 + j >= p.c.heightInBlocks || col * p.mcuWidth + i >= p.c.widthInBlocks
    ensures i > 0 || j > 0
    ensures var z := PaddedAt(p, rows, y0 + j, col, i);
            && z[0] == (if i > 0 then PaddedAt(p, rows, y0 + j, col, i - 1) else PaddedAt(p, rows, y0 + j - 1, col, p.mcuWidth - 1))[0]
            && forall k :: 1 <= k < DCTSIZE2 ==> z[k] == 0
  {
  }

  /**
   * Every block of an MCU: in the component it is the component's block, and otherwise all its AC
   * coefficients are zero and its DC value is that of the block just before it, in the same component's
   * part of the MCU.
   */
  lemma BlockInMcu(comps: seq<Placed>, img: seq<Plane>, row: nat, col: nat, ci: nat, j: nat, i: nat)
    requires PlacedOk(img, comps) && ci < |comps| && j < comps[ci].mcuHeight && i < comps[ci].mcuWidth
    requires row * comps[ci].mcuHeight < comps[ci].c.heightInBlocks && col * comps[ci].mcuWidth < comps[ci].c.widthInBlocks
    ensures var p, b, m := comps[ci], BlockNumber(comps, ci, j, i), McuBlocks(comps, img, row, col);
            var y, x := row * p.mcuHeight + j, col * p.mcuWidth + i;
            && b < |m|
            && (y < p.c.heightInBlocks && x < p.c.widthInBlocks ==> m[b] == img[p.index][y][x])
            && (y >= p.c.heightInBlocks || x >= p.c.widthInBlocks ==> RepeatsDc(m, b) && BlockNumber(comps, ci, 0, 0) < b)
  {
    hide McuBlocks, BlocksOf;
    var p := comps[ci];
    McuBlockAt(comps, img, row, col, ci, j, i);
    if row * p.mcuHeight + j >= p.c.heightInBlocks || col * p.mcuWidth + i >= p.c.widthInBlocks {
      PaddingRepeats(p, img[p.index], row * p.mcuHeight, col, j, i);
      if i > 0 {
        McuBlockAt(comps, img, row, col, ci, j, i - 1);
      } else {
        McuBlockAt(comps, img, row, col, ci, j - 1, p.mcuWidth - 1);
        Distribute(j - 1, 1, p.mcuWidth);
      }
    }
  }

  /** Every MCU of a scan begins inside each of its components. */
  lemma StartsInside(f: Frame, scan: seq<nat>, l: Layout, ci: nat, row: nat, col: nat)
    requires FrameOk(f) && ScanInFrame(f, scan) && LayoutOk(f, scan, l) && ci < |scan| && row < l.mcuRows && col < l.mcusPerRow
    ensures |l.comps| == |scan|
    ensures var p := l.comps[ci]; row * p.mcuHeight < p.c.heightInBlocks && col * p.mcuWidth < p.c.widthInBlocks
  {
    assert l.comps[ci] == PlacedAs(f, scan, ci);
    var c := f.comps[scan[ci]];
    McusTile(f, c);
    hide DivRoundUp;
    if |scan| > 1 {
      MulMonotone(row, f.iMcuRows - 1, c.v);
      MulMonotone(col, McusAcross(f) - 1, c.h);
    }
  }

  /**
   * All MCUs of a scan, left to right and top to bottom: block (j, i) of component ci in the MCU at
   * (row, col) is the component's block at row * height + j, column * width + i if there is one, and
   * otherwise a block without AC coefficients whose DC difference is zero.
   */
  lemma BlockInScan(f: Frame, scan: seq<nat>, l: Layout, img: seq<Plane>, row: nat, col: nat, ci: nat, j: nat, i: nat)
    requires FrameOk(f) && ScanInFrame(f, scan) && LayoutOk(f, scan, l) && ImageOk(f, img)
    requires row < l.mcuRows && col < l.mcusPerRow && ci < |scan| && j < l.comps[ci].mcuHeight && i < l.comps[ci].mcuWidth
    ensures PlacedOk(img, l.comps) && |AllMcus(l, img)| == l.mcuRows * l.mcusPerRow
    ensures var p, n, b := l.comps[ci], row * l.mcusPerRow + col, BlockNumber(l.comps, ci, j, i);
            var y, x := row * p.mcuHeight + j, col * p.mcuWidth + i;
            && n < |AllMcus(l, img)| && b < |AllMcus(l, img)[n]|
            && (y < p.c.heightInBlocks && x < p.c.widthInBlocks ==> AllMcus(l, img)[n][b] == img[p.index][y][x])
            && (y >= p.c.heightInBlocks || x >= p.c.widthInBlocks ==> RepeatsDc(AllMcus(l, img)[n], b) && BlockNumber(l.comps, ci, 0, 0) < b)
  {
    hide McuBlocks, FrameOk, LayoutOk, PlacedOk, RowsMcus, DivRoundUp, RepeatsDc, BlockNumber;
    ComponentsPlaced(f, scan, l, img);
    StartsInside(f, scan, l, ci, row, col);
    BlockInMcu(l.comps, img, row, col, ci, j, i);
    RowsLength(l, img, l.mcuRows);
    McuNumber(l, row, col);
    QuotientUnique(row * l.mcusPerRow + col, l.mcusPerRow, row, col);
    RemainderUnique(row * l.mcusPerRow + col, l.mcusPerRow, row, col);
    RowsAt(l, img, l.mcuRows, row * l.mcusPerRow + col);
  }
}
