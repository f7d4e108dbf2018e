/**
 * Where the blocks of an MCU are found in the padded arrays of the components, and that the MCUs of a scan
 * share no block.
 */
module McuPositions {
  import opened Arithmetic
  import opened Blocks
  import opened McuGeometry
  import opened McuSequence
  import opened CoefControl

  /** A block of the virtual array of a component. */
  datatype Pos = Pos(index: nat, y: nat, x: nat)

  function RowPos(p: Placed, y: nat, col: nat): (s: seq<Pos>)
    ensures |s| == p.mcuWidth
  {
    seq(p.mcuWidth, i requires 0 <= i < p.mcuWidth => Pos(p.index, y, col * p.mcuWidth + i))
  }

  function CompPos(p: Placed, y0: nat, col: nat, n: nat): (s: seq<Pos>)
    ensures |s| == n * p.mcuWidth
  {
    if n == 0 then []
    else
      Distribute(n - 1, 1, p.mcuWidth);
      CompPos(p, y0, col, n - 1) + RowPos(p, y0 + n - 1, col)
  }

  function McuPos(comps: seq<Placed>, row: nat, col: nat): (s: seq<Pos>)
    ensures |s| == BlocksOf(comps)
  {
    if comps == [] then []
    else
      var p := comps[|comps| - 1];
      McuPos(comps[..|comps| - 1], row, col) + CompPos(p, row * p.mcuHeight, col, p.mcuHeight)
  }

  // ----- The contents of the arrays -----

  predicate PaddedOk(f: Frame, st: seq<Plane>)
    requires f.maxH > 0
  {
    |st| == |f.comps| && forall ci :: 0 <= ci < |st| ==> PaddedPlane(f, f.comps[ci], st[ci])
  }

  predicate PaddedPlane(f: Frame, c: McuGeometry.Component, rows: Plane)
    requires f.maxH > 0
  {
    |rows| == f.iMcuRows * c.v && forall y :: 0 <= y < |rows| ==> |rows[y]| == McusAcross(f) * c.h
  }

  predicate InPlanes(st: seq<Plane>, q: Pos) {
    q.index < |st| && q.y < |st[q.index]| && q.x < |st[q.index][q.y]|
  }

  /** The block at q. */
  function BlockAt(st: seq<Plane>, q: Pos): Block {
    if InPlanes(st, q) then st[q.index][q.y][q.x] else Dummy(0)
  }

  function McuAt(st: seq<Plane>, qs: seq<Pos>): (bs: seq<Block>)
    ensures |bs| == |qs|
  {
    seq(|qs|, i requires 0 <= i < |qs| => BlockAt(st, qs[i]))
  }

  /** Where MCU number k of a scan is found. */
  function PosOfMcu(l: Layout, k: nat): seq<Pos> {
    if l.mcusPerRow == 0 then [] else McuPos(l.comps, k / l.mcusPerRow, k % l.mcusPerRow)
  }

  /** The MCUs of a scan, in raster order. */
  function McusAt(l: Layout, st: seq<Plane>): (ms: seq<seq<Block>>)
    ensures |ms| == l.mcuRows * l.mcusPerRow
  {
    seq(l.mcuRows * l.mcusPerRow, k requires 0 <= k < l.mcuRows * l.mcusPerRow => McuAt(st, PosOfMcu(l, k)))
  }

  /** The number of the MCU at (row, col). */
  lemma McuNumber(l: Layout, row: nat, col: nat)
    requires row < l.mcuRows && col < l.mcusPerRow
    ensures row * l.mcusPerRow + col < l.mcuRows * l.mcusPerRow
    ensures PosOfMcu(l, row * l.mcusPerRow + col) == McuPos(l.comps, row, col)
  {
    MulMonotone(row + 1, l.mcuRows, l.mcusPerRow);
    Distribute(row, 1, l.mcusPerRow);
    QuotientUnique(row * l.mcusPerRow + col, l.mcusPerRow, row, col);
    RemainderUnique(row * l.mcusPerRow + col, l.mcusPerRow, row, col);
  }

  lemma McuCoordinates(l: Layout, k: nat)
    requires k < l.mcuRows * l.mcusPerRow
    ensures l.mcusPerRow > 0 && k / l.mcusPerRow < l.mcuRows && k % l.mcusPerRow < l.mcusPerRow
    ensures k == k / l.mcusPerRow * l.mcusPerRow + k % l.mcusPerRow
  {
    assert l.mcusPerRow != 0;
    DivMod(k, l.mcusPerRow);
    QuotientBound(k, l.mcusPerRow, l.mcuRows);
  }

  // ----- Every real block is in an MCU -----

  lemma RowPosAt(p: Placed, y: nat, col: nat, i: nat)
    requires i < p.mcuWidth
    ensures Pos(p.index, y, col * p.mcuWidth + i) in RowPos(p, y, col)
  {
    assert RowPos(p, y, col)[i] == Pos(p.index, y, col * p.mcuWidth + i);
  }

  lemma {:induction false} CompPosAt(p: Placed, y0: nat, col: nat, n: nat, j: nat, i: nat)
    requires j < n && i < p.mcuWidth
    ensures Pos(p.index, y0 + j, col * p.mcuWidth + i) in CompPos(p, y0, col, n)
    decreases n
  {
    if j == n - 1 {
      RowPosAt(p, y0 + j, col, i);
    } else {
      CompPosAt(p, y0, col, n - 1, j, i);
    }
  }

  lemma {:induction false} McuPosAt(comps: seq<Placed>, row: nat, col: nat, ci: nat, j: nat, i: nat)
    requires ci < |comps| && j < comps[ci].mcuHeight && i < comps[ci].mcuWidth
    ensures var p := comps[ci]; Pos(p.index, row * p.mcuHeight + j, col * p.mcuWidth + i) in McuPos(comps, row, col)
    decreases |comps|
  {
    var n := |comps| - 1;
    if ci == n {
      CompPosAt(comps[n], row * comps[n].mcuHeight, col, comps[n].mcuHeight, j, i);
    } else {
      McuPosAt(comps[..n], row, col, ci, j, i);
    }
  }

  /** Some MCU of the scan has the block. */
  predicate Visited(l: Layout, q: Pos) {
    exists r: nat, c: nat :: r < l.mcuRows && c < l.mcusPerRow && q in McuPos(l.comps, r, c)
  }

  /** Every real block of every component of the scan is visited. */
  lemma PosInMcu(f: Frame, scan: seq<nat>, l: Layout, ci: nat, y: nat, x: nat)
    requires FrameOk(f) && ScanInFrame(f, scan) && LayoutOk(f, scan, l) && ci < |l.comps|
    requires y < l.comps[ci].c.heightInBlocks && x < l.comps[ci].c.widthInBlocks
    ensures var p := l.comps[ci];
            && p.mcuHeight > 0 && p.mcuWidth > 0 && 0 <= y / p.mcuHeight < l.mcuRows && 0 <= x / p.mcuWidth < l.mcusPerRow
            && Pos(p.index, y, x) in McuPos(l.comps, y / p.mcuHeight, x / p.mcuWidth)
    ensures Visited(l, Pos(l.comps[ci].index, y, x))
  {
    EnoughMcus(f, scan, l, ci);
    var p := l.comps[ci];
    hide DivRoundUp, LayoutOk, FrameOk, McuPos;
    GridPart(y, p.mcuHeight, l.mcuRows);
    GridPart(x, p.mcuWidth, l.mcusPerRow);
    McuPosAt(l.comps, y / p.mcuHeight, x / p.mcuWidth, ci, y % p.mcuHeight, x % p.mcuWidth);
  }

  lemma EnoughMcus(f: Frame, scan: seq<nat>, l: Layout, ci: nat)
    requires FrameOk(f) && ScanInFrame(f, scan) && LayoutOk(f, scan, l) && ci < |l.comps|
    ensures var p := l.comps[ci];
            && p.mcuHeight > 0 && p.mcuWidth > 0
            && p.c.heightInBlocks <= l.mcuRows * p.mcuHeight && p.c.widthInBlocks <= l.mcusPerRow * p.mcuWidth
  {
    assert l.comps[ci] == PlacedAs(f, scan, ci) && l.comps[0] == PlacedAs(f, scan, 0);
    var p := l.comps[ci];
    McusTile(f, f.comps[scan[ci]]);
    hide DivRoundUp;
    Distribute(l.mcuRows, 1, p.mcuHeight);
    Distribute(l.mcusPerRow, 1, p.mcuWidth);
  }

  lemma GridPart(y: nat, h: nat, n: nat)
    requires h > 0 && y < n * h
    ensures 0 <= y / h < n && y / h * h + y % h == y && 0 <= y % h < h
  {
    DivMod(y, h);
    QuotientBound(y, h, 0);
    QuotientBound(y, h, n);
  }

  // ----- The MCU of a block is determined -----

  /** The block belongs to the part of the component p of the MCU at (row, col). */
  predicate InPart(p: Placed, row: nat, col: nat, q: Pos) {
    && q.index == p.index && row * p.mcuHeight <= q.y < row * p.mcuHeight + p.mcuHeight
    && col * p.mcuWidth <= q.x < col * p.mcuWidth + p.mcuWidth
  }

  lemma {:induction false} CompPosFrom(p: Placed, y0: nat, col: nat, n: nat, q: Pos)
    requires q in CompPos(p, y0, col, n)
    ensures q.index == p.index && y0 <= q.y < y0 + n && col * p.mcuWidth <= q.x < col * p.mcuWidth + p.mcuWidth
    decreases n
  {
    if q !in RowPos(p, y0 + n - 1, col) {
      CompPosFrom(p, y0, col, n - 1, q);
    }
  }

  lemma {:induction false} McuPosFrom(comps: seq<Placed>, row: nat, col: nat, q: Pos) returns (ci: nat)
    requires q in McuPos(comps, row, col)
    ensures ci < |comps| && InPart(comps[ci], row, col, q)
    decreases |comps|
  {
    hide CompPos;
    ci := |comps| - 1;
    var p := comps[ci];
    if q in CompPos(p, row * p.mcuHeight, col, p.mcuHeight) {
      CompPosFrom(p, row * p.mcuHeight, col, p.mcuHeight, q);
    } else {
      ci := McuPosFrom(comps[..ci], row, col, q);
    }
  }

  lemma OnePart(y: nat, h: nat, r: nat, r': nat)
    requires r * h <= y < r * h + h && r' * h <= y < r' * h + h
    ensures r == r'
  {
    QuotientUnique(y, h, r, y - r * h);
    QuotientUnique(y, h, r', y - r' * h);
  }

  /** No block is in two MCUs of a scan. */
  lemma McusApart(f: Frame, scan: seq<nat>, l: Layout, r: nat, c: nat, r': nat, c': nat, q: Pos)
    requires FrameOk(f) && ScanInFrame(f, scan) && LayoutOk(f, scan, l)
    requires q in McuPos(l.comps, r, c) && q in McuPos(l.comps, r', c')
    ensures r == r' && c == c'
  {
    hide McuPos, DivRoundUp;
    var i := McuPosFrom(l.comps, r, c, q);
    var j := McuPosFrom(l.comps, r', c', q);
    assert l.comps[i] == PlacedAs(f, scan, i) && l.comps[j] == PlacedAs(f, scan, j);
    assert i == j;
    OnePart(q.y, l.comps[i].mcuHeight, r, r');
    OnePart(q.x, l.comps[i].mcuWidth, c, c');
  }

  // ----- MCUs lie in the padded arrays -----

  lemma InsideGrid(row: nat, rows: nat, h: nat, y: nat)
    requires row < rows && y < row * h + h
    ensures y < rows * h
  {
    MulMonotone(row + 1, rows, h);
    Distribute(row, 1, h);
  }

  /** A visited block exists; in a scan of a single component it is a real one. */
  lemma VisitedExists(f: Frame, scan: seq<nat>, l: Layout, r: nat, c: nat, q: Pos)
    requires FrameOk(f) && ScanInFrame(f, scan) && LayoutOk(f, scan, l) && r < l.mcuRows && c < l.mcusPerRow
    requires q in McuPos(l.comps, r, c)
    ensures q.index in scan && q.index < |f.comps|
    ensures q.y < f.iMcuRows * f.comps[q.index].v && q.x < McusAcross(f) * f.comps[q.index].h
    ensures |scan| == 1 ==> q.y < f.comps[q.index].heightInBlocks && q.x < f.comps[q.index].widthInBlocks
  {
    hide McuPos, DivRoundUp;
    var i := McuPosFrom(l.comps, r, c, q);
    assert l.comps[i] == PlacedAs(f, scan, i);
    var p := l.comps[i];
    McusTile(f, p.c);
    Distribute(f.iMcuRows, 1, p.c.v);
    Distribute(McusAcross(f), 1, p.c.h);
    InsideGrid(r, l.mcuRows, p.mcuHeight, q.y);
    InsideGrid(c, l.mcusPerRow, p.mcuWidth, q.x);
  }

  lemma InPadded(f: Frame, st: seq<Plane>, q: Pos)
    requires f.maxH > 0 && PaddedOk(f, st) && q.index < |f.comps|
    requires q.y < f.iMcuRows * f.comps[q.index].v && q.x < McusAcross(f) * f.comps[q.index].h
    ensures InPlanes(st, q)
  {
    assert PaddedPlane(f, f.comps[q.index], st[q.index]);
  }

  // ----- The MCUs of an image -----

  /** The padded arrays of an image. */
  function Padded(f: Frame, img: seq<Plane>): (st: seq<Plane>)
    requires FrameOk(f) && ImageOk(f, img)
    ensures PaddedOk(f, st)
  {
    seq(|f.comps|, ci requires 0 <= ci < |f.comps| => PaddedRows(f, f.comps[ci], img[ci]))
  }

  function PaddedRows(f: Frame, c: McuGeometry.Component, rows: Plane): (st: Plane)
    requires FrameOk(f) && PlaneOk(c, rows) && c.h > 0
    ensures PaddedPlane(f, c, st)
  {
    seq(f.iMcuRows * c.v, y requires 0 <= y < f.iMcuRows * c.v =>
      seq(McusAcross(f) * c.h, x requires 0 <= x < McusAcross(f) * c.h => PaddedXY(c, rows, y, x)))
  }

  lemma AtPadded(f: Frame, img: seq<Plane>, q: Pos)
    requires FrameOk(f) && ImageOk(f, img) && q.index < |f.comps|
    requires q.y < f.iMcuRows * f.comps[q.index].v && q.x < McusAcross(f) * f.comps[q.index].h
    ensures BlockAt(Padded(f, img), q) == PaddedXY(f.comps[q.index], img[q.index], q.y, q.x)
  {
    hide PaddedXY, DivRoundUp;
    InPadded(f, Padded(f, img), q);
    assert Padded(f, img)[q.index] == PaddedRows(f, f.comps[q.index], img[q.index]);
  }

  lemma BlockFits(f: Frame, img: seq<Plane>, p: Placed, row: nat, col: nat, j: nat, i: nat)
    requires FrameOk(f) && ImageOk(f, img) && Legal(f, img, p, row, col) && j < p.mcuHeight && i < p.mcuWidth
    ensures BlockAt(Padded(f, img), Pos(p.index, row * p.mcuHeight + j, col * p.mcuWidth + i))
         == PaddedAt(p, img[p.index], row * p.mcuHeight + j, col, i)
  {
    hide PaddedAt, PaddedXY, Padded, DivRoundUp, FrameOk, ImageOk, PlaneOk, McusAcross, BlockAt;
    var y, x := row * p.mcuHeight + j, col * p.mcuWidth + i;
    PaddedThere(p, img[p.index], y, col, i);
    AtPadded(f, img, Pos(p.index, y, x));
  }

  lemma RowFits(f: Frame, img: seq<Plane>, p: Placed, row: nat, col: nat, j: nat)
    requires FrameOk(f) && ImageOk(f, img) && Legal(f, img, p, row, col) && j < p.mcuHeight
    ensures McuAt(Padded(f, img), RowPos(p, row * p.mcuHeight + j, col)) == RowBlocks(p, img[p.index], row * p.mcuHeight + j, col)
  {
    hide PaddedAt, Padded, DivRoundUp, FrameOk, ImageOk, BlockAt;
    var y := row * p.mcuHeight + j;
    forall i: nat | i < p.mcuWidth ensures BlockAt(Padded(f, img), RowPos(p, y, col)[i]) == RowBlocks(p, img[p.index], y, col)[i] {
      BlockFits(f, img, p, row, col, j, i);
    }
  }

  lemma {:induction false} CompFits(f: Frame, img: seq<Plane>, p: Placed, row: nat, col: nat, n: nat)
    requires FrameOk(f) && ImageOk(f, img) && Legal(f, img, p, row, col) && n <= p.mcuHeight
    ensures McuAt(Padded(f, img), CompPos(p, row * p.mcuHeight, col, n)) == CompBlocks(p, img[p.index], row * p.mcuHeight, col, n)
    decreases n
  {
    hide Padded, DivRoundUp, FrameOk, ImageOk, RowPos, RowBlocks;
    if n > 0 {
      var y0: nat := row * p.mcuHeight;
      CompFits(f, img, p, row, col, n - 1);
      RowFits(f, img, p, row, col, n - 1);
      McuAtConcat(Padded(f, img), CompPos(p, y0, col, n - 1), RowPos(p, y0 + n - 1, col));
    }
  }

  lemma McuAtConcat(st: seq<Plane>, qs: seq<Pos>, qs': seq<Pos>)
    ensures McuAt(st, qs + qs') == McuAt(st, qs) + McuAt(st, qs')
  {
    hide BlockAt;
  }

  /** The component is the frame's, and an MCU's part of it is either full or a single real block. */
  predicate Legal(f: Frame, img: seq<Plane>, p: Placed, row: nat, col: nat) {
    && p.index < |f.comps| == |img| && p.c == f.comps[p.index] && PlaneOk(p.c, img[p.index]) && p.c.h > 0 && p.mcuWidth > 0
    && f.maxH > 0 && row * p.mcuHeight + p.mcuHeight <= f.iMcuRows * p.c.v && col * p.mcuWidth + p.mcuWidth <= McusAcross(f) * p.c.h
    && (p.mcuWidth == p.c.h || (p.mcuWidth == p.mcuHeight == 1 && row < p.c.heightInBlocks && col < p.c.widthInBlocks))
  }

  /** The blocks of an MCU of the image are found at its positions. */
  lemma {:induction false} McuFits(f: Frame, img: seq<Plane>, comps: seq<Placed>, row: nat, col: nat)
    requires FrameOk(f) && ImageOk(f, img)
    requires PlacedOk(img, comps) && forall i :: 0 <= i < |comps| ==> Legal(f, img, comps[i], row, col)
    ensures McuAt(Padded(f, img), McuPos(comps, row, col)) == McuBlocks(comps, img, row, col)
  {
    hide CompBlocks, CompPos, Padded, FrameOk;
    if comps != [] {
      var p, front := comps[|comps| - 1], comps[..|comps| - 1];
      McuFits(f, img, front, row, col);
      CompFits(f, img, p, row, col, p.mcuHeight);
      McuAtConcat(Padded(f, img), McuPos(front, row, col), CompPos(p, row * p.mcuHeight, col, p.mcuHeight));
    }
  }

  lemma GridEnd(row: nat, rows: nat, h: nat)
    requires row < rows
    ensures row * h + h <= rows * h
  {
    MulMonotone(row + 1, rows, h);
    Distribute(row, 1, h);
  }

  lemma LegalComponents(f: Frame, scan: seq<nat>, l: Layout, img: seq<Plane>, row: nat, col: nat)
    requires FrameOk(f) && ScanInFrame(f, scan) && LayoutOk(f, scan, l) && ImageOk(f, img) && row < l.mcuRows && col < l.mcusPerRow
    ensures forall i :: 0 <= i < |l.comps| ==> Legal(f, img, l.comps[i], row, col)
  {
    hide DivRoundUp;
    forall i | 0 <= i < |l.comps| ensures Legal(f, img, l.comps[i], row, col) {
      assert l.comps[i] == PlacedAs(f, scan, i);
      assert PlaneOk(f.comps[scan[i]], img[scan[i]]);
      McusTile(f, f.comps[scan[i]]);
      GridEnd(row, l.mcuRows, l.comps[i].mcuHeight);
      GridEnd(col, l.mcusPerRow, l.comps[i].mcuWidth);
      Distribute(f.iMcuRows, 1, l.comps[i].c.v);
      Distribute(McusAcross(f), 1, l.comps[i].c.h);
    }
  }

  lemma {:induction false} RowsAt(l: Layout, img: seq<Plane>, n: nat, k: nat)
    requires PlacedOk(img, l.comps) && k < n * l.mcusPerRow
    ensures |RowsMcus(l, img, n)| == n * l.mcusPerRow && l.mcusPerRow > 0
    ensures RowsMcus(l, img, n)[k] == McuBlocks(l.comps, img, k / l.mcusPerRow, k % l.mcusPerRow)
    decreases n
  {
    hide McuBlocks;
    RowsLength(l, img, n);
    RowsLength(l, img, n - 1);
    var w := l.mcusPerRow;
    Distribute(n, 1, w);
    if k < (n - 1) * w {
      RowsAt(l, img, n - 1, k);
    } else {
      QuotientUnique(k, w, n - 1, k - (n - 1) * w);
      RemainderUnique(k, w, n - 1, k - (n - 1) * w);
    }
  }

  lemma {:induction false} RowsLength(l: Layout, img: seq<Plane>, n: nat)
    requires PlacedOk(img, l.comps)
    ensures |RowsMcus(l, img, n)| == n * l.mcusPerRow
    decreases n
  {
    hide McuBlocks;
    if n > 0 {
      RowsLength(l, img, n - 1);
      Distribute(n, 1, l.mcusPerRow);
    }
  }

  /** What the compressor sends for an image is what its padded arrays hold at the positions of the MCUs. */
  lemma AllMcusAt(f: Frame, scan: seq<nat>, l: Layout, img: seq<Plane>)
    requires FrameOk(f) && ScanInFrame(f, scan) && LayoutOk(f, scan, l) && ImageOk(f, img)
    ensures PlacedOk(img, l.comps) && AllMcus(l, img) == McusAt(l, Padded(f, img))
  {
    hide McuBlocks, Padded, FrameOk, LayoutOk, PlacedOk, RowsMcus, DivRoundUp, McuPos;
    ComponentsPlaced(f, scan, l, img);
    RowsLength(l, img, l.mcuRows);
    forall k: nat | k < l.mcuRows * l.mcusPerRow ensures AllMcus(l, img)[k] == McusAt(l, Padded(f, img))[k] {
      RowsAt(l, img, l.mcuRows, k);
      McuCoordinates(l, k);
      LegalComponents(f, scan, l, img, k / l.mcusPerRow, k % l.mcusPerRow);
      McuFits(f, img, l.comps, k / l.mcusPerRow, k % l.mcusPerRow);
    }
  }
}
