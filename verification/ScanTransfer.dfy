/**
 * One scan of a coefficient image on its way: sent by the transcoder's coefficient controller, encoded and
 * decoded by the arithmetic codec, stored by the decoder's coefficient controller.
 */
module ScanTransfer {
  import opened Bits
  import opened Blocks
  import opened Markers
  import opened NaturalOrder
  import opened ArithScan
  import opened ArithSegments
  import opened ArithRoundTrip
  import opened ArithWholeScan
  import opened McuGeometry
  import opened McuSequence
  import opened McuPositions
  import opened CoefControl
  import opened CoefConsume

  // ----- Images of coefficients -----

  predicate CoefPlane(rows: Plane) {
    forall y :: 0 <= y < |rows| ==> CoefBlocks(rows[y])
  }

  predicate CoefPlanes(img: seq<Plane>) {
    forall ci :: 0 <= ci < |img| ==> CoefPlane(img[ci])
  }

  lemma DummyCoef(dc: int)
    requires IsCoef(dc)
    ensures CoefBlock(Dummy(dc))
  {
  }

  lemma AtCoef(st: seq<Plane>, q: Pos)
    requires CoefPlanes(st)
    ensures CoefBlock(BlockAt(st, q))
  {
    DummyCoef(0);
    hide CoefBlock;
    if InPlanes(st, q) {
      assert CoefPlane(st[q.index]) && CoefBlocks(st[q.index][q.y]);
    }
  }

  /** Padding is no worse than the image. */
  lemma {:induction false} PaddedAtCoef(p: Placed, rows: Plane, y: nat, col: nat, i: nat)
    requires PlaneOk(p.c, rows) && p.mcuWidth > 0 && CoefPlane(rows)
    ensures CoefBlock(PaddedAt(p, rows, y, col, i))
    decreases y
  {
    hide Dummy;
    if y < p.c.heightInBlocks {
      assert CoefBlocks(rows[y]);
      assert CoefBlock(rows[y][p.c.widthInBlocks - 1]);
      DummyCoef(rows[y][p.c.widthInBlocks - 1][0]);
    } else {
      PaddedAtCoef(p, rows, y - 1, col, p.mcuWidth - 1);
      DummyCoef(PaddedAt(p, rows, y - 1, col, p.mcuWidth - 1)[0]);
    }
  }

  lemma PaddedXYCoef(c: McuGeometry.Component, rows: Plane, y: nat, x: nat)
    requires PlaneOk(c, rows) && c.h > 0 && CoefPlane(rows)
    ensures CoefBlock(PaddedXY(c, rows, y, x))
  {
    hide CoefBlock, PaddedAt, CoefPlane, PlaneOk;
    PaddedAtCoef(Placed(0, c, c.h, c.v, 0, 0), rows, y, x / c.h, x % c.h);
  }

  lemma PaddedRowsCoef(f: Frame, c: McuGeometry.Component, rows: Plane)
    requires FrameOk(f) && PlaneOk(c, rows) && c.h > 0 && CoefPlane(rows)
    ensures CoefPlane(PaddedRows(f, c, rows))
  {
    hide CoefBlock, PaddedXY, DivRoundUp, FrameOk, PlaneOk, CoefPlane, McusAcross;
    var st := PaddedRows(f, c, rows);
    forall y, x | 0 <= y < |st| && 0 <= x < |st[y]| ensures CoefBlock(st[y][x]) {
      PaddedXYCoef(c, rows, y, x);
    }
    RowsCoef(st);
  }

  lemma RowsCoef(rows: Plane)
    requires forall y, x :: 0 <= y < |rows| && 0 <= x < |rows[y]| ==> CoefBlock(rows[y][x])
    ensures CoefPlane(rows)
  {
    hide CoefBlock;
  }

  lemma PaddedCoef(f: Frame, img: seq<Plane>)
    requires FrameOk(f) && ImageOk(f, img) && CoefPlanes(img)
    ensures CoefPlanes(Padded(f, img))
  {
    hide CoefPlane, PaddedRows, DivRoundUp;
    forall ci | 0 <= ci < |f.comps| ensures CoefPlane(Padded(f, img)[ci]) {
      PaddedRowsCoef(f, f.comps[ci], img[ci]);
    }
  }

  // ----- The MCUs of a scan -----

  lemma {:induction false} MembersInScan(comps: seq<Placed>)
    ensures forall i :: 0 <= i < |Membership(comps)| ==> Membership(comps)[i] < |comps|
    decreases |comps|
  {
    if comps != [] {
      MembersInScan(comps[..|comps| - 1]);
    }
  }

  lemma {:induction false} CompIndex(p: Placed, y0: nat, col: nat, n: nat, i: nat)
    requires i < |CompPos(p, y0, col, n)|
    ensures CompPos(p, y0, col, n)[i].index == p.index
    decreases n
  {
    if n > 0 && i < |CompPos(p, y0, col, n - 1)| {
      CompIndex(p, y0, col, n - 1, i);
    }
  }

  /** Block number i of an MCU belongs to the component that the membership list says. */
  lemma {:induction false} MemberIndex(comps: seq<Placed>, row: nat, col: nat, i: nat)
    requires i < |McuPos(comps, row, col)|
    ensures Membership(comps)[i] < |comps| && McuPos(comps, row, col)[i].index == comps[Membership(comps)[i]].index
    decreases |comps|
  {
    hide CompPos;
    var n := |comps| - 1;
    var front := McuPos(comps[..n], row, col);
    if i < |front| {
      MemberIndex(comps[..n], row, col, i);
    } else {
      CompIndex(comps[n], row * comps[n].mcuHeight, col, comps[n].mcuHeight, i - |front|);
    }
  }

  /** The layout of a scan. */
  ghost predicate LaidOutAs(f: Frame, scan: seq<nat>, l: Layout) {
    FrameOk(f) && ScanInFrame(f, scan) && LayoutOk(f, scan, l) && l.membership == Membership(l.comps)
  }

  lemma McusSized(f: Frame, scan: seq<nat>, l: Layout, st: seq<Plane>, sc: Scan)
    requires LaidOutAs(f, scan, l) && |sc.comps| == |scan|
    ensures Sized(l.membership, McusAt(l, st)) && MembersOf(sc, l.membership)
    ensures CoefPlanes(st) ==> CoefMcus(McusAt(l, st))
  {
    hide FrameOk, LayoutOk, McuPos, CoefPlanes, CoefBlock, DivRoundUp, BlockAt;
    MembersInScan(l.comps);
    ComponentCount(f, scan, l);
    forall k | 0 <= k < |McusAt(l, st)|
      ensures |McusAt(l, st)[k]| == |l.membership| && (CoefPlanes(st) ==> CoefBlocks(McusAt(l, st)[k]))
    {
      McuCoordinates(l, k);
      forall i | 0 <= i < |McusAt(l, st)[k]| && CoefPlanes(st) ensures CoefBlock(McusAt(l, st)[k][i]) {
        AtCoef(st, PosOfMcu(l, k)[i]);
      }
    }
  }

  lemma ComponentCount(f: Frame, scan: seq<nat>, l: Layout)
    requires LaidOutAs(f, scan, l)
    ensures |l.comps| == |scan| && forall i :: 0 <= i < |scan| ==> scan[i] < |f.comps|
  {
  }

  /** Where block number i of MCU number k is found. */
  lemma BlockNumber(f: Frame, scan: seq<nat>, l: Layout, k: nat, i: nat)
    requires LaidOutAs(f, scan, l) && k < l.mcuRows * l.mcusPerRow && i < |PosOfMcu(l, k)|
    ensures |PosOfMcu(l, k)| == |l.membership| && l.membership[i] < |scan|
    ensures var q := PosOfMcu(l, k)[i]; Visited(l, q) && q.index == scan[l.membership[i]] && q.index < |f.comps|
  {
    hide McuPos, DivRoundUp, Membership;
    McuCoordinates(l, k);
    MemberIndex(l.comps, k / l.mcusPerRow, k % l.mcusPerRow, i);
    var m := l.membership[i];
    assert l.comps[m] == PlacedAs(f, scan, m);
    assert PosOfMcu(l, k)[i] in McuPos(l.comps, k / l.mcusPerRow, k % l.mcusPerRow);
  }

  // ----- Before and after the scan -----

  function LevelsIn(scan: seq<nat>, levels: seq<Levels>): seq<Levels>
    requires forall i :: 0 <= i < |scan| ==> scan[i] < |levels|
  {
    seq(|scan|, i requires 0 <= i < |scan| => levels[scan[i]])
  }

  function LevelsAfter(sc: Scan, levels: seq<Levels>): seq<Levels>
    requires ScanOk(sc)
  {
    seq(|levels|, i requires 0 <= i < |levels| => AfterScan(sc, levels[i]))
  }

  /** Every block of the scan is the original cut off at the level of its component. */
  ghost predicate CutFrom(order: seq<int>, l: Layout, orig: seq<Plane>, st: seq<Plane>, levels: seq<Levels>)
    requires IsNaturalOrder(order)
  {
    forall q :: Visited(l, q) && q.index < |levels| ==> Zz(order, BlockAt(st, q)) == Approx(Zz(order, BlockAt(orig, q)), levels[q.index])
  }

  /** Cutting off the blocks and cutting off the MCUs is the same. */
  lemma CutMcus(f: Frame, scan: seq<nat>, l: Layout, order: seq<int>, sc: Scan, orig: seq<Plane>, st: seq<Plane>, levels: seq<Levels>)
    requires LaidOutAs(f, scan, l) && IsNaturalOrder(order) && |sc.comps| == |scan| && |levels| == |f.comps|
    requires CutFrom(order, l, orig, st, levels)
    ensures Sized(l.membership, McusAt(l, orig)) && Sized(l.membership, McusAt(l, st)) && McusOk(sc, Given(order, l.membership, McusAt(l, orig)))
    ensures Given(order, l.membership, McusAt(l, st)) == ApproxMcus(sc, Given(order, l.membership, McusAt(l, orig)), LevelsIn(scan, levels))
  {
    hide IsNaturalOrder, Zz, Approx, BlockAt, PosOfMcu, LaidOutAs, Visited;
    McusSized(f, scan, l, orig, sc);
    McusSized(f, scan, l, st, sc);
    GivenOk(order, sc, l.membership, McusAt(l, orig));
    ComponentCount(f, scan, l);
    var ms, ls := Given(order, l.membership, McusAt(l, orig)), LevelsIn(scan, levels);
    forall k: nat | k < l.mcuRows * l.mcusPerRow ensures Given(order, l.membership, McusAt(l, st))[k] == ApproxMcus(sc, ms, ls)[k] {
      assert ms[k] == VisitsOf(order, l.membership, McusAt(l, orig)[k]);
      assert ApproxMcus(sc, ms, ls)[k] == ApproxAll(ms[k], ls);
      forall i: nat | i < |l.membership|
        ensures Given(order, l.membership, McusAt(l, st))[k][i] == Visit(l.membership[i], Approx(ms[k][i].z, ls[l.membership[i]]))
      {
        BlockNumber(f, scan, l, k, i);
      }
    }
  }

  ghost predicate AlikeImages(order: seq<int>, l: Layout, sc: Scan, a: seq<Plane>, b: seq<Plane>)
    requires IsNaturalOrder(order)
  {
    forall q :: Visited(l, q) ==> Alike(sc, Zz(order, BlockAt(a, q)), Zz(order, BlockAt(b, q)))
  }

  lemma AlikeGiven(f: Frame, scan: seq<nat>, l: Layout, order: seq<int>, sc: Scan, a: seq<Plane>, b: seq<Plane>)
    requires LaidOutAs(f, scan, l) && IsNaturalOrder(order) && |sc.comps| == |scan| && AlikeImages(order, l, sc, a, b)
    ensures Sized(l.membership, McusAt(l, a)) && Sized(l.membership, McusAt(l, b))
    ensures AlikeMcus(sc, Given(order, l.membership, McusAt(l, a)), Given(order, l.membership, McusAt(l, b)))
  {
    hide IsNaturalOrder, Zz, BlockAt, PosOfMcu, LaidOutAs, Visited, Alike;
    McusSized(f, scan, l, a, sc);
    McusSized(f, scan, l, b, sc);
    var ms, ms' := Given(order, l.membership, McusAt(l, a)), Given(order, l.membership, McusAt(l, b));
    forall k: nat | k < |ms| ensures AlikeVisits(sc, ms[k], ms'[k]) {
      assert ms[k] == VisitsOf(order, l.membership, McusAt(l, a)[k]) && ms'[k] == VisitsOf(order, l.membership, McusAt(l, b)[k]);
      forall i: nat | i < |l.membership| ensures ms[k][i].ci == ms'[k][i].ci && Alike(sc, ms[k][i].z, ms'[k][i].z) {
        BlockNumber(f, scan, l, k, i);
      }
    }
  }

  /** The block at q behind the scan. */
  ghost function BlockAfter(order: seq<int>, l: Layout, sc: Scan, orig: seq<Plane>, st: seq<Plane>, levels: seq<Levels>, q: Pos): Block
    requires IsNaturalOrder(order) && ScanOk(sc)
  {
    if Visited(l, q) && q.index < |levels| then Unzigzag(order, Approx(Zz(order, BlockAt(orig, q)), AfterScan(sc, levels[q.index]))) else BlockAt(st, q)
  }

  /** The arrays behind the scan: its blocks are the originals cut off where it leaves them, the others are as before. */
  ghost function After(f: Frame, order: seq<int>, l: Layout, sc: Scan, orig: seq<Plane>, st: seq<Plane>, levels: seq<Levels>): (st': seq<Plane>)
    requires IsNaturalOrder(order) && ScanOk(sc) && FrameOk(f) && PaddedOk(f, st)
    ensures |st'| == |st|
  {
    seq(|st|, ci requires 0 <= ci < |st| =>
      seq(|st[ci]|, y requires 0 <= y < |st[ci]| =>
        seq(|st[ci][y]|, x requires 0 <= x < |st[ci][y]| => BlockAfter(order, l, sc, orig, st, levels, Pos(ci, y, x)))))
  }

  lemma AtAfter(f: Frame, order: seq<int>, l: Layout, sc: Scan, orig: seq<Plane>, st: seq<Plane>, levels: seq<Levels>)
    requires IsNaturalOrder(order) && ScanOk(sc) && FrameOk(f) && PaddedOk(f, st)
    ensures PaddedOk(f, After(f, order, l, sc, orig, st, levels))
    ensures forall q :: InPlanes(st, q) ==> BlockAt(After(f, order, l, sc, orig, st, levels), q) == BlockAfter(order, l, sc, orig, st, levels, q)
  {
    hide IsNaturalOrder, ScanOk, DivRoundUp, BlockAfter;
    assert forall ci :: 0 <= ci < |st| ==> PaddedPlane(f, f.comps[ci], st[ci]);
  }

  /** It is what the decoder makes of the scan. */
  lemma AfterIsCut(f: Frame, scan: seq<nat>, l: Layout, order: seq<int>, sc: Scan, orig: seq<Plane>, st: seq<Plane>, levels: seq<Levels>)
    requires LaidOutAs(f, scan, l) && IsNaturalOrder(order) && ScanOk(sc) && PaddedOk(f, st) && |levels| == |f.comps|
    ensures CutFrom(order, l, orig, After(f, order, l, sc, orig, st, levels), LevelsAfter(sc, levels))
  {
    var st' := After(f, order, l, sc, orig, st, levels);
    AtAfter(f, order, l, sc, orig, st, levels);
    hide IsNaturalOrder, ScanOk, DivRoundUp, After, Zz, Unzigzag, Approx, AfterScan, FrameOk, LayoutOk, BlockAt, PaddedOk, McuPos;
    forall q | Visited(l, q) && q.index < |levels|
      ensures Zz(order, BlockAt(st', q)) == Approx(Zz(order, BlockAt(orig, q)), LevelsAfter(sc, levels)[q.index])
    {
      var r: nat, c: nat :| r < l.mcuRows && c < l.mcusPerRow && q in McuPos(l.comps, r, c);
      VisitedExists(f, scan, l, r, c, q);
      InPadded(f, st, q);
      ZzUnzigzag(order, Approx(Zz(order, BlockAt(orig, q)), AfterScan(sc, levels[q.index])));
    }
  }

  // ----- The scan -----

  /** The array has the component's blocks. */
  ghost predicate HasPlane(c: McuGeometry.Component, rows: Plane, a: array2<Block>)
    reads a
  {
    a.Length0 >= c.heightInBlocks && a.Length1 >= c.widthInBlocks && PlaneOk(c, rows)
    && forall y: nat, x: nat :: y < c.heightInBlocks && x < c.widthInBlocks ==> a[y, x] == rows[y][x]
  }

  ghost predicate HasImage(f: Frame, img: seq<Plane>, a: seq<array2<Block>>)
    reads a
  {
    |a| == |f.comps| == |img| && forall ci :: 0 <= ci < |img| ==> HasPlane(f.comps[ci], img[ci], a[ci])
  }

  /** Send a scan from arrays of coefficients. */
  method Send(f: Frame, scan: seq<nat>, l: Layout, coefArrays: seq<array2<Block>>, ghost img: seq<Plane>, answers: seq<bool>) returns (mcus: seq<seq<Block>>)
    requires FrameOk(f) && ScanInFrame(f, scan) && LayoutOk(f, scan, l) && ImageOk(f, img) && HasImage(f, img, coefArrays)
    ensures PlacedOk(img, l.comps) && mcus == AllMcus(l, img)
  {
    hide DivRoundUp, RowsMcus, CoefController.Valid, CoefController.Shape, CoefController.Ready;
    ComponentsPlaced(f, scan, l, img);
    var sink := new EntropySink(answers);
    var controller := new CoefController(Transcoding, f, scan, l, sink, coefArrays, img);
    ShapeOf(controller);
    AllReady(controller);
    controller.RunOutput();
    mcus := sink.sent;
  }

  lemma ShapeOf(c: CoefController)
    requires c.Valid()
    ensures c.Shape()
  {
  }

  lemma AllReady(c: CoefController)
    requires c.Shape() && c.mode == Transcoding && HasImage(c.ctr.f, c.img, c.wholeImage)
    ensures forall k: nat :: k < c.ctr.f.iMcuRows ==> c.Ready(k, [])
  {
    hide DivRoundUp;
  }

  /** The blocks of an MCU as they are in the arrays. */
  method LoadMcu(f: Frame, scan: seq<nat>, l: Layout, a: seq<array2<Block>>, k: nat, ghost st: seq<Plane>) returns (blocks: seq<Block>)
    requires FrameOk(f) && ScanInFrame(f, scan) && LayoutOk(f, scan, l) && ArraysOk(f, a) && Hold(a, st) && k < l.mcuRows * l.mcusPerRow
    ensures blocks == McuAt(st, PosOfMcu(l, k))
  {
    hide DivRoundUp, LayoutOk, PosOfMcu, BlockAt;
    var qs := PosOfMcu(l, k);
    blocks := [];
    for i := 0 to |qs|
      invariant |blocks| == i && forall j :: 0 <= j < i ==> blocks[j] == BlockAt(st, qs[j])
    {
      var q := qs[i];
      PosThere(f, scan, l, k, q);
      assert PaddedSize(f, f.comps[q.index], a[q.index]);
      blocks := blocks + [a[q.index][q.y, q.x]];
    }
  }

  method LoadMcus(f: Frame, scan: seq<nat>, l: Layout, a: seq<array2<Block>>, ghost st: seq<Plane>) returns (mcus: seq<seq<Block>>)
    requires FrameOk(f) && ScanInFrame(f, scan) && LayoutOk(f, scan, l) && ArraysOk(f, a) && Hold(a, st)
    ensures mcus == McusAt(l, st)
  {
    hide DivRoundUp, FrameOk, LayoutOk, PosOfMcu, ArraysOk, Hold, McuAt;
    mcus := [];
    for k := 0 to l.mcuRows * l.mcusPerRow
      invariant |mcus| == k && forall j :: 0 <= j < k ==> mcus[j] == McuAt(st, PosOfMcu(l, j))
    {
      var blocks := LoadMcu(f, scan, l, a, k, st);
      mcus := mcus + [blocks];
    }
  }

  lemma PosThere(f: Frame, scan: seq<nat>, l: Layout, k: nat, q: Pos)
    requires FrameOk(f) && ScanInFrame(f, scan) && LayoutOk(f, scan, l) && k < l.mcuRows * l.mcusPerRow && q in PosOfMcu(l, k)
    ensures q.index < |f.comps| && q.y < f.iMcuRows * f.comps[q.index].v && q.x < McusAcross(f) * f.comps[q.index].h
  {
    hide DivRoundUp, FrameOk, LayoutOk, McuPos;
    McuCoordinates(l, k);
    VisitedExists(f, scan, l, k / l.mcusPerRow, k % l.mcusPerRow, q);
  }

  /**
   * consume_data for the whole scan. The entropy decoder is handed over the blocks as the arrays have them,
   * so it does not matter that it has been run on them beforehand.
   */
  method Consume(f: Frame, scan: seq<nat>, l: Layout, a: seq<array2<Block>>, mcus: seq<seq<Block>>, answers: seq<bool>, ghost st: seq<Plane>, ghost want: seq<Plane>)
    requires FrameOk(f) && ScanInFrame(f, scan) && LayoutOk(f, scan, l) && ArraysOk(f, a) && Hold(a, st) && mcus == McusAt(l, want)
    requires forall q :: InPlanes(st, q) && !Visited(l, q) ==> BlockAt(want, q) == BlockAt(st, q)
    requires PaddedOk(f, st)
    modifies a
    ensures Hold(a, want)
  {
    hide DivRoundUp, CoefReader.Shape, CoefReader.Valid, McusAt, Visited;
    var source := new EntropySource(answers, mcus, McusAt(l, st));
    var reader := new CoefReader(f, scan, l, source, a, st, want);
    reader.RunScan();
    AllHeld(reader, f, a, st, want);
  }

  lemma AllHeld(r: CoefReader, f: Frame, a: seq<array2<Block>>, st: seq<Plane>, want: seq<Plane>)
    requires r.Finished() && r.wholeImage == a && r.was == st && r.want == want && FrameOk(f) && ArraysOk(f, a) && PaddedOk(f, st)
    requires forall q :: InPlanes(st, q) && !Visited(r.ctr.l, q) ==> BlockAt(want, q) == BlockAt(st, q)
    ensures Hold(a, want)
  {
    hide DivRoundUp, Visited, BlockAt;
    forall ci: nat, y: nat, x: nat | ci < |a| && y < a[ci].Length0 && x < a[ci].Length1 ensures a[ci][y, x] == BlockAt(want, Pos(ci, y, x)) {
      var q := Pos(ci, y, x);
      assert PaddedSize(f, f.comps[ci], a[ci]);
      InPadded(f, st, q);
      assert r.InArrays(q);
      assert r.Right(q);
    }
  }

  /**
   * The whole way. The decoder's blocks are originals cut off at the levels of their components; the originals
   * may differ from the blocks of the image only in what the scan does not see.
   */
  method TransferScan(f: Frame, scan: seq<nat>, l: Layout, order: seq<int>, sc: Scan, interval: nat, tail: seq<Byte>, coefArrays: seq<array2<Block>>,
                      a: seq<array2<Block>>, sending: seq<bool>, reading: seq<bool>,
                      ghost img: seq<Plane>, ghost orig: seq<Plane>, ghost st: seq<Plane>, ghost levels: seq<Levels>)
    requires LaidOutAs(f, scan, l) && IsNaturalOrder(order) && ScanOk(sc) && |sc.comps| == |scan| && Unstuff(tail) == []
    requires ImageOk(f, img) && CoefPlanes(img) && HasImage(f, img, coefArrays)
    requires ArraysOk(f, a) && Hold(a, st) && PaddedOk(f, st) && CoefPlanes(orig) && AlikeImages(order, l, sc, Padded(f, img), orig)
    requires |levels| == |f.comps| && AllContinue(sc, LevelsIn(scan, levels)) && CutFrom(order, l, orig, st, levels)
    requires ImageFits(f, scan, l, order, sc, interval, img)
    modifies a
    ensures Hold(a, After(f, order, l, sc, orig, st, levels))
  {
    hide DivRoundUp, FrameOk, LayoutOk, IsNaturalOrder, ScanOk, Unstuff, CoefPlanes, ImageOk, HasImage, AlikeImages, AllContinue, CutFrom, After, McusAt, Padded,
      EncodesAll, Segments, AllDiffsFit, ScanData, Hold, ArraysOk, CoefMcus, AllBlocks, Sized, MembersOf, McusOk, AlikeMcus, PlacedOk, RowsMcus, PaddedOk, Visited, BlockAfter;
    AllMcusAt(f, scan, l, img);
    PaddedCoef(f, img);
    McusSized(f, scan, l, Padded(f, img), sc);
    McusSized(f, scan, l, orig, sc);
    ghost var members, ms, ms' := l.membership, Given(order, l.membership, McusAt(l, Padded(f, img))), Given(order, l.membership, McusAt(l, orig));
    GivenOk(order, sc, members, McusAt(l, Padded(f, img)));
    GivenOk(order, sc, members, McusAt(l, orig));
    var mcus := Send(f, scan, l, coefArrays, img, sending);
    var out, ws := EncodeScan(order, sc, interval, l.membership, mcus);
    AlikeGiven(f, scan, l, order, sc, Padded(f, img), orig);
    WrittenAlike(sc, interval, ms, ms', ws);
    CutMcus(f, scan, l, order, sc, orig, st, levels);
    var found := LoadMcus(f, scan, l, a, st);
    var back := DecodeScan(order, sc, interval, l.membership, found, out + tail, ms', ws, LevelsIn(scan, levels), tail);
    ghost var want := After(f, order, l, sc, orig, st, levels);
    Decoded(f, scan, l, order, sc, orig, st, levels, back);
    Others(f, order, l, sc, orig, st, levels);
    Consume(f, scan, l, a, back, reading, st, want);
  }

  /** Every DC difference of the scan is one the magnitude categories can express. */
  ghost predicate ImageFits(f: Frame, scan: seq<nat>, l: Layout, order: seq<int>, sc: Scan, interval: nat, img: seq<Plane>)
    requires LaidOutAs(f, scan, l) && IsNaturalOrder(order) && ScanOk(sc) && |sc.comps| == |scan| && ImageOk(f, img)
  {
    McusSized(f, scan, l, Padded(f, img), sc);
    AllDiffsFit(sc, Segments(interval, Given(order, l.membership, McusAt(l, Padded(f, img)))))
  }

  lemma Decoded(f: Frame, scan: seq<nat>, l: Layout, order: seq<int>, sc: Scan, orig: seq<Plane>, st: seq<Plane>, levels: seq<Levels>, back: seq<seq<Block>>)
    requires LaidOutAs(f, scan, l) && IsNaturalOrder(order) && ScanOk(sc) && |sc.comps| == |scan| && PaddedOk(f, st) && |levels| == |f.comps|
    requires Sized(l.membership, McusAt(l, orig)) && McusOk(sc, Given(order, l.membership, McusAt(l, orig))) && Sized(l.membership, back)
    requires Given(order, l.membership, back) == ApproxMcus(sc, Given(order, l.membership, McusAt(l, orig)), AllAfter(sc, LevelsIn(scan, levels)))
    ensures back == McusAt(l, After(f, order, l, sc, orig, st, levels))
  {
    hide IsNaturalOrder, ScanOk, CutFrom, After, McusAt, FrameOk, LayoutOk, PaddedOk, Sized, McusOk, AfterScan, Given;
    var want := After(f, order, l, sc, orig, st, levels);
    AfterIsCut(f, scan, l, order, sc, orig, st, levels);
    CutMcus(f, scan, l, order, sc, orig, want, LevelsAfter(sc, levels));
    assert AllAfter(sc, LevelsIn(scan, levels)) == LevelsIn(scan, LevelsAfter(sc, levels));
    GivenInjective(order, l.membership, back, McusAt(l, want));
  }

  lemma Others(f: Frame, order: seq<int>, l: Layout, sc: Scan, orig: seq<Plane>, st: seq<Plane>, levels: seq<Levels>)
    requires IsNaturalOrder(order) && ScanOk(sc) && FrameOk(f) && PaddedOk(f, st)
    ensures forall q :: InPlanes(st, q) && !Visited(l, q) ==> BlockAt(After(f, order, l, sc, orig, st, levels), q) == BlockAt(st, q)
  {
    AtAfter(f, order, l, sc, orig, st, levels);
  }
}
