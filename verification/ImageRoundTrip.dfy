/**
 * From coefficient arrays to coefficient arrays with one sequential scan: the arrays survive the trip
 * unchanged.
 */
module ImageRoundTrip {
  import opened Bits
  import opened Blocks
  import opened NaturalOrder
  import opened ArithScan
  import opened ArithSequential
  import opened McuGeometry
  import opened McuSequence
  import opened McuPositions
  import opened CoefControl
  import opened CoefConsume
  import opened ScanTransfer

  /** Zeroed virtual arrays for all components. */
  method NewArrays(f: Frame) returns (a: seq<array2<Block>>)
    requires FrameOk(f)
    ensures ArraysOk(f, a) && (forall ci :: 0 <= ci < |a| ==> fresh(a[ci])) && Hold(a, Nothing(f))
  {
    hide DivRoundUp;
    a := [];
    for k := 0 to |f.comps|
      invariant |a| == k && forall ci :: 0 <= ci < k ==> fresh(a[ci]) && PaddedSize(f, f.comps[ci], a[ci])
      invariant forall ci, cj :: 0 <= ci < cj < k ==> a[ci] != a[cj]
      invariant forall ci: nat, y: nat, x: nat :: ci < k && y < a[ci].Length0 && x < a[ci].Length1 ==> a[ci][y, x] == Dummy(0)
    {
      var rows: nat, cols: nat := f.iMcuRows * f.comps[k].v, McusAcross(f) * f.comps[k].h;
      var plane := new Block[rows, cols]((i, j) => Dummy(0));
      a := a + [plane];
    }
    NothingThere(f);
  }

  /** Padded arrays of zeros. */
  function Nothing(f: Frame): (st: seq<Plane>)
    requires FrameOk(f)
  {
    seq(|f.comps|, ci requires 0 <= ci < |f.comps| => ZeroPlane(f.iMcuRows, f.comps[ci].v, McusAcross(f), f.comps[ci].h))
  }

  function ZeroPlane(down: nat, v: nat, across: nat, h: nat): Plane {
    seq(down * v, _ => seq(across * h, _ => Dummy(0)))
  }

  lemma NothingThere(f: Frame)
    requires FrameOk(f)
    ensures PaddedOk(f, Nothing(f)) && forall q :: BlockAt(Nothing(f), q) == Dummy(0)
  {
    hide DivRoundUp, Dummy;
  }

  /** With no level sent, every original is cut off to zero. */
  lemma CutToNothing(f: Frame, order: seq<int>, l: Layout, orig: seq<Plane>, levels: seq<Levels>)
    requires FrameOk(f) && IsNaturalOrder(order) && forall i :: 0 <= i < |levels| ==> levels[i] == UNSEEN
    ensures CutFrom(order, l, orig, Nothing(f), levels)
  {
    NothingThere(f);
    hide DivRoundUp, Nothing, Visited, BlockAt;
    assert forall z: Zigzag :: Approx(z, UNSEEN) == seq(DCTSIZE2, _ => 0);
    assert Zz(order, Dummy(0)) == seq(DCTSIZE2, _ => 0);
  }

  /** A sequential scan leaves the original at every block it visits. */
  lemma AfterIsOriginal(f: Frame, order: seq<int>, l: Layout, sc: Scan, orig: seq<Plane>, st: seq<Plane>, levels: seq<Levels>, q: Pos)
    requires IsNaturalOrder(order) && ScanOk(sc) && !sc.progressive && FrameOk(f) && PaddedOk(f, st) && CoefPlanes(orig)
    requires Visited(l, q) && InPlanes(st, q) && q.index < |levels| && levels[q.index] == UNSEEN
    ensures BlockAt(After(f, order, l, sc, orig, st, levels), q) == BlockAt(orig, q)
  {
    AtAfter(f, order, l, sc, orig, st, levels);
    hide DivRoundUp, After, Visited, IsNaturalOrder, Approx;
    AtCoef(orig, q);
    var z := Zz(order, BlockAt(orig, q));
    ZzCoef(order, BlockAt(orig, q));
    FromNothing(sc, z, 0);
    assert AllAfter(sc, Unseen(sc))[0] == AfterScan(sc, UNSEEN);
    ZzUnzigzag(order, z);
    ZzInjective(order, Unzigzag(order, z), BlockAt(orig, q));
  }

  lemma ZzCoef(order: seq<int>, b: Block)
    requires IsNaturalOrder(order) && ArithWholeScan.CoefBlock(b)
    ensures IsBlock(Zz(order, b))
  {
  }

  lemma AllUnseen(f: Frame, scan: seq<nat>, sc: Scan, levels: seq<Levels>)
    requires ScanInFrame(f, scan) && |levels| == |f.comps| && ScanOk(sc) && !sc.progressive && |sc.comps| == |scan|
    requires forall i :: 0 <= i < |levels| ==> levels[i] == UNSEEN
    ensures AllContinue(sc, LevelsIn(scan, levels))
  {
  }

  lemma SameAreAlike(order: seq<int>, l: Layout, sc: Scan, a: seq<Plane>)
    requires IsNaturalOrder(order)
    ensures AlikeImages(order, l, sc, a, a)
  {
  }

  /**
   * One scan of a coefficient image: sent by the transcoder's controller, encoded, decoded, and stored by
   * the decoder's controller. For every image size, sampling, scan, restart interval, conditioning and
   * pattern of suspensions on either side, the arrays of the scan's components are the same again, if the
   * DC differences can be expressed.
   */
  method ImageSurvives(f: Frame, scan: seq<nat>, l: Layout, order: seq<int>, sc: Scan, interval: nat, tail: seq<Byte>,
                       coefArrays: seq<array2<Block>>, ghost img: seq<Plane>, sending: seq<bool>, reading: seq<bool>) returns (a: seq<array2<Block>>)
    requires LaidOutAs(f, scan, l) && IsNaturalOrder(order) && ScanOk(sc) && !sc.progressive && |sc.comps| == |scan| && Unstuff(tail) == []
    requires ImageOk(f, img) && CoefPlanes(img) && HasImage(f, img, coefArrays) && ImageFits(f, scan, l, order, sc, interval, img)
    ensures |a| == |f.comps| == |img| && forall i :: 0 <= i < |scan| ==> HasPlane(f.comps[scan[i]], img[scan[i]], a[scan[i]])
  {
    hide DivRoundUp, FrameOk, LayoutOk, IsNaturalOrder, ScanOk, Unstuff, CoefPlanes, ImageOk, HasImage, AlikeImages, AllContinue, CutFrom, After, Padded,
      Hold, ArraysOk, PaddedOk, Nothing, ImageFits, HasPlane;
    a := NewArrays(f);
    ghost var orig, levels := Padded(f, img), seq(|f.comps|, _ => UNSEEN);
    NothingThere(f);
    PaddedCoef(f, img);
    CutToNothing(f, order, l, orig, levels);
    AllUnseen(f, scan, sc, levels);
    SameAreAlike(order, l, sc, orig);
    TransferScan(f, scan, l, order, sc, interval, tail, coefArrays, a, sending, reading, img, orig, Nothing(f), levels);
    AllBack(f, scan, l, order, sc, img, a, levels);
  }

  lemma AllBack(f: Frame, scan: seq<nat>, l: Layout, order: seq<int>, sc: Scan, img: seq<Plane>, a: seq<array2<Block>>, levels: seq<Levels>)
    requires LaidOutAs(f, scan, l) && IsNaturalOrder(order) && ScanOk(sc) && !sc.progressive && ImageOk(f, img) && CoefPlanes(img)
    requires |levels| == |f.comps| && forall i :: 0 <= i < |levels| ==> levels[i] == UNSEEN
    requires ArraysOk(f, a) && PaddedOk(f, Nothing(f)) && Hold(a, After(f, order, l, sc, Padded(f, img), Nothing(f), levels))
    ensures |a| == |f.comps| == |img| && forall i :: 0 <= i < |scan| ==> HasPlane(f.comps[scan[i]], img[scan[i]], a[scan[i]])
  {
    hide DivRoundUp, IsNaturalOrder, ScanOk, After, Padded, Nothing, BlockAt, Visited;
    PaddedCoef(f, img);
    forall i | 0 <= i < |scan| ensures HasPlane(f.comps[scan[i]], img[scan[i]], a[scan[i]]) {
      var ci := scan[i];
      assert l.comps[i] == PlacedAs(f, scan, i);
      RealInPadded(f, f.comps[ci]);
      assert PaddedSize(f, f.comps[ci], a[ci]);
      forall y: nat, x: nat | y < f.comps[ci].heightInBlocks && x < f.comps[ci].widthInBlocks ensures a[ci][y, x] == img[ci][y][x] {
        PosInMcu(f, scan, l, i, y, x);
        InPadded(f, Nothing(f), Pos(ci, y, x));
        AfterIsOriginal(f, order, l, sc, Padded(f, img), Nothing(f), levels, Pos(ci, y, x));
        RealAt(f, img, ci, y, x);
      }
    }
  }

  lemma RealInPadded(f: Frame, c: McuGeometry.Component)
    requires FrameOk(f) && ComponentOk(f, c)
    ensures c.heightInBlocks <= f.iMcuRows * c.v && c.widthInBlocks <= McusAcross(f) * c.h
  {
    McusTile(f, c);
    hide DivRoundUp;
    Arithmetic.Distribute(f.iMcuRows, 1, c.v);
    Arithmetic.Distribute(McusAcross(f), 1, c.h);
  }

  /** The real blocks of the padded arrays are the image's. */
  lemma RealAt(f: Frame, img: seq<Plane>, ci: nat, y: nat, x: nat)
    requires FrameOk(f) && ImageOk(f, img) && ci < |f.comps| && y < f.comps[ci].heightInBlocks && x < f.comps[ci].widthInBlocks
    ensures BlockAt(Padded(f, img), Pos(ci, y, x)) == img[ci][y][x]
  {
    RealInPadded(f, f.comps[ci]);
    hide DivRoundUp, Padded, PaddedXY, BlockAt;
    AtPadded(f, img, Pos(ci, y, x));
    assert PlaneOk(f.comps[ci], img[ci]);
    RealXY(f.comps[ci], img[ci], y, x);
  }
}
