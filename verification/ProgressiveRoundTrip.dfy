/**
 * Running a whole progressive script: every scan is sent by the transcoder's coefficient controller, encoded and
 * decoded by the arithmetic codec, and stored by the decoder's coefficient controller. After the scans every
 * block of the image is held cut off where the script has left it; after the script that
 * jpeg_simple_progression writes the image is held unchanged. The padding blocks that interleaved DC scans
 * send, and the AC scans of the same components do not, go along.
 */
module ProgressiveRoundTrip {
  import opened Arithmetic
  import opened Bits
  import opened Blocks
  import opened NaturalOrder
  import opened ArithScan
  import opened ArithSegments
  import opened ArithRoundTrip
  import opened ArithWholeScan
  import opened Progression
  import opened SimpleProgression
  import opened DecoderProgression
  import opened McuGeometry
  import opened McuSequence
  import opened McuPositions
  import opened CoefControl
  import opened CoefConsume
  import opened ScanTransfer
  import opened ImageRoundTrip

  /** The conditioning: statistics tables of each component, and the L, U and Kx of each table. */
  datatype Conditioning = Conditioning(dcTbl: seq<nat>, acTbl: seq<nat>, dcL: seq<nat>, dcU: seq<nat>, acK: seq<nat>)

  predicate ConditioningOk(n: nat, cfg: Conditioning) {
    && |cfg.dcTbl| == |cfg.acTbl| == n && |cfg.dcL| == |cfg.dcU| == |cfg.acK| == 16
    && forall c :: 0 <= c < n ==> cfg.dcTbl[c] < 16 && cfg.acTbl[c] < 16
  }

  /** The scan that a line of a progressive script describes. */
  function ScanOf(n: nat, cfg: Conditioning, s: ScanInfo): Scan
    requires ConditioningOk(n, cfg) && ComponentsOk(n, s) && BandOk(s)
  {
    Scan(seq(|s.comps|, i requires 0 <= i < |s.comps| => ArithScan.Component.Component(s.comps[i], cfg.dcTbl[s.comps[i]], cfg.acTbl[s.comps[i]])),
         true, s.ss, s.se, s.ah, s.al, cfg.dcL, cfg.dcU, cfg.acK)
  }

  lemma {:induction false} LevelBounds(n: nat, script: Script, c: int)
    requires ProgressiveOk(n, script)
    ensures forall k :: -1 <= LevelAt(script, c, k) <= MAX_AH_AL
  {
    if script != [] {
      var m := |script| - 1;
      assert ProgressiveScanOk(n, script[..m], script[m]);
      assert script == script[..m] + [script[m]];
      ScansOkSnoc(n, true, script[..m], script[m]);
      LevelBounds(n, script[..m], c);
    }
  }

  /** How far the script has sent the coefficients of component c. */
  function LevelsOf(n: nat, script: Script, c: int): Levels
    requires ProgressiveOk(n, script)
  {
    hide ProgressiveOk;
    LevelBounds(n, script, c);
    seq(DCTSIZE2, k requires 0 <= k < DCTSIZE2 => LevelAt(script, c, k))
  }

  /** The levels of all components. */
  function FrameLevels(n: nat, script: Script): (ls: seq<Levels>)
    requires ProgressiveOk(n, script)
    ensures |ls| == n
  {
    seq(n, c requires 0 <= c < n => LevelsOf(n, script, c))
  }

  function CompsOf(n: nat, s: ScanInfo): (scan: seq<nat>)
    requires ComponentsOk(n, s)
    ensures |scan| == |s.comps| && forall i :: 0 <= i < |scan| ==> scan[i] == s.comps[i]
  {
    seq(|s.comps|, i requires 0 <= i < |s.comps| => s.comps[i])
  }

  /** A scan that is in order continues the levels its predecessors have left. */
  lemma ScanInOrder(n: nat, cfg: Conditioning, script: Script, s: ScanInfo)
    requires ConditioningOk(n, cfg) && ProgressiveOk(n, script) && ProgressiveScanOk(n, script, s)
    ensures ProgressiveOk(n, script + [s])
    ensures ScanOk(ScanOf(n, cfg, s)) && AllContinue(ScanOf(n, cfg, s), LevelsIn(CompsOf(n, s), FrameLevels(n, script)))
    ensures forall c: nat :: c < n ==>
              LevelsOf(n, script + [s], c) == if c in s.comps then AfterScan(ScanOf(n, cfg, s), LevelsOf(n, script, c)) else LevelsOf(n, script, c)
    ensures forall c: nat :: c < n && c in s.comps ==> Continues(ScanOf(n, cfg, s), LevelsOf(n, script, c))
  {
    hide ProgressiveOk;
    ScansOkSnoc(n, true, script, s);
    var sc, ls := ScanOf(n, cfg, s), LevelsIn(CompsOf(n, s), FrameLevels(n, script));
    assert s.comps[0] in s.comps && ContinuesFrom(script, s, s.comps[0]);
    assert StepOk(LevelAt(script, s.comps[0], s.ss), s.ah, s.al);
    assert ScanOk(sc);
    forall c: nat | c < n && c in s.comps ensures Continues(sc, LevelsOf(n, script, c)) {
      assert ContinuesFrom(script, s, c);
      forall k | s.ss <= k <= s.se ensures StepOk(LevelAt(script, c, k), s.ah, s.al) {
      }
    }
    forall i | 0 <= i < |ls| ensures Continues(sc, ls[i]) {
      assert s.comps[i] in s.comps;
    }
    forall c: nat | c < n
      ensures LevelsOf(n, script + [s], c) == if c in s.comps then AfterScan(sc, LevelsOf(n, script, c)) else LevelsOf(n, script, c)
    {
      forall k | 0 <= k < DCTSIZE2 ensures LevelAt(script + [s], c, k) == if Covers(s, c, k) then s.al else LevelAt(script, c, k) {
        LevelSnoc(script, s, c, k);
      }
    }
  }

  // ----- Blocks that are cut off already -----

  /** Nothing of the block lies below the levels. */
  predicate IsCut(z: Zigzag, l: Levels) {
    IsBlock(z) && Approx(z, l) == z
  }

  lemma ShiftOfMultiple(k: int, al: nat)
    ensures Shift(k * Pow2(al), al) == k
  {
    QuotientUnique(k * Pow2(al), Pow2(al), k, 0);
  }

  lemma TruncOfMultiple(k: int, al: nat)
    ensures TruncCoef(k * Pow2(al), al) == k
  {
    var p := Pow2(al);
    if k >= 0 {
      MulMonotone(0, k, p);
      QuotientUnique(k * p, p, k, 0);
    } else {
      MulMonotone(k, 0, p);
      assert k * p < 0 by { MulAtLeast(-k, p); NegProduct(-k, p); }
      assert -(k * p) == (-k) * p;
      QuotientUnique((-k) * p, p, -k, 0);
    }
  }

  /** Cutting off twice is cutting off once. */
  lemma CutTwice(z: Zigzag, l: Levels)
    requires IsBlock(z)
    ensures IsCut(Approx(z, l), l)
  {
    var a := Approx(z, l);
    forall k | 0 <= k < DCTSIZE2 ensures IsCoef(a[k]) && CutOff(a[k], k, l[k]) == a[k] {
      if l[k] >= 0 {
        var al: nat := l[k];
        if k == 0 {
          ShiftBounds(z[k], al);
          ShiftOfMultiple(Shift(z[k], al), al);
        } else {
          TruncBounds(z[k], al);
          TruncOfMultiple(TruncCoef(z[k], al), al);
        }
      }
    }
  }

  lemma CoarserMultiple(x: int, k: int, al: nat)
    requires x == k * Pow2(al + 1)
    ensures x == (2 * k) * Pow2(al)
  {
    Reassociate(k, Pow2(al));
  }

  /** A block that a scan passes over is cut off at the new levels as well. */
  lemma CutFiner(sc: Scan, z: Zigzag, l: Levels)
    requires ScanOk(sc) && Continues(sc, l) && IsCut(z, l)
    ensures IsCut(z, AfterScan(sc, l))
  {
    var l' := AfterScan(sc, l);
    forall k | 0 <= k < DCTSIZE2 ensures CutOff(z[k], k, l'[k]) == z[k] {
      assert CutOff(z[k], k, l[k]) == Approx(z, l)[k] == z[k];
      if sc.ss <= k <= sc.se {
        if l[k] < 0 {
          assert z[k] == 0;
          ShiftOfMultiple(0, sc.al);
          TruncOfMultiple(0, sc.al);
        } else {
          var q := if k == 0 then Shift(z[k], sc.ah) else TruncCoef(z[k], sc.ah);
          CoarserMultiple(z[k], q, sc.al);
          ShiftOfMultiple(2 * q, sc.al);
          TruncOfMultiple(2 * q, sc.al);
        }
      }
    }
  }

  // ----- What a DC scan makes of a padding block -----

  /**
   * A DC value for which the scan makes the decisions of x and which, cut off at the level before the scan, is
   * the decoder's y. Scans of its component alone pass over a padding block, so y need not stem from x.
   */
  function Completed(sc: Scan, x: int, y: int): int {
    if sc.ah == 0 then x else y + Shift(x, sc.al) % 2 * Pow2(sc.al)
  }

  lemma BitAdded(sc: Scan, x: int, y: int)
    requires ScanOk(sc) && KindOf(sc).DcRefine? && IsCoef(y) && Shift(y, sc.ah) * Pow2(sc.ah) == y
    ensures IsCoef(Completed(sc, x, y)) && Shift(Completed(sc, x, y), sc.ah) * Pow2(sc.ah) == y
    ensures Shift(Completed(sc, x, y), sc.al) % 2 == Shift(x, sc.al) % 2
  {
    hide Shift, Pow2, IsCoef;
    OneBitMore(y, Shift(y, sc.ah), sc.al, Shift(x, sc.al) % 2);
  }

  lemma OneBitMore(y: int, k: int, al: nat, bit: int)
    requires al <= 13 && IsCoef(y) && y == k * Pow2(al + 1) && 0 <= bit <= 1
    ensures IsCoef(y + bit * Pow2(al)) && Shift(y + bit * Pow2(al), al) == 2 * k + bit && Shift(y + bit * Pow2(al), al + 1) == k
  {
    hide Shift, IsCoef, Pow2;
    var p, c := Pow2(al), y + bit * Pow2(al);
    CoarserMultiple(y, k, al);
    Distribute(2 * k, bit, p);
    ShiftOfMultiple(2 * k + bit, al);
    HalfShift(c, al);
    RoomForBit(y, k, al, if bit == 0 then 0 else p);
  }

  /** A multiple of twice the power leaves room for a bit. */
  lemma RoomForBit(y: int, k: int, al: nat, b: int)
    requires al <= 13 && IsCoef(y) && y == k * Pow2(al + 1) && 0 <= b <= Pow2(al)
    ensures IsCoef(y + b)
  {
    var q: int := Pow2(14 - al);
    var p: int := Pow2(al + 1);
    Pow2Values();
    Pow2Add(14 - al, al + 1);
    assert q * p == 0x8000;
    MulCancel(k, q - 1, p);
    MulCancel(q, k, p);
    Distribute(q, 1, p);
    assert k * p < q * p;
    assert k < q;
    MulMonotone(k, q - 1, p);
  }

  // ----- The state of the decoder's arrays -----

  /** A block of the image, not padding. */
  predicate Real(f: Frame, q: Pos) {
    q.index < |f.comps| && q.y < f.comps[q.index].heightInBlocks && q.x < f.comps[q.index].widthInBlocks
  }

  /** A block of the image is the original cut off at the levels of its component, padding is at least cut off there. */
  ghost predicate BlockOk(f: Frame, order: seq<int>, levels: seq<Levels>, orig: seq<Plane>, st: seq<Plane>, q: Pos)
    requires IsNaturalOrder(order)
  {
    q.index < |levels|
    && if Real(f, q) then Zz(order, BlockAt(st, q)) == Approx(Zz(order, BlockAt(orig, q)), levels[q.index])
       else IsCut(Zz(order, BlockAt(st, q)), levels[q.index])
  }

  ghost predicate StateOk(f: Frame, order: seq<int>, levels: seq<Levels>, orig: seq<Plane>, st: seq<Plane>)
    requires IsNaturalOrder(order)
  {
    forall q :: InPlanes(st, q) ==> BlockOk(f, order, levels, orig, st, q)
  }

  /** What the scan may be taken to have been made from: the image, and padding to match the decoder's. */
  ghost function SourceBlock(f: Frame, sc: Scan, scan: seq<nat>, orig: seq<Plane>, st: seq<Plane>, q: Pos): Block
  {
    if Real(f, q) then BlockAt(orig, q)
    else if sc.ss == 0 && q.index in scan then BlockAt(st, q)[0 := Completed(sc, BlockAt(orig, q)[0], BlockAt(st, q)[0])]
    else BlockAt(st, q)
  }

  ghost function Source(f: Frame, sc: Scan, scan: seq<nat>, orig: seq<Plane>, st: seq<Plane>): (src: seq<Plane>)
    ensures |src| == |st| && forall q :: InPlanes(st, q) ==> BlockAt(src, q) == SourceBlock(f, sc, scan, orig, st, q)
  {
    seq(|st|, ci requires 0 <= ci < |st| =>
      seq(|st[ci]|, y requires 0 <= y < |st[ci]| =>
        seq(|st[ci][y]|, x requires 0 <= x < |st[ci][y]| => SourceBlock(f, sc, scan, orig, st, Pos(ci, y, x)))))
  }

  lemma ZzDc(order: seq<int>, b: Block, x: int)
    requires IsNaturalOrder(order)
    ensures Zz(order, b[0 := x]) == Zz(order, b)[0 := x] && Zz(order, b)[0] == b[0]
  {
    ZzUpdate(order, b, 0, x);
  }

  lemma UpdateDc(z: Zigzag, x: int, l: Levels)
    ensures Approx(z[0 := x], l) == Approx(z, l)[0 := CutOff(x, 0, l[0])]
  {
  }

  /** The padding of a DC scan. */
  lemma PaddingCompleted(order: seq<int>, sc: Scan, b: Block, x: int, l: Levels)
    requires IsNaturalOrder(order) && ScanOk(sc) && sc.progressive && sc.ss == 0 && Continues(sc, l) && IsCut(Zz(order, b), l) && IsCoef(x)
    ensures var b' := b[0 := Completed(sc, x, b[0])];
            IsBlock(Zz(order, b')) && Approx(Zz(order, b'), l) == Zz(order, b)
            && forall c: Block :: c[0] == x ==> Alike(sc, Zz(order, c), Zz(order, b'))
  {
    var y := Completed(sc, x, b[0]);
    var z := Zz(order, b);
    ZzDc(order, b, y);
    UpdateDc(z, y, l);
    assert CutOff(z[0], 0, l[0]) == Approx(z, l)[0] == z[0];
    if sc.ah == 0 {
      assert CutOff(y, 0, l[0]) == z[0];
    } else {
      BitAdded(sc, x, b[0]);
    }
    assert Approx(z, l)[0 := z[0]] == z;
    forall c: Block | c[0] == x ensures Alike(sc, Zz(order, c), Zz(order, b[0 := y])) {
      ZzDc(order, c, x);
    }
  }

  /** The situation before a scan. */
  ghost predicate Situation(f: Frame, order: seq<int>, sc: Scan, scan: seq<nat>, l: Layout, levels: seq<Levels>, orig: seq<Plane>, st: seq<Plane>) {
    && LaidOutAs(f, scan, l) && IsNaturalOrder(order) && ScanOk(sc) && sc.progressive && |sc.comps| == |scan|
    && |levels| == |f.comps| && (forall i :: 0 <= i < |scan| ==> scan[i] < |levels| && Continues(sc, levels[scan[i]]))
    && PaddedOk(f, orig) && PaddedOk(f, st) && CoefPlanes(orig) && StateOk(f, order, levels, orig, st)
  }

  /** One block, as the scan may be taken to have been made from it. */
  lemma SourceIsRight(f: Frame, order: seq<int>, sc: Scan, scan: seq<nat>, l: Layout, levels: seq<Levels>, orig: seq<Plane>, st: seq<Plane>, q: Pos)
    requires Situation(f, order, sc, scan, l, levels, orig, st) && InPlanes(st, q)
    ensures var b := SourceBlock(f, sc, scan, orig, st, q);
            && IsBlock(Zz(order, b)) && q.index < |levels|
            && Zz(order, BlockAt(st, q)) == Approx(Zz(order, b), levels[q.index])
            && (Real(f, q) || (sc.ss == 0 && q.index in scan) ==> Alike(sc, Zz(order, BlockAt(orig, q)), Zz(order, b)))
  {
    hide DivRoundUp, ScanOk, LaidOutAs, PaddedOk, CoefPlanes, BlockAt, Alike, Zz, Continues, Completed, IsNaturalOrder, Approx, IsBlock;
    assert BlockOk(f, order, levels, orig, st, q);
    AtCoef(orig, q);
    ZzCoef(order, BlockAt(orig, q));
    if Real(f, q) {
      AlikeItself(sc, Zz(order, BlockAt(orig, q)));
    } else if sc.ss == 0 && q.index in scan {
      var i :| 0 <= i < |scan| && scan[i] == q.index;
      PaddingCompleted(order, sc, BlockAt(st, q), BlockAt(orig, q)[0], levels[q.index]);
    }
  }

  lemma AlikeItself(sc: Scan, z: Zigzag)
    ensures Alike(sc, z, z)
  {
  }

  /** Padding is visited by DC scans only: a scan of AC coefficients has a single component, and visits its image. */
  lemma VisitedIsSeen(f: Frame, order: seq<int>, sc: Scan, scan: seq<nat>, l: Layout, st: seq<Plane>, q: Pos)
    requires LaidOutAs(f, scan, l) && ScanOk(sc) && sc.progressive && |sc.comps| == |scan| && PaddedOk(f, st) && Visited(l, q)
    ensures InPlanes(st, q) && q.index in scan && (Real(f, q) || sc.ss == 0)
  {
    hide DivRoundUp, McuPos, LayoutOk, PaddedOk;
    var r: nat, c: nat :| r < l.mcuRows && c < l.mcusPerRow && q in McuPos(l.comps, r, c);
    VisitedExists(f, scan, l, r, c, q);
    InPadded(f, st, q);
  }

  /** The scan may be taken to have been made from the source, and the decoder has that cut off where it should be. */
  lemma SourceFits(f: Frame, order: seq<int>, sc: Scan, scan: seq<nat>, l: Layout, levels: seq<Levels>, orig: seq<Plane>, st: seq<Plane>)
    requires Situation(f, order, sc, scan, l, levels, orig, st)
    ensures var src := Source(f, sc, scan, orig, st);
            CoefPlanes(src) && AlikeImages(order, l, sc, orig, src) && CutFrom(order, l, src, st, levels)
  {
    var src := Source(f, sc, scan, orig, st);
    SourceCoef(f, order, sc, scan, l, levels, orig, st);
    hide DivRoundUp, Source, BlockAt, Zz, Approx, Alike, SourceBlock, Visited;
    forall q | Visited(l, q)
      ensures Alike(sc, Zz(order, BlockAt(orig, q)), Zz(order, BlockAt(src, q)))
      ensures q.index < |levels| ==> Zz(order, BlockAt(st, q)) == Approx(Zz(order, BlockAt(src, q)), levels[q.index])
    {
      VisitedIsSeen(f, order, sc, scan, l, st, q);
      SourceIsRight(f, order, sc, scan, l, levels, orig, st, q);
    }
  }

  lemma SourceCoef(f: Frame, order: seq<int>, sc: Scan, scan: seq<nat>, l: Layout, levels: seq<Levels>, orig: seq<Plane>, st: seq<Plane>)
    requires Situation(f, order, sc, scan, l, levels, orig, st)
    ensures CoefPlanes(Source(f, sc, scan, orig, st))
  {
    hide DivRoundUp, Situation, Zz, SourceBlock, CoefBlock;
    var src := Source(f, sc, scan, orig, st);
    SituationOrder(f, order, sc, scan, l, levels, orig, st);
    forall ci, y, x | 0 <= ci < |src| && 0 <= y < |src[ci]| && 0 <= x < |src[ci][y]| ensures CoefBlock(src[ci][y][x]) {
      SourceIsRight(f, order, sc, scan, l, levels, orig, st, Pos(ci, y, x));
      BlockCoef(order, SourceBlock(f, sc, scan, orig, st, Pos(ci, y, x)));
    }
    forall ci | 0 <= ci < |src| ensures CoefPlane(src[ci]) {
      RowsCoef(src[ci]);
    }
  }

  lemma SituationOrder(f: Frame, order: seq<int>, sc: Scan, scan: seq<nat>, l: Layout, levels: seq<Levels>, orig: seq<Plane>, st: seq<Plane>)
    requires Situation(f, order, sc, scan, l, levels, orig, st)
    ensures IsNaturalOrder(order)
  {
  }

  lemma BlockCoef(order: seq<int>, b: Block)
    requires IsNaturalOrder(order) && IsBlock(Zz(order, b))
    ensures CoefBlock(b)
  {
    forall p | 0 <= p < DCTSIZE2 ensures IsCoef(b[p]) {
      var k := PositionOf(order, p);
      assert Zz(order, b)[k] == b[p];
    }
  }

  /** The levels behind the scan. */
  predicate Advanced(sc: Scan, scan: seq<nat>, levels: seq<Levels>, levels': seq<Levels>)
    requires ScanOk(sc)
  {
    |levels'| == |levels| && forall c: nat :: c < |levels| ==> levels'[c] == if c in scan then AfterScan(sc, levels[c]) else levels[c]
  }

  /** Behind the scan the arrays are in order again. */
  lemma StateAfter(f: Frame, order: seq<int>, sc: Scan, scan: seq<nat>, l: Layout, levels: seq<Levels>, levels': seq<Levels>, orig: seq<Plane>, st: seq<Plane>)
    requires Situation(f, order, sc, scan, l, levels, orig, st) && Advanced(sc, scan, levels, levels')
    ensures var st' := After(f, order, l, sc, Source(f, sc, scan, orig, st), st, levels);
            PaddedOk(f, st') && StateOk(f, order, levels', orig, st')
  {
    var src := Source(f, sc, scan, orig, st);
    var st' := After(f, order, l, sc, src, st, levels);
    AtAfter(f, order, l, sc, src, st, levels);
    hide DivRoundUp, Source, After, Zz, Approx, SourceBlock, Visited, ScanOk, IsNaturalOrder, IsCut, Continues, AfterScan, BlockAt, InPlanes, BlockOk;
    forall q | InPlanes(st', q) ensures BlockOk(f, order, levels', orig, st', q) {
      SameShape(f, st, st', q);
      BlockOkAfter(f, order, sc, scan, l, levels, levels', orig, st, q, BlockAt(st', q));
      OneBlock(f, order, levels', orig, st', q);
    }
  }

  lemma SameShape(f: Frame, st: seq<Plane>, st': seq<Plane>, q: Pos)
    requires f.maxH > 0 && PaddedOk(f, st) && PaddedOk(f, st') && InPlanes(st', q)
    ensures InPlanes(st, q)
  {
    assert PaddedPlane(f, f.comps[q.index], st[q.index]) && PaddedPlane(f, f.comps[q.index], st'[q.index]);
  }

  lemma OneBlock(f: Frame, order: seq<int>, levels: seq<Levels>, orig: seq<Plane>, st: seq<Plane>, q: Pos)
    requires IsNaturalOrder(order) && q.index < |levels|
    requires if Real(f, q) then Zz(order, BlockAt(st, q)) == Approx(Zz(order, BlockAt(orig, q)), levels[q.index])
             else IsCut(Zz(order, BlockAt(st, q)), levels[q.index])
    ensures BlockOk(f, order, levels, orig, st, q)
  {
  }

  /** One block. */
  lemma BlockOkAfter(f: Frame, order: seq<int>, sc: Scan, scan: seq<nat>, l: Layout, levels: seq<Levels>, levels': seq<Levels>, orig: seq<Plane>, st: seq<Plane>,
                     q: Pos, b: Block)
    requires Situation(f, order, sc, scan, l, levels, orig, st) && Advanced(sc, scan, levels, levels') && InPlanes(st, q)
    requires b == BlockAfter(order, l, sc, Source(f, sc, scan, orig, st), st, levels, q)
    ensures q.index < |levels'|
    ensures if Real(f, q) then Zz(order, b) == Approx(Zz(order, BlockAt(orig, q)), levels'[q.index]) else IsCut(Zz(order, b), levels'[q.index])
  {
    var src := Source(f, sc, scan, orig, st);
    hide DivRoundUp, Source, Zz, Approx, Visited, IsNaturalOrder, IsCut, IsBlock, Alike, AfterScan, BlockAt, LayoutOk, FrameOk, Continues;
    assert BlockOk(f, order, levels, orig, st, q);
    if Visited(l, q) {
      VisitedIsSeen(f, order, sc, scan, l, st, q);
      SourceIsRight(f, order, sc, scan, l, levels, orig, st, q);
      ZzUnzigzag(order, Approx(Zz(order, BlockAt(src, q)), AfterScan(sc, levels[q.index])));
      CutTwice(Zz(order, BlockAt(src, q)), AfterScan(sc, levels[q.index]));
    } else if q.index in scan {
      if Real(f, q) {
        RealIsVisited(f, scan, l, q);
        assert false;
      }
      var i :| 0 <= i < |scan| && scan[i] == q.index;
      CutFiner(sc, Zz(order, BlockAt(st, q)), levels[q.index]);
    }
  }

  lemma RealIsVisited(f: Frame, scan: seq<nat>, l: Layout, q: Pos)
    requires LaidOutAs(f, scan, l) && Real(f, q) && q.index in scan
    ensures Visited(l, q)
  {
    hide DivRoundUp, Visited, McuPos;
    var i :| 0 <= i < |scan| && scan[i] == q.index;
    assert l.comps[i] == PlacedAs(f, scan, i);
    PosInMcu(f, scan, l, i, q.y, q.x);
  }

  // ----- DC differences after a point transform -----

  predicate SmallPredictions(d: DcState) {
    forall i :: 0 <= i < |d.last| ==> -0x4000 <= d.last[i] < 0x4000
  }

  lemma ShiftedIsSmall(x: int, al: nat)
    requires IsCoef(x) && 1 <= al <= 15
    ensures -0x4000 <= Shift(x, al) < 0x4000
  {
    var k: nat := al - 1;
    HalfShift(x, k);
    ShiftBounds(x, k);
    var p: int := Pow2(k);
    var q := Shift(x, k);
    FactorGrows(q, p);
  }

  lemma FactorGrows(q: int, p: int)
    requires p >= 1
    ensures (q >= 0 ==> q * p >= q) && (q < 0 ==> q * p <= q)
  {
    if q >= 0 {
      MulMonotone(1, p, q);
    } else {
      MulMonotone(1, p, -q);
    }
  }

  /** With a point transform of at least one bit every DC difference can be expressed; so it is where none is sent. */
  lemma {:induction false} TransformedFits(sc: Scan, d: DcState, vs: seq<Visit>)
    requires ScanOk(sc) && DcOk(sc, d) && VisitsOk(sc, vs) && AreBlocks(vs)
    requires UsesDc(sc) ==> sc.al >= 1 && SmallPredictions(d)
    ensures DiffsFit(sc, d, vs)
    decreases |vs|
  {
    if vs != [] {
      var v := vs[0];
      if UsesDc(sc) {
        ShiftedIsSmall(v.z[0], sc.al);
      }
      TransformedFits(sc, NextDc(sc, v.ci, d, v.z), vs[1..]);
    }
  }

  lemma AllTransformedFit(sc: Scan, segs: seq<seq<Visit>>)
    requires ScanOk(sc) && SegmentsFit(sc, segs) && forall i :: 0 <= i < |segs| ==> AreBlocks(segs[i])
    requires UsesDc(sc) ==> sc.al >= 1
    ensures AllDiffsFit(sc, segs)
  {
    hide DiffsFit;
    forall i | 0 <= i < |segs| ensures VisitsOk(sc, segs[i]) && DiffsFit(sc, Fresh(sc), segs[i]) {
      TransformedFits(sc, Fresh(sc), segs[i]);
    }
  }

  /** A scan of the image in which no plain DC difference is sent. */
  lemma TransformedImageFits(f: Frame, scan: seq<nat>, l: Layout, order: seq<int>, sc: Scan, interval: nat, img: seq<Plane>)
    requires LaidOutAs(f, scan, l) && IsNaturalOrder(order) && ScanOk(sc) && |sc.comps| == |scan| && ImageOk(f, img) && CoefPlanes(img)
    requires UsesDc(sc) ==> sc.al >= 1
    ensures ImageFits(f, scan, l, order, sc, interval, img)
  {
    hide Segments, AreBlocks, McusAt, Padded, FrameOk, LayoutOk, IsNaturalOrder, ScanOk, AllDiffsFit, CoefPlanes, ImageOk, CoefMcus;
    PaddedCoef(f, img);
    McusSized(f, scan, l, Padded(f, img), sc);
    GivenOk(order, sc, l.membership, McusAt(l, Padded(f, img)));
    var ms := Given(order, l.membership, McusAt(l, Padded(f, img)));
    SegmentsOk(sc, interval, ms);
    SegmentsBlocks(interval, ms);
    AllTransformedFit(sc, Segments(interval, ms));
  }

  // ----- Whole scripts -----

  /** What is chosen for one scan: the restart interval, what follows the data, and when either side suspends. */
  datatype Passage = Passage(interval: nat, tail: seq<Byte>, sending: seq<bool>, reading: seq<bool>)

  /** A first DC scan without point transform is the only kind whose differences could be out of range. */
  predicate IsPlainDc(s: ScanInfo) {
    s.ss == 0 && s.ah == 0 && s.al == 0
  }

  ghost predicate PlainDcFits(f: Frame, order: seq<int>, cfg: Conditioning, s: ScanInfo, interval: nat, img: seq<Plane>)
    requires IsNaturalOrder(order) && ImageOk(f, img) && ConditioningOk(|f.comps|, cfg) && ComponentsOk(|f.comps|, s) && BandOk(s)
    requires ScanOk(ScanOf(|f.comps|, cfg, s))
  {
    forall l :: LaidOutAs(f, CompsOf(|f.comps|, s), l) ==>
      ImageFits(f, CompsOf(|f.comps|, s), l, order, ScanOf(|f.comps|, cfg, s), interval, img)
  }

  ghost predicate ScriptFits(f: Frame, order: seq<int>, cfg: Conditioning, script: Script, passages: seq<Passage>, img: seq<Plane>)
    requires IsNaturalOrder(order) && ImageOk(f, img) && ConditioningOk(|f.comps|, cfg) && |passages| == |script|
  {
    forall i :: 0 <= i < |script| && IsPlainDc(script[i]) && ComponentsOk(|f.comps|, script[i]) && BandOk(script[i]) && ScanOk(ScanOf(|f.comps|, cfg, script[i])) ==>
      PlainDcFits(f, order, cfg, script[i], passages[i].interval, img)
  }

  /** An MCU of the scan has at most 10 blocks. */
  predicate McuFitsIn(f: Frame, s: ScanInfo)
    requires FrameOk(f) && ComponentsOk(|f.comps|, s)
  {
    var scan := CompsOf(|f.comps|, s);
    FrameOrder(f, s);
    |scan| == 1 || BlocksOf(seq(|scan|, i requires 0 <= i < |scan| => PlacedAs(f, scan, i))) <= C_MAX_BLOCKS_IN_MCU
  }

  lemma FrameOrder(f: Frame, s: ScanInfo)
    requires FrameOk(f) && ComponentsOk(|f.comps|, s)
    ensures ScanInFrame(f, CompsOf(|f.comps|, s))
  {
  }

  /** The array holds the block of the plane cut off at the levels. */
  ghost predicate HeldCut(order: seq<int>, l: Levels, rows: Plane, a: array2<Block>, y: nat, x: nat)
    requires IsNaturalOrder(order)
    reads a
  {
    y < a.Length0 && x < a.Length1 && y < |rows| && x < |rows[y]| && Zz(order, a[y, x]) == Approx(Zz(order, rows[y][x]), l)
  }

  /** The arrays hold every block of the image cut off where the script leaves it. */
  ghost predicate ImageCutTo(f: Frame, order: seq<int>, script: Script, img: seq<Plane>, a: seq<array2<Block>>)
    requires FrameOk(f) && IsNaturalOrder(order) && ImageOk(f, img) && ProgressiveOk(|f.comps|, script)
    reads a
  {
    ArraysOk(f, a)
    && forall ci: nat, y: nat, x: nat :: ci < |f.comps| && y < f.comps[ci].heightInBlocks && x < f.comps[ci].widthInBlocks ==>
         HeldCut(order, LevelsOf(|f.comps|, script, ci), img[ci], a[ci], y, x)
  }

  lemma StateMeans(f: Frame, order: seq<int>, script: Script, img: seq<Plane>, a: seq<array2<Block>>, st: seq<Plane>)
    requires FrameOk(f) && IsNaturalOrder(order) && ImageOk(f, img) && ProgressiveOk(|f.comps|, script)
    requires ArraysOk(f, a) && PaddedOk(f, st) && Hold(a, st) && StateOk(f, order, FrameLevels(|f.comps|, script), Padded(f, img), st)
    ensures ImageCutTo(f, order, script, img, a)
  {
    hide DivRoundUp, Zz, Approx, IsNaturalOrder, Padded, BlockAt, LevelsOf, ProgressiveOk, IsCut;
    forall ci: nat, y: nat, x: nat | ci < |f.comps| && y < f.comps[ci].heightInBlocks && x < f.comps[ci].widthInBlocks
      ensures HeldCut(order, LevelsOf(|f.comps|, script, ci), img[ci], a[ci], y, x)
    {
      assert PlaneOk(f.comps[ci], img[ci]);
      RealInPadded(f, f.comps[ci]);
      assert PaddedSize(f, f.comps[ci], a[ci]);
      InPadded(f, st, Pos(ci, y, x));
      assert BlockOk(f, order, FrameLevels(|f.comps|, script), Padded(f, img), st, Pos(ci, y, x));
      RealAt(f, img, ci, y, x);
    }
  }

  lemma NothingSent(f: Frame, order: seq<int>, img: seq<Plane>)
    requires FrameOk(f) && IsNaturalOrder(order) && ImageOk(f, img)
    ensures ProgressiveOk(|f.comps|, []) && PaddedOk(f, Nothing(f)) && StateOk(f, order, FrameLevels(|f.comps|, []), Padded(f, img), Nothing(f))
  {
    StartOk(|f.comps|);
    NothingThere(f);
    hide DivRoundUp, Nothing, BlockAt, Padded;
    assert forall c: nat :: c < |f.comps| ==> LevelsOf(|f.comps|, [], c) == UNSEEN;
    assert Zz(order, Dummy(0)) == seq(DCTSIZE2, _ => 0);
    assert forall z: Zigzag :: Approx(z, UNSEEN) == seq(DCTSIZE2, _ => 0);
    forall q | InPlanes(Nothing(f), q) ensures BlockOk(f, order, FrameLevels(|f.comps|, []), Padded(f, img), Nothing(f), q) {
    }
  }

  /** One scan of a script; false stands for the error exit on an MCU of too many blocks. */
  method RunScan(f: Frame, order: seq<int>, cfg: Conditioning, s: ScanInfo, p: Passage, coefArrays: seq<array2<Block>>, a: seq<array2<Block>>,
                 ghost before: Script, ghost img: seq<Plane>, ghost st: seq<Plane>) returns (ok: bool, ghost st': seq<Plane>)
    requires FrameOk(f) && IsNaturalOrder(order) && ConditioningOk(|f.comps|, cfg) && Unstuff(p.tail) == []
    requires ProgressiveOk(|f.comps|, before) && ProgressiveScanOk(|f.comps|, before, s)
    requires ImageOk(f, img) && CoefPlanes(img) && HasImage(f, img, coefArrays)
    requires IsPlainDc(s) && ScanOk(ScanOf(|f.comps|, cfg, s)) ==> PlainDcFits(f, order, cfg, s, p.interval, img)
    requires ArraysOk(f, a) && PaddedOk(f, st) && Hold(a, st) && StateOk(f, order, FrameLevels(|f.comps|, before), Padded(f, img), st)
    modifies a
    ensures ok <==> McuFitsIn(f, s)
    ensures ok ==> ProgressiveOk(|f.comps|, before + [s]) && PaddedOk(f, st') && Hold(a, st')
    ensures ok ==> StateOk(f, order, FrameLevels(|f.comps|, before + [s]), Padded(f, img), st')
  {
    hide DivRoundUp, FrameOk, IsNaturalOrder, ScanOk, Unstuff, CoefPlanes, ImageOk, HasImage, AlikeImages, AllContinue, CutFrom, After, Padded, Hold, ArraysOk, PaddedOk,
      ImageFits, StateOk, ProgressiveOk, Source, Visited, LayoutOk, Continues, AfterScan, LevelsOf, PlacedAs, BlocksOf, BandOk, ConditioningOk, ComponentsOk;
    ghost var n, levels := |f.comps|, FrameLevels(|f.comps|, before);
    var scan, sc := CompsOf(|f.comps|, s), ScanOf(|f.comps|, cfg, s);
    FrameOrder(f, s);
    ScanInOrder(n, cfg, before, s);
    var l;
    ok, l := PerScanSetup(f, scan);
    st' := st;
    if ok {
      SituationHolds(f, order, cfg, before, s, l, img, st);
      SourceFits(f, order, sc, scan, l, levels, Padded(f, img), st);
      ScanFits(f, order, cfg, s, l, p.interval, img);
      ghost var src := Source(f, sc, scan, Padded(f, img), st);
      TransferScan(f, scan, l, order, sc, p.interval, p.tail, coefArrays, a, p.sending, p.reading, img, src, st, levels);
      st' := After(f, order, l, sc, src, st, levels);
      AdvancedBy(f, cfg, before, s);
      StateAfter(f, order, sc, scan, l, levels, FrameLevels(n, before + [s]), Padded(f, img), st);
    }
  }

  lemma SituationHolds(f: Frame, order: seq<int>, cfg: Conditioning, before: Script, s: ScanInfo, l: Layout, img: seq<Plane>, st: seq<Plane>)
    requires FrameOk(f) && IsNaturalOrder(order) && ConditioningOk(|f.comps|, cfg) && ImageOk(f, img) && CoefPlanes(img)
    requires ProgressiveOk(|f.comps|, before) && ProgressiveScanOk(|f.comps|, before, s)
    requires ScanInFrame(f, CompsOf(|f.comps|, s)) && LaidOutAs(f, CompsOf(|f.comps|, s), l)
    requires PaddedOk(f, st) && StateOk(f, order, FrameLevels(|f.comps|, before), Padded(f, img), st)
    ensures Situation(f, order, ScanOf(|f.comps|, cfg, s), CompsOf(|f.comps|, s), l, FrameLevels(|f.comps|, before), Padded(f, img), st)
  {
    ScanInOrder(|f.comps|, cfg, before, s);
    PaddedCoef(f, img);
    hide DivRoundUp, ProgressiveOk, ScanOk, CoefPlanes, StateOk, Padded, Continues, LevelsOf, ContinuesFrom, IsNaturalOrder, LayoutOk;
    var scan, levels := CompsOf(|f.comps|, s), FrameLevels(|f.comps|, before);
    forall i | 0 <= i < |scan| ensures scan[i] < |levels| && Continues(ScanOf(|f.comps|, cfg, s), levels[scan[i]]) {
      assert s.comps[i] in s.comps;
    }
  }

  lemma ScanFits(f: Frame, order: seq<int>, cfg: Conditioning, s: ScanInfo, l: Layout, interval: nat, img: seq<Plane>)
    requires FrameOk(f) && IsNaturalOrder(order) && ConditioningOk(|f.comps|, cfg) && ComponentsOk(|f.comps|, s) && BandOk(s)
    requires ScanOk(ScanOf(|f.comps|, cfg, s)) && ImageOk(f, img) && CoefPlanes(img) && LaidOutAs(f, CompsOf(|f.comps|, s), l)
    requires IsPlainDc(s) ==> PlainDcFits(f, order, cfg, s, interval, img)
    ensures ImageFits(f, CompsOf(|f.comps|, s), l, order, ScanOf(|f.comps|, cfg, s), interval, img)
  {
    hide FrameOk, IsNaturalOrder, ConditioningOk, ScanOk, CoefPlanes, ImageOk, LaidOutAs, ImageFits;
    if !IsPlainDc(s) {
      TransformedImageFits(f, CompsOf(|f.comps|, s), l, order, ScanOf(|f.comps|, cfg, s), interval, img);
    }
  }

  lemma AdvancedBy(f: Frame, cfg: Conditioning, before: Script, s: ScanInfo)
    requires ConditioningOk(|f.comps|, cfg) && ProgressiveOk(|f.comps|, before) && ProgressiveScanOk(|f.comps|, before, s)
    ensures ProgressiveOk(|f.comps|, before + [s]) && ScanOk(ScanOf(|f.comps|, cfg, s))
    ensures Advanced(ScanOf(|f.comps|, cfg, s), CompsOf(|f.comps|, s), FrameLevels(|f.comps|, before), FrameLevels(|f.comps|, before + [s]))
  {
    ScanInOrder(|f.comps|, cfg, before, s);
    hide ProgressiveOk, ScanOk, LevelsOf, ContinuesFrom, AfterScan, ConditioningOk, ScanOf;
    forall c: nat | c < |f.comps| ensures c in CompsOf(|f.comps|, s) <==> c in s.comps {
      if c in s.comps {
        var i :| 0 <= i < |s.comps| && s.comps[i] == c;
        assert CompsOf(|f.comps|, s)[i] == c;
      }
    }
  }

  /**
   * All scans of a script that is in order, for every image, conditioning, choice of restart intervals and
   * pattern of suspensions: afterwards every block of the image is held cut off where the script leaves it,
   * and the decoder has not warned about the order of the scans.
   * (A part of a script that is in order is in order, so this holds after each of its scans.)
   */
  method ScriptRoundTrip(f: Frame, order: seq<int>, cfg: Conditioning, script: Script, passages: seq<Passage>, coefArrays: seq<array2<Block>>, ghost img: seq<Plane>)
    returns (ok: bool, warned: bool, a: seq<array2<Block>>)
    requires FrameOk(f) && IsNaturalOrder(order) && ConditioningOk(|f.comps|, cfg) && ProgressiveOk(|f.comps|, script)
    requires |passages| == |script| && forall i :: 0 <= i < |passages| ==> Unstuff(passages[i].tail) == []
    requires ImageOk(f, img) && CoefPlanes(img) && HasImage(f, img, coefArrays) && ScriptFits(f, order, cfg, script, passages, img)
    ensures ok <==> forall i :: 0 <= i < |script| ==> ComponentsOk(|f.comps|, script[i]) && McuFitsIn(f, script[i])
    ensures ok ==> ImageCutTo(f, order, script, img, a)
    ensures !warned
  {
    hide DivRoundUp, FrameOk, IsNaturalOrder, Unstuff, CoefPlanes, ImageOk, HasImage, Padded, Hold, ArraysOk, PaddedOk, StateOk, ProgressiveOk, Nothing,
      ConditioningOk, ImageCutTo, McuFitsIn, ScriptFits, ProgressiveScanOk, FrameLevels, ScanStatus.Describes, Bogus;
    SomeComponents(f);
    warned := false;
    var status := new ScanStatus(|f.comps|);
    a := NewArrays(f);
    NothingSent(f, order, img);
    ghost var st := Nothing(f);
    assert script[..0] == [];
    for i := 0 to |script|
      invariant ArraysOk(f, a) && PaddedOk(f, st) && Hold(a, st) && HasImage(f, img, coefArrays)
      invariant ProgressiveOk(|f.comps|, script[..i]) && StateOk(f, order, FrameLevels(|f.comps|, script[..i]), Padded(f, img), st)
      invariant forall j :: 0 <= j < i ==> ComponentsOk(|f.comps|, script[j]) && McuFitsIn(f, script[j])
      invariant !warned && status.n == |f.comps| && status.Describes(script[..i])
      modifies a, status.coefBits
    {
      InOrder(f, order, cfg, script, passages, img, i);
      InOrderIsExpected(|f.comps|, script[..i], script[i]);
      warned := status.StartScan(script[i], script[..i]);
      ok, st := RunScan(f, order, cfg, script[i], passages[i], coefArrays, a, script[..i], img, st);
      if !ok {
        return;
      }
      assert script[..i + 1] == script[..i] + [script[i]];
    }
    assert script[..|script|] == script;
    StateMeans(f, order, script, img, a, st);
    ok := true;
  }

  lemma InOrder(f: Frame, order: seq<int>, cfg: Conditioning, script: Script, passages: seq<Passage>, img: seq<Plane>, i: nat)
    requires IsNaturalOrder(order) && ImageOk(f, img) && ConditioningOk(|f.comps|, cfg) && |passages| == |script| && ProgressiveOk(|f.comps|, script) && i < |script|
    requires ScriptFits(f, order, cfg, script, passages, img)
    ensures ProgressiveScanOk(|f.comps|, script[..i], script[i]) && ComponentsOk(|f.comps|, script[i]) && BandOk(script[i])
    ensures IsPlainDc(script[i]) && ScanOk(ScanOf(|f.comps|, cfg, script[i])) ==> PlainDcFits(f, order, cfg, script[i], passages[i].interval, img)
  {
    hide ScanOk, PlainDcFits, ContinuesFrom, ImageOk, IsNaturalOrder;
    assert ProgressiveScanOk(|f.comps|, script[..i], script[i]);
  }

  lemma ApproxAtZero(z: Zigzag, l: Levels)
    requires IsBlock(z) && forall k :: 0 <= k < DCTSIZE2 ==> l[k] == 0
    ensures Approx(z, l) == z
  {
    forall k | 0 <= k < DCTSIZE2 ensures Approx(z, l)[k] == z[k] {
      ShiftBounds(z[k], 0);
      TruncBounds(z[k], 0);
    }
  }

  predicate NoPlainDc(script: Script) {
    forall i :: 0 <= i < |script| ==> !(script[i].ss == 0 && script[i].ah == 0 && script[i].al == 0)
  }

  lemma SimpleHasNoPlainDc(n: nat, ycc: bool)
    ensures NoPlainDc(SimpleScript(n, ycc))
  {
    assert NoPlainDc(DcScans(n, 0, 1)) && NoPlainDc(DcScans(n, 1, 0));
    assert NoPlainDc(DcScans(3, 0, 1)) && NoPlainDc(DcScans(3, 1, 0));
    hide DcScans;
  }

  /**
   * With the script of jpeg_simple_progression the whole image comes back unchanged, whatever the image,
   * the number of components, the conditioning, the restart intervals and the suspensions.
   */
  method SimpleProgressionRoundTrip(f: Frame, order: seq<int>, ycc: bool, cfg: Conditioning, passages: seq<Passage>, coefArrays: seq<array2<Block>>,
                                    ghost img: seq<Plane>) returns (ok: bool, a: seq<array2<Block>>)
    requires FrameOk(f) && IsNaturalOrder(order) && ConditioningOk(|f.comps|, cfg)
    requires |passages| == |SimpleScript(|f.comps|, ycc)| && forall i :: 0 <= i < |passages| ==> Unstuff(passages[i].tail) == []
    requires ImageOk(f, img) && CoefPlanes(img) && HasImage(f, img, coefArrays)
    ensures ok <==> forall i :: 0 <= i < |SimpleScript(|f.comps|, ycc)| ==>
                      ComponentsOk(|f.comps|, SimpleScript(|f.comps|, ycc)[i]) && McuFitsIn(f, SimpleScript(|f.comps|, ycc)[i])
    ensures ok ==> HasImage(f, img, a)
  {
    hide SimpleScript, ProgressiveOk, McuFitsIn, HasImage, ImageCutTo, FrameOk, IsNaturalOrder, ConditioningOk, CoefPlanes, ImageOk, Unstuff;
    var script := SimpleScript(|f.comps|, ycc);
    SomeComponents(f);
    SimpleScriptValid(|f.comps|, ycc);
    SimpleHasNoPlainDc(|f.comps|, ycc);
    var warned;
    ok, warned, a := ScriptRoundTrip(f, order, cfg, script, passages, coefArrays, img);
    if ok {
      AllThere(f, order, script, img, a);
    }
  }

  lemma SomeComponents(f: Frame)
    requires FrameOk(f)
    ensures |f.comps| > 0 && f.maxH > 0
  {
  }

  lemma AllThere(f: Frame, order: seq<int>, script: Script, img: seq<Plane>, a: seq<array2<Block>>)
    requires FrameOk(f) && IsNaturalOrder(order) && ImageOk(f, img) && CoefPlanes(img) && ProgressiveOk(|f.comps|, script) && ImageCutTo(f, order, script, img, a)
    requires forall c, k :: 0 <= c < |f.comps| && 0 <= k < DCTSIZE2 ==> LevelAt(script, c, k) == 0
    ensures HasImage(f, img, a)
  {
    hide DivRoundUp, ProgressiveOk, Zz, Approx, CoefBlock, IsNaturalOrder;
    forall ci | 0 <= ci < |img| ensures HasPlane(f.comps[ci], img[ci], a[ci]) {
      assert PlaneOk(f.comps[ci], img[ci]);
      RealInPadded(f, f.comps[ci]);
      assert PaddedSize(f, f.comps[ci], a[ci]);
      forall y: nat, x: nat | y < f.comps[ci].heightInBlocks && x < f.comps[ci].widthInBlocks ensures a[ci][y, x] == img[ci][y][x] {
        assert HeldCut(order, LevelsOf(|f.comps|, script, ci), img[ci], a[ci], y, x);
        assert CoefPlane(img[ci]) && CoefBlocks(img[ci][y]);
        ZzCoef(order, img[ci][y][x]);
        ApproxAtZero(Zz(order, img[ci][y][x]), LevelsOf(|f.comps|, script, ci));
        ZzInjective(order, a[ci][y, x], img[ci][y][x]);
      }
    }
  }
}
