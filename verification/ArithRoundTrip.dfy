/**
 * The arithmetic codec as a whole: what ScanEncoder wrote for a scan, ScanDecoder reads back, with
 * the same scan parameters and the same restart interval.
 */
module ArithRoundTrip {
  import opened Bits
  import opened Blocks
  import opened Markers
  import opened ArithModel
  import opened ArithScan
  import opened ArithSegments
  import opened ArithScanEncoder
  import opened ArithScanDecoder

  function ApproxMcus(sc: Scan, ms: seq<Mcu>, ls: seq<Levels>): (r: seq<Mcu>)
    requires |ls| == |sc.comps| && McusOk(sc, ms)
    ensures |r| == |ms| && McusOk(sc, r)
    ensures forall i :: 0 <= i < |ms| ==> VisitsOk(sc, ms[i]) && r[i] == ApproxAll(ms[i], ls)
  {
    seq(|ms|, i requires 0 <= i < |ms| && VisitsOk(sc, ms[i]) => ApproxAll(ms[i], ls))
  }

  lemma ApproxConcat(vs: seq<Visit>, us: seq<Visit>, ls: seq<Levels>)
    requires forall i :: 0 <= i < |vs| ==> vs[i].ci < |ls|
    requires forall i :: 0 <= i < |us| ==> us[i].ci < |ls|
    ensures ApproxAll(vs + us, ls) == ApproxAll(vs, ls) + ApproxAll(us, ls)
  {
    hide Approx;
  }

  lemma VisitsConcat(sc: Scan, vs: seq<Visit>, us: seq<Visit>, ls: seq<Levels>)
    requires |ls| == |sc.comps| && VisitsOk(sc, vs) && VisitsOk(sc, us)
    ensures VisitsOk(sc, vs + us) && ApproxAll(vs + us, ls) == ApproxAll(vs, ls) + ApproxAll(us, ls)
  {
    ApproxConcat(vs, us, ls);
  }

  /** Cutting off and grouping into segments commute. */
  lemma {:induction false} SegmentsApprox(sc: Scan, interval: nat, ms: seq<Mcu>, ls: seq<Levels>)
    requires |ls| == |sc.comps| && McusOk(sc, ms)
    ensures SegmentsFit(sc, Segments(interval, ms))
    ensures Segments(interval, ApproxMcus(sc, ms, ls)) == ApproxSegments(sc, Segments(interval, ms), ls)
  {
    hide ApproxAll, VisitsOk;
    SegmentsOk(sc, interval, ms);
    if ms != [] {
      var n := |ms| - 1;
      SegmentsApprox(sc, interval, ms[..n], ls);
      assert ApproxMcus(sc, ms, ls)[..n] == ApproxMcus(sc, ms[..n], ls);
      var segs := Segments(interval, ms[..n]);
      VisitsConcat(sc, segs[|segs| - 1], ms[n], ls);
    }
  }

  lemma LastSplit<T>(s: seq<seq<T>>, t: seq<seq<T>>, m: seq<T>, m': seq<T>)
    requires |s| >= 1 && |t| >= 1 && |m| == |m'|
    requires s[..|s| - 1] + [s[|s| - 1] + m] == t[..|t| - 1] + [t[|t| - 1] + m']
    ensures s == t && m == m'
  {
    var u, v := s[..|s| - 1] + [s[|s| - 1] + m], t[..|t| - 1] + [t[|t| - 1] + m'];
    var x, y := s[|s| - 1], t[|t| - 1];
    assert u[|u| - 1] == x + m && v[|v| - 1] == y + m';
    assert x == (x + m)[..|x|] && y == (y + m')[..|y|];
    assert m == (x + m)[|x|..] && m' == (y + m')[|y|..];
    assert s == u[..|u| - 1] + [x] && t == v[..|v| - 1] + [y];
  }

  lemma SnocInjective<T>(s: seq<T>, t: seq<T>, x: T, y: T)
    requires s + [x] == t + [y]
    ensures s == t && x == y
  {
    var u, v := s + [x], t + [y];
    assert s == u[..|u| - 1] && t == v[..|v| - 1];
    assert x == u[|u| - 1] && y == v[|v| - 1];
  }

  /** The last MCU and the segments before it can be recovered. */
  lemma LastSegments(interval: nat, a: seq<Mcu>, b: seq<Mcu>)
    requires a != [] && |a| == |b| && |a[|a| - 1]| == |b[|b| - 1]| && Segments(interval, a) == Segments(interval, b)
    ensures var n := |a| - 1; Segments(interval, a[..n]) == Segments(interval, b[..n]) && a[n] == b[n]
  {
    var n := |a| - 1;
    var s, t := Segments(interval, a[..n]), Segments(interval, b[..n]);
    if RestartBefore(interval, n) {
      SnocInjective(s, t, a[n], b[n]);
    } else {
      LastSplit(s, t, a[n], b[n]);
    }
  }

  predicate SameSizes(a: seq<Mcu>, b: seq<Mcu>) {
    |a| == |b| && forall i :: 0 <= i < |a| ==> |a[i]| == |b[i]|
  }

  lemma SizesOfPrefix(a: seq<Mcu>, b: seq<Mcu>, n: nat)
    requires SameSizes(a, b) && n < |a|
    ensures SameSizes(a[..n], b[..n]) && |a[n]| == |b[n]|
  {
  }

  /** MCUs of known sizes can be recovered from the segments. */
  lemma {:induction false} SegmentsInjective(interval: nat, a: seq<Mcu>, b: seq<Mcu>)
    requires SameSizes(a, b) && |a| == |b|
    requires Segments(interval, a) == Segments(interval, b)
    ensures a == b
  {
    if a != [] {
      var n := |a| - 1;
      hide Segments, SameSizes;
      SizesOfPrefix(a, b, n);
      LastSegments(interval, a, b);
      SegmentsInjective(interval, a[..n], b[..n]);
      assert a == a[..n] + [a[n]] && b == b[..n] + [b[n]];
    }
  }

  /** Every DC difference of the scan is one the magnitude categories can express. */
  predicate AllDiffsFit(sc: Scan, segs: seq<seq<Visit>>)
    requires ScanOk(sc)
  {
    forall i :: 0 <= i < |segs| ==> VisitsOk(sc, segs[i]) && DiffsFit(sc, Fresh(sc), segs[i])
  }

  /** The outcomes of all segments, when every difference fits, are the originals cut off at the new levels. */
  lemma OutcomesAreApprox(sc: Scan, segs: seq<seq<Visit>>, ls: seq<Levels>, outs: seq<SegmentOut>, done: seq<seq<Visit>>)
    requires ScanOk(sc) && SegmentsFit(sc, segs) && |ls| == |sc.comps| && AllRecovered(sc, segs, ls, outs) && AllDiffsFit(sc, segs)
    requires |done| == |segs| && forall i :: 0 <= i < |segs| ==> outs[i].vs == done[i]
    ensures done == ApproxSegments(sc, segs, AllAfter(sc, ls))
  {
    hide DiffsFit, ApproxAll, AllAfter, VisitsOk;
    forall i | 0 <= i < |segs| ensures done[i] == ApproxSegments(sc, segs, AllAfter(sc, ls))[i] {
      assert Recovered(sc, segs[i], ls, outs[i]);
    }
  }

  /**
   * Data strings for the segments of a scan, as ScanEncoder writes them, are read back by ScanDecoder. If the
   * blocks handed to the decoder are the originals cut off where the previous scans left them, then after
   * this scan they are the originals cut off where this scan leaves them, provided every DC difference can
   * be expressed.
   */
  lemma ScanSurvives(d: ScanDecoder, ms: seq<Mcu>, ws: seq<seq<Byte>>, ls: seq<Levels>, tail: seq<Byte>)
    requires d.Valid() && ScanOk(d.mcu.scan) && McusOk(d.mcu.scan, ms) && AllBlocks(ms)
    requires EncodesAll(d.mcu.scan, Segments(d.restartInterval, ms), ws)
    requires AllContinue(d.mcu.scan, ls) && AllDiffsFit(d.mcu.scan, Segments(d.restartInterval, ms))
    requires Unstuff(tail) == [] && d.start == ScanData(ws) + tail
    requires d.given == ApproxMcus(d.mcu.scan, ms, ls)
    ensures d.left == ApproxMcus(d.mcu.scan, ms, AllAfter(d.mcu.scan, ls))
  {
    hide Unstuff, Segments, ReadScan, AllRecovered, AllDiffsFit, AllContinue, ScanOk, EncodesAll, ScanData, VisitsOk, ScanDecoder.Valid;
    var sc, interval, after := d.mcu.scan, d.restartInterval, AllAfter(d.mcu.scan, ls);
    ScanSegments(sc, ms, interval, ws, ls, tail);
    d.Outcome();
    Continuing(sc, ls);
    OutcomesAreApprox(sc, Segments(interval, ms), ls, ReadScan(d.start, sc, d.Segs()).outs, d.SegsLeft());
    SegmentsApprox(sc, interval, ms, after);
    d.Sizes();
    SegmentsInjective(interval, d.left, ApproxMcus(sc, ms, after));
  }

  lemma Continuing(sc: Scan, ls: seq<Levels>)
    requires ScanOk(sc) && AllContinue(sc, ls)
    ensures |ls| == |sc.comps|
  {
  }

  lemma ScanSegments(sc: Scan, ms: seq<Mcu>, interval: nat, ws: seq<seq<Byte>>, ls: seq<Levels>, tail: seq<Byte>)
    requires ScanOk(sc) && McusOk(sc, ms) && AllBlocks(ms) && AllContinue(sc, ls)
    requires EncodesAll(sc, Segments(interval, ms), ws) && Unstuff(tail) == []
    ensures SegmentsFit(sc, Segments(interval, ms)) && ws != []
    ensures var segs' := Segments(interval, ApproxMcus(sc, ms, ls));
            SegmentsFit(sc, segs') && segs' == ApproxSegments(sc, Segments(interval, ms), ls)
            && var r := ReadScan(ScanData(ws) + tail, sc, segs');
               r.ScanRead? && AllRecovered(sc, Segments(interval, ms), ls, r.outs)
  {
    hide Unstuff, Segments, ReadScan, AllRecovered, ScanOk, ScanData, VisitsOk, Continues, AreBlocks;
    SegmentsOk(sc, interval, ms);
    SegmentsApprox(sc, interval, ms, ls);
    SegmentsBlocks(interval, ms);
    ScanRoundTrip(sc, Segments(interval, ms), ws, ls, tail);
  }

  /** Where a restart marker is due, the segments so far are complete. */
  lemma {:induction false} SegmentsPrefix(interval: nat, ms: seq<Mcu>, n: nat)
    requires n < |ms| && RestartBefore(interval, n)
    ensures var k := |Segments(interval, ms[..n])|;
            k < |Segments(interval, ms)| && Segments(interval, ms[..n]) == Segments(interval, ms)[..k]
    decreases |ms|
  {
    hide RestartBefore;
    var j := |ms| - 1;
    if n < j {
      SegmentsPrefix(interval, ms[..j], n);
      assert ms[..j][..n] == ms[..n];
    }
  }

  lemma {:induction false} ClosedPrefix(ws: seq<seq<Byte>>, k: nat) returns (rest: seq<Byte>)
    requires k <= |ws|
    ensures Closed(ws) == Closed(ws[..k]) + rest
    decreases |ws|
  {
    hide Stuff;
    if k == |ws| {
      rest := [];
      assert ws[..k] == ws;
    } else {
      var j := |ws| - 1;
      rest := ClosedPrefix(ws[..j], k);
      assert ws[..j][..k] == ws[..k];
      rest := rest + (Stuff(ws[j]) + Rst(j));
    }
  }

  lemma DataSplit(ws: seq<seq<Byte>>, k: nat, tail: seq<Byte>) returns (more: seq<Byte>)
    requires k < |ws|
    ensures ScanData(ws) + tail == Closed(ws[..k]) + more
  {
    hide Stuff, Closed;
    var j := |ws| - 1;
    var rest := ClosedPrefix(ws[..j], k);
    assert ws[..j][..k] == ws[..k];
    more := rest + (Stuff(ws[j]) + tail);
  }

  /** Before every MCU that starts a new segment, the decoder finds the restart marker that is due. */
  lemma NeverResync(sc: Scan, ms: seq<Mcu>, n: nat, interval: nat, ws: seq<seq<Byte>>, ls: seq<Levels>, tail: seq<Byte>)
    requires ScanOk(sc) && McusOk(sc, ms) && AllBlocks(ms) && AllContinue(sc, ls)
    requires EncodesAll(sc, Segments(interval, ms), ws) && n < |ms| && RestartBefore(interval, n)
    ensures McusOk(sc, ms[..n])
    ensures var segs' := Segments(interval, ApproxMcus(sc, ms[..n], ls));
            SegmentsFit(sc, segs') && ReadClosed(ScanData(ws) + tail, sc, segs').ScanRead?
  {
    hide Unstuff, Segments, ReadClosed, ScanData, ScanOk, VisitsOk, Continues, AreBlocks, RestartBefore, Closed, Encodes;
    var segs, before := Segments(interval, ms), Segments(interval, ms[..n]);
    SegmentsOk(sc, interval, ms);
    SegmentsBlocks(interval, ms);
    SegmentsPrefix(interval, ms, n);
    SegmentsApprox(sc, interval, ms[..n], ls);
    var k := |before|;
    var more := DataSplit(ws, k, tail);
    ClosedRoundTrip(sc, before, ws[..k], ls, more);
  }

  // ----- Blocks that are coded alike -----

  /** Of a block, a DC scan sees no more than the DC value, and a DC refinement no more than one bit of it. */
  predicate Alike(sc: Scan, z: Zigzag, z': Zigzag) {
    z == z' || (KindOf(sc).DcFirst? && z[0] == z'[0]) || (KindOf(sc).DcRefine? && DcValue(sc, z) % 2 == DcValue(sc, z') % 2)
  }

  predicate AlikeVisits(sc: Scan, vs: seq<Visit>, vs': seq<Visit>) {
    |vs| == |vs'| && forall i :: 0 <= i < |vs| ==> vs[i].ci == vs'[i].ci && Alike(sc, vs[i].z, vs'[i].z)
  }

  lemma AlikeBlock(sc: Scan, ci: nat, d: DcState, z: Zigzag, z': Zigzag)
    requires ScanOk(sc) && DcOk(sc, d) && ci < |sc.comps| && Alike(sc, z, z')
    ensures BlockDecisions(sc, ci, d, z) == BlockDecisions(sc, ci, d, z') && NextDc(sc, ci, d, z) == NextDc(sc, ci, d, z')
    ensures DiffFits(sc, ci, d, z) <==> DiffFits(sc, ci, d, z')
  {
    hide Context, DcDecisions, AcFrom, RefineFrom;
  }

  lemma {:induction false} AlikeSegment(sc: Scan, d: DcState, vs: seq<Visit>, vs': seq<Visit>)
    requires ScanOk(sc) && DcOk(sc, d) && VisitsOk(sc, vs) && AlikeVisits(sc, vs, vs')
    ensures VisitsOk(sc, vs') && SegmentDecisions(sc, d, vs) == SegmentDecisions(sc, d, vs')
    ensures DiffsFit(sc, d, vs) <==> DiffsFit(sc, d, vs')
    decreases |vs|
  {
    hide BlockDecisions, NextDc, DiffFits, Alike;
    if vs != [] {
      AlikeBlock(sc, vs[0].ci, d, vs[0].z, vs'[0].z);
      AlikeSegment(sc, NextDc(sc, vs[0].ci, d, vs[0].z), vs[1..], vs'[1..]);
    }
  }

  predicate AlikeMcus(sc: Scan, ms: seq<Mcu>, ms': seq<Mcu>) {
    |ms| == |ms'| && forall k :: 0 <= k < |ms| ==> AlikeVisits(sc, ms[k], ms'[k])
  }

  lemma {:induction false} AlikeSegments(sc: Scan, interval: nat, ms: seq<Mcu>, ms': seq<Mcu>)
    requires AlikeMcus(sc, ms, ms')
    ensures AlikeMcus(sc, Segments(interval, ms), Segments(interval, ms'))
    decreases |ms|
  {
    hide AlikeVisits;
    if ms == [] {
      AlikeNothing(sc);
    } else {
      var n := |ms| - 1;
      AlikeSegments(sc, interval, ms[..n], ms'[..n]);
      AlikeGrown(sc, interval, n, Segments(interval, ms[..n]), Segments(interval, ms'[..n]), ms[n], ms'[n]);
    }
  }

  lemma AlikeGrown(sc: Scan, interval: nat, n: nat, segs: seq<seq<Visit>>, segs': seq<seq<Visit>>, m: Mcu, m': Mcu)
    requires segs != [] && AlikeMcus(sc, segs, segs') && AlikeVisits(sc, m, m')
    ensures AlikeMcus(sc, segs + [m], segs' + [m'])
    ensures AlikeMcus(sc, segs[..|segs| - 1] + [segs[|segs| - 1] + m], segs'[..|segs'| - 1] + [segs'[|segs'| - 1] + m'])
  {
    hide AlikeVisits;
    AlikeConcat(sc, segs[|segs| - 1], segs'[|segs'| - 1], m, m');
  }

  lemma AlikeNothing(sc: Scan)
    ensures AlikeVisits(sc, [], [])
  {
  }

  lemma AlikeConcat(sc: Scan, vs: seq<Visit>, vs': seq<Visit>, us: seq<Visit>, us': seq<Visit>)
    requires AlikeVisits(sc, vs, vs') && AlikeVisits(sc, us, us')
    ensures AlikeVisits(sc, vs + us, vs' + us')
  {
    hide Alike;
  }

  /** What was written for the ones might have been written for the others. */
  lemma WrittenAlike(sc: Scan, interval: nat, ms: seq<Mcu>, ms': seq<Mcu>, ws: seq<seq<Byte>>)
    requires ScanOk(sc) && AlikeMcus(sc, ms, ms') && McusOk(sc, ms)
    requires EncodesAll(sc, Segments(interval, ms), ws) && AllDiffsFit(sc, Segments(interval, ms))
    ensures EncodesAll(sc, Segments(interval, ms'), ws) && AllDiffsFit(sc, Segments(interval, ms'))
  {
    hide Segments, AlikeVisits, SegmentDecisions, DiffsFit, VisitsOk, ScanOk, Holds;
    AlikeSegments(sc, interval, ms, ms');
    var segs, segs' := Segments(interval, ms), Segments(interval, ms');
    forall i | 0 <= i < |segs| ensures VisitsOk(sc, segs'[i]) && Encodes(sc, segs'[i], ws[i]) && DiffsFit(sc, Fresh(sc), segs'[i]) {
      AlikeSegment(sc, Fresh(sc), segs[i], segs'[i]);
    }
  }
}
