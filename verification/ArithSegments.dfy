/**
 * A whole arithmetic-coded scan: MCUs grouped into segments by the restart interval, each segment
 * coded on its own, RSTn markers between them. What the encoder's output means, what the decoder
 * makes of a byte string, and that the second undoes the first.
 */
module ArithSegments {
  import opened Bits
  import opened Blocks
  import opened Markers
  import opened ArithSpec
  import opened ArithModel
  import opened ArithScan

  // ----- Predictions and decisions along a segment -----

  /** The DC predictions after the blocks vs. */
  function DcAfter(sc: Scan, d: DcState, vs: seq<Visit>): (d': DcState)
    requires ScanOk(sc) && DcOk(sc, d) && VisitsOk(sc, vs)
    ensures DcOk(sc, d')
    decreases |vs|
  {
    if vs == [] then d else DcAfter(sc, NextDc(sc, vs[0].ci, d, vs[0].z), vs[1..])
  }

  lemma {:induction false} SegmentDecisionsConcat(sc: Scan, d: DcState, vs: seq<Visit>, us: seq<Visit>)
    requires ScanOk(sc) && DcOk(sc, d) && VisitsOk(sc, vs) && VisitsOk(sc, us)
    ensures VisitsOk(sc, vs + us)
    ensures SegmentDecisions(sc, d, vs + us) == SegmentDecisions(sc, d, vs) + SegmentDecisions(sc, DcAfter(sc, d, vs), us)
    ensures DcAfter(sc, d, vs + us) == DcAfter(sc, DcAfter(sc, d, vs), us)
    decreases |vs|
  {
    hide BlockDecisions, NextDc;
    if vs == [] {
      assert vs + us == us;
    } else {
      assert (vs + us)[1..] == vs[1..] + us;
      SegmentDecisionsConcat(sc, NextDc(sc, vs[0].ci, d, vs[0].z), vs[1..], us);
    }
  }

  /** One block more. */
  lemma SegmentSnoc(sc: Scan, cur: seq<Visit>, v: Visit)
    requires ScanOk(sc) && VisitsOk(sc, cur) && v.ci < |sc.comps|
    ensures var d, ds := DcAfter(sc, Fresh(sc), cur), SegmentDecisions(sc, Fresh(sc), cur);
            && VisitsOk(sc, cur + [v])
            && CodeAll(START, SegmentDecisions(sc, Fresh(sc), cur + [v])) == CodeAll(CodeAll(START, ds), BlockDecisions(sc, v.ci, d, v.z))
            && DcAfter(sc, Fresh(sc), cur + [v]) == NextDc(sc, v.ci, d, v.z)
  {
    hide BlockDecisions, NextDc, CodeAll;
    var d, ds := DcAfter(sc, Fresh(sc), cur), SegmentDecisions(sc, Fresh(sc), cur);
    SegmentDecisionsConcat(sc, Fresh(sc), cur, [v]);
    OneVisit(sc, d, v);
    CodeAllConcat(START, ds, BlockDecisions(sc, v.ci, d, v.z));
  }

  lemma OneVisit(sc: Scan, d: DcState, v: Visit)
    requires ScanOk(sc) && DcOk(sc, d) && v.ci < |sc.comps|
    ensures SegmentDecisions(sc, d, [v]) == BlockDecisions(sc, v.ci, d, v.z)
    ensures DcAfter(sc, d, [v]) == NextDc(sc, v.ci, d, v.z)
  {
    hide BlockDecisions, NextDc;
    assert [v][1..] == [];
  }

  /** Scans that send no DC difference use no prediction. */
  predicate UsesDc(sc: Scan) {
    KindOf(sc).Sequential? || KindOf(sc).DcFirst?
  }

  lemma DcUnused(sc: Scan, ci: nat, d: DcState, d': DcState, z: Zigzag)
    requires ScanOk(sc) && DcOk(sc, d) && DcOk(sc, d') && ci < |sc.comps| && !UsesDc(sc)
    ensures BlockDecisions(sc, ci, d, z) == BlockDecisions(sc, ci, d', z)
    ensures NextDc(sc, ci, d, z) == d
  {
  }

  lemma ParseDcUnused(w: seq<Byte>, s: Coder, sc: Scan, ci: nat, d: DcState, d': DcState, z: Zigzag)
    requires ScanOk(sc) && DcOk(sc, d) && DcOk(sc, d') && ci < |sc.comps| && !UsesDc(sc)
    ensures ParseBlock(w, s, sc, ci, d, z).(d := d') == ParseBlock(w, s, sc, ci, d', z)
    ensures ParseBlock(w, s, sc, ci, d, z).d == d
  {
    hide ParseAcFrom, ParseRefineFrom, DecodeBit, DecodeStep;
  }

  // ----- MCUs and segments -----

  predicate McusOk(sc: Scan, ms: seq<Mcu>) {
    forall i :: 0 <= i < |ms| ==> VisitsOk(sc, ms[i])
  }

  lemma {:induction false} SegmentsOk(sc: Scan, interval: nat, ms: seq<Mcu>)
    requires McusOk(sc, ms)
    ensures SegmentsFit(sc, Segments(interval, ms))
  {
    if ms != [] {
      SegmentsOk(sc, interval, ms[..|ms| - 1]);
    }
  }

  // ----- What the encoder writes -----

  /** w is a possible data string for the blocks of one segment. */
  predicate Encodes(sc: Scan, vs: seq<Visit>, w: seq<Byte>)
    requires ScanOk(sc) && VisitsOk(sc, vs)
  {
    Holds(w, START, SegmentDecisions(sc, Fresh(sc), vs))
  }

  predicate EncodesAll(sc: Scan, segs: seq<seq<Visit>>, ws: seq<seq<Byte>>)
    requires ScanOk(sc)
  {
    && |ws| == |segs|
    && forall i :: 0 <= i < |segs| ==> VisitsOk(sc, segs[i]) && Encodes(sc, segs[i], ws[i])
  }

  lemma EncodesAllSnoc(sc: Scan, segs: seq<seq<Visit>>, ws: seq<seq<Byte>>, vs: seq<Visit>, w: seq<Byte>)
    requires ScanOk(sc) && EncodesAll(sc, segs, ws) && VisitsOk(sc, vs) && Encodes(sc, vs, w)
    ensures EncodesAll(sc, segs + [vs], ws + [w])
  {
    hide Encodes, VisitsOk;
  }

  // ----- What the decoder reads -----

  lemma {:induction false} ParseSegmentConcat(w: seq<Byte>, s: Coder, sc: Scan, d: DcState, vs: seq<Visit>, us: seq<Visit>)
    requires ScanOk(sc) && DcOk(sc, d) && VisitsOk(sc, vs) && VisitsOk(sc, us)
    ensures VisitsOk(sc, vs + us)
    ensures DcOk(sc, ParseSegment(w, s, sc, d, vs).d)
    ensures var r := ParseSegment(w, s, sc, d, vs);
            var r' := ParseSegment(w, r.s, sc, r.d, us);
            ParseSegment(w, s, sc, d, vs + us)
            == if r.ok then SegmentRead(r'.ok, r.vs + r'.vs, r'.d, r'.s) else SegmentRead(false, r.vs + us, r.d, r.s)
    decreases |vs|
  {
    hide ParseBlock, ScanOk, DcOk;
    if vs == [] {
      assert vs + us == us;
    } else {
      var b := ParseBlock(w, s, sc, vs[0].ci, d, vs[0].z);
      assert (vs + us)[1..] == vs[1..] + us;
      if b.ok {
        ParseSegmentConcat(w, b.s, sc, b.d, vs[1..], us);
      }
    }
  }

  /** One block more. */
  lemma ParseSegmentSnoc(w: seq<Byte>, sc: Scan, cur: seq<Visit>, v: Visit)
    requires ScanOk(sc) && VisitsOk(sc, cur) && v.ci < |sc.comps|
    requires ParseSegment(w, START, sc, Fresh(sc), cur).ok
    ensures VisitsOk(sc, cur + [v])
    ensures var r := ParseSegment(w, START, sc, Fresh(sc), cur);
            DcOk(sc, r.d) && var b := ParseBlock(w, r.s, sc, v.ci, r.d, v.z);
            ParseSegment(w, START, sc, Fresh(sc), cur + [v]) == SegmentRead(b.ok, r.vs + [Visit(v.ci, b.z)], b.d, b.s)
  {
    hide ParseBlock;
    ParseSegmentConcat(w, START, sc, Fresh(sc), cur, [v]);
    assert [v][1..] == [];
  }

  /** The outcome for one segment: the blocks as they are left, and whether no bad code was met. */
  datatype SegmentOut = SegmentOut(ok: bool, vs: seq<Visit>)

  function ReadSegment(src: seq<Byte>, sc: Scan, vs: seq<Visit>): (out: SegmentOut)
    requires ScanOk(sc) && VisitsOk(sc, vs)
    ensures |out.vs| == |vs|
  {
    var r := ParseSegment(Unstuff(src), START, sc, Fresh(sc), vs);
    SegmentOut(r.ok, r.vs)
  }

  predicate SegmentsFit(sc: Scan, segs: seq<seq<Visit>>) {
    forall i :: 0 <= i < |segs| ==> VisitsOk(sc, segs[i])
  }

  /** The outcomes of the segments and what is left of the source, unless a restart marker is not where it is due. */
  datatype ScanRead = ScanRead(outs: seq<SegmentOut>, rest: seq<Byte>) | Resync

  /** Reads segments that are all followed by their restart markers; segs are the blocks as they are handed over. */
  function ReadClosed(src: seq<Byte>, sc: Scan, segs: seq<seq<Visit>>): (r: ScanRead)
    requires ScanOk(sc) && SegmentsFit(sc, segs)
    ensures r.ScanRead? ==> |r.outs| == |segs|
    decreases |segs|
  {
    if segs == [] then ScanRead([], src)
    else
      var k := |segs| - 1;
      match ReadClosed(src, sc, segs[..k])
      case Resync => Resync
      case ScanRead(outs, here) =>
        var m := Marker(here);
        if m.code == RST0 + k % 8 then ScanRead(outs + [ReadSegment(here, sc, segs[k])], m.rest) else Resync
  }

  /** Reads a scan: the last segment is not followed by a restart marker. */
  function ReadScan(src: seq<Byte>, sc: Scan, segs: seq<seq<Visit>>): (r: ScanRead)
    requires ScanOk(sc) && segs != [] && SegmentsFit(sc, segs)
    ensures r.ScanRead? ==> |r.outs| == |segs|
  {
    var k := |segs| - 1;
    match ReadClosed(src, sc, segs[..k])
    case Resync => Resync
    case ScanRead(outs, here) => ScanRead(outs + [ReadSegment(here, sc, segs[k])], here)
  }

  function ApproxSegments(sc: Scan, segs: seq<seq<Visit>>, ls: seq<Levels>): (r: seq<seq<Visit>>)
    requires |ls| == |sc.comps| && SegmentsFit(sc, segs)
    ensures |r| == |segs| && SegmentsFit(sc, r)
    ensures forall i :: 0 <= i < |segs| ==> VisitsOk(sc, segs[i]) && r[i] == ApproxAll(segs[i], ls)
  {
    seq(|segs|, i requires 0 <= i < |segs| && VisitsOk(sc, segs[i]) => ApproxAll(segs[i], ls))
  }

  /**
   * A segment is read without a bad code exactly when its DC differences can be expressed, and then
   * each of its blocks is the original cut off where this scan leaves it.
   */
  predicate Recovered(sc: Scan, vs: seq<Visit>, ls: seq<Levels>, out: SegmentOut)
    requires ScanOk(sc) && VisitsOk(sc, vs) && |ls| == |sc.comps|
  {
    && (out.ok <==> DiffsFit(sc, Fresh(sc), vs))
    && (out.ok ==> out.vs == ApproxAll(vs, AllAfter(sc, ls)))
  }

  predicate AllRecovered(sc: Scan, segs: seq<seq<Visit>>, ls: seq<Levels>, outs: seq<SegmentOut>)
    requires ScanOk(sc) && SegmentsFit(sc, segs) && |ls| == |sc.comps|
  {
    |outs| == |segs| && forall i :: 0 <= i < |segs| ==> VisitsOk(sc, segs[i]) && Recovered(sc, segs[i], ls, outs[i])
  }

  lemma SegmentRoundTrip(sc: Scan, vs: seq<Visit>, w: seq<Byte>, ls: seq<Levels>, tail: seq<Byte>)
    requires ScanOk(sc) && VisitsOk(sc, vs) && Encodes(sc, vs, w) && AllContinue(sc, ls)
    requires AreBlocks(vs) && Unstuff(tail) == []
    ensures VisitsOk(sc, ApproxAll(vs, ls))
    ensures Recovered(sc, vs, ls, ReadSegment(Stuff(w) + tail, sc, ApproxAll(vs, ls)))
  {
    hide Unstuff, Stuff, ParseSegment, SegmentDecisions, DiffsFit, Continues, AllAfter, IsBlock, ApproxAll;
    UnstuffStuff(w, tail);
    SegmentParsed(w, START, sc, Fresh(sc), vs, ls);
  }

  lemma {:induction false} ClosedRoundTrip(sc: Scan, segs: seq<seq<Visit>>, ws: seq<seq<Byte>>, ls: seq<Levels>, tail: seq<Byte>)
    requires ScanOk(sc) && SegmentsFit(sc, segs) && EncodesAll(sc, segs, ws) && AllContinue(sc, ls)
    requires forall i :: 0 <= i < |segs| ==> AreBlocks(segs[i])
    ensures var r := ReadClosed(Closed(ws) + tail, sc, ApproxSegments(sc, segs, ls));
            r.ScanRead? && r.rest == tail && AllRecovered(sc, segs, ls, r.outs)
    decreases |segs|
  {
    hide Unstuff, Stuff, Marker, AreBlocks, Encodes, VisitsOk, ReadSegment, Recovered, ApproxAll, Continues;
    if segs == [] {
      assert Closed(ws) + tail == tail;
    } else {
      var k := |segs| - 1;
      var here := Stuff(ws[k]) + (Rst(k) + tail);
      assert Closed(ws) + tail == Closed(ws[..k]) + here;
      assert ApproxSegments(sc, segs, ls)[..k] == ApproxSegments(sc, segs[..k], ls);
      ClosedRoundTrip(sc, segs[..k], ws[..k], ls, here);
      MarkerRst(k, tail);
      MarkerStuff(ws[k], Rst(k) + tail);
      SegmentRoundTrip(sc, segs[k], ws[k], ls, Rst(k) + tail);
    }
  }

  /**
   * The round trip of a scan, restart markers included: whatever marker follows the scan, the decoder
   * never has to resynchronize and every segment is recovered.
   */
  lemma ScanRoundTrip(sc: Scan, segs: seq<seq<Visit>>, ws: seq<seq<Byte>>, ls: seq<Levels>, tail: seq<Byte>)
    requires ScanOk(sc) && segs != [] && SegmentsFit(sc, segs) && EncodesAll(sc, segs, ws) && AllContinue(sc, ls)
    requires forall i :: 0 <= i < |segs| ==> AreBlocks(segs[i])
    requires Unstuff(tail) == []
    ensures var r := ReadScan(ScanData(ws) + tail, sc, ApproxSegments(sc, segs, ls));
            r.ScanRead? && AllRecovered(sc, segs, ls, r.outs)
  {
    hide Unstuff, Stuff, Marker, AreBlocks, Encodes, VisitsOk, ReadSegment, Recovered, ApproxAll, Continues, Closed, ReadClosed;
    var k := |segs| - 1;
    var here := Stuff(ws[k]) + tail;
    assert ScanData(ws) + tail == Closed(ws[..k]) + here;
    assert ApproxSegments(sc, segs, ls)[..k] == ApproxSegments(sc, segs[..k], ls);
    ClosedRoundTrip(sc, segs[..k], ws[..k], ls, here);
    SegmentRoundTrip(sc, segs[k], ws[k], ls, tail);
  }
}
