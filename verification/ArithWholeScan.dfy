/**
 * Whole scans through the arithmetic codec, of whatever kind: ScanEncoder on any list of MCUs, and ScanDecoder
 * on the blocks as earlier scans have left them.
 */
module ArithWholeScan {
  import opened Bits
  import opened Blocks
  import opened Markers
  import opened NaturalOrder
  import opened ArithScan
  import opened ArithSegments
  import opened ArithScanEncoder
  import opened ArithScanDecoder
  import opened ArithRoundTrip

  // ----- MCUs as blocks in natural order -----

  predicate CoefBlock(b: Block) {
    forall j :: 0 <= j < DCTSIZE2 ==> IsCoef(b[j])
  }

  predicate CoefBlocks(bs: seq<Block>) {
    forall i :: 0 <= i < |bs| ==> CoefBlock(bs[i])
  }

  predicate CoefMcus(mcus: seq<seq<Block>>) {
    forall k :: 0 <= k < |mcus| ==> CoefBlocks(mcus[k])
  }

  /** Every MCU has a block for each of its members. */
  predicate Sized(members: seq<nat>, mcus: seq<seq<Block>>) {
    forall k :: 0 <= k < |mcus| ==> |mcus[k]| == |members|
  }

  predicate MembersOf(sc: Scan, members: seq<nat>) {
    forall i :: 0 <= i < |members| ==> members[i] < |sc.comps|
  }

  /** What the entropy coder is given. */
  ghost function Given(order: seq<int>, members: seq<nat>, mcus: seq<seq<Block>>): (ms: seq<Mcu>)
    requires IsNaturalOrder(order) && Sized(members, mcus)
    ensures |ms| == |mcus|
  {
    seq(|mcus|, k requires 0 <= k < |mcus| => VisitsOf(order, members, mcus[k]))
  }

  lemma GivenSnoc(order: seq<int>, members: seq<nat>, mcus: seq<seq<Block>>, k: nat)
    requires IsNaturalOrder(order) && Sized(members, mcus) && k < |mcus|
    ensures Sized(members, mcus[..k]) && Sized(members, mcus[..k + 1]) && |mcus[k]| == |members|
    ensures Given(order, members, mcus[..k + 1]) == Given(order, members, mcus[..k]) + [VisitsOf(order, members, mcus[k])]
  {
  }

  lemma GivenOk(order: seq<int>, sc: Scan, members: seq<nat>, mcus: seq<seq<Block>>)
    requires IsNaturalOrder(order) && Sized(members, mcus) && MembersOf(sc, members)
    ensures McusOk(sc, Given(order, members, mcus))
    ensures CoefMcus(mcus) ==> AllBlocks(Given(order, members, mcus))
  {
    var ms := Given(order, members, mcus);
    forall k | 0 <= k < |mcus| ensures VisitsOk(sc, ms[k]) && (CoefMcus(mcus) ==> AreBlocks(ms[k])) {
      assert CoefMcus(mcus) ==> CoefBlocks(mcus[k]);
      forall i | 0 <= i < |mcus[k]| && CoefMcus(mcus) ensures IsBlock(Zz(order, mcus[k][i])) {
        assert CoefBlock(mcus[k][i]);
      }
    }
  }

  /** The list of MCUs is determined by what the coder was given. */
  lemma GivenInjective(order: seq<int>, members: seq<nat>, a: seq<seq<Block>>, b: seq<seq<Block>>)
    requires IsNaturalOrder(order) && Sized(members, a) && Sized(members, b) && Given(order, members, a) == Given(order, members, b)
    ensures a == b
  {
    hide IsNaturalOrder, Zz;
    assert |a| == |Given(order, members, a)| == |Given(order, members, b)| == |b|;
    forall k | 0 <= k < |a| ensures a[k] == b[k] {
      assert VisitsOf(order, members, a[k]) == Given(order, members, a)[k] == Given(order, members, b)[k] == VisitsOf(order, members, b[k]);
      forall i | 0 <= i < |members| ensures a[k][i] == b[k][i] {
        assert VisitsOf(order, members, a[k])[i].z == VisitsOf(order, members, b[k])[i].z;
        ZzInjective(order, a[k][i], b[k][i]);
      }
    }
  }

  // ----- There -----

  /** Any MCUs, in any kind of scan: data strings for the segments, with their restart markers. */
  method EncodeScan(order: seq<int>, sc: Scan, interval: nat, members: seq<nat>, mcus: seq<seq<Block>>) returns (out: seq<Byte>, ghost ws: seq<seq<Byte>>)
    requires IsNaturalOrder(order) && ScanOk(sc) && MembersOf(sc, members) && Sized(members, mcus) && CoefMcus(mcus)
    ensures EncodesAll(sc, Segments(interval, Given(order, members, mcus)), ws) && ws != [] && out == ScanData(ws)
  {
    hide ScanEncoder.InSegment, ScanEncoder.BehindClosed, IsNaturalOrder, ScanOk, Segments, ScanData, EncodesAll, CoefMcus;
    var e := new ScanEncoder(order);
    e.StartPass(sc, interval);
    assert Given(order, members, mcus[..0]) == [];
    for k := 0 to |mcus|
      invariant e.Valid() && e.mcu.scan == sc && e.restartInterval == interval && e.base == []
      invariant Sized(members, mcus[..k]) && e.given == Given(order, members, mcus[..k])
      modifies e, e.mcu, e.mcu.lastDcVal, e.mcu.dcContext, e.mcu.core, e.mcu.core.stats, e.mcu.core.stats.dcStats, e.mcu.core.stats.acStats, e.mcu.core.stats.fixedBin
    {
      GivenSnoc(order, members, mcus, k);
      Encodable(sc, members, mcus, k);
      e.EncodeMcu(members, mcus[k]);
    }
    assert mcus[..|mcus|] == mcus;
    e.FinishPass();
    DataLength(sc, e.Segs(), e.ws);
    out, ws := e.mcu.core.out, e.ws;
    assert [] + ScanData(ws) == ScanData(ws);
  }

  lemma Encodable(sc: Scan, members: seq<nat>, mcus: seq<seq<Block>>, k: nat)
    requires Sized(members, mcus) && CoefMcus(mcus) && MembersOf(sc, members) && k < |mcus|
    ensures |members| == |mcus[k]|
    ensures forall i :: 0 <= i < |mcus[k]| ==> members[i] < |sc.comps| && forall j :: 0 <= j < DCTSIZE2 ==> IsCoef(mcus[k][i][j])
  {
    assert CoefBlocks(mcus[k]);
    forall i | 0 <= i < |mcus[k]| ensures members[i] < |sc.comps| && forall j :: 0 <= j < DCTSIZE2 ==> IsCoef(mcus[k][i][j]) {
      assert CoefBlock(mcus[k][i]);
    }
  }

  lemma DataLength(sc: Scan, segs: seq<seq<Visit>>, ws: seq<seq<Byte>>)
    requires ScanOk(sc) && EncodesAll(sc, segs, ws)
    ensures |ws| == |segs|
  {
  }

  // ----- And back -----

  /** Blocks in memory, with the given contents. */
  method BlocksWith(bs: seq<Block>) returns (blocks: seq<array<int>>)
    ensures |blocks| == |bs| && forall i :: 0 <= i < |bs| ==> fresh(blocks[i]) && blocks[i].Length == DCTSIZE2 && blocks[i][..] == bs[i]
    ensures forall i, j :: 0 <= i < j < |bs| ==> blocks[i] != blocks[j]
  {
    blocks := [];
    for k := 0 to |bs|
      invariant |blocks| == k && forall i :: 0 <= i < k ==> fresh(blocks[i]) && blocks[i].Length == DCTSIZE2 && blocks[i][..] == bs[i]
      invariant forall i, j :: 0 <= i < j < k ==> blocks[i] != blocks[j]
    {
      var block := bs[k];
      var b := new int[DCTSIZE2](j requires 0 <= j < DCTSIZE2 => block[j]);
      assert b[..] == block;
      blocks := blocks + [b];
    }
  }

  /** What the blocks hold. */
  method Contents(blocks: seq<array<int>>) returns (bs: seq<Block>)
    requires forall i :: 0 <= i < |blocks| ==> blocks[i].Length == DCTSIZE2
    ensures |bs| == |blocks| && forall i :: 0 <= i < |blocks| ==> bs[i] == blocks[i][..]
  {
    bs := [];
    for k := 0 to |blocks|
      invariant |bs| == k && forall i :: 0 <= i < k ==> bs[i] == blocks[i][..]
    {
      var b: Block := blocks[k][..];
      bs := bs + [b];
    }
  }

  /** What was written for the originals ms is read by a decoder whose blocks are ms cut off at ls. */
  ghost predicate Readable(sc: Scan, interval: nat, ms: seq<Mcu>, ws: seq<seq<Byte>>, ls: seq<Levels>) {
    && ScanOk(sc) && McusOk(sc, ms) && AllBlocks(ms) && AllContinue(sc, ls) && |ls| == |sc.comps|
    && EncodesAll(sc, Segments(interval, ms), ws) && ws != []
  }

  /** The marker that is due before MCU number k is there. */
  lemma MarkerThere(sc: Scan, ms: seq<Mcu>, k: nat, interval: nat, ws: seq<seq<Byte>>, ls: seq<Levels>, tail: seq<Byte>)
    requires Readable(sc, interval, ms, ws, ls) && k < |ms| && RestartBefore(interval, k)
    ensures var segs := Segments(interval, ApproxMcus(sc, ms, ls)[..k]);
            SegmentsFit(sc, segs) ==> ReadClosed(ScanData(ws) + tail, sc, segs).ScanRead?
  {
    hide Segments, ReadClosed, ScanData, EncodesAll, RestartBefore, ApproxAll, VisitsOk, ScanOk, AllContinue;
    NeverResync(sc, ms, k, interval, ws, ls, tail);
    assert ApproxMcus(sc, ms[..k], ls) == ApproxMcus(sc, ms, ls)[..k];
  }

  /** One MCU; the marker that is due before it is found. */
  method DecodeOne(d: ScanDecoder, sc: Scan, members: seq<nat>, mcu: seq<Block>, ghost interval: nat, ghost ms: seq<Mcu>, ghost ws: seq<seq<Byte>>,
                   ghost ls: seq<Levels>, ghost tail: seq<Byte>, ghost k: nat) returns (bs: seq<Block>)
    requires Readable(sc, interval, ms, ws, ls) && k < |ms| && MembersOf(sc, members)
    requires IsNaturalOrder(d.mcu.order) && |mcu| == |members| && ApproxMcus(sc, ms, ls)[k] == VisitsOf(d.mcu.order, members, mcu)
    requires d.mcu.scan == sc && d.restartInterval == interval && d.start == ScanData(ws) + tail
    requires k == |d.given| && d.given == ApproxMcus(sc, ms, ls)[..k] && d.Valid()
    modifies d, d.mcu, d.mcu.lastDcVal, d.mcu.dcContext, d.mcu.core, d.mcu.core.stats, d.mcu.core.stats.dcStats, d.mcu.core.stats.acStats, d.mcu.core.stats.fixedBin
    ensures d.mcu.scan == sc && d.restartInterval == interval && d.start == ScanData(ws) + tail
    ensures d.given == ApproxMcus(sc, ms, ls)[..k + 1]
    ensures |bs| == |members| && d.left == old(d.left) + [VisitsOf(d.mcu.order, members, bs)] && d.Valid()
  {
    hide ScanDecoder.InSegment, ScanDecoder.BehindClosed, IsNaturalOrder, ScanOk, Segments, ScanData, EncodesAll, RestartBefore, ReadClosed, VisitsOk, Zz, AllBlocks,
      AllContinue, ApproxAll;
    var blocks := BlocksWith(mcu);
    assert VisitsNow(d.mcu.order, members, blocks) == VisitsOf(d.mcu.order, members, mcu);
    assert ApproxMcus(sc, ms, ls)[..k + 1] == ApproxMcus(sc, ms, ls)[..k] + [ApproxMcus(sc, ms, ls)[k]];
    var ok := d.DecodeMcu(members, blocks);
    if !ok {
      MarkerThere(sc, ms, k, interval, ws, ls, tail);
      assert false;
    }
    bs := Contents(blocks);
    assert VisitsNow(d.mcu.order, members, blocks) == VisitsOf(d.mcu.order, members, bs);
  }

  /** The whole scan: from originals cut off at ls to originals cut off where this scan leaves them. */
  method DecodeScan(order: seq<int>, sc: Scan, interval: nat, members: seq<nat>, mcus: seq<seq<Block>>, src: seq<Byte>,
                    ghost ms: seq<Mcu>, ghost ws: seq<seq<Byte>>, ghost ls: seq<Levels>, ghost tail: seq<Byte>) returns (back: seq<seq<Block>>)
    requires IsNaturalOrder(order) && MembersOf(sc, members) && Sized(members, mcus) && Readable(sc, interval, ms, ws, ls)
    requires AllDiffsFit(sc, Segments(interval, ms)) && src == ScanData(ws) + tail && Unstuff(tail) == []
    requires Given(order, members, mcus) == ApproxMcus(sc, ms, ls)
    ensures |back| == |mcus| && Sized(members, back) && Given(order, members, back) == ApproxMcus(sc, ms, AllAfter(sc, ls))
  {
    hide ScanDecoder.InSegment, ScanDecoder.BehindClosed, IsNaturalOrder, ScanOk, Segments, ScanData, EncodesAll, AllDiffsFit, AllBlocks, AllContinue, Unstuff,
      ApproxAll, Zz;
    var d := new ScanDecoder(order, src);
    assert src[0..] == src;
    var ok := d.StartPass(sc, interval);
    back := [];
    for k := 0 to |mcus|
      invariant d.Valid() && d.mcu.scan == sc && d.restartInterval == interval && d.start == src
      invariant d.given == ApproxMcus(sc, ms, ls)[..k] && |d.given| == k == |d.left| == |back|
      invariant forall j :: 0 <= j < k ==> |back[j]| == |members| && d.left[j] == VisitsOf(order, members, back[j])
      modifies d, d.mcu, d.mcu.lastDcVal, d.mcu.dcContext, d.mcu.core, d.mcu.core.stats, d.mcu.core.stats.dcStats, d.mcu.core.stats.acStats, d.mcu.core.stats.fixedBin
    {
      assert Given(order, members, mcus)[k] == VisitsOf(order, members, mcus[k]);
      var bs := DecodeOne(d, sc, members, mcus[k], interval, ms, ws, ls, tail, k);
      back := back + [bs];
    }
    assert ApproxMcus(sc, ms, ls)[..|mcus|] == ApproxMcus(sc, ms, ls);
    ScanSurvives(d, ms, ws, ls, tail);
    assert Given(order, members, back) == d.left;
  }
}
