/**
 * A sequential scan through the arithmetic codec: from zeroed blocks to the blocks that were encoded.
 */
module ArithSequential {
  import opened Bits
  import opened Blocks
  import opened Markers
  import opened NaturalOrder
  import opened ArithModel
  import opened ArithScan
  import opened ArithSegments
  import opened ArithRoundTrip
  import opened ArithWholeScan

  // ----- A sequential scan takes blocks from nothing to everything -----

  function Unseen(sc: Scan): seq<Levels> {
    seq(|sc.comps|, _ => UNSEEN)
  }

  lemma FromNothing(sc: Scan, z: Zigzag, ci: nat)
    requires ScanOk(sc) && !sc.progressive && ci < |sc.comps| && IsBlock(z)
    ensures AllContinue(sc, Unseen(sc))
    ensures Approx(z, Unseen(sc)[ci]) == seq(DCTSIZE2, _ => 0) && Approx(z, AllAfter(sc, Unseen(sc))[ci]) == z
  {
    assert Pow2(0) == 1;
    assert AfterScan(sc, UNSEEN) == seq(DCTSIZE2, _ => 0);
    assert Approx(z, AfterScan(sc, UNSEEN)) == z;
  }

  lemma NothingAndEverything(sc: Scan, ms: seq<Mcu>)
    requires ScanOk(sc) && !sc.progressive && McusOk(sc, ms) && AllBlocks(ms)
    ensures AllContinue(sc, Unseen(sc))
    ensures ApproxMcus(sc, ms, AllAfter(sc, Unseen(sc))) == ms
    ensures forall k, i :: 0 <= k < |ms| && 0 <= i < |ms[k]| ==> ApproxMcus(sc, ms, Unseen(sc))[k][i] == Visit(ms[k][i].ci, seq(DCTSIZE2, _ => 0))
    ensures forall k :: 0 <= k < |ms| ==> |ApproxMcus(sc, ms, Unseen(sc))[k]| == |ms[k]|
  {
    hide Approx;
    FromNothing(sc, seq(DCTSIZE2, _ => 0), 0);
    var all := ApproxMcus(sc, ms, AllAfter(sc, Unseen(sc)));
    forall k | 0 <= k < |ms| ensures all[k] == ms[k] {
      forall i | 0 <= i < |ms[k]| ensures all[k][i] == ms[k][i] {
        assert AreBlocks(ms[k]) && VisitsOk(sc, ms[k]);
        FromNothing(sc, ms[k][i].z, ms[k][i].ci);
      }
    }
    forall k, i | 0 <= k < |ms| && 0 <= i < |ms[k]| ensures ApproxMcus(sc, ms, Unseen(sc))[k][i] == Visit(ms[k][i].ci, seq(DCTSIZE2, _ => 0)) {
      assert AreBlocks(ms[k]) && VisitsOk(sc, ms[k]);
      FromNothing(sc, ms[k][i].z, ms[k][i].ci);
    }
  }

  // ----- There and back -----

  /** Every DC difference of the scan is one the magnitude categories can express. */
  ghost predicate ScanFits(order: seq<int>, sc: Scan, interval: nat, members: seq<nat>, mcus: seq<seq<Block>>)
    requires IsNaturalOrder(order) && ScanOk(sc) && Sized(members, mcus)
  {
    AllDiffsFit(sc, Segments(interval, Given(order, members, mcus)))
  }

  function ZeroedMcus(n: nat, blocks: nat): seq<seq<Block>> {
    seq(n, _ => seq(blocks, _ => seq(DCTSIZE2, _ => 0)))
  }

  /** Zeroed blocks are the originals of which nothing has been sent. */
  lemma StartFromZero(order: seq<int>, sc: Scan, members: seq<nat>, mcus: seq<seq<Block>>)
    requires IsNaturalOrder(order) && ScanOk(sc) && !sc.progressive && MembersOf(sc, members) && Sized(members, mcus) && CoefMcus(mcus)
    ensures Sized(members, ZeroedMcus(|mcus|, |members|)) && McusOk(sc, Given(order, members, mcus))
    ensures Given(order, members, ZeroedMcus(|mcus|, |members|)) == ApproxMcus(sc, Given(order, members, mcus), Unseen(sc))
  {
    hide ScanOk, Approx, CoefMcus;
    GivenOk(order, sc, members, mcus);
    var ms, zs := Given(order, members, mcus), Given(order, members, ZeroedMcus(|mcus|, |members|));
    NothingAndEverything(sc, ms);
    forall k | 0 <= k < |mcus| ensures zs[k] == ApproxMcus(sc, ms, Unseen(sc))[k] {
      assert zs[k] == VisitsOf(order, members, ZeroedMcus(|mcus|, |members|)[k]);
      assert forall i :: 0 <= i < |members| ==> zs[k][i] == Visit(members[i], seq(DCTSIZE2, _ => 0));
    }
  }

  /**
   * There and back: for every restart interval, every conditioning and whatever marker follows the scan,
   * every MCU is decoded to the blocks that were encoded, if the DC differences can be expressed.
   */
  method RoundTrip(order: seq<int>, sc: Scan, interval: nat, members: seq<nat>, mcus: seq<seq<Block>>, tail: seq<Byte>) returns (back: seq<seq<Block>>)
    requires IsNaturalOrder(order) && ScanOk(sc) && !sc.progressive && MembersOf(sc, members) && Sized(members, mcus) && CoefMcus(mcus)
    requires ScanFits(order, sc, interval, members, mcus) && Unstuff(tail) == []
    ensures back == mcus
  {
    hide IsNaturalOrder, ScanOk, CoefMcus, Unstuff, ScanData, Segments, EncodesAll, AllDiffsFit, AllBlocks, AllContinue;
    ghost var ms := Given(order, members, mcus);
    var out, ws := EncodeScan(order, sc, interval, members, mcus);
    GivenOk(order, sc, members, mcus);
    NothingAndEverything(sc, ms);
    StartFromZero(order, sc, members, mcus);
    back := DecodeScan(order, sc, interval, members, ZeroedMcus(|mcus|, |members|), out + tail, ms, ws, Unseen(sc), tail);
    GivenInjective(order, members, back, mcus);
  }

  // ----- A range of DC values that always fits -----

  predicate SmallVisits(vs: seq<Visit>) {
    forall i :: 0 <= i < |vs| ==> -0x4000 <= vs[i].z[0] <= 0x4000
  }

  predicate SmallState(d: DcState) {
    forall i :: 0 <= i < |d.last| ==> -0x4000 <= d.last[i] <= 0x4000
  }

  lemma {:induction false} SmallFits(sc: Scan, d: DcState, vs: seq<Visit>)
    requires ScanOk(sc) && !sc.progressive && DcOk(sc, d) && VisitsOk(sc, vs) && SmallVisits(vs) && SmallState(d)
    ensures DiffsFit(sc, d, vs)
    decreases |vs|
  {
    hide Context;
    if vs != [] {
      var v := vs[0];
      assert DcValue(sc, v.z) == v.z[0] by { assert Pow2(0) == 1; }
      SmallFits(sc, NextDc(sc, v.ci, d, v.z), vs[1..]);
    }
  }

  lemma {:induction false} SegmentsSmall(interval: nat, ms: seq<Mcu>)
    requires forall k :: 0 <= k < |ms| ==> SmallVisits(ms[k])
    ensures forall k :: 0 <= k < |Segments(interval, ms)| ==> SmallVisits(Segments(interval, ms)[k])
  {
    if ms != [] {
      SegmentsSmall(interval, ms[..|ms| - 1]);
    }
  }

  lemma AllFitSmall(sc: Scan, interval: nat, ms: seq<Mcu>)
    requires ScanOk(sc) && !sc.progressive && McusOk(sc, ms) && forall k :: 0 <= k < |ms| ==> SmallVisits(ms[k])
    ensures AllDiffsFit(sc, Segments(interval, ms))
  {
    hide Segments, DiffsFit, SmallVisits, VisitsOk, ScanOk;
    SegmentsOk(sc, interval, ms);
    SegmentsSmall(interval, ms);
    var segs := Segments(interval, ms);
    forall i | 0 <= i < |segs| ensures VisitsOk(sc, segs[i]) && DiffsFit(sc, Fresh(sc), segs[i]) {
      SmallFits(sc, Fresh(sc), segs[i]);
    }
  }

  predicate SmallDc(b: Block) {
    -0x4000 <= b[0] <= 0x4000
  }

  /** DC values of at most 15 bits have differences that can be expressed, in any order and with any restarts. */
  lemma SmallDcFits(order: seq<int>, sc: Scan, interval: nat, members: seq<nat>, mcus: seq<seq<Block>>)
    requires IsNaturalOrder(order) && ScanOk(sc) && !sc.progressive && MembersOf(sc, members) && Sized(members, mcus)
    requires forall k, i :: 0 <= k < |mcus| && 0 <= i < |mcus[k]| ==> SmallDc(mcus[k][i])
    ensures ScanFits(order, sc, interval, members, mcus)
  {
    hide ScanOk, AllDiffsFit, Segments;
    var ms := Given(order, members, mcus);
    GivenOk(order, sc, members, mcus);
    forall k | 0 <= k < |ms| ensures SmallVisits(ms[k]) {
      assert ms[k] == VisitsOf(order, members, mcus[k]);
      assert forall i :: 0 <= i < |mcus[k]| ==> SmallDc(mcus[k][i]);
    }
    AllFitSmall(sc, interval, ms);
  }
}
