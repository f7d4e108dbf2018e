/**
 * Which statistics bins coding a segment touches: DC bins 0..48 and AC bins 0..244, so the areas of
 * 64 and 256 bytes that both coders allocate are large enough.
 */
module ArithBins {
  import opened Blocks
  import opened ArithSpec
  import opened ArithModel
  import opened ArithScan

  predicate BinUsed(b: BinId) {
    match b
    case Dc(_, i) => i <= 48
    case Ac(_, i) => i <= 244
    case Fixed => true
  }

  predicate BinsUsed(ds: seq<Decision>) {
    forall j :: 0 <= j < |ds| ==> BinUsed(ds[j].bin)
  }

  lemma {:induction false} OnesBins(st: BinId, n: nat)
    requires !st.Fixed? && forall i: nat :: i < n ==> BinUsed(st.Plus(i))
    ensures BinsUsed(Ones(st, n))
    decreases n
  {
    if n > 0 {
      assert BinUsed(st.Plus(0));
      forall i: nat | i < n - 1 ensures BinUsed(st.Plus(1).Plus(i)) {
        assert BinUsed(st.Plus(i + 1));
      }
      OnesBins(st.Plus(1), n - 1);
    }
  }

  lemma {:induction false} PatternBins(st: BinId, e: nat, u: nat)
    ensures e > 0 ==> (BinsUsed(Pattern(st, e, u)) <==> BinUsed(st))
    ensures e == 0 ==> BinsUsed(Pattern(st, e, u))
  {
    if e > 0 {
      PatternBins(st, e - 1, u);
      assert Pattern(st, e, u)[0].bin == st;
    }
  }

  lemma TailBins(st: BinId, e0: nat, u: nat)
    requires !st.Fixed? && e0 <= Log2(u) <= 14
    requires forall i: nat :: i <= 28 - e0 ==> BinUsed(st.Plus(i))
    ensures BinsUsed(Tail(st, e0, u))
  {
    var n := Log2(u) - e0;
    OnesBins(st, n);
    PatternBins(st.Plus(n + 14), Log2(u), u);
  }

  lemma DcMagnitudeBins(t: nat, i: nat, u: nat)
    requires i <= 19 && u < 0x8000
    ensures BinsUsed(DcMagnitude(t, i, u))
  {
    hide Tail;
    if u > 0 {
      Fits15(u);
      TailBins(Dc(t, 20), 0, u);
    }
  }

  /** Exactly the differences the decoder can read back keep to DC bins 0..48. */
  lemma DcBins(t: nat, ctx: nat, v: int)
    requires ctx <= 16
    ensures BinsUsed(DcDecisions(t, ctx, v)) <==> Abs(v) <= 32768
  {
    hide DcMagnitude;
    if Abs(v) > 32768 {
      DcOverflowBin(t, ctx, v);
    } else if v != 0 {
      DcMagnitudeBins(t, ctx + 2 + SignBit(v), Abs(v) - 1);
    }
  }

  lemma DcOverflowBin(t: nat, ctx: nat, v: int)
    requires Abs(v) > 32768
    ensures !BinsUsed(DcDecisions(t, ctx, v))
  {
    var u, i := Abs(v) - 1, ctx + 2 + SignBit(v);
    Fits15(u);
    var n := Log2(u);
    var st := Dc(t, 20 + n + 14);
    PatternBins(st, n, u);
    var ds, pat := DcDecisions(t, ctx, v), Pattern(st, n, u);
    var front := |ds| - |pat|;
    forall j | 0 <= j < |pat| ensures ds[front + j] == pat[j] {
    }
    var j :| 0 <= j < |pat| && !BinUsed(pat[j].bin);
    assert !BinUsed(ds[front + j].bin);
  }

  lemma AcMagnitudeBins(p: AcParams, k: nat, u: nat)
    requires 1 <= k < DCTSIZE2 && u < 0x8000
    ensures BinsUsed(AcMagnitude(p, k, u))
  {
    if u > 1 {
      Log2AtLeast(u, 1);
      Fits15(u);
      TailBins(X(p, k), 1, u);
    }
  }

  lemma {:induction false} AcBins(p: AcParams, z: Zigzag, k: nat, ke: nat)
    requires 1 <= k && ke <= p.se < DCTSIZE2 && (ke > 0 ==> z[ke] != 0)
    requires forall j :: 0 <= j < DCTSIZE2 ==> Abs(z[j]) <= 0x8000
    ensures BinsUsed(AcFrom(p, z, k, ke))
    decreases DCTSIZE2 - k, 1
  {
    if k <= ke {
      AcRunBins(p, z, k, ke);
    }
  }

  lemma {:induction false} AcRunBins(p: AcParams, z: Zigzag, k: nat, ke: nat)
    requires 1 <= k <= ke <= p.se < DCTSIZE2 && z[ke] != 0
    requires forall j :: 0 <= j < DCTSIZE2 ==> Abs(z[j]) <= 0x8000
    ensures BinsUsed(AcRun(p, z, k, ke))
    decreases DCTSIZE2 - k, 0
  {
    hide AcMagnitude, AcFrom;
    if z[k] == 0 {
      AcRunBins(p, z, k + 1, ke);
    } else {
      ConcatBins(AcMagnitude(p, k, Abs(z[k]) - 1), AcFrom(p, z, k + 1, ke));
      AcMagnitudeBins(p, k, Abs(z[k]) - 1);
      AcBins(p, z, k + 1, ke);
    }
  }

  lemma {:induction false} RefineBins(p: AcParams, x: Zigzag, k: nat, ke: nat, kex: nat)
    requires 1 <= k && ke <= p.se < DCTSIZE2 && (ke > 0 ==> x[ke] != 0)
    ensures BinsUsed(RefineFrom(p, x, k, ke, kex))
    decreases DCTSIZE2 - k, 1
  {
    if k <= ke {
      RefineRunBins(p, x, k, ke, kex);
    }
  }

  lemma {:induction false} RefineRunBins(p: AcParams, x: Zigzag, k: nat, ke: nat, kex: nat)
    requires 1 <= k <= ke <= p.se < DCTSIZE2 && x[ke] != 0
    ensures BinsUsed(RefineRun(p, x, k, ke, kex))
    decreases DCTSIZE2 - k, 0
  {
    if x[k] == 0 {
      RefineRunBins(p, x, k + 1, ke, kex);
    } else {
      RefineBins(p, x, k + 1, ke, kex);
    }
  }

  predicate ContextsOk(d: DcState) {
    forall i :: 0 <= i < |d.ctx| ==> d.ctx[i] <= 16
  }

  lemma TruncAtMost(z: Zigzag, al: nat)
    requires IsBlock(z)
    ensures forall j :: 0 <= j < DCTSIZE2 ==> Abs(Trunc(z, al)[j]) <= 0x8000
  {
    forall j | 0 <= j < DCTSIZE2 ensures Abs(Trunc(z, al)[j]) <= 0x8000 {
      TruncBounds(z[j], al);
    }
  }

  /** A block keeps to the bins exactly when its DC difference can be expressed. */
  lemma BlockBins(sc: Scan, ci: nat, d: DcState, z: Zigzag)
    requires ScanOk(sc) && DcOk(sc, d) && ci < |sc.comps| && IsBlock(z) && ContextsOk(d)
    ensures BinsUsed(BlockDecisions(sc, ci, d, z)) <==> DiffFits(sc, ci, d, z)
    ensures ContextsOk(NextDc(sc, ci, d, z))
  {
    hide DcDecisions, AcFrom, RefineFrom, Trunc;
    var p, x := AcOf(sc, ci), Trunc(z, sc.al);
    var ke := LastNonzero(x, sc.se);
    TruncAtMost(z, sc.al);
    DcBins(sc.comps[ci].dcTbl, d.ctx[ci], DcValue(sc, z) - d.last[ci]);
    match KindOf(sc)
    case Sequential =>
      var dc, ac := DcDecisions(sc.comps[ci].dcTbl, d.ctx[ci], DcValue(sc, z) - d.last[ci]), AcFrom(p, z, 1, LastNonzero(z, sc.se));
      AcBins(p, z, 1, LastNonzero(z, sc.se));
      ConcatBins(dc, ac);
    case AcFirst => AcBins(p, x, sc.ss, ke);
    case AcRefine => RefineBins(p, x, sc.ss, ke, LastNonzero(Trunc(z, sc.ah), ke));
    case _ =>
  }

  lemma ConcatBins(ds: seq<Decision>, es: seq<Decision>)
    ensures BinsUsed(ds + es) <==> BinsUsed(ds) && BinsUsed(es)
  {
    if BinsUsed(ds + es) {
      assert forall j :: 0 <= j < |ds| ==> (ds + es)[j] == ds[j];
      assert forall j :: 0 <= j < |es| ==> (ds + es)[|ds| + j] == es[j];
    }
  }

  /** A segment keeps to DC bins 0..48 and AC bins 0..244 exactly when the decoder can read it back. */
  lemma {:induction false} SegmentBins(sc: Scan, d: DcState, vs: seq<Visit>)
    requires ScanOk(sc) && DcOk(sc, d) && VisitsOk(sc, vs) && AreBlocks(vs) && ContextsOk(d)
    ensures BinsUsed(SegmentDecisions(sc, d, vs)) <==> DiffsFit(sc, d, vs)
    decreases |vs|
  {
    hide BlockDecisions, DiffFits, NextDc, IsBlock;
    if vs != [] {
      var v := vs[0];
      BlockBins(sc, v.ci, d, v.z);
      ConcatBins(BlockDecisions(sc, v.ci, d, v.z), SegmentDecisions(sc, NextDc(sc, v.ci, d, v.z), vs[1..]));
      SegmentBins(sc, NextDc(sc, v.ci, d, v.z), vs[1..]);
    }
  }
}
