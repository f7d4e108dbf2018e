/**
 * The decisions of a block one by one, as the flow charts of sections F.1.4 and G.1.3 of ITU-T T.81 fix
 * them: which statistics bin each decision is made in, and what it says. Both directions of the coder use
 * the same bins, so that a block is read back says nothing about which bins those are.
 */
module ArithFlow {
  import opened Arithmetic
  import opened Aritab
  import opened Bits
  import opened Blocks
  import opened ArithSpec
  import opened ArithModel
  import opened ArithScan
  import opened ArithSegments

  // ----- One decision -----

  /**
   * Sections D.1.3 to D.1.5: the two decisions divide the interval between them, the lower part has all
   * but Qe, and the decision that equals the MPS never has the smaller part; of equal parts it has the lower.
   */
  lemma SubintervalSizes(iv: Interval, sv: Stat)
    requires iv.Sound() && iv.a >= 0x8000
    ensures var qe, mps, lps := RowOf(sv).qe, Narrow(iv, sv, sv / 0x80), Narrow(iv, sv, 1 - sv / 0x80);
            && mps.a + lps.a == iv.a && mps.a >= lps.a
            && (mps.low == iv.low ==> mps.a == iv.a - qe && lps.low == iv.low + mps.a)
            && (mps.low != iv.low ==> lps.low == iv.low && lps.a == iv.a - qe && mps.low == iv.low + lps.a && mps.a > lps.a)
  {
    hide RowOf;
  }

  /**
   * Section D.1.5: the estimate of a bin changes exactly when the interval falls below 0x8000; then the row
   * of the table says what follows an LPS, with the sense exchanged where it says so, or an MPS.
   */
  lemma EstimateFollowsRenormalization(s: Coder, d: Decision)
    ensures var sv, s' := Get(s.bins, d.bin), Code(s, d);
            var narrowed, sv' := Narrow(s.iv, sv, d.bit), Get(s'.bins, d.bin);
            && (narrowed.a >= 0x8000 ==> s'.iv == narrowed && sv' == sv)
            && (narrowed.a < 0x8000 && d.bit == sv / 0x80 ==> sv' % 0x80 == RowOf(sv).nextMps && sv' / 0x80 == sv / 0x80)
            && (narrowed.a < 0x8000 && d.bit != sv / 0x80 ==>
                  sv' % 0x80 == RowOf(sv).nextLps && (sv' / 0x80 == sv / 0x80 <==> RowOf(sv).switchMps == 0))
            && forall b :: b != d.bin ==> Get(s'.bins, b) == Get(s.bins, b)
  {
    hide RowOf, Narrow;
    KeptSize(s.iv, Get(s.bins, d.bin), d.bit);
    NextIndex(s.iv, Get(s.bins, d.bin), d.bit);
    hide NextStat;
  }

  lemma KeptSize(iv: Interval, sv: Stat, bit: Bit)
    requires iv.Sound() && iv.a >= 0x8000
    ensures Narrow(iv, sv, bit).a >= 0x8000 <==> bit == Mps(sv) && iv.a - RowOf(sv).qe >= 0x8000
  {
    hide RowOf;
  }

  lemma NextIndex(iv: Interval, sv: Stat, bit: Bit)
    ensures var r, next := RowOf(sv), NextStat(iv, sv, bit);
            && (bit == Mps(sv) && iv.a - r.qe >= 0x8000 ==> next == sv)
            && (bit == Mps(sv) && iv.a - r.qe < 0x8000 ==> next % 0x80 == r.nextMps && next / 0x80 == sv / 0x80)
            && (bit != Mps(sv) ==> next % 0x80 == r.nextLps && (next / 0x80 == sv / 0x80 <==> r.switchMps == 0))
  {
    hide RowOf;
  }

  /** Every scan starts from the first row with MPS 0, but for the one bin that stays at even odds. */
  lemma FirstEstimates(b: BinId)
    ensures START.iv == Interval(0, 0x10000, 0) && Mps(Get(START.bins, b)) == 0 && RowOf(Get(START.bins, b)).qe == 0x5a1d
    ensures RowOf(Get(START.bins, b)).nextLps == if b.Fixed? then 113 else 1
  {
    FixedRow(113);
  }

  // ----- Conditioning of DC differences -----

  lemma {:induction false} Log2Unique(u: nat, e: nat)
    requires Pow2(e) <= u < 2 * Pow2(e)
    ensures Log2(u) == e
  {
    Log2Below(u, e + 1);
    Log2AtLeast(u, e);
  }

  /** The power of two below u, compared with a bound, is u compared with it. */
  lemma PowerBelow(u: nat, k: nat)
    requires u > 0
    ensures Pow2(Log2(u)) < Pow2(k) <==> u < Pow2(k)
  {
    if u < Pow2(k) {
      assert k > 0;
      Log2Below(u, k);
      Pow2Monotone(Log2(u) + 1, k);
    } else {
      Log2AtLeast(u, k);
      Pow2Monotone(k, Log2(u));
    }
  }

  /**
   * Section F.1.4.4.1.2: the category is zero for a zero difference and for magnitudes up to 2^(L-1) if L
   * is not zero; otherwise it is large for magnitudes above 2^U and small for all others, by sign.
   */
  lemma ConditioningCategory(lower: nat, upper: nat, v: int)
    ensures var zero := v == 0 || (lower > 0 && Abs(v) <= Pow2(lower - 1));
            && (Context(lower, upper, v) == 0 <==> zero)
            && (!zero && Abs(v) > Pow2(upper) ==> Context(lower, upper, v) == if v > 0 then 12 else 16)
            && (!zero && Abs(v) <= Pow2(upper) ==> Context(lower, upper, v) == if v > 0 then 4 else 8)
  {
    var u := Abs(v) - 1;
    if u > 0 {
      if lower > 0 {
        PowerBelow(u, lower - 1);
      }
      PowerBelow(u, upper);
      if upper > 0 {
        PowerHalf(Log2(u), upper);
      }
    }
  }

  lemma PowerHalf(e: nat, k: nat)
    requires k > 0
    ensures Pow2(e) > Pow2(k) / 2 <==> Pow2(e) >= Pow2(k)
  {
    if e < k {
      Pow2Monotone(e, k - 1);
      Pow2Monotone(e + 1, k);
    } else {
      Pow2Monotone(k, e);
    }
  }

  // ----- Magnitudes -----

  /** A one in each of n bins from st on. */
  function OneEach(st: BinId, n: nat): seq<Decision>
    requires !st.Fixed?
  {
    seq(n, i requires 0 <= i < n => Decision(st.Plus(i), 1))
  }

  /** The e lowest bits of u, highest first, all in the bin st. */
  function LowBits(st: BinId, e: nat, u: nat): seq<Decision> {
    seq(e, i requires 0 <= i < e => Decision(st, u / Pow2(e - 1 - i) % 2))
  }

  lemma {:induction false} OnesAt(st: BinId, n: nat)
    requires !st.Fixed?
    ensures Ones(st, n) == OneEach(st, n)
    decreases n
  {
    if n > 0 {
      OnesAt(st.Plus(1), n - 1);
      assert OneEach(st, n) == [Decision(st, 1)] + OneEach(st.Plus(1), n - 1);
    }
  }

  lemma {:induction false} PatternAt(st: BinId, e: nat, u: nat)
    ensures Pattern(st, e, u) == LowBits(st, e, u)
  {
    hide Pow2;
    if e > 0 {
      PatternAt(st, e - 1, u);
      assert LowBits(st, e, u) == [Decision(st, u / Pow2(e - 1) % 2)] + LowBits(st, e - 1, u);
    }
  }

  /**
   * Figures F.8 and F.9 for u with highest bit number e: a one for each doubling beyond 2^e0, each in a
   * bin of its own, a zero in the bin after those, and the lower bits of u, highest first, in the bin 14
   * further on.
   */
  lemma MagnitudeDecisions(st: BinId, e0: nat, u: nat, e: nat)
    requires !st.Fixed? && e0 <= e && Pow2(e) <= u < 2 * Pow2(e)
    ensures Log2(u) == e
    ensures Tail(st, e0, u) == OneEach(st, e - e0) + ([Decision(st.Plus(e - e0), 0)] + LowBits(st.Plus(e - e0 + 14), e, u))
  {
    hide Ones, OneEach, Pattern, LowBits;
    Log2Unique(u, e);
    OnesAt(st, e - e0);
    PatternAt(st.Plus(e - e0 + 14), e, u);
  }

  // ----- DC differences -----

  /** Figure F.4: whether the difference is zero, its sign, and its magnitude in a bin chosen by the sign. */
  lemma DcDifference(t: nat, ctx: nat, v: int)
    ensures v == 0 ==> DcDecisions(t, ctx, v) == [Decision(Dc(t, ctx), 0)]
    ensures v > 0 ==> DcDecisions(t, ctx, v) == [Decision(Dc(t, ctx), 1), Decision(Dc(t, ctx + 1), 0)] + DcMagnitude(t, ctx + 2, v - 1)
    ensures v < 0 ==> DcDecisions(t, ctx, v) == [Decision(Dc(t, ctx), 1), Decision(Dc(t, ctx + 1), 1)] + DcMagnitude(t, ctx + 3, -v - 1)
  {
    hide DcMagnitude;
  }

  /** Figures F.6, F.8 and F.9 for magnitude u + 1, u having highest bit number e, in the bins of table F.4. */
  lemma DcMagnitudeDecisions(t: nat, i: nat, u: nat, e: nat)
    ensures u == 0 ==> DcMagnitude(t, i, u) == [Decision(Dc(t, i), 0)]
    ensures u >= 1 && Pow2(e) <= u < 2 * Pow2(e) ==>
              DcMagnitude(t, i, u)
              == [Decision(Dc(t, i), 1)] + (OneEach(Dc(t, 20), e) + ([Decision(Dc(t, 20 + e), 0)] + LowBits(Dc(t, 34 + e), e, u)))
  {
    hide Tail, OneEach, LowBits;
    if u >= 1 && Pow2(e) <= u < 2 * Pow2(e) {
      MagnitudeDecisions(Dc(t, 20), 0, u, e);
    }
  }

  // ----- AC coefficients -----

  /** Figures F.7 to F.9 for coefficient k of magnitude u + 1, u having highest bit number e, in the bins of table F.5. */
  lemma AcMagnitudeDecisions(p: AcParams, k: nat, u: nat, e: nat)
    requires k >= 1
    ensures u == 0 ==> AcMagnitude(p, k, u) == [Decision(Ac(p.t, 3 * k - 1), 0)]
    ensures u == 1 ==> AcMagnitude(p, k, u) == [Decision(Ac(p.t, 3 * k - 1), 1), Decision(Ac(p.t, 3 * k - 1), 0)]
    ensures u >= 2 && Pow2(e) <= u < 2 * Pow2(e) ==>
              var x := if k <= p.kx then 189 else 217;
              && e >= 1
              && AcMagnitude(p, k, u)
                 == [Decision(Ac(p.t, 3 * k - 1), 1), Decision(Ac(p.t, 3 * k - 1), 1)]
                    + (OneEach(Ac(p.t, x), e - 1) + ([Decision(Ac(p.t, x + e - 1), 0)] + LowBits(Ac(p.t, x + e + 13), e, u)))
  {
    hide Tail, OneEach, LowBits;
    if u >= 2 && Pow2(e) <= u < 2 * Pow2(e) {
      assert Pow2(0) == 1;
      MagnitudeDecisions(Ac(p.t, if k <= p.kx then 189 else 217), 1, u, e);
    }
  }

  /** The two sets of bins for magnitudes above 2 are apart: 189..216 up to Kx, 217..244 beyond. */
  lemma LargeMagnitudeBins(p: AcParams, k: nat, u: nat, j: nat)
    requires k >= 1 && 2 <= u < 0x8000
    requires 2 <= j < |AcMagnitude(p, k, u)|
    ensures var bin := AcMagnitude(p, k, u)[j].bin;
            bin.Ac? && bin.tbl == p.t && if k <= p.kx then 189 <= bin.i <= 216 else 217 <= bin.i <= 244
    ensures AcMagnitude(p, k, u)[2].bin == Ac(p.t, if k <= p.kx then 189 else 217)
  {
    hide Pow2, AcMagnitude, Log2;
    var e := Log2(u);
    AcMagnitudeDecisions(p, k, u, e);
    Fits15(u);
    assert e == 1 ==> OneEach(Ac(p.t, if k <= p.kx then 189 else 217), 0) == [];
  }

  /** Coefficient j is the first from k on that is not zero. */
  predicate NextNonzero(z: Zigzag, k: nat, j: nat) {
    k <= j < DCTSIZE2 && z[j] != 0 && forall i :: k <= i < j ==> z[i] == 0
  }

  /** A zero decision for each of the coefficients k..j. */
  function ZeroRun(t: nat, k: nat, j: nat): seq<Decision>
    requires 1 <= k <= j
  {
    seq(j - k, i requires 0 <= i < j - k => Decision(Ac(t, 3 * (k + i - 1) + 1), 0))
  }

  lemma ZeroRunStep(t: nat, k: nat, j: nat)
    requires 1 <= k <= j
    ensures ZeroRun(t, k, j) == if k == j then [] else [Decision(Ac(t, 3 * (k - 1) + 1), 0)] + ZeroRun(t, k + 1, j)
  {
  }

  lemma {:induction false} AcRunTo(p: AcParams, z: Zigzag, k: nat, j: nat, ke: nat)
    requires 1 <= k && NextNonzero(z, k, j) && j <= ke <= p.se < DCTSIZE2 && z[ke] != 0
    ensures AcRun(p, z, k, ke) == ZeroRun(p.t, k, j)
              + ([Decision(Ac(p.t, 3 * (j - 1) + 1), 1), Decision(Fixed, if z[j] < 0 then 1 else 0)]
              + AcMagnitude(p, j, Abs(z[j]) - 1) + AcFrom(p, z, j + 1, ke))
    decreases j - k
  {
    hide AcMagnitude, AcFrom, ZeroRun;
    ZeroRunStep(p.t, k, j);
    if k < j {
      AcRunTo(p, z, k + 1, j, ke);
    }
  }

  /**
   * Figure F.5: behind the last nonzero coefficient the band ends with an end-of-block decision, unless
   * it is full; otherwise the block goes on, and zeros, the sign and the magnitude of the next nonzero
   * coefficient come before what follows it.
   */
  lemma AcDecisions(p: AcParams, z: Zigzag, k: nat, ke: nat, j: nat)
    requires 1 <= k && ke <= p.se < DCTSIZE2 && (ke > 0 ==> z[ke] != 0)
    ensures k > p.se ==> AcFrom(p, z, k, ke) == []
    ensures ke < k <= p.se ==> AcFrom(p, z, k, ke) == [Decision(Ac(p.t, 3 * (k - 1)), 1)]
    ensures k <= ke && NextNonzero(z, k, j) ==>
              j <= ke
              && AcFrom(p, z, k, ke) == [Decision(Ac(p.t, 3 * (k - 1)), 0)] + (ZeroRun(p.t, k, j)
                   + ([Decision(Ac(p.t, 3 * (j - 1) + 1), 1), Decision(Fixed, if z[j] < 0 then 1 else 0)]
                   + AcMagnitude(p, j, Abs(z[j]) - 1) + AcFrom(p, z, j + 1, ke)))
  {
    hide AcMagnitude, AcRun, ZeroRun;
    if k <= ke && NextNonzero(z, k, j) {
      AcRunTo(p, z, k, j, ke);
    }
  }

  // ----- Refinement of AC coefficients -----

  /** What is said of coefficient j of a refinement scan: its next bit, or that it is new and its sign. */
  function Refinement(t: nat, j: nat, x: int): seq<Decision>
    requires j >= 1
  {
    if Abs(x) >= 2 then [Decision(Ac(t, 3 * (j - 1) + 2), Abs(x) % 2)]
    else [Decision(Ac(t, 3 * (j - 1) + 1), 1), Decision(Fixed, if x < 0 then 1 else 0)]
  }

  lemma {:induction false} RefineRunTo(p: AcParams, x: Zigzag, k: nat, j: nat, ke: nat, kex: nat)
    requires 1 <= k && NextNonzero(x, k, j) && j <= ke <= p.se < DCTSIZE2 && x[ke] != 0
    ensures RefineRun(p, x, k, ke, kex) == ZeroRun(p.t, k, j) + (Refinement(p.t, j, x[j]) + RefineFrom(p, x, j + 1, ke, kex))
    decreases j - k
  {
    hide RefineFrom, ZeroRun;
    ZeroRunStep(p.t, k, j);
    if k < j {
      RefineRunTo(p, x, k + 1, j, ke, kex);
    }
  }

  /** Figure G.10: as in a first scan, but no end-of-block decision up to the end of the previous scan's block. */
  lemma RefineDecisions(p: AcParams, x: Zigzag, k: nat, ke: nat, kex: nat, j: nat)
    requires 1 <= k && ke <= p.se < DCTSIZE2 && (ke > 0 ==> x[ke] != 0)
    ensures k > p.se ==> RefineFrom(p, x, k, ke, kex) == []
    ensures ke < k <= p.se ==> RefineFrom(p, x, k, ke, kex) == [Decision(Ac(p.t, 3 * (k - 1)), 1)]
    ensures k <= ke && NextNonzero(x, k, j) ==>
              j <= ke
              && RefineFrom(p, x, k, ke, kex)
                 == (if k > kex then [Decision(Ac(p.t, 3 * (k - 1)), 0)] else [])
                    + (ZeroRun(p.t, k, j) + (Refinement(p.t, j, x[j]) + RefineFrom(p, x, j + 1, ke, kex)))
  {
    hide RefineRun, ZeroRun, Refinement;
    if k <= ke && NextNonzero(x, k, j) {
      RefineRunTo(p, x, k, j, ke, kex);
    }
  }

  // ----- Whole blocks -----

  /** Section G.1.2.1: dc is the DC coefficient divided by 2^al, rounded down. */
  predicate DcTransformed(z: Zigzag, al: nat, dc: int) {
    dc * Pow2(al) <= z[0] < dc * Pow2(al) + Pow2(al)
  }

  /** x holds the coefficients divided by 2^al, rounded toward zero. */
  predicate AcTransformed(z: Zigzag, al: nat, x: Zigzag) {
    forall k :: 0 <= k < DCTSIZE2 ==>
      && Abs(x[k]) * Pow2(al) <= Abs(z[k]) < Abs(x[k]) * Pow2(al) + Pow2(al)
      && (x[k] > 0 ==> z[k] > 0) && (x[k] < 0 ==> z[k] < 0)
  }

  lemma DcTransform(z: Zigzag, al: nat, dc: int)
    ensures DcTransformed(z, al, dc) <==> dc == Shift(z[0], al)
  {
    if DcTransformed(z, al, dc) {
      QuotientUnique(z[0], Pow2(al), dc, z[0] - dc * Pow2(al));
    } else {
      FloorBounds(z[0], Pow2(al));
    }
  }

  lemma AcTransform(z: Zigzag, al: nat, x: Zigzag)
    requires AcTransformed(z, al, x)
    ensures x == Trunc(z, al)
  {
    forall k | 0 <= k < DCTSIZE2 ensures x[k] == TruncCoef(z[k], al) {
      QuotientUnique(Abs(z[k]), Pow2(al), Abs(x[k]), Abs(z[k]) - Abs(x[k]) * Pow2(al));
    }
  }

  /** ke is the last coefficient up to se that is not zero, or zero if there is none behind the DC coefficient. */
  predicate EndsAt(z: Zigzag, se: nat, ke: nat) {
    ke <= se < DCTSIZE2 && (ke > 0 ==> z[ke] != 0) && forall k :: ke < k <= se ==> z[k] == 0
  }

  /** Table G.1 and section G.1.2: what a scan says of a block, by the scan's Ss, Ah and Al. */
  lemma BlockFlow(sc: Scan, ci: nat, d: DcState, z: Zigzag, dc: int, x: Zigzag, ke: nat)
    requires ScanOk(sc) && DcOk(sc, d) && ci < |sc.comps|
    requires DcTransformed(z, sc.al, dc) && AcTransformed(z, sc.al, x) && EndsAt(x, sc.se, ke)
    ensures var c := sc.comps[ci];
            var p, diff := AcParams(c.acTbl, sc.acK[c.acTbl], sc.se, sc.al), dc - d.last[ci];
            && (!sc.progressive ==> BlockDecisions(sc, ci, d, z) == DcDecisions(c.dcTbl, d.ctx[ci], diff) + AcFrom(p, z, 1, ke))
            && (sc.progressive && sc.ss == 0 && sc.ah == 0 ==> BlockDecisions(sc, ci, d, z) == DcDecisions(c.dcTbl, d.ctx[ci], diff))
            && (sc.progressive && sc.ss == 0 && sc.ah > 0 ==> BlockDecisions(sc, ci, d, z) == [Decision(Fixed, dc % 2)])
            && (sc.progressive && sc.ss > 0 && sc.ah == 0 ==> BlockDecisions(sc, ci, d, z) == AcFrom(p, x, sc.ss, ke))
  {
    hide DcDecisions, AcFrom, RefineFrom, DcTransformed, AcTransformed, Shift;
    DcTransform(z, sc.al, dc);
    AcTransform(z, sc.al, x);
    if !sc.progressive {
      AcUnshifted(z, x);
    }
  }

  lemma AcUnshifted(z: Zigzag, x: Zigzag)
    requires AcTransformed(z, 0, x)
    ensures x == z
  {
    assert Pow2(0) == 1;
  }

  /** A refinement scan of AC coefficients: y are the coefficients as the previous scan, with Al one greater, left them. */
  lemma RefinedBlockFlow(sc: Scan, ci: nat, d: DcState, z: Zigzag, x: Zigzag, ke: nat, y: Zigzag, kex: nat)
    requires ScanOk(sc) && DcOk(sc, d) && ci < |sc.comps| && sc.progressive && sc.ss > 0 && sc.ah > 0
    requires AcTransformed(z, sc.al, x) && EndsAt(x, sc.se, ke) && AcTransformed(z, sc.al + 1, y) && EndsAt(y, sc.se, kex)
    ensures var c := sc.comps[ci];
            kex <= ke && BlockDecisions(sc, ci, d, z) == RefineFrom(AcParams(c.acTbl, sc.acK[c.acTbl], sc.se, sc.al), x, sc.ss, ke, kex)
  {
    hide DcDecisions, AcFrom, RefineFrom, AcTransformed;
    AcTransform(z, sc.al, x);
    AcTransform(z, sc.al + 1, y);
    if kex > 0 {
      HalfTrunc(z[kex], sc.al);
      assert y[kex] == Half(x[kex]);
    }
    assert LastNonzero(y, ke) == kex;
  }

  // ----- DC predictions along a segment -----

  /** The next block of a segment is coded with the predictions that the blocks before it leave. */
  lemma NextBlockFlow(sc: Scan, vs: seq<Visit>, v: Visit)
    requires ScanOk(sc) && VisitsOk(sc, vs) && v.ci < |sc.comps|
    ensures var d := DcAfter(sc, Fresh(sc), vs);
            && VisitsOk(sc, vs + [v])
            && SegmentDecisions(sc, Fresh(sc), vs + [v]) == SegmentDecisions(sc, Fresh(sc), vs) + BlockDecisions(sc, v.ci, d, v.z)
            && DcAfter(sc, Fresh(sc), vs + [v]) == NextDc(sc, v.ci, d, v.z)
  {
    hide BlockDecisions, NextDc;
    SegmentDecisionsConcat(sc, Fresh(sc), vs, [v]);
    OneVisit(sc, DcAfter(sc, Fresh(sc), vs), v);
  }

  /** Block number i is the last one of component ci. */
  predicate LastOf(vs: seq<Visit>, ci: nat, i: nat) {
    i < |vs| && vs[i].ci == ci && forall j :: i < j < |vs| ==> vs[j].ci != ci
  }

  lemma PredictionStep(sc: Scan, d: DcState, v: Visit, ci: nat)
    requires ScanOk(sc) && DcOk(sc, d) && v.ci < |sc.comps| && ci < |sc.comps| && (!sc.progressive || (sc.ss == 0 && sc.ah == 0))
    ensures var d', t := NextDc(sc, v.ci, d, v.z), sc.comps[ci].dcTbl;
            && (v.ci != ci ==> d'.last[ci] == d.last[ci] && d'.ctx[ci] == d.ctx[ci])
            && (v.ci == ci ==> d'.last[ci] == v.z[0] / Pow2(sc.al)
                               && d'.ctx[ci] == Context(sc.dcL[t], sc.dcU[t], d'.last[ci] - d.last[ci]))
  {
    hide Context;
  }

  /**
   * Section F.1.4.4.1.2: a segment starts with prediction 0 and category zero; later the prediction is the
   * DC value of the component's last block, and the category that of the difference coded for it.
   */
  lemma {:induction false} DcPrediction(sc: Scan, vs: seq<Visit>, ci: nat, i: nat)
    requires ScanOk(sc) && VisitsOk(sc, vs) && ci < |sc.comps| && (!sc.progressive || (sc.ss == 0 && sc.ah == 0))
    ensures var d := DcAfter(sc, Fresh(sc), vs);
            && ((forall j :: 0 <= j < |vs| ==> vs[j].ci != ci) ==> d.last[ci] == 0 && d.ctx[ci] == 0)
            && (LastOf(vs, ci, i) ==>
                  var t, before := sc.comps[ci].dcTbl, DcAfter(sc, Fresh(sc), vs[..i]);
                  && d.last[ci] == vs[i].z[0] / Pow2(sc.al)
                  && d.ctx[ci] == Context(sc.dcL[t], sc.dcU[t], d.last[ci] - before.last[ci]))
    decreases |vs|
  {
    hide Context, NextDc, Pow2, ScanOk, DcAfter, SegmentDecisions, BlockDecisions;
    if vs == [] {
      NothingYet(sc);
    } else {
      var n := |vs| - 1;
      assert vs == vs[..n] + [vs[n]];
      NextBlockFlow(sc, vs[..n], vs[n]);
      if LastOf(vs, ci, i) && i < n {
        assert vs[..n][..i] == vs[..i];
        assert LastOf(vs[..n], ci, i);
      }
      DcPrediction(sc, vs[..n], ci, i);
      PredictionStep(sc, DcAfter(sc, Fresh(sc), vs[..n]), vs[n], ci);
    }
  }

  lemma NothingYet(sc: Scan)
    requires ScanOk(sc)
    ensures DcAfter(sc, Fresh(sc), []) == Fresh(sc)
  {
  }
}
