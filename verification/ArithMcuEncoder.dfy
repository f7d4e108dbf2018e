/**
 * The MCU level of jcarith.c: the encode_mcu variants, proved to code exactly the decisions that
 * ArithScan lists for a block and to keep last_dc_val and dc_context as that listing assumes.
 */
module ArithMcuEncoder {
  import opened Arithmetic
  import opened Bits
  import opened Blocks
  import opened ArithSpec
  import opened ArithModel
  import opened ArithScan
  import opened NaturalOrder
  import opened ArithEncoder
  import opened ArithStats

  // ----- How the decision lists fall apart -----

  /** Everything up to the magnitude of a nonzero DC difference. */
  lemma DcDecisionsCoded(s: Coder, t: nat, ctx: nat, v: int)
    requires v != 0
    ensures var s' := Code(Code(s, Decision(Dc(t, ctx), 1)), Decision(Dc(t, ctx + 1), SignBit(v)));
            CodeAll(s, DcDecisions(t, ctx, v)) == CodeAll(s', DcMagnitude(t, ctx + 2 + SignBit(v), Abs(v) - 1))
  {
    hide Code, DcMagnitude;
    var d0, d1 := Decision(Dc(t, ctx), 1), Decision(Dc(t, ctx + 1), SignBit(v));
    var rest := DcMagnitude(t, ctx + 2 + SignBit(v), Abs(v) - 1);
    CodeAllCons(s, d0, [d1] + rest);
    CodeAllCons(Code(s, d0), d1, rest);
  }

  lemma DcZeroCoded(s: Coder, t: nat, ctx: nat)
    ensures CodeAll(s, DcDecisions(t, ctx, 0)) == Code(s, Decision(Dc(t, ctx), 0))
  {
    OneCoded(s, Decision(Dc(t, ctx), 0));
  }

  lemma ContextBounds(lower: nat, upper: nat, v: int)
    ensures Context(lower, upper, v) <= 16
    ensures Context(lower, upper, 0) == 0
  {
  }

  lemma OneCoded(s: Coder, d: Decision)
    ensures CodeAll(s, [d]) == Code(s, d)
  {
    hide Code;
    CodeAllSnoc(s, [], d);
    assert [] + [d] == [d];
  }

  /** How often `v2 >>= 1` leaves something. */
  function Doublings(v2: nat): nat {
    if v2 == 0 then 0 else 1 + Log2(v2)
  }

  lemma DoublingsHalved(v2: nat)
    requires v2 > 0
    ensures Doublings(v2) == 1 + Doublings(v2 / 2)
    ensures Log2(v2) == Doublings(v2 / 2)
  {
  }

  lemma OnesCoded(s: Coder, st: BinId, n: nat)
    requires !st.Fixed?
    ensures CodeAll(s, Ones(st, n)) == if n == 0 then s else CodeAll(Code(s, Decision(st, 1)), Ones(st.Plus(1), n - 1))
  {
    hide Code;
    if n > 0 {
      CodeAllCons(s, Decision(st, 1), Ones(st.Plus(1), n - 1));
    }
  }

  lemma DoublingsNone(v2: nat)
    ensures Doublings(v2) == 0 <==> v2 == 0
  {
  }

  lemma PatternNone(s: Coder, st: BinId, u: nat)
    requires u <= 1
    ensures Log2(u) == 0 && CodeAll(s, Pattern(st, Log2(u), u)) == s
  {
  }

  lemma FloorIsCoef(v: int, p: int, f: int, t: int)
    requires p >= 1 && t == f * p && t <= v < t + p && IsCoef(v)
    ensures IsCoef(f)
  {
    if f >= 0x8000 {
      MulAtLeast(p, f);
    } else if f < -0x8000 {
      MulAtLeast(p, -f - 1);
      Distribute(-f, 1, p);
    }
  }

  lemma DcValueIsCoef(sc: Scan, z: Zigzag, v: int)
    requires ScanOk(sc) && v == z[0] && IsCoef(v)
    ensures IsCoef(v / Pow2(sc.al)) && v / Pow2(sc.al) == DcValue(sc, z)
  {
    hide Pow2;
    var p: int := Pow2(sc.al);
    FloorBounds(v, p);
    FloorIsCoef(v, p, v / p, v / p * p);
  }

  /** A sequential block is its DC difference and all its AC coefficients, untransformed. */
  lemma SequentialCoded(s: Coder, sc: Scan, ci: nat, d: DcState, z: Zigzag)
    requires ScanOk(sc) && DcOk(sc, d) && ci < |sc.comps| && KindOf(sc).Sequential? && IsBlock(z)
    ensures var dc := DcDecisions(sc.comps[ci].dcTbl, d.ctx[ci], DcValue(sc, z) - d.last[ci]);
            && Trunc(z, sc.al) == z
            && CodeAll(s, BlockDecisions(sc, ci, d, z))
               == CodeAll(CodeAll(s, dc), AcFrom(AcOf(sc, ci), z, 1, LastNonzero(z, sc.se)))
  {
    hide Code, DcDecisions, AcFrom;
    CodeAllConcat(s, DcDecisions(sc.comps[ci].dcTbl, d.ctx[ci], DcValue(sc, z) - d.last[ci]),
                  AcFrom(AcOf(sc, ci), z, 1, LastNonzero(z, sc.se)));
    forall j | 0 <= j < DCTSIZE2 ensures Trunc(z, sc.al)[j] == z[j] {
      TruncBounds(z[j], sc.al);
    }
  }

  lemma TruncIsBlock(order: seq<int>, block: Block, al: nat)
    requires IsNaturalOrder(order) && forall j :: 0 <= j < DCTSIZE2 ==> IsCoef(block[j])
    ensures forall j :: 0 <= j < DCTSIZE2 ==> Abs(Trunc(Zz(order, block), al)[j]) <= 0x8000
  {
    forall j | 0 <= j < DCTSIZE2 ensures Abs(Trunc(Zz(order, block), al)[j]) <= 0x8000 {
      TruncBounds(block[order[j]], al);
    }
  }

  lemma PatternEmpty(s: Coder, st: BinId, u: nat)
    requires u == 0
    ensures CodeAll(s, Pattern(st, Log2(u), u)) == s
  {
  }

  lemma Log2Below16(u: nat)
    requires u < 0x1_0000
    ensures Log2(u) <= 15
  {
    Pow2Values();
    Log2Below(u, 16);
  }

  lemma TailCoded(s: Coder, st: BinId, e0: nat, u: nat)
    requires !st.Fixed? && e0 <= Log2(u)
    ensures var n := Log2(u) - e0;
            CodeAll(s, Tail(st, e0, u))
            == CodeAll(Code(CodeAll(s, Ones(st, n)), Decision(st.Plus(n), 0)), Pattern(st.Plus(n + 14), Log2(u), u))
  {
    hide Code, Ones, Pattern;
    var n := Log2(u) - e0;
    var rest := Pattern(st.Plus(n + 14), Log2(u), u);
    CodeAllConcat(s, Ones(st, n), [Decision(st.Plus(n), 0)] + rest);
    CodeAllCons(CodeAll(s, Ones(st, n)), Decision(st.Plus(n), 0), rest);
  }

  /** Figures F.5, F.6: one nonzero AC coefficient at the end of a run. */
  lemma AcRunNonzeroCoded(s: Coder, p: AcParams, x: Zigzag, k: nat, ke: nat)
    requires 1 <= k <= ke <= p.se < DCTSIZE2 && x[ke] != 0 && x[k] != 0
    ensures var s' := Code(Code(s, Decision(Ac(p.t, 3 * (k - 1) + 1), 1)), Decision(Fixed, SignBit(x[k])));
            CodeAll(s, AcRun(p, x, k, ke))
            == CodeAll(CodeAll(s', AcMagnitude(p, k, Abs(x[k]) - 1)), AcFrom(p, x, k + 1, ke))
  {
    hide Code, AcMagnitude, AcFrom;
    var d0, d1 := Decision(Ac(p.t, 3 * (k - 1) + 1), 1), Decision(Fixed, SignBit(x[k]));
    var mag, rest := AcMagnitude(p, k, Abs(x[k]) - 1), AcFrom(p, x, k + 1, ke);
    CodeAllCons(s, d0, [d1] + (mag + rest));
    CodeAllCons(Code(s, d0), d1, mag + rest);
    CodeAllConcat(Code(Code(s, d0), d1), mag, rest);
  }

  lemma AcRunZeroCoded(s: Coder, p: AcParams, x: Zigzag, k: nat, ke: nat)
    requires 1 <= k < ke <= p.se < DCTSIZE2 && x[ke] != 0 && x[k] == 0
    ensures CodeAll(s, AcRun(p, x, k, ke)) == CodeAll(Code(s, Decision(Ac(p.t, 3 * (k - 1) + 1), 0)), AcRun(p, x, k + 1, ke))
  {
    hide Code;
    CodeAllCons(s, Decision(Ac(p.t, 3 * (k - 1) + 1), 0), AcRun(p, x, k + 1, ke));
  }

  lemma AcFromCoded(s: Coder, p: AcParams, x: Zigzag, k: nat, ke: nat)
    requires 1 <= k && ke <= p.se < DCTSIZE2 && (ke > 0 ==> x[ke] != 0)
    ensures k <= ke ==> CodeAll(s, AcFrom(p, x, k, ke)) == CodeAll(Code(s, Decision(Ac(p.t, 3 * (k - 1)), 0)), AcRun(p, x, k, ke))
    ensures ke < k <= p.se ==> CodeAll(s, AcFrom(p, x, k, ke)) == Code(s, Decision(Ac(p.t, 3 * (k - 1)), 1))
    ensures p.se < k ==> CodeAll(s, AcFrom(p, x, k, ke)) == s
  {
    hide Code, AcRun;
    var st := Ac(p.t, 3 * (k - 1));
    if k <= ke {
      CodeAllCons(s, Decision(st, 0), AcRun(p, x, k, ke));
    } else {
      OneCoded(s, Decision(st, 1));
    }
  }

  lemma AcMagnitudeCoded(s: Coder, p: AcParams, k: nat, u: nat)
    requires k >= 1 && u >= 1
    ensures var st := Ac(p.t, 3 * k - 1);
            && (u == 1 ==> CodeAll(s, AcMagnitude(p, k, u)) == Code(Code(s, Decision(st, 1)), Decision(st, 0)))
            && (u > 1 ==> Log2(u) >= 1 && CodeAll(s, AcMagnitude(p, k, u)) == CodeAll(Code(Code(s, Decision(st, 1)), Decision(st, 1)), Tail(X(p, k), 1, u)))
  {
    hide Code, Tail;
    var st := Ac(p.t, 3 * k - 1);
    CodeAllCons(s, Decision(st, 1), AcMagnitude2(p, k, u));
    if u == 1 {
      OneCoded(Code(s, Decision(st, 1)), Decision(st, 0));
    } else {
      Log2AtLeast(u, 1);
      CodeAllCons(Code(s, Decision(st, 1)), Decision(st, 1), Tail(X(p, k), 1, u));
    }
  }

  lemma RefineFromCoded(s: Coder, p: AcParams, x: Zigzag, k: nat, ke: nat, kex: nat)
    requires 1 <= k && ke <= p.se < DCTSIZE2 && (ke > 0 ==> x[ke] != 0)
    ensures k <= ke ==>
              CodeAll(s, RefineFrom(p, x, k, ke, kex))
              == CodeAll(if k > kex then Code(s, Decision(Ac(p.t, 3 * (k - 1)), 0)) else s, RefineRun(p, x, k, ke, kex))
    ensures ke < k <= p.se ==> CodeAll(s, RefineFrom(p, x, k, ke, kex)) == Code(s, Decision(Ac(p.t, 3 * (k - 1)), 1))
    ensures p.se < k ==> CodeAll(s, RefineFrom(p, x, k, ke, kex)) == s
  {
    hide Code, RefineRun;
    var st := Ac(p.t, 3 * (k - 1));
    if k <= ke {
      if k > kex {
        CodeAllCons(s, Decision(st, 0), RefineRun(p, x, k, ke, kex));
      } else {
        assert RefineFrom(p, x, k, ke, kex) == RefineRun(p, x, k, ke, kex);
      }
    } else {
      OneCoded(s, Decision(st, 1));
    }
  }

  lemma RefineRunZeroCoded(s: Coder, p: AcParams, x: Zigzag, k: nat, ke: nat, kex: nat)
    requires 1 <= k < ke <= p.se < DCTSIZE2 && x[ke] != 0 && x[k] == 0
    ensures CodeAll(s, RefineRun(p, x, k, ke, kex))
         == CodeAll(Code(s, Decision(Ac(p.t, 3 * (k - 1) + 1), 0)), RefineRun(p, x, k + 1, ke, kex))
  {
    hide Code;
    CodeAllCons(s, Decision(Ac(p.t, 3 * (k - 1) + 1), 0), RefineRun(p, x, k + 1, ke, kex));
  }

  lemma RefineRunNonzeroCoded(s: Coder, p: AcParams, x: Zigzag, k: nat, ke: nat, kex: nat)
    requires 1 <= k <= ke <= p.se < DCTSIZE2 && x[ke] != 0 && x[k] != 0
    ensures var i, rest := 3 * (k - 1), RefineFrom(p, x, k + 1, ke, kex);
            CodeAll(s, RefineRun(p, x, k, ke, kex))
            == if Abs(x[k]) / 2 != 0 then CodeAll(Code(s, Decision(Ac(p.t, i + 2), Abs(x[k]) % 2)), rest)
               else CodeAll(Code(Code(s, Decision(Ac(p.t, i + 1), 1)), Decision(Fixed, SignBit(x[k]))), rest)
  {
    hide Code, RefineFrom;
    var i, rest := 3 * (k - 1), RefineFrom(p, x, k + 1, ke, kex);
    if Abs(x[k]) / 2 != 0 {
      CodeAllCons(s, Decision(Ac(p.t, i + 2), Abs(x[k]) % 2), rest);
    } else {
      var d0, d1 := Decision(Ac(p.t, i + 1), 1), Decision(Fixed, SignBit(x[k]));
      CodeAllCons(s, d0, [d1] + rest);
      CodeAllCons(Code(s, d0), d1, rest);
    }
  }

  class McuEncoder {
    const core: Encoder
    const lastDcVal: array<int>
    const dcContext: array<nat>
    const order: seq<int>
    var scan: Scan

    constructor (order: seq<int>)
      requires IsNaturalOrder(order)
      ensures this.order == order && Shape() && core.stats.Agrees(map[]) && core.coder == START && core.out == []
      ensures fresh(core) && fresh(core.stats) && fresh(core.stats.dcStats) && fresh(core.stats.acStats) && fresh(core.stats.fixedBin) && fresh(lastDcVal) && fresh(dcContext)
    {
      core := new Encoder();
      lastDcVal := new int[4];
      dcContext := new nat[4];
      scan := Scan([], false, 0, 0, 0, 0, [], [], []);
      this.order := order;
    }

    ghost predicate Shape()
    {
      lastDcVal.Length == dcContext.Length == 4 && IsNaturalOrder(order)
    }

    /** The coder is in working order and still codes the same segment with the same tables. */
    twostate predicate Working()
      reads core, core.stats, core.stats.dcStats, core.stats.acStats, core.stats.fixedBin
    {
      && core.Valid()
      && core.stats.dcTables == old(core.stats.dcTables) && core.stats.acTables == old(core.stats.acTables) && core.prior == old(core.prior)
    }

    method Encode(st: BinId, val: Bit)
      requires core.Valid() && core.stats.Usable(st)
      modifies core, core.stats, core.stats.dcStats, core.stats.acStats, core.stats.fixedBin
      ensures Working() && core.coder == Code(old(core.coder), Decision(st, val))
    {
      hide Code;
      core.ArithEncode(st, val);
    }

    /** `while (v2 >>= 1) { arith_encode(st, 1); m <<= 1; st += 1; }` with m == 1 << e on entry. */
    method EncodeOnes(st0: BinId, u: nat, e: nat) returns (m: nat, st: BinId)
      requires core.Valid() && !st0.Fixed?
      requires u >= 1
      requires forall i: nat :: i <= Log2(u) ==> core.stats.Usable(st0.Plus(i))
      modifies core, core.stats, core.stats.dcStats, core.stats.acStats, core.stats.fixedBin
      ensures Working() && core.coder == CodeAll(old(core.coder), Ones(st0, Log2(u)))
      ensures m == Pow2(e + Log2(u)) && st == st0.Plus(Log2(u))
    {
      hide Code, CodeAll, Ones, Encoder.Valid, Log2, Doublings;
      DoublingsHalved(u);
      var v2: nat := u / 2;
      m := Pow2(e);
      st := st0;
      ghost var i := 0;
      while v2 != 0
        invariant Working()
        invariant 0 <= i <= Log2(u) && st == st0.Plus(i) && m == Pow2(e + i)
        invariant Log2(u) == i + Doublings(v2)
        invariant CodeAll(core.coder, Ones(st, Log2(u) - i)) == CodeAll(old(core.coder), Ones(st0, Log2(u)))
        decreases v2
      {
        DoublingsHalved(v2);
        OnesCoded(core.coder, st, Log2(u) - i);
        Encode(st, 1);
        m := 2 * m;
        st := st.Plus(1);
        v2 := v2 / 2;
        i := i + 1;
      }
      DoublingsNone(v2);
      OnesCoded(core.coder, st, 0);
    }

    /** `while (m >>= 1) arith_encode(st, (m & v) ? 1 : 0);` with m == 1 << e on entry. */
    method EncodePattern(st: BinId, m0: nat, u: nat, ghost e: nat)
      requires core.Valid() && core.stats.Usable(st) && m0 == (if m0 == 0 then e else Pow2(e))
      modifies core, core.stats, core.stats.dcStats, core.stats.acStats, core.stats.fixedBin
      ensures Working() && core.coder == CodeAll(old(core.coder), Pattern(st, e, u))
    {
      hide Code, Encoder.Valid;
      var m: nat := m0 / 2;
      ghost var j := e;
      while m != 0
        invariant Working()
        invariant 0 <= j <= e && m == if j == 0 then 0 else Pow2(j - 1)
        invariant CodeAll(core.coder, Pattern(st, j, u)) == CodeAll(old(core.coder), Pattern(st, e, u))
        decreases j
      {
        CodeAllCons(core.coder, Decision(st, BitAt(u, j - 1)), Pattern(st, j - 1, u));
        core.ArithEncode(st, if u / m % 2 == 1 then 1 else 0);
        m := m / 2;
        j := j - 1;
      }
    }

    /** Figure F.8 for DC: the magnitude category of v == u + 1; m is 0 or the highest power of two in u. */
    method EncodeDcCategory(t: nat, i: nat, u: nat) returns (m: nat, st: BinId)
      requires core.Valid() && i < 20 && u < 0x1_0000
      requires forall j :: 0 <= j < 64 ==> core.stats.Usable(Dc(t, j))
      modifies core, core.stats, core.stats.dcStats, core.stats.acStats, core.stats.fixedBin
      ensures Working()
      ensures m == (if u == 0 then 0 else Pow2(Log2(u))) && st == Dc(t, if u == 0 then i else 20 + Log2(u))
      ensures Log2(u) <= 15 && (u == 0 ==> Log2(u) == 0)
      ensures CodeAll(core.coder, Pattern(st.Plus(14), Log2(u), u)) == CodeAll(old(core.coder), DcMagnitude(t, i, u))
    {
      hide Code, Encoder.Valid, Pattern, Ones, Pow2, Tail, CodeAll;
      m := 0;
      st := Dc(t, i);
      if u != 0 {
        Log2Below16(u);
        CodeAllCons(core.coder, Decision(st, 1), Tail(Dc(t, 20), 0, u));
        Encode(st, 1);
        TailCoded(core.coder, Dc(t, 20), 0, u);
        m, st := EncodeOnes(Dc(t, 20), u, 0);
      } else {
        OneCoded(core.coder, Decision(st, 0));
        PatternEmpty(core.coder, st.Plus(14), u);
      }
      Encode(st, 0);
      if u == 0 {
        PatternEmpty(core.coder, st.Plus(14), u);
      }
    }

    /** `last_dc_val` and `dc_context` of the scan's components. */
    ghost function DcNow(): DcState
      requires Shape() && |scan.comps| <= 4
      reads this`scan, lastDcVal, dcContext
    {
      DcState(lastDcVal[..|scan.comps|], dcContext[..|scan.comps|])
    }

    /** start_pass has prepared the tables this kind of scan uses. */
    ghost predicate TablesReady()
      reads this`scan, core.stats
    {
      && (KindOf(scan).Sequential? || KindOf(scan).DcFirst? ==>
            forall ci :: 0 <= ci < |scan.comps| ==> scan.comps[ci].dcTbl in core.stats.dcTables)
      && (KindOf(scan).Sequential? || KindOf(scan).AcFirst? || KindOf(scan).AcRefine? ==>
            forall ci :: 0 <= ci < |scan.comps| ==> scan.comps[ci].acTbl in core.stats.acTables)
    }

    ghost predicate DcReady()
      reads this`scan, lastDcVal, dcContext
    {
      && Shape() && ScanOk(scan)
      && (KindOf(scan).Sequential? || KindOf(scan).DcFirst? ==>
            forall ci :: 0 <= ci < |scan.comps| ==> IsCoef(lastDcVal[ci]) && dcContext[ci] <= 16)
    }

    ghost predicate Ready()
      reads this`scan, lastDcVal, dcContext, core, core.stats, core.stats.dcStats, core.stats.acStats, core.stats.fixedBin
    {
      DcReady() && TablesReady() && core.Valid()
    }

    /** Section F.1.4.4.1.2: establish the dc_context conditioning category. */
    method SetContext(ci: nat, m: nat, ghost v: int)
      requires Shape() && ScanOk(scan) && ci < |scan.comps| && v != 0
      requires dcContext[ci] == 4 + SignBit(v) * 4
      requires m == if Abs(v) == 1 then 0 else Pow2(Log2(Abs(v) - 1))
      modifies dcContext
      ensures dcContext[..] == old(dcContext[..])[ci := Context(scan.dcL[scan.comps[ci].dcTbl], scan.dcU[scan.comps[ci].dcTbl], v)]
    {
      var tbl := scan.comps[ci].dcTbl;
      if m < Pow2(scan.dcL[tbl]) / 2 {
        dcContext[ci] := 0;
      } else if m > Pow2(scan.dcU[tbl]) / 2 {
        dcContext[ci] := dcContext[ci] + 8;
      }
    }

    /** Figures F.4 and F.7: a nonzero difference and its sign; st is the bin for its magnitude. */
    method EncodeDcSign(t: nat, ctx: nat, v: int) returns (i: nat, category: nat)
      requires core.Valid() && ctx <= 16 && v != 0
      requires forall j :: 0 <= j < 64 ==> core.stats.Usable(Dc(t, j))
      modifies core, core.stats, core.stats.dcStats, core.stats.acStats, core.stats.fixedBin
      ensures Working() && i == ctx + 2 + SignBit(v) && category == 4 + SignBit(v) * 4
      ensures CodeAll(core.coder, DcMagnitude(t, i, Abs(v) - 1)) == CodeAll(old(core.coder), DcDecisions(t, ctx, v))
    {
      hide Code, Encoder.Valid, DcDecisions, DcMagnitude;
      DcDecisionsCoded(core.coder, t, ctx, v);
      var st := Dc(t, ctx);
      Encode(st, 1);
      if v > 0 {
        Encode(st.Plus(1), 0);
        i, category := ctx + 2, 4;
      } else {
        Encode(st.Plus(1), 1);
        i, category := ctx + 3, 8;
      }
    }

    /** The branch of Encode_DC_DIFF for a nonzero difference v. */
    method EncodeDcNonzero(ci: nat, v: int)
      requires Ready() && ci < |scan.comps| && v != 0 && Abs(v) <= 0x1_0000
      requires KindOf(scan).Sequential? || KindOf(scan).DcFirst?
      modifies core, core.stats, core.stats.dcStats, core.stats.acStats, core.stats.fixedBin, dcContext
      ensures Ready() && Working()
      ensures core.coder == CodeAll(old(core.coder), DcDecisions(scan.comps[ci].dcTbl, old(dcContext[ci]), v))
      ensures dcContext[..] == old(dcContext[..])[ci := Context(scan.dcL[scan.comps[ci].dcTbl], scan.dcU[scan.comps[ci].dcTbl], v)]
    {
      hide Code, Encoder.Valid, DcDecisions, DcMagnitude, Context, Pattern, Log2, IsNaturalOrder;
      var tbl := scan.comps[ci].dcTbl;
      ContextBounds(scan.dcL[tbl], scan.dcU[tbl], v);
      var i, category := EncodeDcSign(tbl, dcContext[ci], v);
      dcContext[ci] := category;
      var m, st := EncodeDcCategory(tbl, i, Abs(v) - 1);
      SetContext(ci, m, v);
      EncodePattern(st.Plus(14), m, Abs(v) - 1, Log2(Abs(v) - 1));
    }

    /** Figure F.4, Encode_DC_DIFF, for the DC value m of a block of component ci. */
    method EncodeDc(ci: nat, m: int)
      requires Ready() && ci < |scan.comps| && IsCoef(m)
      requires KindOf(scan).Sequential? || KindOf(scan).DcFirst?
      modifies core, core.stats, core.stats.dcStats, core.stats.acStats, core.stats.fixedBin, lastDcVal, dcContext
      ensures Ready() && Working()
      ensures var d := old(DcNow());
              && core.coder == CodeAll(old(core.coder), DcDecisions(scan.comps[ci].dcTbl, d.ctx[ci], m - d.last[ci]))
              && DcNow() == Advance(scan, ci, d, m - d.last[ci])
    {
      hide Code, Encoder.Valid, DcDecisions, Context, IsNaturalOrder;
      var tbl, v := scan.comps[ci].dcTbl, m - lastDcVal[ci];
      if v == 0 {
        DcZeroCoded(core.coder, tbl, dcContext[ci]);
        ContextBounds(scan.dcL[tbl], scan.dcU[tbl], 0);
        Encode(Dc(tbl, dcContext[ci]), 0);
        dcContext[ci] := 0;
      } else {
        lastDcVal[ci] := m;
        EncodeDcNonzero(ci, v);
      }
    }

    /** Figure F.8 for AC: the magnitude category of |v| == u + 1. */
    method EncodeAcCategory(p: AcParams, k: nat, u: nat) returns (m: nat, st: BinId)
      requires core.Valid() && 1 <= k < DCTSIZE2 && u < 0x8000
      requires forall j :: 0 <= j < 256 ==> core.stats.Usable(Ac(p.t, j))
      modifies core, core.stats, core.stats.dcStats, core.stats.acStats, core.stats.fixedBin
      ensures Working()
      ensures m == (if u == 0 then 0 else Pow2(Log2(u))) && !st.Fixed? && core.stats.Usable(st.Plus(14))
      ensures u == 0 ==> Log2(u) == 0
      ensures CodeAll(core.coder, Pattern(st.Plus(14), Log2(u), u)) == CodeAll(old(core.coder), AcMagnitude(p, k, u))
    {
      hide Code, Encoder.Valid, Pattern, Ones, Tail;
      m := 0;
      st := Ac(p.t, 3 * k - 1);
      if u == 0 {
        OneCoded(core.coder, Decision(st, 0));
      } else {
        AcMagnitudeCoded(core.coder, p, k, u);
        Encode(st, 1);
        m := 1;
        if u / 2 != 0 {
          Fits15(u);
          TailCoded(Code(core.coder, Decision(st, 1)), X(p, k), 1, u);
          Encode(st, 1);
          m, st := EncodeOnes(X(p, k), u / 2, 1);
        }
      }
      Encode(st, 0);
      if u <= 1 {
        PatternNone(core.coder, st.Plus(14), u);
      }
    }

    /** One nonzero coefficient after its zero run: figures F.6 to F.9. */
    method EncodeAcNonzero(p: AcParams, ghost x: Zigzag, k: nat, ghost ke: nat, v: int)
      requires core.Valid() && 1 <= k <= ke <= p.se < DCTSIZE2 && x[ke] != 0 && v == x[k] != 0 && Abs(v) <= 0x8000
      requires forall j :: 0 <= j < 256 ==> core.stats.Usable(Ac(p.t, j))
      modifies core, core.stats, core.stats.dcStats, core.stats.acStats, core.stats.fixedBin
      ensures Working()
      ensures CodeAll(core.coder, AcFrom(p, x, k + 1, ke)) == CodeAll(old(core.coder), AcRun(p, x, k, ke))
    {
      hide Code, Encoder.Valid, Pattern, AcMagnitude, AcRun, AcFrom;
      AcRunNonzeroCoded(core.coder, p, x, k, ke);
      Encode(Ac(p.t, 3 * (k - 1) + 1), 1);
      if v > 0 {
        Encode(Fixed, 0);
      } else {
        Encode(Fixed, 1);
      }
      var m, st := EncodeAcCategory(p, k, Abs(v) - 1);
      EncodePattern(st.Plus(14), m, Abs(v) - 1, Log2(Abs(v) - 1));
    }

    /** A coefficient after the point transform: `v >>= Al` on the absolute value. */
    method Transformed(block: Block, k: nat, al: nat) returns (v: int)
      requires IsNaturalOrder(order) && k < DCTSIZE2
      ensures v == Trunc(Zz(order, block), al)[k]
    {
      v := block[order[k]];
      if v >= 0 {
        v := v / Pow2(al);
      } else {
        v := -v;
        v := v / Pow2(al);
        v := -v;
      }
    }

    /** `for (ke = Se; ke > 0; ke--)` until a coefficient is nonzero after the point transform. */
    method FindLast(block: Block, se: nat, al: nat) returns (ke: nat)
      requires IsNaturalOrder(order) && se < DCTSIZE2
      ensures ke == LastNonzero(Trunc(Zz(order, block), al), se)
    {
      ke := se;
      while ke > 0
        invariant ke <= se
        invariant LastNonzero(Trunc(Zz(order, block), al), se) == LastNonzero(Trunc(Zz(order, block), al), ke)
      {
        var v := Transformed(block, ke, al);
        if v != 0 {
          return;
        }
        ke := ke - 1;
      }
    }

    /** Figure F.5, Encode_AC_Coefficients, for the band ss..p.se of a block after the point transform. */
    method EncodeAc(p: AcParams, block: Block, ss: nat)
      requires core.Valid() && IsNaturalOrder(order) && 1 <= ss && p.se < DCTSIZE2
      requires forall j :: 0 <= j < DCTSIZE2 ==> IsCoef(block[j])
      requires forall j :: 0 <= j < 256 ==> core.stats.Usable(Ac(p.t, j))
      modifies core, core.stats, core.stats.dcStats, core.stats.acStats, core.stats.fixedBin
      ensures Working()
      ensures var x := Trunc(Zz(order, block), p.al);
              core.coder == CodeAll(old(core.coder), AcFrom(p, x, ss, LastNonzero(x, p.se)))
    {
      hide Code, Encoder.Valid, AcFrom, AcRun, Trunc;
      ghost var x := Trunc(Zz(order, block), p.al);
      TruncIsBlock(order, block, p.al);
      var ke := FindLast(block, p.se, p.al);
      var k := ss;
      while k <= ke
        invariant ss <= k
        invariant Working()
        invariant CodeAll(core.coder, AcFrom(p, x, k, ke)) == CodeAll(old(core.coder), AcFrom(p, x, ss, ke))
      {
        AcFromCoded(core.coder, p, x, k, ke);
        Encode(Ac(p.t, 3 * (k - 1)), 0);
        var v := Transformed(block, k, p.al);
        while v == 0
          invariant ss <= k <= ke && v == x[k]
          invariant Working()
          invariant CodeAll(core.coder, AcRun(p, x, k, ke)) == CodeAll(old(core.coder), AcFrom(p, x, ss, ke))
          decreases ke - k
        {
          AcRunZeroCoded(core.coder, p, x, k, ke);
          Encode(Ac(p.t, 3 * (k - 1) + 1), 0);
          k := k + 1;
          v := Transformed(block, k, p.al);
        }
        EncodeAcNonzero(p, x, k, ke, v);
        k := k + 1;
      }
      AcFromCoded(core.coder, p, x, k, ke);
      if k <= p.se {
        Encode(Ac(p.t, 3 * (k - 1)), 1);
      }
    }

    /** One nonzero coefficient of a refinement: a correction bit, or the news and the sign. */
    method EncodeRefined(p: AcParams, ghost x: Zigzag, k: nat, ghost ke: nat, ghost kex: nat, v: int)
      requires core.Valid() && 1 <= k <= ke <= p.se < DCTSIZE2 && x[ke] != 0 && v == x[k] != 0
      requires forall j :: 0 <= j < 256 ==> core.stats.Usable(Ac(p.t, j))
      modifies core, core.stats, core.stats.dcStats, core.stats.acStats, core.stats.fixedBin
      ensures Working()
      ensures CodeAll(core.coder, RefineFrom(p, x, k + 1, ke, kex)) == CodeAll(old(core.coder), RefineRun(p, x, k, ke, kex))
    {
      hide Code, Encoder.Valid, RefineRun, RefineFrom;
      RefineRunNonzeroCoded(core.coder, p, x, k, ke, kex);
      if Abs(v) / 2 != 0 {
        Encode(Ac(p.t, 3 * (k - 1) + 2), Abs(v) % 2);
      } else {
        Encode(Ac(p.t, 3 * (k - 1) + 1), 1);
        Encode(Fixed, SignBit(v));
      }
    }

    /** Figure G.10, Encode_AC_Coefficients_SA. */
    method EncodeAcRefine(p: AcParams, block: Block, ss: nat, ah: nat)
      requires core.Valid() && IsNaturalOrder(order) && 1 <= ss && p.se < DCTSIZE2
      requires forall j :: 0 <= j < 256 ==> core.stats.Usable(Ac(p.t, j))
      modifies core, core.stats, core.stats.dcStats, core.stats.acStats, core.stats.fixedBin
      ensures Working()
      ensures var x := Trunc(Zz(order, block), p.al);
              var ke := LastNonzero(x, p.se);
              core.coder == CodeAll(old(core.coder), RefineFrom(p, x, ss, ke, LastNonzero(Trunc(Zz(order, block), ah), ke)))
    {
      hide Code, Encoder.Valid, RefineFrom, RefineRun, Trunc;
      ghost var x := Trunc(Zz(order, block), p.al);
      var ke := FindLast(block, p.se, p.al);
      var kex := FindLast(block, ke, ah);
      var k := ss;
      while k <= ke
        invariant ss <= k
        invariant Working()
        invariant CodeAll(core.coder, RefineFrom(p, x, k, ke, kex)) == CodeAll(old(core.coder), RefineFrom(p, x, ss, ke, kex))
      {
        RefineFromCoded(core.coder, p, x, k, ke, kex);
        if k > kex {
          Encode(Ac(p.t, 3 * (k - 1)), 0);
        }
        var v := Transformed(block, k, p.al);
        while v == 0
          invariant ss <= k <= ke && v == x[k]
          invariant Working()
          invariant CodeAll(core.coder, RefineRun(p, x, k, ke, kex)) == CodeAll(old(core.coder), RefineFrom(p, x, ss, ke, kex))
          decreases ke - k
        {
          RefineRunZeroCoded(core.coder, p, x, k, ke, kex);
          Encode(Ac(p.t, 3 * (k - 1) + 1), 0);
          k := k + 1;
          v := Transformed(block, k, p.al);
        }
        EncodeRefined(p, x, k, ke, kex, v);
        k := k + 1;
      }
      RefineFromCoded(core.coder, p, x, k, ke, kex);
      if k <= p.se {
        Encode(Ac(p.t, 3 * (k - 1)), 1);
      }
    }

    /** The block loop body of encode_mcu. */
    method EncodeSequentialBlock(ci: nat, block: Block)
      requires Ready() && ci < |scan.comps| && KindOf(scan).Sequential?
      requires forall j :: 0 <= j < DCTSIZE2 ==> IsCoef(block[j])
      modifies core, core.stats, core.stats.dcStats, core.stats.acStats, core.stats.fixedBin, lastDcVal, dcContext
      ensures Ready() && Working()
      ensures var z := Zz(order, block);
              && core.coder == CodeAll(old(core.coder), BlockDecisions(scan, ci, old(DcNow()), z))
              && DcNow() == NextDc(scan, ci, old(DcNow()), z)
    {
      hide Code, Encoder.Valid, DcDecisions, AcFrom, RefineFrom, Advance, Trunc, LastNonzero;
      SequentialCoded(core.coder, scan, ci, DcNow(), Zz(order, block));
      DcValueIsCoef(scan, Zz(order, block), block[0]);
      EncodeDc(ci, block[0] / Pow2(scan.al));
      EncodeAc(AcParams(scan.comps[ci].acTbl, scan.acK[scan.comps[ci].acTbl], scan.se, scan.al), block, 1);
    }

    /** The block loop body of encode_mcu_DC_first. */
    method EncodeDcFirstBlock(ci: nat, block: Block)
      requires Ready() && ci < |scan.comps| && KindOf(scan).DcFirst?
      requires forall j :: 0 <= j < DCTSIZE2 ==> IsCoef(block[j])
      modifies core, core.stats, core.stats.dcStats, core.stats.acStats, core.stats.fixedBin, lastDcVal, dcContext
      ensures Ready() && Working()
      ensures var z := Zz(order, block);
              && core.coder == CodeAll(old(core.coder), BlockDecisions(scan, ci, old(DcNow()), z))
              && DcNow() == NextDc(scan, ci, old(DcNow()), z)
    {
      hide Code, Encoder.Valid, DcDecisions, AcFrom, RefineFrom, Advance, Trunc, LastNonzero;
      DcValueIsCoef(scan, Zz(order, block), block[0]);
      EncodeDc(ci, block[0] / Pow2(scan.al));
    }

    /** The block loop body of encode_mcu_AC_first. */
    method EncodeAcFirstBlock(ci: nat, block: Block)
      requires Ready() && ci < |scan.comps| && KindOf(scan).AcFirst?
      requires forall j :: 0 <= j < DCTSIZE2 ==> IsCoef(block[j])
      modifies core, core.stats, core.stats.dcStats, core.stats.acStats, core.stats.fixedBin, lastDcVal, dcContext
      ensures Ready() && Working()
      ensures var z := Zz(order, block);
              && core.coder == CodeAll(old(core.coder), BlockDecisions(scan, ci, old(DcNow()), z))
              && DcNow() == NextDc(scan, ci, old(DcNow()), z)
    {
      hide Code, Encoder.Valid, DcDecisions, AcFrom, RefineFrom, Advance, Trunc, LastNonzero;
      EncodeAc(AcParams(scan.comps[ci].acTbl, scan.acK[scan.comps[ci].acTbl], scan.se, scan.al), block, scan.ss);
    }

    /** The block loop body of encode_mcu_DC_refine. */
    method EncodeDcRefineBlock(ci: nat, block: Block)
      requires Ready() && ci < |scan.comps| && KindOf(scan).DcRefine?
      requires forall j :: 0 <= j < DCTSIZE2 ==> IsCoef(block[j])
      modifies core, core.stats, core.stats.dcStats, core.stats.acStats, core.stats.fixedBin, lastDcVal, dcContext
      ensures Ready() && Working()
      ensures var z := Zz(order, block);
              && core.coder == CodeAll(old(core.coder), BlockDecisions(scan, ci, old(DcNow()), z))
              && DcNow() == NextDc(scan, ci, old(DcNow()), z)
    {
      hide Code, Encoder.Valid, DcDecisions, AcFrom, RefineFrom, Advance, Trunc, LastNonzero;
      DcValueIsCoef(scan, Zz(order, block), block[0]);
      OneCoded(core.coder, Decision(Fixed, DcValue(scan, Zz(order, block)) % 2));
      Encode(Fixed, block[0] / Pow2(scan.al) % 2);
    }

    /** The block loop body of encode_mcu_AC_refine. */
    method EncodeAcRefineBlock(ci: nat, block: Block)
      requires Ready() && ci < |scan.comps| && KindOf(scan).AcRefine?
      requires forall j :: 0 <= j < DCTSIZE2 ==> IsCoef(block[j])
      modifies core, core.stats, core.stats.dcStats, core.stats.acStats, core.stats.fixedBin, lastDcVal, dcContext
      ensures Ready() && Working()
      ensures var z := Zz(order, block);
              && core.coder == CodeAll(old(core.coder), BlockDecisions(scan, ci, old(DcNow()), z))
              && DcNow() == NextDc(scan, ci, old(DcNow()), z)
    {
      hide Code, Encoder.Valid, DcDecisions, AcFrom, RefineFrom, Advance, Trunc, LastNonzero;
      EncodeAcRefine(AcParams(scan.comps[ci].acTbl, scan.acK[scan.comps[ci].acTbl], scan.se, scan.al), block, scan.ss, scan.ah);
    }

    /** One block of component ci, by the routine that start_pass selected. */
    method EncodeBlock(ci: nat, block: Block)
      requires Ready() && ci < |scan.comps|
      requires forall j :: 0 <= j < DCTSIZE2 ==> IsCoef(block[j])
      modifies core, core.stats, core.stats.dcStats, core.stats.acStats, core.stats.fixedBin, lastDcVal, dcContext
      ensures Ready() && Working()
      ensures var z := Zz(order, block);
              && core.coder == CodeAll(old(core.coder), BlockDecisions(scan, ci, old(DcNow()), z))
              && DcNow() == NextDc(scan, ci, old(DcNow()), z)
    {
      hide Code, Encoder.Valid, BlockDecisions, NextDc, IsNaturalOrder;
      if !scan.progressive {
        EncodeSequentialBlock(ci, block);
      } else if scan.ah == 0 {
        if scan.ss == 0 {
          EncodeDcFirstBlock(ci, block);
        } else {
          EncodeAcFirstBlock(ci, block);
        }
      } else if scan.ss == 0 {
        EncodeDcRefineBlock(ci, block);
      } else {
        EncodeAcRefineBlock(ci, block);
      }
    }
  }
}
