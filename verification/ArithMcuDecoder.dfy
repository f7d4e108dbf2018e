/**
 * The MCU level of jdarith.c: the decode_mcu variants, which write coefficients in place, proved to
 * compute what the parser of ArithScan says, bad codes included.
 */
module ArithMcuDecoder {
  import opened Arithmetic
  import opened Bits
  import opened Blocks
  import opened ArithSpec
  import opened ArithModel
  import opened ArithScan
  import opened NaturalOrder
  import opened ArithDecoder
  import opened ArithStats

  /** Setting a bit below all the bits of v adds it. */
  lemma OrAdds(v: nat, q: nat, m: nat)
    requires m > 0 && v == q * (2 * m)
    ensures Or(v, m) == v + m == (2 * q + 1) * m
    ensures v == (2 * q) * m
  {
    assert v == (2 * q) * m;
    QuotientUnique(v, m, 2 * q, 0);
    Distribute(2 * q, 1, m);
  }

  /** The mask that selects bit j - 1; none when no bit is left. */
  function Mask(j: nat): nat {
    if j == 0 then 0 else Pow2(j - 1)
  }

  lemma MaskHalves(j: nat)
    ensures Mask(j) / 2 == if j == 0 then 0 else Mask(j - 1)
    ensures Mask(j) == 0 <==> j == 0
    ensures Pow2(j) / 2 == Mask(j)
  {
  }

  /** `if (arith_decode(st)) v |= m;`. */
  function WithBit(bit: Bit, v: nat, m: nat): nat {
    if bit != 0 && m > 0 then Or(v, m) else v
  }

  /** One bit of the pattern. */
  lemma PatternStep(w: seq<Byte>, s: Coder, st: BinId, j: nat, v: nat, q: nat)
    requires j > 0 && v == q * Pow2(j)
    ensures ParsePattern(w, s, st, j, v) == ParsePattern(w, DecodeStep(w, s, st), st, j - 1, WithBit(DecodeBit(w, s, st), v, Mask(j)))
    ensures WithBit(DecodeBit(w, s, st), v, Mask(j)) == (2 * q + DecodeBit(w, s, st)) * Pow2(j - 1)
  {
    hide DecodeBit, DecodeStep;
    OrAdds(v, q, Pow2(j - 1));
  }

  lemma PatternDone(w: seq<Byte>, s: Coder, st: BinId, v: nat)
    ensures ParsePattern(w, s, st, 0, v) == (v, s)
  {
  }

  lemma DoublingReaches(e: nat)
    requires e <= 14
    ensures 2 * Pow2(e) == 0x8000 <==> e == 14
  {
    Pow2Values();
    if e < 14 {
      Pow2Monotone(e + 1, 14);
    }
  }

  lemma {:induction false} PatternBounds(w: seq<Byte>, s: Coder, st: BinId, e: nat, v: nat)
    ensures v <= ParsePattern(w, s, st, e, v).0 < v + Pow2(e)
    decreases e
  {
    hide DecodeBit, DecodeStep;
    if e > 0 {
      PatternBounds(w, DecodeStep(w, s, st), st, e - 1, v + DecodeBit(w, s, st) * Pow2(e - 1));
    }
  }

  /** The magnitude category of the decoded value is the one it was decoded with. */
  lemma CategoryKept(w: seq<Byte>, s: Coder, st: BinId, e: nat)
    ensures var u := ParsePattern(w, s, st, e, Pow2(e)).0; u >= 1 && Log2(u) == e
  {
    var u := ParsePattern(w, s, st, e, Pow2(e)).0;
    PatternBounds(w, s, st, e, Pow2(e));
    Log2AtLeast(u, e);
    Log2Below(u, e + 1);
  }

  lemma OrderInRange(order: seq<int>, k: nat)
    requires IsNaturalOrder(order) && k < DCTSIZE2
    ensures |order| == DCTSIZE2 && 0 <= order[k] < DCTSIZE2
  {
  }

  class McuDecoder {
    const core: Decoder
    const lastDcVal: array<int>
    const dcContext: array<nat>
    const order: seq<int>
    var scan: Scan

    constructor (order: seq<int>, src: seq<Byte>)
      requires IsNaturalOrder(order)
      ensures this.order == order && Shape() && core.Settled() && core.src == src && core.pos == 0 && core.unreadMarker == 0
      ensures fresh(core) && fresh(core.stats) && fresh(core.stats.dcStats) && fresh(core.stats.acStats) && fresh(core.stats.fixedBin) && fresh(lastDcVal) && fresh(dcContext)
    {
      core := new Decoder(src);
      lastDcVal := new int[4];
      dcContext := new nat[4];
      scan := Scan([], false, 0, 0, 0, 0, [], [], []);
      this.order := order;
    }

    ghost predicate Shape()
    {
      lastDcVal.Length == dcContext.Length == 4 && IsNaturalOrder(order)
    }

    /** The coder is in working order and still reads the same segment. */
    twostate predicate Working()
      reads core, core.stats, core.stats.dcStats, core.stats.acStats, core.stats.fixedBin
    {
      core.Valid() && core.w == old(core.w) && core.src == old(core.src) && core.next == old(core.next)
    }

    method Decode(st: BinId) returns (bit: Bit)
      requires core.Valid() && core.stats.Usable(st)
      modifies core, core.stats.dcStats, core.stats.acStats, core.stats.fixedBin
      ensures Working()
      ensures bit == DecodeBit(core.w, old(core.coder), st) && core.coder == DecodeStep(core.w, old(core.coder), st)
    {
      bit := core.ArithDecode(st);
    }

    /** Figure F.23: `while (arith_decode(st)) { if ((m <<= 1) == 0x8000) ...bad; st += 1; }`. */
    method DecodeOnes(st0: BinId, m0: nat, ghost e0: nat) returns (ok: bool, m: nat, st: BinId, ghost e: nat)
      requires core.Valid() && !st0.Fixed? && e0 <= 14 && m0 == Pow2(e0)
      requires forall i: nat :: i + e0 <= 14 ==> core.stats.Usable(st0.Plus(i))
      modifies core, core.stats.dcStats, core.stats.acStats, core.stats.fixedBin
      ensures Working()
      ensures ok ==> e0 <= e <= 14 && m == Pow2(e) && st == st0.Plus(e - e0)
      ensures ParseOnes(core.w, old(core.coder), st0, e0) == if ok then Parsed(e, core.coder) else Bad(core.coder)
    {
      hide DecodeBit, DecodeStep, Decoder.Valid;
      m, st, e := m0, st0, e0;
      while true
        invariant Working()
        invariant e0 <= e <= 14 && m == Pow2(e) && st == st0.Plus(e - e0)
        invariant ParseOnes(core.w, core.coder, st, e) == ParseOnes(core.w, old(core.coder), st0, e0)
        decreases 14 - e
      {
        var bit := Decode(st);
        if bit == 0 {
          return true, m, st, e;
        }
        DoublingReaches(e);
        m := 2 * m;
        if m == 0x8000 {
          return false, m, st, e;
        }
        st := st.Plus(1);
        e := e + 1;
      }
    }

    /** Figure F.24: `v = m; while (m >>= 1) if (arith_decode(st)) v |= m;`. */
    method DecodePattern(st: BinId, m0: nat, ghost e: nat) returns (v: nat)
      requires core.Valid() && core.stats.Usable(st) && (if m0 == 0 then e == 0 else m0 == Pow2(e))
      modifies core, core.stats.dcStats, core.stats.acStats, core.stats.fixedBin
      ensures Working()
      ensures (v, core.coder) == ParsePattern(core.w, old(core.coder), st, e, m0)
    {
      hide DecodeBit, DecodeStep, Decoder.Valid, Or, ParsePattern, Pow2, Mask;
      v := m0;
      var m: nat := m0 / 2;
      ghost var j, q := e, if m0 == 0 then 0 else 1;
      MaskHalves(j);
      while m != 0
        invariant Working()
        invariant m == Mask(j) && v == q * Pow2(j)
        invariant ParsePattern(core.w, core.coder, st, j, v) == ParsePattern(core.w, old(core.coder), st, e, m0)
        decreases j
      {
        MaskHalves(j);
        PatternStep(core.w, core.coder, st, j, v, q);
        var bit := Decode(st);
        if bit != 0 {
          v := Or(v, m);
        }
        q := 2 * q + bit;
        m := m / 2;
        j := j - 1;
      }
      MaskHalves(j);
      PatternDone(core.w, core.coder, st, v);
    }

    ghost function DcNow(): DcState
      requires Shape() && |scan.comps| <= 4
      reads this`scan, lastDcVal, dcContext
    {
      DcState(lastDcVal[..|scan.comps|], dcContext[..|scan.comps|])
    }

    ghost predicate DcReady()
      reads this`scan, dcContext
    {
      && Shape() && ScanOk(scan)
      && (KindOf(scan).Sequential? || KindOf(scan).DcFirst? ==>
            forall ci :: 0 <= ci < |scan.comps| ==> dcContext[ci] <= 16)
    }

    /** start_pass has prepared the tables this kind of scan uses. */
    ghost predicate TablesReady()
      reads this`scan, core.stats
    {
      && (KindOf(scan).Sequential? || KindOf(scan).DcFirst? ==>
            forall ci :: 0 <= ci < |scan.comps| ==> scan.comps[ci].dcTbl in core.stats.dcTables)
      && (KindOf(scan).Sequential? || KindOf(scan).AcFirst? || KindOf(scan).AcRefine? ==>
            forall ci :: 0 <= ci < |scan.comps| ==> scan.comps[ci].acTbl in core.stats.acTables)
    }

    ghost predicate Ready()
      reads this`scan, dcContext, core, core.stats, core.stats.dcStats, core.stats.acStats, core.stats.fixedBin
    {
      DcReady() && TablesReady() && core.Valid()
    }

    // ----- DC -----

    /** Figure F.23 for DC: the magnitude category; the pattern is still to come. */
    method DecodeDcCategory(t: nat, i: nat) returns (ok: bool, m: nat, st: BinId, ghost e: nat)
      requires core.Valid() && i < 20
      requires forall j :: 0 <= j <= 48 ==> core.stats.Usable(Dc(t, j))
      modifies core, core.stats.dcStats, core.stats.acStats, core.stats.fixedBin
      ensures Working()
      ensures ok ==> m == (if m == 0 then e else Pow2(e)) && !st.Fixed? && core.stats.Usable(st.Plus(14))
      ensures !ok ==> ParseDcMagnitude(core.w, old(core.coder), t, i) == Bad(core.coder)
      ensures ok ==> var (u, s) := ParsePattern(core.w, core.coder, st.Plus(14), e, m);
                     ParseDcMagnitude(core.w, old(core.coder), t, i) == Parsed(u, s)
    {
      hide DecodeBit, DecodeStep, Decoder.Valid, ParseOnes;
      ok, st, e := true, Dc(t, i), 0;
      m := Decode(st);
      if m != 0 {
        ok, m, st, e := DecodeOnes(Dc(t, 20), m, 0);
      }
    }

    /** Section F.1.4.4.1.2: establish the dc_context conditioning category. */
    method SetContext(ci: nat, m: nat, sign: Bit, ghost v: int)
      requires DcReady() && ci < |scan.comps| && v != 0 && sign == SignBit(v)
      requires m == if Abs(v) == 1 then 0 else Pow2(Log2(Abs(v) - 1))
      modifies dcContext
      ensures dcContext[..] == old(dcContext[..])[ci := Context(scan.dcL[scan.comps[ci].dcTbl], scan.dcU[scan.comps[ci].dcTbl], v)]
      ensures dcContext[ci] <= 16
    {
      var tbl := scan.comps[ci].dcTbl;
      if m < Pow2(scan.dcL[tbl]) / 2 {
        dcContext[ci] := 0;
      } else if m > Pow2(scan.dcU[tbl]) / 2 {
        dcContext[ci] := 12 + sign * 4;
      } else {
        dcContext[ci] := 4 + sign * 4;
      }
    }

    /** Figure F.21: a nonzero difference, its sign first. */
    method DecodeDcNonzero(ci: nat) returns (ok: bool)
      requires Ready() && ci < |scan.comps|
      requires KindOf(scan).Sequential? || KindOf(scan).DcFirst?
      modifies core, core.stats.dcStats, core.stats.acStats, core.stats.fixedBin, lastDcVal, dcContext
      ensures Ready() && Working()
      ensures var r := ParseDcNonzero(core.w, old(core.coder), scan.comps[ci].dcTbl, old(dcContext[ci]));
              && core.coder == r.s && (ok <==> r.Parsed?)
              && DcNow() == if ok then Advance(scan, ci, old(DcNow()), r.value) else old(DcNow())
    {
      hide DecodeBit, DecodeStep, Decoder.Valid, ParseOnes, ParseDcMagnitude, Context, IsNaturalOrder, ParsePattern;
      var tbl := scan.comps[ci].dcTbl;
      var st := Dc(tbl, dcContext[ci]);
      var sign := Decode(st.Plus(1));
      var m;
      ghost var e;
      ok, m, st, e := DecodeDcCategory(tbl, dcContext[ci] + 2 + sign);
      if ok {
        ghost var v := FinishDc(ci, st.Plus(14), m, sign, e);
      }
    }

    /** The conditioning category and the pattern of a nonzero difference. */
    method FinishDc(ci: nat, st: BinId, m: nat, sign: Bit, ghost e: nat) returns (v: int)
      requires Ready() && ci < |scan.comps| && core.stats.Usable(st)
      requires if m == 0 then e == 0 else m == Pow2(e)
      modifies core, core.stats.dcStats, core.stats.acStats, core.stats.fixedBin, lastDcVal, dcContext
      ensures DcReady() && Working()
      ensures var (u, s) := ParsePattern(core.w, old(core.coder), st, e, m);
              core.coder == s && v == if sign == 1 then -(u + 1) else u + 1
      ensures dcContext[..] == old(dcContext[..])[ci := Context(scan.dcL[scan.comps[ci].dcTbl], scan.dcU[scan.comps[ci].dcTbl], v)]
      ensures lastDcVal[..] == old(lastDcVal[..])[ci := old(lastDcVal[ci]) + v]
    {
      hide DecodeBit, DecodeStep, Decoder.Valid, Context, IsNaturalOrder, ParsePattern;
      ghost var u: int := ParsePattern(core.w, core.coder, st, e, m).0;
      DcCategoryKept(core.w, core.coder, st, e, m);
      SetContext(ci, m, sign, if sign == 1 then -(u + 1) else u + 1);
      v := DecodePattern(st, m, e);
      v := v + 1;
      if sign == 1 {
        v := -v;
      }
      lastDcVal[ci] := lastDcVal[ci] + v;
    }

    lemma DcCategoryKept(w: seq<Byte>, s: Coder, st: BinId, e: nat, m: nat)
      requires if m == 0 then e == 0 else m == Pow2(e)
      ensures var u := ParsePattern(w, s, st, e, m).0; m == if u == 0 then 0 else Pow2(Log2(u))
    {
      if m != 0 {
        CategoryKept(w, s, st, e);
      }
    }

    /** Figure F.19, Decode_DC_DIFF. */
    method DecodeDc(ci: nat) returns (ok: bool)
      requires Ready() && ci < |scan.comps|
      requires KindOf(scan).Sequential? || KindOf(scan).DcFirst?
      modifies core, core.stats.dcStats, core.stats.acStats, core.stats.fixedBin, lastDcVal, dcContext
      ensures Ready() && Working()
      ensures var r := ParseDc(core.w, old(core.coder), scan.comps[ci].dcTbl, old(dcContext[ci]));
              && core.coder == r.s && (ok <==> r.Parsed?)
              && DcNow() == if ok then Advance(scan, ci, old(DcNow()), r.value) else old(DcNow())
    {
      hide DecodeBit, DecodeStep, Decoder.Valid, ParseDcNonzero, IsNaturalOrder;
      var st := Dc(scan.comps[ci].dcTbl, dcContext[ci]);
      ok := true;
      var bit := Decode(st);
      if bit == 0 {
        dcContext[ci] := 0;
      } else {
        ok := DecodeDcNonzero(ci);
      }
    }

    // ----- AC -----

    /** Figure F.23 for AC. */
    method DecodeAcCategory(p: AcParams, k: nat) returns (ok: bool, m: nat, st: BinId, ghost e: nat)
      requires core.Valid() && 1 <= k < DCTSIZE2
      requires forall j :: 0 <= j <= 244 ==> core.stats.Usable(Ac(p.t, j))
      modifies core, core.stats.dcStats, core.stats.acStats, core.stats.fixedBin
      ensures Working()
      ensures ok ==> m == (if m == 0 then e else Pow2(e)) && !st.Fixed? && core.stats.Usable(st.Plus(14))
      ensures !ok ==> ParseAcMagnitude(core.w, old(core.coder), p, k) == Bad(core.coder)
      ensures ok ==> var (u, s) := ParsePattern(core.w, core.coder, st.Plus(14), e, m);
                     ParseAcMagnitude(core.w, old(core.coder), p, k) == Parsed(u, s)
    {
      hide DecodeBit, DecodeStep, Decoder.Valid, ParseOnes;
      ok, st, e := true, Ac(p.t, 3 * k - 1), 0;
      m := Decode(st);
      if m != 0 {
        var bit := Decode(st);
        if bit != 0 {
          m := 2 * m;
          ok, m, st, e := DecodeOnes(X(p, k), m, 1);
        }
      }
    }

    /** Figure F.21: sign and magnitude of a nonzero coefficient. */
    method DecodeAcValue(p: AcParams, k: nat) returns (ok: bool, v: int)
      requires core.Valid() && 1 <= k < DCTSIZE2
      requires forall j :: 0 <= j <= 244 ==> core.stats.Usable(Ac(p.t, j))
      modifies core, core.stats.dcStats, core.stats.acStats, core.stats.fixedBin
      ensures Working()
      ensures var s1 := old(core.coder);
              var sign := DecodeBit(core.w, s1, Fixed);
              match ParseAcMagnitude(core.w, DecodeStep(core.w, s1, Fixed), p, k)
              case Bad(s2) => !ok && core.coder == s2
              case Parsed(u, s2) => ok && core.coder == s2 && v == if sign == 1 then -(u + 1) else u + 1
    {
      hide DecodeBit, DecodeStep, Decoder.Valid, ParseAcMagnitude, ParsePattern;
      var sign := Decode(Fixed);
      var m, st;
      ghost var e;
      v := 0;
      ok, m, st, e := DecodeAcCategory(p, k);
      if ok {
        v := DecodePattern(st.Plus(14), m, e);
        v := v + 1;
        if sign == 1 {
          v := -v;
        }
      }
    }

    /** `while (arith_decode(st + 1) == 0) { st += 3; k++; if (k > Se) bad; }`: the coefficient that ends a zero run. */
    method DecodeAcRun(p: AcParams, k0: nat, ghost z: Zigzag) returns (ok: bool, k: nat)
      requires core.Valid() && 1 <= k0 <= p.se < DCTSIZE2
      requires forall j :: 0 <= j <= 244 ==> core.stats.Usable(Ac(p.t, j))
      modifies core, core.stats.dcStats, core.stats.acStats, core.stats.fixedBin
      ensures Working()
      ensures var r := ParseAcRun(core.w, old(core.coder), p, z, k0);
              if ok then k0 <= k <= p.se && r == ParseAcNonzero(core.w, core.coder, p, z, k) else r == AcRead(false, z, core.coder)
    {
      hide DecodeBit, DecodeStep, Decoder.Valid, ParseAcNonzero;
      k := k0;
      while true
        invariant k0 <= k <= p.se && Working()
        invariant ParseAcRun(core.w, core.coder, p, z, k) == ParseAcRun(core.w, old(core.coder), p, z, k0)
        decreases p.se - k
      {
        var bit := Decode(Ac(p.t, 3 * (k - 1) + 1));
        if bit == 1 {
          return true, k;
        }
        k := k + 1;
        if k > p.se {
          return false, k;
        }
      }
    }

    /** Figure F.20, Decode_AC_coefficients, for the band ss..p.se. */
    method DecodeAc(p: AcParams, block: array<int>, ss: nat) returns (ok: bool)
      requires core.Valid() && IsNaturalOrder(order) && 1 <= ss && p.se < DCTSIZE2 && block.Length == DCTSIZE2
      requires forall j :: 0 <= j <= 244 ==> core.stats.Usable(Ac(p.t, j))
      modifies core, core.stats.dcStats, core.stats.acStats, core.stats.fixedBin, block
      ensures Working()
      ensures ParseAcFrom(core.w, old(core.coder), p, old(Zz(order, block[..])), ss) == AcRead(ok, Zz(order, block[..]), core.coder)
    {
      hide DecodeBit, DecodeStep, Decoder.Valid, ParseAcMagnitude, Zz, Jcoef;
      ghost var r := ParseAcFrom(core.w, core.coder, p, Zz(order, block[..]), ss);
      var k := ss;
      while k <= p.se
        invariant 1 <= k && Working()
        invariant ParseAcFrom(core.w, core.coder, p, Zz(order, block[..]), k) == r
      {
        var bit := Decode(Ac(p.t, 3 * (k - 1)));
        if bit == 1 {
          return true;
        }
        ok, k := DecodeAcRun(p, k, Zz(order, block[..]));
        if !ok {
          return;
        }
        var v;
        ok, v := DecodeAcValue(p, k);
        if !ok {
          return;
        }
        ZzUpdate(order, block[..], k, Jcoef(v * Pow2(p.al)));
        block[order[k]] := Jcoef(v * Pow2(p.al));
        k := k + 1;
      }
      ok := true;
    }

    // ----- Refinement -----

    /** `if (*thiscoef < 0) *thiscoef += m1; else *thiscoef += p1;` after a one bit. */
    method CorrectOld(p: AcParams, block: array<int>, k: nat, ghost kex: nat)
      requires core.Valid() && IsNaturalOrder(order) && 1 <= k <= p.se < DCTSIZE2 && block.Length == DCTSIZE2
      requires block[order[k]] != 0
      requires forall j :: 0 <= j <= 244 ==> core.stats.Usable(Ac(p.t, j))
      modifies core, core.stats.dcStats, core.stats.acStats, core.stats.fixedBin, block
      ensures Working()
      ensures ParseRefineRun(core.w, old(core.coder), p, old(Zz(order, block[..])), k, kex)
           == ParseRefineFrom(core.w, core.coder, p, Zz(order, block[..]), k + 1, kex)
    {
      hide DecodeBit, DecodeStep, Decoder.Valid, Jcoef, ParseRefineFrom;
      var p1: int := Pow2(p.al);
      var c := block[order[k]];
      assert Zz(order, block[..])[k] == c;
      var bit := Decode(Ac(p.t, 3 * (k - 1) + 2));
      if bit != 0 {
        ZzUpdate(order, block[..], k, Jcoef(if c < 0 then c - p1 else c + p1));
        if c < 0 {
          block[order[k]] := Jcoef(c - p1);
        } else {
          block[order[k]] := Jcoef(c + p1);
        }
      }
    }

    /** A zero coefficient: whether it becomes nonzero in this scan. */
    method TryNew(p: AcParams, block: array<int>, k: nat, ghost kex: nat) returns (hit: bool)
      requires core.Valid() && IsNaturalOrder(order) && 1 <= k <= p.se < DCTSIZE2 && block.Length == DCTSIZE2
      requires block[order[k]] == 0
      requires forall j :: 0 <= j <= 244 ==> core.stats.Usable(Ac(p.t, j))
      modifies core, core.stats.dcStats, core.stats.acStats, core.stats.fixedBin, block
      ensures Working()
      ensures !hit ==> block[..] == old(block[..])
      ensures ParseRefineRun(core.w, old(core.coder), p, old(Zz(order, block[..])), k, kex)
           == if hit then ParseRefineFrom(core.w, core.coder, p, Zz(order, block[..]), k + 1, kex)
              else if k + 1 > p.se then AcRead(false, Zz(order, block[..]), core.coder)
              else ParseRefineRun(core.w, core.coder, p, Zz(order, block[..]), k + 1, kex)
    {
      hide DecodeBit, DecodeStep, Decoder.Valid, Jcoef, ParseRefineFrom;
      var p1: int := Pow2(p.al);
      assert Zz(order, block[..])[k] == 0;
      var bit := Decode(Ac(p.t, 3 * (k - 1) + 1));
      hit := bit != 0;
      if hit {
        var sign := Decode(Fixed);
        ZzUpdate(order, block[..], k, Jcoef(if sign == 1 then -p1 else p1));
        if sign != 0 {
          block[order[k]] := Jcoef(-p1);
        } else {
          block[order[k]] := Jcoef(p1);
        }
      }
    }

    /** The inner `for (;;)`: up to the next coefficient that is, or becomes, nonzero. */
    method RefineOne(p: AcParams, block: array<int>, k0: nat, ghost kex: nat) returns (ok: bool, k: nat)
      requires core.Valid() && IsNaturalOrder(order) && 1 <= k0 <= p.se < DCTSIZE2 && block.Length == DCTSIZE2
      requires forall j :: 0 <= j <= 244 ==> core.stats.Usable(Ac(p.t, j))
      modifies core, core.stats.dcStats, core.stats.acStats, core.stats.fixedBin, block
      ensures Working() && k0 <= k && (ok ==> k0 < k)
      ensures ParseRefineRun(core.w, old(core.coder), p, old(Zz(order, block[..])), k0, kex)
           == if ok then ParseRefineFrom(core.w, core.coder, p, Zz(order, block[..]), k, kex)
              else AcRead(false, Zz(order, block[..]), core.coder)
    {
      hide Decoder.Valid, ParseRefineFrom, ParseRefineRun, Zz, IsNaturalOrder;
      k := k0;
      while true
        invariant k0 <= k <= p.se && Working() && IsNaturalOrder(order)
        invariant ParseRefineRun(core.w, core.coder, p, Zz(order, block[..]), k, kex)
               == ParseRefineRun(core.w, old(core.coder), p, old(Zz(order, block[..])), k0, kex)
        decreases p.se - k
      {
        OrderInRange(order, k);
        if block[order[k]] != 0 {
          CorrectOld(p, block, k, kex);
          return true, k + 1;
        }
        var hit := TryNew(p, block, k, kex);
        if hit {
          return true, k + 1;
        }
        k := k + 1;
        if k > p.se {
          return false, k;
        }
      }
    }

    /** `for (kex = Se; kex > 0; kex--) if (block[jpeg_natural_order[kex]]) break;`. */
    method FindLast(block: array<int>, se: nat) returns (kex: nat)
      requires IsNaturalOrder(order) && se < DCTSIZE2 && block.Length == DCTSIZE2
      ensures kex == LastNonzero(Zz(order, block[..]), se)
    {
      kex := se;
      while kex > 0
        invariant kex <= se
        invariant LastNonzero(Zz(order, block[..]), se) == LastNonzero(Zz(order, block[..]), kex)
      {
        if block[order[kex]] != 0 {
          return;
        }
        kex := kex - 1;
      }
    }

    /** The coefficient loop of decode_mcu_AC_refine. */
    method DecodeAcRefine(p: AcParams, block: array<int>, ss: nat) returns (ok: bool)
      requires core.Valid() && IsNaturalOrder(order) && 1 <= ss && p.se < DCTSIZE2 && block.Length == DCTSIZE2
      requires forall j :: 0 <= j <= 244 ==> core.stats.Usable(Ac(p.t, j))
      modifies core, core.stats.dcStats, core.stats.acStats, core.stats.fixedBin, block
      ensures Working()
      ensures var z := old(Zz(order, block[..]));
              ParseRefineFrom(core.w, old(core.coder), p, z, ss, LastNonzero(z, p.se)) == AcRead(ok, Zz(order, block[..]), core.coder)
    {
      hide DecodeBit, DecodeStep, Decoder.Valid, ParseRefineRun, Zz, IsNaturalOrder;
      var kex := FindLast(block, p.se);
      ghost var r := ParseRefineFrom(core.w, core.coder, p, Zz(order, block[..]), ss, kex);
      var k := ss;
      while k <= p.se
        invariant 1 <= k && Working() && IsNaturalOrder(order)
        invariant ParseRefineFrom(core.w, core.coder, p, Zz(order, block[..]), k, kex) == r
        decreases p.se - k
      {
        if k > kex {
          var bit := Decode(Ac(p.t, 3 * (k - 1)));
          if bit == 1 {
            return true;
          }
        }
        ok, k := RefineOne(p, block, k, kex);
        if !ok {
          return;
        }
      }
      ok := true;
    }

    // ----- Blocks -----

    /** Decode_DC_DIFF, then scale and output the DC coefficient. */
    method DecodeDcInto(ci: nat, block: array<int>) returns (ok: bool)
      requires Ready() && ci < |scan.comps| && block.Length == DCTSIZE2 && block != lastDcVal
      requires KindOf(scan).Sequential? || KindOf(scan).DcFirst?
      modifies core, core.stats.dcStats, core.stats.acStats, core.stats.fixedBin, lastDcVal, dcContext, block
      ensures Ready() && Working()
      ensures ParseDcBlock(core.w, old(core.coder), scan, ci, old(DcNow()), old(Zz(order, block[..])))
           == BlockRead(ok, Zz(order, block[..]), DcNow(), core.coder)
    {
      hide DecodeBit, DecodeStep, Decoder.Valid, ParseDc, Jcoef, Context;
      ok := DecodeDc(ci);
      if ok {
        ZzUpdate(order, block[..], 0, Jcoef(lastDcVal[ci] * Pow2(scan.al)));
        block[0] := Jcoef(lastDcVal[ci] * Pow2(scan.al));
      }
    }

    /** The block loop body of decode_mcu. */
    method DecodeSequentialBlock(ci: nat, block: array<int>) returns (ok: bool)
      requires Ready() && ci < |scan.comps| && KindOf(scan).Sequential? && block.Length == DCTSIZE2 && block != lastDcVal
      modifies core, core.stats.dcStats, core.stats.acStats, core.stats.fixedBin, lastDcVal, dcContext, block
      ensures Ready() && Working()
      ensures ParseBlock(core.w, old(core.coder), scan, ci, old(DcNow()), old(Zz(order, block[..])))
           == BlockRead(ok, Zz(order, block[..]), DcNow(), core.coder)
    {
      hide DecodeBit, DecodeStep, Decoder.Valid, ParseDcBlock, ParseAcFrom, ParseRefineFrom, Zz, IsNaturalOrder;
      ok := DecodeDcInto(ci, block);
      if ok {
        ok := DecodeAc(AcParams(scan.comps[ci].acTbl, scan.acK[scan.comps[ci].acTbl], scan.se, scan.al), block, 1);
      }
    }

    /** The block loop body of decode_mcu_DC_first. */
    method DecodeDcFirstBlock(ci: nat, block: array<int>) returns (ok: bool)
      requires Ready() && ci < |scan.comps| && KindOf(scan).DcFirst? && block.Length == DCTSIZE2 && block != lastDcVal
      modifies core, core.stats.dcStats, core.stats.acStats, core.stats.fixedBin, lastDcVal, dcContext, block
      ensures Ready() && Working()
      ensures ParseBlock(core.w, old(core.coder), scan, ci, old(DcNow()), old(Zz(order, block[..])))
           == BlockRead(ok, Zz(order, block[..]), DcNow(), core.coder)
    {
      hide DecodeBit, DecodeStep, Decoder.Valid, ParseDcBlock, ParseAcFrom, ParseRefineFrom, Zz, IsNaturalOrder;
      ok := DecodeDcInto(ci, block);
    }

    /** decode_mcu_AC_first. */
    method DecodeAcFirstBlock(ci: nat, block: array<int>) returns (ok: bool)
      requires Ready() && ci < |scan.comps| && KindOf(scan).AcFirst? && block.Length == DCTSIZE2 && block != lastDcVal
      modifies core, core.stats.dcStats, core.stats.acStats, core.stats.fixedBin, lastDcVal, dcContext, block
      ensures Ready() && Working()
      ensures ParseBlock(core.w, old(core.coder), scan, ci, old(DcNow()), old(Zz(order, block[..])))
           == BlockRead(ok, Zz(order, block[..]), DcNow(), core.coder)
    {
      hide DecodeBit, DecodeStep, Decoder.Valid, ParseDcBlock, ParseAcFrom, ParseRefineFrom, Zz, IsNaturalOrder;
      ok := DecodeAc(AcParams(scan.comps[ci].acTbl, scan.acK[scan.comps[ci].acTbl], scan.se, scan.al), block, scan.ss);
    }

    /** The block loop body of decode_mcu_DC_refine. */
    method DecodeDcRefineBlock(ci: nat, block: array<int>) returns (ok: bool)
      requires Ready() && ci < |scan.comps| && KindOf(scan).DcRefine? && block.Length == DCTSIZE2 && block != lastDcVal
      modifies core, core.stats.dcStats, core.stats.acStats, core.stats.fixedBin, lastDcVal, dcContext, block
      ensures Ready() && Working()
      ensures ParseBlock(core.w, old(core.coder), scan, ci, old(DcNow()), old(Zz(order, block[..])))
           == BlockRead(ok, Zz(order, block[..]), DcNow(), core.coder)
    {
      hide DecodeBit, DecodeStep, Decoder.Valid, Or;
      var p1 := Pow2(scan.al);
      assert Zz(order, block[..])[0] == block[0];
      var bit := Decode(Fixed);
      if bit != 0 {
        ZzUpdate(order, block[..], 0, Or(block[0], p1));
        block[0] := Or(block[0], p1);
      }
      ok := true;
    }

    /** decode_mcu_AC_refine. */
    method DecodeAcRefineBlock(ci: nat, block: array<int>) returns (ok: bool)
      requires Ready() && ci < |scan.comps| && KindOf(scan).AcRefine? && block.Length == DCTSIZE2 && block != lastDcVal
      modifies core, core.stats.dcStats, core.stats.acStats, core.stats.fixedBin, lastDcVal, dcContext, block
      ensures Ready() && Working()
      ensures ParseBlock(core.w, old(core.coder), scan, ci, old(DcNow()), old(Zz(order, block[..])))
           == BlockRead(ok, Zz(order, block[..]), DcNow(), core.coder)
    {
      hide DecodeBit, DecodeStep, Decoder.Valid, ParseDcBlock, ParseAcFrom, ParseRefineFrom, Zz, IsNaturalOrder;
      ok := DecodeAcRefine(AcParams(scan.comps[ci].acTbl, scan.acK[scan.comps[ci].acTbl], scan.se, scan.al), block, scan.ss);
    }

    /** One block of component ci, by the routine that start_pass selected; after a bad code ct is -1. */
    method DecodeBlock(ci: nat, block: array<int>) returns (ok: bool)
      requires Ready() && ci < |scan.comps| && block.Length == DCTSIZE2 && block != lastDcVal
      modifies core, core.stats.dcStats, core.stats.acStats, core.stats.fixedBin, lastDcVal, dcContext, block
      ensures DcReady() && TablesReady() && core.w == old(core.w) && core.src == old(core.src) && core.next == old(core.next)
      ensures ok <==> core.ct != -1
      ensures if ok then core.Valid() else core.Fed() && core.Settled() && core.ct == -1
      ensures ParseBlock(core.w, old(core.coder), scan, ci, old(DcNow()), old(Zz(order, block[..])))
           == BlockRead(ok, Zz(order, block[..]), DcNow(), core.coder)
    {
      hide DecodeBit, DecodeStep, Decoder.Valid, ParseBlock, Zz, IsNaturalOrder;
      if !scan.progressive {
        ok := DecodeSequentialBlock(ci, block);
      } else if scan.ah == 0 {
        if scan.ss == 0 {
          ok := DecodeDcFirstBlock(ci, block);
        } else {
          ok := DecodeAcFirstBlock(ci, block);
        }
      } else if scan.ss == 0 {
        ok := DecodeDcRefineBlock(ci, block);
      } else {
        ok := DecodeAcRefineBlock(ci, block);
      }
      core.ValidRuns();
      if !ok {
        core.GiveUp();
      }
    }
  }
}
