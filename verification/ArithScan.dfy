/**
 * One arithmetic-coded segment (a scan, or the part of a scan between two restart markers):
 * the decisions the encode_mcu variants of jcarith.c make for its blocks, the parser that the
 * decode_mcu variants of jdarith.c are, and what a decoded block looks like afterwards.
 */
module ArithScan {
  import opened Arithmetic
  import opened Bits
  import opened Blocks
  import opened ArithSpec
  import opened ArithModel

  /** A component of the scan: its index in the frame and its statistics tables. */
  datatype Component = Component(index: nat, dcTbl: nat, acTbl: nat)

  datatype Scan = Scan(comps: seq<Component>, progressive: bool, ss: nat, se: nat, ah: nat, al: nat,
                       dcL: seq<nat>, dcU: seq<nat>, acK: seq<nat>)

  datatype Kind = Sequential | DcFirst | AcFirst | DcRefine | AcRefine

  /** Which pair of MCU routines start_pass selects. */
  function KindOf(sc: Scan): Kind {
    if !sc.progressive then Sequential
    else if sc.ah == 0 then (if sc.ss == 0 then DcFirst else AcFirst)
    else if sc.ss == 0 then DcRefine else AcRefine
  }

  /** What both start_pass routines demand of the scan parameters; MAX_AL is 13 there. */
  predicate ScanOk(sc: Scan) {
    && 1 <= |sc.comps| <= 4
    && |sc.dcL| == |sc.dcU| == |sc.acK| == 16
    && (forall ci :: 0 <= ci < |sc.comps| ==> sc.comps[ci].dcTbl < 16 && sc.comps[ci].acTbl < 16)
    && (if sc.progressive then
          && (if sc.ss == 0 then sc.se == 0 else sc.ss <= sc.se <= DCTSIZE2 - 1 && |sc.comps| == 1)
          && (sc.ah != 0 ==> sc.al == sc.ah - 1)
          && sc.al <= 13
        else
          sc.ss == 0 && sc.se == DCTSIZE2 - 1 && sc.ah == 0 && sc.al == 0)
  }

  /** `last_dc_val` and `dc_context`, one entry per component of the scan. */
  datatype DcState = DcState(last: seq<int>, ctx: seq<nat>)

  predicate DcOk(sc: Scan, d: DcState) {
    |d.last| == |d.ctx| == |sc.comps|
  }

  function Fresh(sc: Scan): (d: DcState)
    ensures DcOk(sc, d)
  {
    DcState(seq(|sc.comps|, _ => 0), seq(|sc.comps|, _ => 0))
  }

  function AcOf(sc: Scan, ci: nat): AcParams
    requires ScanOk(sc) && ci < |sc.comps|
  {
    AcParams(sc.comps[ci].acTbl, sc.acK[sc.comps[ci].acTbl], sc.se, sc.al)
  }

  // ----- One block, encoding -----

  /** The DC value that is differenced. */
  function DcValue(sc: Scan, z: Zigzag): int {
    Shift(z[0], sc.al)
  }

  function BlockDecisions(sc: Scan, ci: nat, d: DcState, z: Zigzag): seq<Decision>
    requires ScanOk(sc) && DcOk(sc, d) && ci < |sc.comps|
  {
    var p := AcOf(sc, ci);
    match KindOf(sc)
    case Sequential =>
      DcDecisions(sc.comps[ci].dcTbl, d.ctx[ci], DcValue(sc, z) - d.last[ci]) + AcFrom(p, z, 1, LastNonzero(z, sc.se))
    case DcFirst =>
      DcDecisions(sc.comps[ci].dcTbl, d.ctx[ci], DcValue(sc, z) - d.last[ci])
    case AcFirst =>
      var x := Trunc(z, sc.al);
      AcFrom(p, x, sc.ss, LastNonzero(x, sc.se))
    case DcRefine =>
      [Decision(Fixed, DcValue(sc, z) % 2)]
    case AcRefine =>
      var x := Trunc(z, sc.al);
      var ke := LastNonzero(x, sc.se);
      RefineFrom(p, x, sc.ss, ke, LastNonzero(Trunc(z, sc.ah), ke))
  }

  /** The DC predictions after a block whose DC value differs by v from the prediction. */
  function Advance(sc: Scan, ci: nat, d: DcState, v: int): (d': DcState)
    requires ScanOk(sc) && DcOk(sc, d) && ci < |sc.comps|
    ensures DcOk(sc, d')
  {
    var t := sc.comps[ci].dcTbl;
    DcState(d.last[ci := d.last[ci] + v], d.ctx[ci := Context(sc.dcL[t], sc.dcU[t], v)])
  }

  function NextDc(sc: Scan, ci: nat, d: DcState, z: Zigzag): (d': DcState)
    requires ScanOk(sc) && DcOk(sc, d) && ci < |sc.comps|
    ensures DcOk(sc, d')
  {
    if KindOf(sc).Sequential? || KindOf(sc).DcFirst? then Advance(sc, ci, d, DcValue(sc, z) - d.last[ci]) else d
  }

  // ----- One block, decoding -----

  datatype BlockRead = BlockRead(ok: bool, z: Zigzag, d: DcState, s: Coder)

  /** `x |= p1`. */
  function Or(x: int, p1: nat): int
    requires p1 > 0
  {
    if x / p1 % 2 == 1 then x else x + p1
  }

  /** The DC part of a block in a sequential or first DC scan. */
  function ParseDcBlock(w: seq<Byte>, s: Coder, sc: Scan, ci: nat, d: DcState, z: Zigzag): (r: BlockRead)
    requires ScanOk(sc) && DcOk(sc, d) && ci < |sc.comps|
    ensures DcOk(sc, r.d)
  {
    match ParseDc(w, s, sc.comps[ci].dcTbl, d.ctx[ci])
    case Bad(s') => BlockRead(false, z, d, s')
    case Parsed(v, s') =>
      BlockRead(true, z[0 := Jcoef((d.last[ci] + v) * Pow2(sc.al))], Advance(sc, ci, d, v), s')
  }

  function WithAc(r: AcRead, d: DcState): BlockRead {
    BlockRead(r.ok, r.z, d, r.s)
  }

  function ParseBlock(w: seq<Byte>, s: Coder, sc: Scan, ci: nat, d: DcState, z: Zigzag): (r: BlockRead)
    requires ScanOk(sc) && DcOk(sc, d) && ci < |sc.comps|
    ensures DcOk(sc, r.d)
  {
    var p := AcOf(sc, ci);
    match KindOf(sc)
    case Sequential =>
      var r := ParseDcBlock(w, s, sc, ci, d, z);
      if r.ok then WithAc(ParseAcFrom(w, r.s, p, r.z, 1), r.d) else r
    case DcFirst => ParseDcBlock(w, s, sc, ci, d, z)
    case AcFirst => WithAc(ParseAcFrom(w, s, p, z, sc.ss), d)
    case DcRefine =>
      BlockRead(true, if DecodeBit(w, s, Fixed) == 1 then z[0 := Or(z[0], Pow2(sc.al))] else z, d, DecodeStep(w, s, Fixed))
    case AcRefine => WithAc(ParseRefineFrom(w, s, p, z, sc.ss, LastNonzero(z, sc.se)), d)
  }

  // ----- What the decoder knows of a block -----

  /** How far each coefficient has been sent: -1 not at all, else the last Al. */
  type Levels = l: seq<int> | |l| == DCTSIZE2 && forall k :: 0 <= k < DCTSIZE2 ==> -1 <= l[k] <= 13
    witness seq(DCTSIZE2, _ => -1)

  const UNSEEN: Levels := seq(DCTSIZE2, _ => -1)

  /** A coefficient cut off at a level: arithmetic shift for DC, toward zero for AC. */
  function CutOff(x: int, k: nat, level: int): int {
    if level < 0 then 0
    else if k == 0 then Shift(x, level) * Pow2(level)
    else TruncCoef(x, level) * Pow2(level)
  }

  function Approx(z: Zigzag, l: Levels): Zigzag {
    seq(DCTSIZE2, k requires 0 <= k < DCTSIZE2 => CutOff(z[k], k, l[k]))
  }

  /** The scan continues each coefficient of its band where the previous scans left it. */
  predicate Continues(sc: Scan, l: Levels)
    requires ScanOk(sc)
  {
    forall k :: sc.ss <= k <= sc.se ==> if l[k] < 0 then sc.ah == 0 else sc.ah == l[k] && sc.al == sc.ah - 1
  }

  function AfterScan(sc: Scan, l: Levels): Levels
    requires ScanOk(sc)
  {
    seq(DCTSIZE2, k requires 0 <= k < DCTSIZE2 => if sc.ss <= k <= sc.se then sc.al else l[k])
  }

  /** The DC difference is one the magnitude categories can express. */
  predicate DiffFits(sc: Scan, ci: nat, d: DcState, z: Zigzag)
    requires DcOk(sc, d) && ci < |sc.comps|
  {
    KindOf(sc).Sequential? || KindOf(sc).DcFirst? ==> Abs(DcValue(sc, z) - d.last[ci]) <= 32768
  }

  // ----- Arithmetic of truncation -----

  lemma ShiftBounds(x: int, al: nat)
    requires IsCoef(x) && al <= 15
    ensures IsCoef(Shift(x, al) * Pow2(al))
    ensures al == 0 ==> Shift(x, al) == x
  {
    var p: int := Pow2(al);
    var q: int := Pow2(15 - al);
    Pow2Values();
    Pow2Add(al, 15 - al);
    NegProduct(q, p);
    FloorBounds(x, p);
    FloorAtLeast(x, p, -q);
  }

  lemma NegProduct(q: int, p: int)
    ensures (-q) * p == -(p * q)
  {
  }

  lemma FloorBounds(x: int, p: int)
    requires p > 0
    ensures x - p < x / p * p <= x
  {
  }

  lemma FloorAtLeast(x: int, p: int, q: int)
    requires p > 0 && x >= q * p
    ensures x / p * p >= q * p
  {
    FloorBounds(x, p);
    var f := x / p;
    if f < q {
      Distribute(q, f, p);
      MulAtLeast(q - f, p);
    }
  }

  lemma FloorSmaller(a: int, p: int)
    requires a >= 0 && p > 0
    ensures 0 <= a / p <= a && 0 <= a / p * p <= a
  {
    FloorBounds(a, p);
    var f := a / p;
    if f > 0 {
      MulAtLeast(p, f);
    }
  }

  lemma TruncBounds(x: int, al: nat)
    requires IsCoef(x)
    ensures IsCoef(TruncCoef(x, al) * Pow2(al))
    ensures Abs(TruncCoef(x, al)) <= Abs(x)
    ensures al == 0 ==> TruncCoef(x, al) == x
  {
    var p: int := Pow2(al);
    var f := Abs(x) / p;
    FloorSmaller(Abs(x), p);
    assert TruncCoef(x, al) == if x >= 0 then f else -f;
    assert (-f) * p == -(f * p);
  }

  lemma HalfTrunc(x: int, al: nat)
    ensures TruncCoef(x, al + 1) == Half(TruncCoef(x, al))
  {
    var p, a := Pow2(al), Abs(x);
    HalfQuotient(a, p);
    TruncSigned(x, al, a / p);
    TruncSigned(x, al + 1, a / (2 * p));
  }

  lemma TruncSigned(x: int, al: nat, f: int)
    requires f == Abs(x) / Pow2(al)
    ensures f >= 0 && TruncCoef(x, al) == if x >= 0 then f else -f
  {
    FloorSmaller(Abs(x), Pow2(al));
  }

  lemma HalfShift(x: int, al: nat)
    ensures Shift(x, al + 1) == Shift(x, al) / 2
  {
    var p := Pow2(al);
    var q, r := x / p, x % p;
    assert x == q * p + r;
    var h, o := q / 2, q % 2;
    assert q == 2 * h + o;
    assert x == h * (2 * p) + (o * p + r) by {
      assert (2 * h + o) * p == (2 * h) * p + o * p;
    }
    QuotientUnique(x, 2 * p, h, o * p + r);
  }

  /** Or-ing in a bit below the bits already present adds it. */
  lemma OrBit(x: int, al: nat)
    ensures var prev := Shift(x, al + 1) * Pow2(al + 1);
            var bit := Shift(x, al) % 2;
            (if bit == 1 then Or(prev, Pow2(al)) else prev) == Shift(x, al) * Pow2(al)
  {
    var p, q := Pow2(al), Shift(x, al);
    HalfShift(x, al);
    var prev := q / 2 * (2 * p);
    assert prev == (2 * (q / 2)) * p;
    assert q == 2 * (q / 2) + q % 2;
    Distribute(2 * (q / 2), q % 2, p);
    QuotientUnique(prev, p, 2 * (q / 2), 0);
  }

  // ----- One block survives -----

  lemma FilledIsApprox(z: Zigzag, zin: Zigzag, sc: Scan, l: Levels)
    requires ScanOk(sc) && sc.ss >= 1 && IsBlock(z) && zin == Approx(z, l)
    ensures Filled(zin, Trunc(z, sc.al), sc.ss, sc.se, sc.al) == Approx(z, AfterScan(sc, l))
  {
    forall k | 0 <= k < DCTSIZE2
      ensures Filled(zin, Trunc(z, sc.al), sc.ss, sc.se, sc.al)[k] == Approx(z, AfterScan(sc, l))[k]
    {
      TruncBounds(z[k], sc.al);
      JcoefId(TruncCoef(z[k], sc.al) * Pow2(sc.al));
    }
  }

  lemma AcFirstParsed(w: seq<Byte>, s: Coder, sc: Scan, ci: nat, z: Zigzag, zin: Zigzag, l: Levels)
    requires ScanOk(sc) && ci < |sc.comps| && KindOf(sc).AcFirst? && Continues(sc, l)
    requires IsBlock(z) && zin == Approx(z, l)
    requires var x := Trunc(z, sc.al); Holds(w, s, AcFrom(AcOf(sc, ci), x, sc.ss, LastNonzero(x, sc.se)))
    ensures var x := Trunc(z, sc.al);
            ParseAcFrom(w, s, AcOf(sc, ci), zin, sc.ss)
            == AcRead(true, Approx(z, AfterScan(sc, l)), CodeAll(s, AcFrom(AcOf(sc, ci), x, sc.ss, LastNonzero(x, sc.se))))
  {
    hide Code, DecodeBit, Holds, AcFrom, ParseAcFrom, Filled;
    var x := Trunc(z, sc.al);
    forall j | sc.ss <= j <= sc.se ensures zin[j] == 0 && Abs(x[j]) <= 0x8000 {
      TruncBounds(z[j], sc.al);
      assert l[j] < 0;
    }
    AcParsed(w, s, AcOf(sc, ci), zin, x, sc.ss, LastNonzero(x, sc.se));
    FilledIsApprox(z, zin, sc, l);
  }

  /** In a refinement scan the decoder's EOBx index agrees with the encoder's wherever it matters. */
  lemma SameEobx(sc: Scan, z: Zigzag, zin: Zigzag, l: Levels)
    requires ScanOk(sc) && KindOf(sc).AcRefine? && Continues(sc, l)
    requires IsBlock(z) && zin == Approx(z, l)
    ensures var ke := LastNonzero(Trunc(z, sc.al), sc.se);
            var kex, kexD := LastNonzero(Trunc(z, sc.ah), ke), LastNonzero(zin, sc.se);
            kex == kexD || (kex < sc.ss && kexD < sc.ss)
  {
    var ke := LastNonzero(Trunc(z, sc.al), sc.se);
    var kex, kexD := LastNonzero(Trunc(z, sc.ah), ke), LastNonzero(zin, sc.se);
    forall j | sc.ss <= j <= sc.se
      ensures zin[j] != 0 <==> Trunc(z, sc.ah)[j] != 0
      ensures Trunc(z, sc.ah)[j] != 0 ==> j <= ke
    {
      HalfTrunc(z[j], sc.al);
      assert l[j] == sc.ah;
      NonzeroScaled(TruncCoef(z[j], sc.ah), Pow2(sc.ah));
      if Trunc(z, sc.ah)[j] != 0 {
        assert Trunc(z, sc.al)[j] != 0;
      }
    }
  }

  lemma NonzeroScaled(x: int, p: int)
    requires p > 0
    ensures x * p != 0 <==> x != 0
  {
    if x != 0 {
      SignedMultiple(x, p);
    }
  }

  lemma PreviousHeld(sc: Scan, ci: nat, z: Zigzag, zin: Zigzag, l: Levels)
    requires ScanOk(sc) && ci < |sc.comps| && KindOf(sc).AcRefine? && Continues(sc, l)
    requires IsBlock(z) && zin == Approx(z, l)
    ensures HoldsPrevious(AcOf(sc, ci), zin, Trunc(z, sc.al), sc.ss)
  {
    forall j | sc.ss <= j <= sc.se
      ensures zin[j] == 2 * Half(Trunc(z, sc.al)[j]) * Pow2(sc.al) && IsCoef(Trunc(z, sc.al)[j] * Pow2(sc.al))
    {
      TruncBounds(z[j], sc.al);
      HalfTrunc(z[j], sc.al);
      assert l[j] == sc.ah;
      Reassociate(TruncCoef(z[j], sc.ah), Pow2(sc.al));
    }
  }

  lemma Reassociate(h: int, p: int)
    ensures h * (2 * p) == 2 * h * p
  {
  }

  lemma AcRefineParsed(w: seq<Byte>, s: Coder, sc: Scan, ci: nat, d: DcState, z: Zigzag, zin: Zigzag, l: Levels)
    requires ScanOk(sc) && DcOk(sc, d) && ci < |sc.comps| && KindOf(sc).AcRefine? && Continues(sc, l)
    requires IsBlock(z) && zin == Approx(z, l)
    requires Holds(w, s, BlockDecisions(sc, ci, d, z))
    ensures ParseRefineFrom(w, s, AcOf(sc, ci), zin, sc.ss, LastNonzero(zin, sc.se))
         == AcRead(true, Approx(z, AfterScan(sc, l)), CodeAll(s, BlockDecisions(sc, ci, d, z)))
  {
    hide Code, DecodeBit, Holds, RefineFrom, ParseRefineFrom, Filled;
    var x := Trunc(z, sc.al);
    var ke := LastNonzero(x, sc.se);
    SameEobx(sc, z, zin, l);
    PreviousHeld(sc, ci, z, zin, l);
    RefineParsed(w, s, AcOf(sc, ci), zin, x, sc.ss, ke, LastNonzero(Trunc(z, sc.ah), ke), LastNonzero(zin, sc.se));
    FilledIsApprox(z, zin, sc, l);
  }

  lemma DcPartParsed(w: seq<Byte>, s: Coder, sc: Scan, ci: nat, d: DcState, z: Zigzag, zin: Zigzag)
    requires ScanOk(sc) && DcOk(sc, d) && ci < |sc.comps|
    requires IsBlock(z) && Abs(DcValue(sc, z) - d.last[ci]) <= 32768
    requires Holds(w, s, DcDecisions(sc.comps[ci].dcTbl, d.ctx[ci], DcValue(sc, z) - d.last[ci]))
    ensures var v := DcValue(sc, z) - d.last[ci];
            ParseDcBlock(w, s, sc, ci, d, zin)
            == BlockRead(true, zin[0 := Shift(z[0], sc.al) * Pow2(sc.al)], Advance(sc, ci, d, v),
                         CodeAll(s, DcDecisions(sc.comps[ci].dcTbl, d.ctx[ci], v)))
  {
    hide Code, DecodeBit, Holds, DcDecisions, ParseDc;
    DcParsed(w, s, sc.comps[ci].dcTbl, d.ctx[ci], DcValue(sc, z) - d.last[ci]);
    ShiftBounds(z[0], sc.al);
    JcoefId(Shift(z[0], sc.al) * Pow2(sc.al));
  }

  lemma SequentialIsApprox(sc: Scan, z: Zigzag, zin: Zigzag, l: Levels)
    requires ScanOk(sc) && KindOf(sc).Sequential? && Continues(sc, l)
    requires IsBlock(z) && zin == Approx(z, l)
    ensures Filled(zin[0 := Shift(z[0], 0) * Pow2(0)], z, 1, sc.se, 0) == Approx(z, AfterScan(sc, l))
    ensures forall j :: 1 <= j <= sc.se ==> zin[j] == 0
  {
    forall j | 0 <= j < DCTSIZE2
      ensures Filled(zin[0 := Shift(z[0], 0) * Pow2(0)], z, 1, sc.se, 0)[j] == Approx(z, AfterScan(sc, l))[j]
      ensures j >= 1 ==> zin[j] == 0
    {
      TruncBounds(z[j], 0);
      JcoefId(z[j]);
      assert l[j] < 0;
    }
  }

  lemma SequentialParsed(w: seq<Byte>, s: Coder, sc: Scan, ci: nat, d: DcState, z: Zigzag, zin: Zigzag, l: Levels)
    requires ScanOk(sc) && DcOk(sc, d) && ci < |sc.comps| && KindOf(sc).Sequential? && Continues(sc, l)
    requires IsBlock(z) && zin == Approx(z, l) && DiffFits(sc, ci, d, z)
    requires Holds(w, s, BlockDecisions(sc, ci, d, z))
    ensures ParseBlock(w, s, sc, ci, d, zin)
         == BlockRead(true, Approx(z, AfterScan(sc, l)), NextDc(sc, ci, d, z), CodeAll(s, BlockDecisions(sc, ci, d, z)))
  {
    hide Code, DecodeBit, Holds, DcDecisions, ParseDcBlock, AcFrom, ParseAcFrom, Filled, Approx, AfterScan;
    var p, ke := AcOf(sc, ci), LastNonzero(z, sc.se);
    var dc, ac := DcDecisions(sc.comps[ci].dcTbl, d.ctx[ci], DcValue(sc, z) - d.last[ci]), AcFrom(p, z, 1, ke);
    var z0 := zin[0 := Shift(z[0], sc.al) * Pow2(sc.al)];
    HoldsConcat(w, s, dc, ac);
    DcPartParsed(w, s, sc, ci, d, z, zin);
    SequentialIsApprox(sc, z, zin, l);
    AcParsed(w, CodeAll(s, dc), p, z0, z, 1, ke);
  }

  lemma DcFirstIsApprox(sc: Scan, z: Zigzag, zin: Zigzag, l: Levels)
    requires ScanOk(sc) && sc.progressive && sc.ss == 0 && zin == Approx(z, l)
    ensures zin[0 := Shift(z[0], sc.al) * Pow2(sc.al)] == Approx(z, AfterScan(sc, l))
  {
  }

  /**
   * Whatever the kind of scan: if the decoder's block is the original cut off where the previous
   * scans left it, decoding leaves the original cut off where this scan leaves it, and both sides
   * end in the same prediction and statistics state.
   */
  lemma BlockParsed(w: seq<Byte>, s: Coder, sc: Scan, ci: nat, d: DcState, z: Zigzag, zin: Zigzag, l: Levels)
    requires ScanOk(sc) && DcOk(sc, d) && ci < |sc.comps| && Continues(sc, l)
    requires IsBlock(z) && zin == Approx(z, l) && DiffFits(sc, ci, d, z)
    requires Holds(w, s, BlockDecisions(sc, ci, d, z))
    ensures ParseBlock(w, s, sc, ci, d, zin)
         == BlockRead(true, Approx(z, AfterScan(sc, l)), NextDc(sc, ci, d, z), CodeAll(s, BlockDecisions(sc, ci, d, z)))
  {
    hide Code, DecodeBit, Holds, DcDecisions, ParseDcBlock, AcFrom, ParseAcFrom, Approx, AfterScan, RefineFrom, ParseRefineFrom;
    match KindOf(sc)
    case Sequential =>
      SequentialParsed(w, s, sc, ci, d, z, zin, l);
    case DcFirst =>
      DcPartParsed(w, s, sc, ci, d, z, zin);
      DcFirstIsApprox(sc, z, zin, l);
    case AcFirst =>
      AcFirstParsed(w, s, sc, ci, z, zin, l);
    case DcRefine =>
      DcRefineParsed(w, s, sc, ci, d, z, zin, l);
    case AcRefine =>
      AcRefineParsed(w, s, sc, ci, d, z, zin, l);
  }

  lemma DcRefineParsed(w: seq<Byte>, s: Coder, sc: Scan, ci: nat, d: DcState, z: Zigzag, zin: Zigzag, l: Levels)
    requires ScanOk(sc) && DcOk(sc, d) && ci < |sc.comps| && KindOf(sc).DcRefine? && Continues(sc, l)
    requires zin == Approx(z, l)
    requires Holds(w, s, BlockDecisions(sc, ci, d, z))
    ensures ParseBlock(w, s, sc, ci, d, zin)
         == BlockRead(true, Approx(z, AfterScan(sc, l)), d, CodeAll(s, BlockDecisions(sc, ci, d, z)))
  {
    hide Code, DecodeBit, Holds;
    var dec := Decision(Fixed, DcValue(sc, z) % 2);
    assert BlockDecisions(sc, ci, d, z) == [dec] + [];
    HoldsCons(w, s, dec, []);
    OrBit(z[0], sc.al);
    DcFirstIsApprox(sc, z, zin, l);
    assert l[0] == sc.ah;
  }

  /** A DC difference the magnitude categories cannot express makes the decoder give up on the block. */
  lemma BlockOverflow(w: seq<Byte>, s: Coder, sc: Scan, ci: nat, d: DcState, z: Zigzag, zin: Zigzag)
    requires ScanOk(sc) && DcOk(sc, d) && ci < |sc.comps|
    requires !DiffFits(sc, ci, d, z)
    requires Holds(w, s, BlockDecisions(sc, ci, d, z))
    ensures !ParseBlock(w, s, sc, ci, d, zin).ok
  {
    hide Code, DecodeBit, Holds, DcDecisions, AcFrom, ParseAcFrom, ParseDc;
    var p, ke := AcOf(sc, ci), LastNonzero(z, sc.se);
    var dc := DcDecisions(sc.comps[ci].dcTbl, d.ctx[ci], DcValue(sc, z) - d.last[ci]);
    if KindOf(sc).Sequential? {
      HoldsConcat(w, s, dc, AcFrom(p, z, 1, ke));
    }
    DcParsed(w, s, sc.comps[ci].dcTbl, d.ctx[ci], DcValue(sc, z) - d.last[ci]);
  }

  // ----- A whole segment -----

  predicate VisitsOk(sc: Scan, vs: seq<Visit>) {
    forall i :: 0 <= i < |vs| ==> vs[i].ci < |sc.comps|
  }

  /** The decisions of the blocks, MCU after MCU. */
  function SegmentDecisions(sc: Scan, d: DcState, vs: seq<Visit>): seq<Decision>
    requires ScanOk(sc) && DcOk(sc, d) && VisitsOk(sc, vs)
    decreases |vs|
  {
    if vs == [] then []
    else BlockDecisions(sc, vs[0].ci, d, vs[0].z) + SegmentDecisions(sc, NextDc(sc, vs[0].ci, d, vs[0].z), vs[1..])
  }

  predicate DiffsFit(sc: Scan, d: DcState, vs: seq<Visit>)
    requires ScanOk(sc) && DcOk(sc, d) && VisitsOk(sc, vs)
    decreases |vs|
  {
    vs == [] || (DiffFits(sc, vs[0].ci, d, vs[0].z) && DiffsFit(sc, NextDc(sc, vs[0].ci, d, vs[0].z), vs[1..]))
  }

  /** Two blocks whose DC values are as far apart as they can be; their difference is not expressible. */
  lemma FarApart(sc: Scan)
    requires ScanOk(sc) && !sc.progressive
    ensures var z: Zigzag := seq(DCTSIZE2, _ => 0);
            var vs := [Visit(0, z[0 := -0x8000]), Visit(0, z[0 := 0x7FFF])];
            VisitsOk(sc, vs) && AreBlocks(vs) && !DiffsFit(sc, Fresh(sc), vs)
  {
    hide Context;
    var z: Zigzag := seq(DCTSIZE2, _ => 0);
    var v, v' := Visit(0, z[0 := -0x8000]), Visit(0, z[0 := 0x7FFF]);
    assert Pow2(0) == 1;
    assert [v, v'][1..] == [v'];
    var d := NextDc(sc, 0, Fresh(sc), v.z);
    assert d.last[0] == -0x8000;
    assert !DiffFits(sc, 0, d, v'.z);
  }

  datatype SegmentRead = SegmentRead(ok: bool, vs: seq<Visit>, d: DcState, s: Coder)

  /** Decoding the same blocks in the same order; after a bad code the remaining blocks stay as they are. */
  function ParseSegment(w: seq<Byte>, s: Coder, sc: Scan, d: DcState, vs: seq<Visit>): (r: SegmentRead)
    requires ScanOk(sc) && DcOk(sc, d) && VisitsOk(sc, vs)
    ensures |r.vs| == |vs|
    decreases |vs|
  {
    if vs == [] then SegmentRead(true, [], d, s)
    else
      var b := ParseBlock(w, s, sc, vs[0].ci, d, vs[0].z);
      if !b.ok then SegmentRead(false, [Visit(vs[0].ci, b.z)] + vs[1..], b.d, b.s)
      else
        var r := ParseSegment(w, b.s, sc, b.d, vs[1..]);
        SegmentRead(r.ok, [Visit(vs[0].ci, b.z)] + r.vs, r.d, r.s)
  }

  /** The original blocks cut off at the levels of their components. */
  function ApproxAll(vs: seq<Visit>, ls: seq<Levels>): (r: seq<Visit>)
    requires forall i :: 0 <= i < |vs| ==> vs[i].ci < |ls|
    ensures |r| == |vs|
    ensures forall i :: 0 <= i < |r| ==> r[i] == Visit(vs[i].ci, Approx(vs[i].z, ls[vs[i].ci]))
  {
    if vs == [] then [] else [Visit(vs[0].ci, Approx(vs[0].z, ls[vs[0].ci]))] + ApproxAll(vs[1..], ls)
  }

  predicate AllContinue(sc: Scan, ls: seq<Levels>)
    requires ScanOk(sc)
  {
    |ls| == |sc.comps| && forall ci :: 0 <= ci < |ls| ==> Continues(sc, ls[ci])
  }

  function AllAfter(sc: Scan, ls: seq<Levels>): (r: seq<Levels>)
    requires ScanOk(sc)
    ensures |r| == |ls|
  {
    seq(|ls|, i requires 0 <= i < |ls| => AfterScan(sc, ls[i]))
  }

  /**
   * A segment is read back exactly when every DC difference in it can be expressed; then every
   * block ends as the original cut off where this scan leaves it.
   */
  lemma {:induction false} SegmentParsed(w: seq<Byte>, s: Coder, sc: Scan, d: DcState, vs: seq<Visit>, ls: seq<Levels>)
    requires ScanOk(sc) && DcOk(sc, d) && VisitsOk(sc, vs) && AllContinue(sc, ls)
    requires forall i :: 0 <= i < |vs| ==> IsBlock(vs[i].z)
    requires Holds(w, s, SegmentDecisions(sc, d, vs))
    ensures var r := ParseSegment(w, s, sc, d, ApproxAll(vs, ls));
            && (r.ok <==> DiffsFit(sc, d, vs))
            && (r.ok ==> r.vs == ApproxAll(vs, AllAfter(sc, ls)) && r.s == CodeAll(s, SegmentDecisions(sc, d, vs)))
    decreases |vs|
  {
    hide Code, DecodeBit, Holds, BlockDecisions, ParseBlock, Approx, AfterScan, Continues, DiffFits, IsBlock, NextDc;
    if vs != [] {
      var v, rest := vs[0], vs[1..];
      var d' := NextDc(sc, v.ci, d, v.z);
      var b, more := BlockDecisions(sc, v.ci, d, v.z), SegmentDecisions(sc, d', rest);
      HoldsConcat(w, s, b, more);
      var input := ApproxAll(vs, ls);
      assert input[0] == Visit(v.ci, Approx(v.z, ls[v.ci])) && input[1..] == ApproxAll(rest, ls);
      if DiffFits(sc, v.ci, d, v.z) {
        BlockParsed(w, s, sc, v.ci, d, v.z, Approx(v.z, ls[v.ci]), ls[v.ci]);
        SegmentParsed(w, CodeAll(s, b), sc, d', rest, ls);
      } else {
        BlockOverflow(w, s, sc, v.ci, d, v.z, Approx(v.z, ls[v.ci]));
      }
    }
  }
}
