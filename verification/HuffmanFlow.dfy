/**
 * The symbols and raw bits of a block one by one, as sections F.1.2 and G.1.2 of ITU-T T.81 fix them:
 * categories, run lengths, end-of-block runs, and what is coded of a block in each kind of scan.
 */
module HuffmanFlow {
  import opened Arithmetic
  import opened Bits
  import opened Blocks
  import opened HuffmanSymbols
  import opened HuffmanScan
  import opened HuffmanEobRuns
  import opened HuffmanProgressive
  import opened HuffmanProgressiveScan

  // ----- Categories -----

  /** Tables F.1 and F.2: n is the category of v. */
  predicate Category(v: int, n: nat) {
    if v == 0 then n == 0 else n > 0 && Pow2(n - 1) <= Abs(v) < Pow2(n)
  }

  lemma CategoryIs(v: int, n: nat)
    ensures Category(v, n) <==> n == NBits(Abs(v))
  {
    var u := Abs(v);
    NBitsBounds(u);
    if Category(v, n) && v != 0 {
      NBitsAtMost(u, n);
      if NBits(u) < n {
        Pow2Monotone(NBits(u), n - 1);
      }
    }
  }

  /** Section F.1.2.1.1: the additional bits are v, or for negative v the low bits of v - 1. */
  lemma AdditionalBits(v: int, n: nat)
    requires Category(v, n)
    ensures Extra(v) == Raw(if v >= 0 then v else v + Pow2(n) - 1, n)
  {
    CategoryIs(v, n);
    var p := Pow2(n);
    if v >= 0 {
      RemainderUnique(v, p, 0, v);
    } else {
      NegativeRemainder(v - 1, p);
    }
  }

  /** The coder accepts AC coefficients of magnitude up to 1023 and DC differences of magnitude up to 2047. */
  lemma AcceptedValues(z: Zigzag, last: int)
    ensures InRange(z, last) <==> Abs(z[0] - last) <= 2047 && forall k :: 1 <= k < DCTSIZE2 ==> Abs(z[k]) <= 1023
  {
    AtMostBits(z[0] - last, 11);
    forall k | 1 <= k < DCTSIZE2 ensures NBits(Abs(z[k])) <= 10 <==> Abs(z[k]) <= 1023 {
      AtMostBits(z[k], 10);
    }
  }

  lemma AtMostBits(v: int, n: nat)
    requires n == 10 || n == 11
    ensures NBits(Abs(v)) <= n <==> Abs(v) <= if n == 10 then 1023 else 2047
  {
    Pow2Values();
    assert Pow2(11) == 2 * Pow2(10);
    var u := Abs(v);
    NBitsBounds(u);
    if u < Pow2(n) {
      NBitsAtMost(u, n);
    } else {
      if NBits(u) <= n {
        Pow2Monotone(NBits(u), n);
      }
    }
  }

  // ----- Sequential blocks -----

  /** Section F.1.2.1: the category of the difference, and its additional bits. */
  lemma DcDifferenceItems(t: nat, diff: int, n: nat)
    requires Category(diff, n)
    ensures DcItems(t, diff) == [Sym(DcTbl(t), n), Raw(if diff >= 0 then diff else diff + Pow2(n) - 1, n)]
  {
    CategoryIs(diff, n);
    AdditionalBits(diff, n);
  }

  /** Coefficient j is the first from k on that is not zero. */
  predicate FirstFrom(z: Zigzag, k: nat, j: nat) {
    k <= j < DCTSIZE2 && z[j] != 0 && forall i :: k <= i < j ==> z[i] == 0
  }

  /** Figure F.2 for coefficient v behind r zeros: a symbol for each 16 zeros, then run and category in one symbol. */
  function Coefficient(t: nat, r: nat, v: int, n: nat): seq<Item>
    requires Category(v, n)
  {
    seq(r / 16, _ => Sym(AcTbl(t), 0xF0)) + [Sym(AcTbl(t), r % 16 * 16 + n), Raw(if v >= 0 then v else v + Pow2(n) - 1, n)]
  }

  lemma {:induction false} AcZeros(t: nat, z: Zigzag, k: nat, r: nat, j: nat)
    requires k <= j <= DCTSIZE2 && forall i :: k <= i < j ==> z[i] == 0
    ensures AcItems(t, z, k, r) == AcItems(t, z, j, r + j - k)
    decreases j - k
  {
    if k < j {
      AcZeros(t, z, k + 1, r + 1, j);
    }
  }

  lemma {:induction false} AcCoefficient(t: nat, z: Zigzag, j: nat, r: nat, n: nat)
    requires j < DCTSIZE2 && z[j] != 0 && Category(z[j], n)
    ensures AcItems(t, z, j, r) == Coefficient(t, r, z[j], n) + AcItems(t, z, j + 1, 0)
    decreases r
  {
    hide Category, Pow2, NBits, Extra, Coefficient;
    if r > 15 {
      AcCoefficient(t, z, j, r - 16, n);
      CoefficientLonger(t, r, z[j], n);
    } else {
      CoefficientShort(t, r, z[j], n);
    }
  }

  lemma CoefficientLonger(t: nat, r: nat, v: int, n: nat)
    requires r > 15 && Category(v, n)
    ensures Coefficient(t, r, v, n) == [Sym(AcTbl(t), 0xF0)] + Coefficient(t, r - 16, v, n)
  {
    assert r / 16 == (r - 16) / 16 + 1 && r % 16 == (r - 16) % 16;
    assert seq(r / 16, _ => Sym(AcTbl(t), 0xF0)) == [Sym(AcTbl(t), 0xF0)] + seq((r - 16) / 16, _ => Sym(AcTbl(t), 0xF0));
  }

  /** Section F.1.2.2: nonzero coefficients with the zeros before them, and an end-of-block symbol if zeros are left. */
  lemma AcCoefficients(t: nat, z: Zigzag, k: nat, j: nat, n: nat)
    requires k <= DCTSIZE2
    ensures k == DCTSIZE2 ==> AcItems(t, z, k, 0) == []
    ensures k < DCTSIZE2 && (forall i :: k <= i < DCTSIZE2 ==> z[i] == 0) ==> AcItems(t, z, k, 0) == [Sym(AcTbl(t), 0x00)]
    ensures FirstFrom(z, k, j) && Category(z[j], n) ==>
              AcItems(t, z, k, 0) == Coefficient(t, j - k, z[j], n) + AcItems(t, z, j + 1, 0)
  {
    hide Category, Coefficient;
    if FirstFrom(z, k, j) && Category(z[j], n) {
      AcZeros(t, z, k, 0, j);
      AcCoefficient(t, z, j, j - k, n);
    } else if forall i :: k <= i < DCTSIZE2 ==> z[i] == 0 {
      AcZeros(t, z, k, 0, DCTSIZE2);
    }
  }

  /** A prediction is the DC value of the component's last block before this one in the segment, or zero. */
  lemma {:induction false} HuffmanPrediction(vs: seq<Visit>, ci: nat, i: nat)
    ensures (forall j :: 0 <= j < |vs| ==> vs[j].ci != ci) ==> LastDc(vs, ci) == 0
    ensures i < |vs| && vs[i].ci == ci && (forall j :: i < j < |vs| ==> vs[j].ci != ci) ==> LastDc(vs, ci) == vs[i].z[0]
  {
    if vs != [] {
      HuffmanPrediction(vs[..|vs| - 1], ci, i);
    }
  }

  // ----- End-of-block runs -----

  /** Section G.1.2.2: a run of c blocks is sent as its highest bit number and the bits below. */
  lemma EobRunItems(t: nat, c: nat, n: nat)
    requires Pow2(n) <= c < 2 * Pow2(n)
    ensures EobHeader(t, c) == [Sym(AcTbl(t), n * 16)] + if n > 0 then [Raw(c - Pow2(n), n)] else []
  {
    CategoryIs(c, n + 1);
    RemainderUnique(c, Pow2(n), 1, c - Pow2(n));
  }

  /** The run is sent when it has reached 32767 blocks, or when another block of correction bits might not fit. */
  lemma RunIsSent(t: nat, q: Progress)
    ensures var (items, p) := EndOfBlock(t, q);
            && (q.r == 0 && q.br == [] ==> items == q.items && p == q.p)
            && (q.r > 0 || q.br != [] ==>
                  var longer := Pend(q.p.eobrun + 1, q.p.be + q.br);
                  if longer.eobrun == 32767 || |longer.be| > 937
                  then items == q.items + (EobHeader(t, longer.eobrun) + Raws(longer.be)) && p == Pend(0, [])
                  else items == q.items && p == longer)
  {
    hide EobHeader, Raws;
  }

  // ----- Bands of a first scan -----

  lemma {:induction false} BandZeros(t: nat, x: Zigzag, se: nat, eob: nat, k: nat, r: nat, j: nat, p: Pend)
    requires eob <= se < DCTSIZE2 && k <= j <= se + 1 && forall i :: k <= i < j ==> x[i] == 0
    ensures BandItems(t, false, x, se, eob, k, r, [], p) == BandItems(t, false, x, se, eob, j, r + j - k, [], p)
    decreases j - k
  {
    if k < j {
      BandZeros(t, x, se, eob, k + 1, r + 1, j, p);
    }
  }

  lemma {:induction false} BandCoefficient(t: nat, x: Zigzag, se: nat, eob: nat, j: nat, r: nat, n: nat, p: Pend)
    requires j <= eob <= se < DCTSIZE2 && x[j] != 0 && Category(x[j], n)
    ensures BandItems(t, false, x, se, eob, j, r, [], p)
         == Prefixed(EobItems(t, p) + Coefficient(t, r, x[j], n), BandItems(t, false, x, se, eob, j + 1, 0, [], NO_PEND))
    decreases r
  {
    hide Category, Pow2, EobItems, NBits, Extra, Coefficient, BandItems;
    BandStep(t, x, se, eob, j, r, p);
    if r > 15 {
      BandCoefficient(t, x, se, eob, j, r - 16, n, NO_PEND);
      NothingPending(t);
      CoefficientLonger(t, r, x[j], n);
    } else {
      CoefficientShort(t, r, x[j], n);
    }
  }

  lemma BandStep(t: nat, x: Zigzag, se: nat, eob: nat, j: nat, r: nat, p: Pend)
    requires j <= eob <= se < DCTSIZE2 && x[j] != 0
    ensures BandItems(t, false, x, se, eob, j, r, [], p)
         == if r > 15 then Prefixed(EobItems(t, p) + [Sym(AcTbl(t), 0xF0)], BandItems(t, false, x, se, eob, j, r - 16, [], NO_PEND))
            else Prefixed(EobItems(t, p) + [Sym(AcTbl(t), r * 16 + NBits(Abs(x[j]))), Extra(x[j])],
                          BandItems(t, false, x, se, eob, j + 1, 0, [], NO_PEND))
  {
    hide EobItems, Extra, NBits;
    assert Raws([]) == [];
  }

  lemma CoefficientShort(t: nat, r: nat, v: int, n: nat)
    requires r <= 15 && Category(v, n)
    ensures Coefficient(t, r, v, n) == [Sym(AcTbl(t), r * 16 + NBits(Abs(v))), Extra(v)]
  {
    CategoryIs(v, n);
    AdditionalBits(v, n);
    hide Category, NBits, Extra, Pow2;
    assert r / 16 == 0 && r % 16 == r;
    assert seq(r / 16, _ => Sym(AcTbl(t), 0xF0)) == [];
  }

  lemma NothingPending(t: nat)
    ensures EobItems(t, NO_PEND) == []
  {
  }

  /**
   * Section G.1.2.2 and figure G.3: the pending run is sent before the first nonzero coefficient of the
   * band, coefficients are coded as in a sequential scan, and zeros at the end only make the run longer.
   */
  lemma FirstScanBand(t: nat, x: Zigzag, se: nat, eob: nat, k: nat, j: nat, n: nat, p: Pend)
    requires k <= se + 1 && se < DCTSIZE2 && eob == LastNew(false, x, 1, se) && k >= 1
    ensures (forall i :: k <= i <= se ==> x[i] == 0) ==> BandItems(t, false, x, se, eob, k, 0, [], p) == Progress([], p, se + 1 - k, [])
    ensures FirstFrom(x, k, j) && j <= se && Category(x[j], n) ==>
              BandItems(t, false, x, se, eob, k, 0, [], p)
              == Prefixed(EobItems(t, p) + Coefficient(t, j - k, x[j], n), BandItems(t, false, x, se, eob, j + 1, 0, [], NO_PEND))
  {
    hide Category, Coefficient, EobItems;
    if FirstFrom(x, k, j) && j <= se && Category(x[j], n) {
      BandZeros(t, x, se, eob, k, 0, j, p);
      BandCoefficient(t, x, se, eob, j, j - k, n, p);
    } else if forall i :: k <= i <= se ==> x[i] == 0 {
      BandZeros(t, x, se, eob, k, 0, se + 1, p);
    }
  }

  // ----- Bands of a refinement scan -----

  /**
   * From k to j a refinement scan finds only zeros and coefficients that were not zero before, and no
   * further 16 zeros to announce: none at all, or no new coefficient behind them.
   */
  predicate Quiet(x: Zigzag, k: nat, r: nat, j: nat, eob: nat) {
    j <= DCTSIZE2 && forall m :: k <= m < j && x[m] != 0 ==> Abs(x[m]) > 1 && (r + Zeros(x, k, m) <= 15 || m > eob)
  }

  lemma {:induction false} QuietStretch(t: nat, x: Zigzag, se: nat, eob: nat, k: nat, r: nat, br: seq<Bit>, j: nat, p: Pend)
    requires eob <= se < DCTSIZE2 && k <= j <= se + 1 && Quiet(x, k, r, j, eob)
    ensures BandItems(t, true, x, se, eob, k, r, br, p)
         == BandItems(t, true, x, se, eob, j, r + Zeros(x, k, j), br + Corr(x, k, j), p)
    decreases j - k
  {
    hide EobItems, Extra, NBits;
    if k < j {
      assert Zeros(x, k, k) == 0;
      var zero := if x[k] == 0 then 1 else 0;
      var bit: seq<Bit> := if x[k] != 0 then [Abs(x[k]) % 2] else [];
      QuietNext(x, k, r, j, eob);
      QuietStretch(t, x, se, eob, k + 1, r + zero, br + bit, j, p);
      assert BandItems(t, true, x, se, eob, k, r, br, p) == BandItems(t, true, x, se, eob, k + 1, r + zero, br + bit, p) by {
        assert br + [] == br;
        assert Quiet(x, k, r, j, eob);
        assert x[k] != 0 ==> Abs(x[k]) > 1 && (r + Zeros(x, k, k) <= 15 || k > eob);
      }
      assert Corr(x, k, j) == bit + Corr(x, k + 1, j);
      assert br + bit + Corr(x, k + 1, j) == br + (bit + Corr(x, k + 1, j));
    } else {
      assert br + [] == br;
    }
  }

  lemma QuietNext(x: Zigzag, k: nat, r: nat, j: nat, eob: nat)
    requires Quiet(x, k, r, j, eob) && k < j
    ensures Quiet(x, k + 1, r + if x[k] == 0 then 1 else 0, j, eob)
  {
    forall m | k + 1 <= m < j && x[m] != 0 ensures r + (if x[k] == 0 then 1 else 0) + Zeros(x, k + 1, m) <= 15 || m > eob {
      assert Zeros(x, k, m) == (if x[k] == 0 then 1 else 0) + Zeros(x, k + 1, m);
    }
  }

  /**
   * Section G.1.2.3 and figure G.7, from the coefficient behind a symbol on: a new coefficient is sent as
   * the number of zeros before it, its sign, and the correction bits gathered on the way; 16 zeros before
   * a coefficient that is not the end of the block get a symbol of their own with the bits gathered by then;
   * what is left at the end of the band joins the pending run.
   */
  lemma RefinementBand(t: nat, x: Zigzag, se: nat, eob: nat, k: nat, j: nat, p: Pend)
    requires eob <= se < DCTSIZE2 && k <= j <= se + 1 && Quiet(x, k, 0, j, eob)
    ensures var zeros, bits := Zeros(x, k, j), Corr(x, k, j);
            && (j == se + 1 ==> BandItems(t, true, x, se, eob, k, 0, [], p) == Progress([], p, zeros, bits))
            && (j <= se && Abs(x[j]) == 1 && zeros <= 15 ==>
                  BandItems(t, true, x, se, eob, k, 0, [], p)
                  == Prefixed(EobItems(t, p) + ([Sym(AcTbl(t), 16 * zeros + 1), Raw(if x[j] > 0 then 1 else 0, 1)] + Raws(bits)),
                              BandItems(t, true, x, se, eob, j + 1, 0, [], NO_PEND)))
            && (j <= eob && x[j] != 0 && zeros > 15 ==>
                  BandItems(t, true, x, se, eob, k, 0, [], p)
                  == Prefixed(EobItems(t, p) + ([Sym(AcTbl(t), 0xF0)] + Raws(bits)),
                              BandItems(t, true, x, se, eob, j, zeros - 16, [], NO_PEND)))
  {
    QuietStretch(t, x, se, eob, k, 0, [], j, p);
    assert [] + Corr(x, k, j) == Corr(x, k, j);
    RefinementStep(t, x, se, eob, j, Zeros(x, k, j), Corr(x, k, j), p);
    hide *;
  }

  lemma RefinementStep(t: nat, x: Zigzag, se: nat, eob: nat, j: nat, zeros: nat, bits: seq<Bit>, p: Pend)
    requires eob <= se < DCTSIZE2 && j <= se + 1
    ensures var q := BandItems(t, true, x, se, eob, j, zeros, bits, p);
            && (j == se + 1 ==> q == Progress([], p, zeros, bits))
            && (j <= se && Abs(x[j]) == 1 && zeros <= 15 ==>
                  q == Prefixed(EobItems(t, p) + ([Sym(AcTbl(t), 16 * zeros + 1), Raw(if x[j] > 0 then 1 else 0, 1)] + Raws(bits)),
                                BandItems(t, true, x, se, eob, j + 1, 0, [], NO_PEND)))
            && (j <= eob && x[j] != 0 && zeros > 15 ==>
                  q == Prefixed(EobItems(t, p) + ([Sym(AcTbl(t), 0xF0)] + Raws(bits)),
                                BandItems(t, true, x, se, eob, j, zeros - 16, [], NO_PEND)))
  {
    hide EobItems, NBits, Extra, Raws;
    if j <= se && Abs(x[j]) == 1 {
      OneBitMore(x[j]);
    }
  }

  lemma OneBitMore(v: int)
    requires Abs(v) == 1
    ensures NBits(Abs(v)) == 1 && Extra(v) == Raw(if v > 0 then 1 else 0, 1)
  {
    assert Pow2(1) == 2 && Pow2(0) == 1;
    CategoryIs(v, 1);
    AdditionalBits(v, 1);
  }

  // ----- What a scan says of a block -----

  /**
   * Table G.1 and section G.1.2 for blocks of one component: dc and before are the DC values of this block
   * and of the component's last one, divided by 2^Al and rounded down.
   */
  lemma BlockInScan(sc: PScan, vs: seq<Visit>, v: Visit, p: Pend, dc: int, before: int)
    requires PScanOk(sc) && v.ci < |sc.tbl|
    requires dc * Pow2(sc.al) <= v.z[0] < dc * Pow2(sc.al) + Pow2(sc.al)
    requires before * Pow2(sc.al) <= LastDc(vs, v.ci) < before * Pow2(sc.al) + Pow2(sc.al)
    ensures sc.ss == 0 && sc.ah == 0 ==> VisitOut(sc, vs, v, p) == (DcItems(sc.tbl[v.ci], dc - before), p)
    ensures sc.ss == 0 && sc.ah > 0 ==> VisitOut(sc, vs, v, p) == ([Raw(dc % 2, 1)], p)
    ensures sc.ss > 0 ==> VisitOut(sc, vs, v, p) == BlockOut(sc.tbl[0], sc.ah > 0, Trunc(v.z, sc.al), sc.ss, sc.se, p)
  {
    hide DcItems, BlockOut;
    QuotientUnique(v.z[0], Pow2(sc.al), dc, v.z[0] - dc * Pow2(sc.al));
    QuotientUnique(LastDc(vs, v.ci), Pow2(sc.al), before, LastDc(vs, v.ci) - before * Pow2(sc.al));
    assert Pow2(1) == 2;
  }
}
