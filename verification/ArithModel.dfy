/**
 * Binarization of coefficients for arithmetic coding (sections F.1.4, F.2.4 and G.1.3 of
 * ITU-T T.81) as jcarith.c produces it and jdarith.c parses it: the list of decisions for one
 * block on the encoding side, and a parser over a byte string on the decoding side.
 */
module ArithModel {
  import opened Arithmetic
  import opened Bits
  import opened Blocks
  import opened ArithSpec

  // ----- Reading what was coded -----

  /** The decisions ds are what the byte string w holds from state s on. */
  predicate Holds(w: seq<Byte>, s: Coder, ds: seq<Decision>) {
    In(w, CodeAll(s, ds).iv)
  }

  /** The decoder meets the first decision, and the others are next. */
  lemma HoldsCons(w: seq<Byte>, s: Coder, d: Decision, ds: seq<Decision>)
    requires Holds(w, s, [d] + ds)
    ensures DecodeBit(w, s, d.bin) == d.bit
    ensures DecodeStep(w, s, d.bin) == Code(s, d)
    ensures Holds(w, Code(s, d), ds)
    ensures CodeAll(s, [d] + ds) == CodeAll(Code(s, d), ds)
  {
    hide Code, DecodeBit, In;
    CodeAllCons(s, d, ds);
    InNested(w, Code(s, d), ds);
    InCode(w, s, d);
  }

  lemma HoldsConcat(w: seq<Byte>, s: Coder, ds: seq<Decision>, es: seq<Decision>)
    requires Holds(w, s, ds + es)
    ensures Holds(w, s, ds)
    ensures Holds(w, CodeAll(s, ds), es)
    ensures CodeAll(s, ds + es) == CodeAll(CodeAll(s, ds), es)
  {
    CodeAllConcat(s, ds, es);
    InNested(w, CodeAll(s, ds), es);
  }

  // ----- Magnitudes -----

  /** The position of the highest one bit of u (0 for u == 0). */
  function Log2(u: nat): (e: nat)
    ensures u > 0 ==> Pow2(e) <= u < 2 * Pow2(e)
  {
    if u < 2 then 0 else 1 + Log2(u / 2)
  }

  lemma {:induction false} Log2Below(u: nat, k: nat)
    requires u < Pow2(k) && k > 0
    ensures Log2(u) < k
  {
    if u >= 2 {
      Log2Below(u / 2, k - 1);
    }
  }

  lemma {:induction false} Log2AtLeast(u: nat, k: nat)
    requires u >= Pow2(k)
    ensures Log2(u) >= k
  {
    if k > 0 {
      Log2AtLeast(u / 2, k - 1);
    }
  }

  /** `(m & u) ? 1 : 0` for m == 1 << e. */
  function BitAt(u: nat, e: nat): Bit {
    u / Pow2(e) % 2
  }

  /** Figure F.8 from the X1 bin on: a one per doubling, each in the next bin. */
  function Ones(st: BinId, n: nat): seq<Decision>
    requires !st.Fixed?
    decreases n
  {
    if n == 0 then [] else [Decision(st, 1)] + Ones(st.Plus(1), n - 1)
  }

  /** Figure F.9: the bits below position e, highest first, all in one bin. */
  function Pattern(st: BinId, e: nat, u: nat): seq<Decision> {
    if e == 0 then [] else [Decision(st, BitAt(u, e - 1))] + Pattern(st, e - 1, u)
  }

  /** Category and pattern of u, where `st` is the bin for the doublings beyond 1 << e0. */
  function Tail(st: BinId, e0: nat, u: nat): seq<Decision>
    requires !st.Fixed? && e0 <= Log2(u)
  {
    var n := Log2(u) - e0;
    Ones(st, n) + ([Decision(st.Plus(n), 0)] + Pattern(st.Plus(n + 14), Log2(u), u))
  }

  datatype Parsed<T> = Parsed(value: T, s: Coder) | Bad(s: Coder)

  /** `while (arith_decode(st)) { if ((m <<= 1) == 0x8000) bad; st += 1; }` with m == 1 << e. */
  function ParseOnes(w: seq<Byte>, s: Coder, st: BinId, e: nat): (r: Parsed<nat>)
    requires !st.Fixed? && e <= 14
    ensures r.Parsed? ==> e <= r.value <= 14
    decreases 14 - e
  {
    var s' := DecodeStep(w, s, st);
    if DecodeBit(w, s, st) == 0 then Parsed(e, s')
    else if e == 14 then Bad(s')
    else ParseOnes(w, s', st.Plus(1), e + 1)
  }

  /** `while (m >>= 1) if (arith_decode(st)) v |= m;` */
  function ParsePattern(w: seq<Byte>, s: Coder, st: BinId, e: nat, v: nat): (nat, Coder)
    decreases e
  {
    hide DecodeStep, DecodeBit;
    if e == 0 then (v, s)
    else ParsePattern(w, DecodeStep(w, s, st), st, e - 1, v + DecodeBit(w, s, st) * Pow2(e - 1))
  }

  function ParseTail(w: seq<Byte>, s: Coder, st: BinId, e0: nat): Parsed<nat>
    requires !st.Fixed? && e0 <= 14
  {
    match ParseOnes(w, s, st, e0)
    case Bad(s') => Bad(s')
    case Parsed(e, s') =>
      var (v, s'') := ParsePattern(w, s', st.Plus(e - e0 + 14), e, Pow2(e));
      Parsed(v, s'')
  }

  lemma {:induction false} OnesParsed(w: seq<Byte>, s: Coder, st: BinId, e: nat, n: nat)
    requires !st.Fixed? && e + n <= 14
    requires Holds(w, s, Ones(st, n) + [Decision(st.Plus(n), 0)])
    ensures ParseOnes(w, s, st, e) == Parsed(e + n, CodeAll(s, Ones(st, n) + [Decision(st.Plus(n), 0)]))
    decreases n
  {
    hide Code, DecodeBit, Holds;
    if n == 0 {
      assert Ones(st, 0) + [Decision(st.Plus(0), 0)] == [Decision(st, 0)] + [];
      HoldsCons(w, s, Decision(st, 0), []);
    } else {
      var rest := Ones(st.Plus(1), n - 1) + [Decision(st.Plus(n), 0)];
      assert Ones(st, n) + [Decision(st.Plus(n), 0)] == [Decision(st, 1)] + rest;
      HoldsCons(w, s, Decision(st, 1), rest);
      assert st.Plus(1).Plus(n - 1) == st.Plus(n);
      OnesParsed(w, Code(s, Decision(st, 1)), st.Plus(1), e + 1, n - 1);
    }
  }

  /** The top bits of u above position e, and one bit more. */
  lemma NextBit(u: nat, p: nat)
    requires p > 0
    ensures u / (2 * p) * (2 * p) + u / p % 2 * p == u / p * p
  {
    var q := u / p;
    HalfQuotient(u, p);
    assert q == 2 * (q / 2) + q % 2;
    assert q * p == (2 * (q / 2)) * p + q % 2 * p;
    assert q / 2 * (2 * p) == (2 * (q / 2)) * p;
  }

  lemma HalfQuotient(u: nat, p: nat)
    requires p > 0
    ensures u / (2 * p) == u / p / 2
  {
    var q, h := u / p, u / p / 2;
    assert u == q * p + u % p;
    assert q == 2 * h + q % 2;
    assert u == h * (2 * p) + (q % 2 * p + u % p) by {
      assert q * p == (2 * h) * p + q % 2 * p;
    }
    assert 0 <= q % 2 * p + u % p < 2 * p;
    QuotientUnique(u, 2 * p, h, q % 2 * p + u % p);
  }

  lemma {:induction false} PatternParsed(w: seq<Byte>, s: Coder, st: BinId, e: nat, u: nat, v: nat)
    requires Holds(w, s, Pattern(st, e, u))
    requires v == u / Pow2(e) * Pow2(e)
    ensures ParsePattern(w, s, st, e, v) == (u, CodeAll(s, Pattern(st, e, u)))
    decreases e
  {
    hide Code, DecodeBit, Holds;
    if e > 0 {
      var d := Decision(st, BitAt(u, e - 1));
      HoldsCons(w, s, d, Pattern(st, e - 1, u));
      NextBit(u, Pow2(e - 1));
      PatternParsed(w, Code(s, d), st, e - 1, u, v + d.bit * Pow2(e - 1));
    }
  }

  lemma TailParsed(w: seq<Byte>, s: Coder, st: BinId, e0: nat, u: nat)
    requires !st.Fixed? && u > 0 && e0 <= Log2(u) <= 14
    requires Holds(w, s, Tail(st, e0, u))
    ensures ParseTail(w, s, st, e0) == Parsed(u, CodeAll(s, Tail(st, e0, u)))
  {
    hide Code, DecodeBit, Holds, DecodeStep, Ones, Pattern, ParseOnes, ParsePattern;
    var e, n := Log2(u), Log2(u) - e0;
    var ones, pat := Ones(st, n) + [Decision(st.Plus(n), 0)], Pattern(st.Plus(n + 14), e, u);
    assert Tail(st, e0, u) == ones + pat;
    HoldsConcat(w, s, ones, pat);
    OnesParsed(w, s, st, e0, n);
    QuotientUnique(u, Pow2(e), 1, u - Pow2(e));
    PatternParsed(w, CodeAll(s, ones), st.Plus(n + 14), e, u, Pow2(e));
  }

  /** A magnitude of more than 15 bits always meets the decoder's overflow branch. */
  lemma {:induction false} OnesOverflow(w: seq<Byte>, s: Coder, st: BinId, e: nat, n: nat, rest: seq<Decision>)
    requires !st.Fixed? && e <= 14 && e + n >= 15
    requires Holds(w, s, Ones(st, n) + rest)
    ensures ParseOnes(w, s, st, e).Bad?
    decreases n
  {
    hide Code, DecodeBit, Holds;
    var d := Decision(st, 1);
    var more := Ones(st.Plus(1), n - 1) + rest;
    assert Ones(st, n) + rest == [d] + more;
    HoldsCons(w, s, d, more);
    if e < 14 {
      OnesOverflow(w, Code(s, d), st.Plus(1), e + 1, n - 1, rest);
    }
  }

  // ----- DC differences (figures F.4, F.6 to F.9 and F.19, F.21 to F.24) -----

  function SignBit(v: int): Bit {
    if v < 0 then 1 else 0
  }

  function DcDecisions(t: nat, ctx: nat, v: int): seq<Decision> {
    if v == 0 then [Decision(Dc(t, ctx), 0)]
    else
      [Decision(Dc(t, ctx), 1)] + ([Decision(Dc(t, ctx + 1), SignBit(v))]
      + DcMagnitude(t, ctx + 2 + SignBit(v), Abs(v) - 1))
  }

  function DcMagnitude(t: nat, i: nat, u: nat): seq<Decision> {
    if u == 0 then [Decision(Dc(t, i), 0)] else [Decision(Dc(t, i), 1)] + Tail(Dc(t, 20), 0, u)
  }

  /** Section F.1.4.4.1.2: the conditioning category of a difference, given the table's L and U. */
  function Context(lower: nat, upper: nat, v: int): nat {
    if v == 0 then 0
    else
      var m := if Abs(v) == 1 then 0 else Pow2(Log2(Abs(v) - 1));
      if m < Pow2(lower) / 2 then 0
      else if m > Pow2(upper) / 2 then 12 + SignBit(v) * 4
      else 4 + SignBit(v) * 4
  }

  function ParseDcMagnitude(w: seq<Byte>, s: Coder, t: nat, i: nat): Parsed<nat> {
    var s' := DecodeStep(w, s, Dc(t, i));
    if DecodeBit(w, s, Dc(t, i)) == 0 then Parsed(0, s') else ParseTail(w, s', Dc(t, 20), 0)
  }

  function ParseDc(w: seq<Byte>, s: Coder, t: nat, ctx: nat): Parsed<int> {
    var s1 := DecodeStep(w, s, Dc(t, ctx));
    if DecodeBit(w, s, Dc(t, ctx)) == 0 then Parsed(0, s1) else ParseDcNonzero(w, s1, t, ctx)
  }

  /** Sign and magnitude of a difference that is not zero. */
  function ParseDcNonzero(w: seq<Byte>, s1: Coder, t: nat, ctx: nat): Parsed<int> {
    var sign := DecodeBit(w, s1, Dc(t, ctx + 1));
    var s2 := DecodeStep(w, s1, Dc(t, ctx + 1));
    match ParseDcMagnitude(w, s2, t, ctx + 2 + sign)
    case Bad(s3) => Bad(s3)
    case Parsed(u, s3) => Parsed(if sign == 1 then -(u + 1) else u + 1, s3)
  }

  lemma DcMagnitudeParsed(w: seq<Byte>, s: Coder, t: nat, i: nat, u: nat)
    requires Holds(w, s, DcMagnitude(t, i, u)) && u < 0x8000
    ensures ParseDcMagnitude(w, s, t, i) == Parsed(u, CodeAll(s, DcMagnitude(t, i, u)))
  {
    hide Code, DecodeBit, Holds, ParseTail, Tail;
    if u == 0 {
      assert DcMagnitude(t, i, u) == [Decision(Dc(t, i), 0)] + [];
      HoldsCons(w, s, Decision(Dc(t, i), 0), []);
    } else {
      var d := Decision(Dc(t, i), 1);
      HoldsCons(w, s, d, Tail(Dc(t, 20), 0, u));
      Fits15(u);
      TailParsed(w, Code(s, d), Dc(t, 20), 0, u);
    }
  }

  lemma Fits15(u: nat)
    ensures u < 0x8000 <==> Log2(u) <= 14
  {
    Pow2Values();
    if u < 0x8000 {
      Log2Below(u, 15);
    } else {
      Log2AtLeast(u, 15);
    }
  }

  /** The start of a coded difference, up to its magnitude. */
  lemma DcSignParsed(w: seq<Byte>, s: Coder, t: nat, ctx: nat, v: int) returns (s2: Coder)
    requires Holds(w, s, DcDecisions(t, ctx, v)) && v != 0
    ensures var rest := DcMagnitude(t, ctx + 2 + SignBit(v), Abs(v) - 1);
            && Holds(w, s2, rest) && CodeAll(s, DcDecisions(t, ctx, v)) == CodeAll(s2, rest)
            && DecodeBit(w, s, Dc(t, ctx)) == 1
            && DecodeBit(w, DecodeStep(w, s, Dc(t, ctx)), Dc(t, ctx + 1)) == SignBit(v)
            && DecodeStep(w, DecodeStep(w, s, Dc(t, ctx)), Dc(t, ctx + 1)) == s2
  {
    hide Code, DecodeBit, Holds, DcMagnitude, DecodeStep;
    var rest := DcMagnitude(t, ctx + 2 + SignBit(v), Abs(v) - 1);
    var d0, d1 := Decision(Dc(t, ctx), 1), Decision(Dc(t, ctx + 1), SignBit(v));
    HoldsCons(w, s, d0, [d1] + rest);
    HoldsCons(w, Code(s, d0), d1, rest);
    s2 := Code(Code(s, d0), d1);
  }

  /**
   * A coded DC difference is read back exactly when its magnitude is at most 32768;
   * any other one ends in the decoder's "bad code" branch.
   */
  lemma DcParsed(w: seq<Byte>, s: Coder, t: nat, ctx: nat, v: int)
    requires Holds(w, s, DcDecisions(t, ctx, v))
    ensures Abs(v) <= 32768 <==> ParseDc(w, s, t, ctx) == Parsed(v, CodeAll(s, DcDecisions(t, ctx, v)))
    ensures Abs(v) > 32768 <==> ParseDc(w, s, t, ctx).Bad?
  {
    hide Code, DecodeBit, Holds, DcMagnitude, ParseDcMagnitude, DecodeStep;
    if v == 0 {
      assert DcDecisions(t, ctx, v) == [Decision(Dc(t, ctx), 0)] + [];
      HoldsCons(w, s, Decision(Dc(t, ctx), 0), []);
    } else {
      var s2 := DcSignParsed(w, s, t, ctx, v);
      if Abs(v) <= 32768 {
        DcMagnitudeParsed(w, s2, t, ctx + 2 + SignBit(v), Abs(v) - 1);
      } else {
        DcMagnitudeOverflow(w, s2, t, ctx + 2 + SignBit(v), Abs(v) - 1);
      }
    }
  }

  lemma DcMagnitudeOverflow(w: seq<Byte>, s: Coder, t: nat, i: nat, u: nat)
    requires Holds(w, s, DcMagnitude(t, i, u)) && u >= 0x8000
    ensures ParseDcMagnitude(w, s, t, i).Bad?
  {
    hide Code, DecodeBit, Holds, ParseOnes, Ones, Pattern;
    var d := Decision(Dc(t, i), 1);
    HoldsCons(w, s, d, Tail(Dc(t, 20), 0, u));
    Fits15(u);
    var n := Log2(u);
    OnesOverflow(w, Code(s, d), Dc(t, 20), 0, n, [Decision(Dc(t, 20).Plus(n), 0)] + Pattern(Dc(t, 20).Plus(n + 14), n, u));
  }

  // ----- AC coefficients in zigzag order (figures F.5 and F.20) -----

  /** The conditioning of one AC scan: statistics table, Kx, last coefficient, point transform. */
  datatype AcParams = AcParams(t: nat, kx: nat, se: nat, al: nat)

  /** (JCOEF) x. */
  function Jcoef(x: int): int {
    (x + 0x8000) % 0x1_0000 - 0x8000
  }

  function AcMagnitude(p: AcParams, k: nat, u: nat): seq<Decision>
    requires k >= 1
  {
    var st := Ac(p.t, 3 * k - 1);
    if u == 0 then [Decision(st, 0)]
    else [Decision(st, 1)] + AcMagnitude2(p, k, u)
  }

  function AcMagnitude2(p: AcParams, k: nat, u: nat): seq<Decision>
    requires k >= 1 && u >= 1
  {
    var st := Ac(p.t, 3 * k - 1);
    if u == 1 then [Decision(st, 0)]
    else [Decision(st, 1)] + Tail(X(p, k), 1, u)
  }

  /** The bins for magnitudes above 2. */
  function X(p: AcParams, k: nat): BinId {
    Ac(p.t, if k <= p.kx then 189 else 217)
  }

  /** The decisions from coefficient k on; ke is the end-of-block index. */
  function AcFrom(p: AcParams, z: Zigzag, k: nat, ke: nat): seq<Decision>
    requires 1 <= k && ke <= p.se < DCTSIZE2 && (ke > 0 ==> z[ke] != 0)
    decreases DCTSIZE2 - k, 1
  {
    if k > ke then
      if k <= p.se then [Decision(Ac(p.t, 3 * (k - 1)), 1)] else []
    else [Decision(Ac(p.t, 3 * (k - 1)), 0)] + AcRun(p, z, k, ke)
  }

  /** The decisions inside a run of zeros, from the one that asks whether coefficient k is zero. */
  function AcRun(p: AcParams, z: Zigzag, k: nat, ke: nat): seq<Decision>
    requires 1 <= k <= ke <= p.se < DCTSIZE2 && z[ke] != 0
    decreases DCTSIZE2 - k, 0
  {
    var st := Ac(p.t, 3 * (k - 1) + 1);
    if z[k] == 0 then [Decision(st, 0)] + AcRun(p, z, k + 1, ke)
    else [Decision(st, 1)] + ([Decision(Fixed, SignBit(z[k]))]
         + (AcMagnitude(p, k, Abs(z[k]) - 1) + AcFrom(p, z, k + 1, ke)))
  }

  /** The outcome of decoding AC coefficients: `ok` is false after a "bad code" return. */
  datatype AcRead = AcRead(ok: bool, z: Zigzag, s: Coder)

  function ParseAcMagnitude(w: seq<Byte>, s: Coder, p: AcParams, k: nat): Parsed<nat>
    requires k >= 1
  {
    var st := Ac(p.t, 3 * k - 1);
    var s1 := DecodeStep(w, s, st);
    if DecodeBit(w, s, st) == 0 then Parsed(0, s1)
    else
      var s2 := DecodeStep(w, s1, st);
      if DecodeBit(w, s1, st) == 0 then Parsed(1, s2)
      else ParseTail(w, s2, X(p, k), 1)
  }

  function ParseAcFrom(w: seq<Byte>, s: Coder, p: AcParams, z: Zigzag, k: nat): AcRead
    requires 1 <= k && p.se < DCTSIZE2
    decreases DCTSIZE2 - k, 1
  {
    if k > p.se then AcRead(true, z, s)
    else
      var st := Ac(p.t, 3 * (k - 1));
      var s' := DecodeStep(w, s, st);
      if DecodeBit(w, s, st) == 1 then AcRead(true, z, s') else ParseAcRun(w, s', p, z, k)
  }

  function ParseAcRun(w: seq<Byte>, s: Coder, p: AcParams, z: Zigzag, k: nat): AcRead
    requires 1 <= k <= p.se < DCTSIZE2
    decreases DCTSIZE2 - k, 0, 1
  {
    hide DecodeStep;
    var st := Ac(p.t, 3 * (k - 1) + 1);
    var s1 := DecodeStep(w, s, st);
    if DecodeBit(w, s, st) == 0 then
      if k + 1 > p.se then AcRead(false, z, s1) else ParseAcRun(w, s1, p, z, k + 1)
    else ParseAcNonzero(w, s1, p, z, k)
  }

  function ParseAcNonzero(w: seq<Byte>, s1: Coder, p: AcParams, z: Zigzag, k: nat): AcRead
    requires 1 <= k <= p.se < DCTSIZE2
    decreases DCTSIZE2 - k, 0, 0
  {
    hide DecodeStep;
    var sign := DecodeBit(w, s1, Fixed);
    match ParseAcMagnitude(w, DecodeStep(w, s1, Fixed), p, k)
    case Bad(s2) => AcRead(false, z, s2)
    case Parsed(u, s2) =>
      var v := if sign == 1 then -(u + 1) else u + 1;
      ParseAcFrom(w, s2, p, z[k := Jcoef(v * Pow2(p.al))], k + 1)
  }

  lemma AcMagnitudeParsed(w: seq<Byte>, s: Coder, p: AcParams, k: nat, u: nat)
    requires k >= 1 && u < 0x8000 && Holds(w, s, AcMagnitude(p, k, u))
    ensures ParseAcMagnitude(w, s, p, k) == Parsed(u, CodeAll(s, AcMagnitude(p, k, u)))
  {
    hide Code, DecodeBit, Holds, Tail, ParseTail;
    var st := Ac(p.t, 3 * k - 1);
    if u == 0 {
      assert AcMagnitude(p, k, u) == [Decision(st, 0)] + [];
      HoldsCons(w, s, Decision(st, 0), []);
    } else {
      var s1 := Code(s, Decision(st, 1));
      HoldsCons(w, s, Decision(st, 1), AcMagnitude2(p, k, u));
      if u == 1 {
        assert AcMagnitude2(p, k, u) == [Decision(st, 0)] + [];
        HoldsCons(w, s1, Decision(st, 0), []);
      } else {
        Log2AtLeast(u, 1);
        HoldsCons(w, s1, Decision(st, 1), Tail(X(p, k), 1, u));
        Fits15(u);
        TailParsed(w, Code(s1, Decision(st, 1)), X(p, k), 1, u);
      }
    }
  }

  /** z with the coefficients k..se replaced by those of `from`, scaled back by the point transform. */
  function Filled(z: Zigzag, from: Zigzag, k: nat, se: nat, al: nat): Zigzag {
    seq(DCTSIZE2, j requires 0 <= j < DCTSIZE2 => if k <= j <= se then Jcoef(from[j] * Pow2(al)) else z[j])
  }

  lemma FillOne(z: Zigzag, from: Zigzag, k: nat, se: nat, al: nat)
    requires k <= se < DCTSIZE2
    ensures Filled(z, from, k, se, al) == Filled(z[k := Jcoef(from[k] * Pow2(al))], from, k + 1, se, al)
  {
  }

  lemma FillZeros(z: Zigzag, from: Zigzag, k: nat, se: nat, al: nat)
    requires forall j :: k <= j <= se && j < DCTSIZE2 ==> from[j] == 0 && z[j] == 0
    ensures Filled(z, from, k, se, al) == z
  {
  }

  /** AC coefficients survive coding: the parser fills exactly the coded band, and never meets a bad code. */
  lemma {:induction false} AcParsed(w: seq<Byte>, s: Coder, p: AcParams, z: Zigzag, from: Zigzag, k: nat, ke: nat)
    requires 1 <= k && ke <= p.se < DCTSIZE2 && (ke > 0 ==> from[ke] != 0)
    requires forall j :: ke < j <= p.se ==> from[j] == 0
    requires forall j :: k <= j <= p.se ==> z[j] == 0 && Abs(from[j]) <= 0x8000
    requires Holds(w, s, AcFrom(p, from, k, ke))
    ensures ParseAcFrom(w, s, p, z, k) == AcRead(true, Filled(z, from, k, p.se, p.al), CodeAll(s, AcFrom(p, from, k, ke)))
    decreases DCTSIZE2 - k, 1
  {
    hide Code, DecodeBit, Holds;
    var st := Ac(p.t, 3 * (k - 1));
    if k > ke {
      FillZeros(z, from, k, p.se, p.al);
      if k <= p.se {
        assert AcFrom(p, from, k, ke) == [Decision(st, 1)] + [];
        HoldsCons(w, s, Decision(st, 1), []);
      }
    } else {
      HoldsCons(w, s, Decision(st, 0), AcRun(p, from, k, ke));
      AcRunParsed(w, Code(s, Decision(st, 0)), p, z, from, k, ke);
    }
  }

  lemma {:induction false} AcRunParsed(w: seq<Byte>, s: Coder, p: AcParams, z: Zigzag, from: Zigzag, k: nat, ke: nat)
    requires 1 <= k <= ke <= p.se < DCTSIZE2 && from[ke] != 0
    requires forall j :: ke < j <= p.se ==> from[j] == 0
    requires forall j :: k <= j <= p.se ==> z[j] == 0 && Abs(from[j]) <= 0x8000
    requires Holds(w, s, AcRun(p, from, k, ke))
    ensures ParseAcRun(w, s, p, z, k) == AcRead(true, Filled(z, from, k, p.se, p.al), CodeAll(s, AcRun(p, from, k, ke)))
    decreases DCTSIZE2 - k, 0
  {
    hide Code, DecodeBit, Holds, AcMagnitude, ParseAcMagnitude, Jcoef, Filled;
    var st := Ac(p.t, 3 * (k - 1) + 1);
    var z' := z[k := Jcoef(from[k] * Pow2(p.al))];
    FillOne(z, from, k, p.se, p.al);
    if from[k] == 0 {
      HoldsCons(w, s, Decision(st, 0), AcRun(p, from, k + 1, ke));
      assert z' == z by { JcoefZero(); }
      AcRunParsed(w, Code(s, Decision(st, 0)), p, z, from, k + 1, ke);
    } else {
      var mag, rest := AcMagnitude(p, k, Abs(from[k]) - 1), AcFrom(p, from, k + 1, ke);
      var d0, d1 := Decision(st, 1), Decision(Fixed, SignBit(from[k]));
      HoldsCons(w, s, d0, [d1] + (mag + rest));
      HoldsCons(w, Code(s, d0), d1, mag + rest);
      var s2 := Code(Code(s, d0), d1);
      HoldsConcat(w, s2, mag, rest);
      AcMagnitudeParsed(w, s2, p, k, Abs(from[k]) - 1);
      AcParsed(w, CodeAll(s2, mag), p, z', from, k + 1, ke);
    }
  }

  lemma JcoefZero()
    ensures Jcoef(0) == 0
  {
  }

  // ----- AC refinement (figure G.10 and its inverse) -----

  /** The decisions from coefficient k on; x holds the coefficients after the point transform by Al. */
  function RefineFrom(p: AcParams, x: Zigzag, k: nat, ke: nat, kex: nat): seq<Decision>
    requires 1 <= k && ke <= p.se < DCTSIZE2 && (ke > 0 ==> x[ke] != 0)
    decreases DCTSIZE2 - k, 1
  {
    var st := Ac(p.t, 3 * (k - 1));
    if k > ke then
      if k <= p.se then [Decision(st, 1)] else []
    else (if k > kex then [Decision(st, 0)] else []) + RefineRun(p, x, k, ke, kex)
  }

  function RefineRun(p: AcParams, x: Zigzag, k: nat, ke: nat, kex: nat): seq<Decision>
    requires 1 <= k <= ke <= p.se < DCTSIZE2 && x[ke] != 0
    decreases DCTSIZE2 - k, 0
  {
    var st := Ac(p.t, 3 * (k - 1));
    if x[k] == 0 then [Decision(st.Plus(1), 0)] + RefineRun(p, x, k + 1, ke, kex)
    else if Abs(x[k]) / 2 != 0 then [Decision(st.Plus(2), Abs(x[k]) % 2)] + RefineFrom(p, x, k + 1, ke, kex)
    else [Decision(st.Plus(1), 1)] + ([Decision(Fixed, SignBit(x[k]))] + RefineFrom(p, x, k + 1, ke, kex))
  }

  function ParseRefineFrom(w: seq<Byte>, s: Coder, p: AcParams, z: Zigzag, k: nat, kex: nat): AcRead
    requires 1 <= k && p.se < DCTSIZE2
    decreases DCTSIZE2 - k, 1
  {
    hide DecodeStep;
    var st := Ac(p.t, 3 * (k - 1));
    if k > p.se then AcRead(true, z, s)
    else if k > kex then
      if DecodeBit(w, s, st) == 1 then AcRead(true, z, DecodeStep(w, s, st))
      else ParseRefineRun(w, DecodeStep(w, s, st), p, z, k, kex)
    else ParseRefineRun(w, s, p, z, k, kex)
  }

  function ParseRefineRun(w: seq<Byte>, s: Coder, p: AcParams, z: Zigzag, k: nat, kex: nat): AcRead
    requires 1 <= k <= p.se < DCTSIZE2
    decreases DCTSIZE2 - k, 0
  {
    hide DecodeStep, Jcoef;
    var st := Ac(p.t, 3 * (k - 1));
    var p1: int := Pow2(p.al);
    if z[k] != 0 then
      var bit := DecodeBit(w, s, st.Plus(2));
      var s1 := DecodeStep(w, s, st.Plus(2));
      ParseRefineFrom(w, s1, p, if bit == 1 then z[k := Jcoef(if z[k] < 0 then z[k] - p1 else z[k] + p1)] else z, k + 1, kex)
    else
      var s1 := DecodeStep(w, s, st.Plus(1));
      if DecodeBit(w, s, st.Plus(1)) == 1 then
        var s2 := DecodeStep(w, s1, Fixed);
        ParseRefineFrom(w, s2, p, z[k := Jcoef(if DecodeBit(w, s1, Fixed) == 1 then -p1 else p1)], k + 1, kex)
      else if k + 1 > p.se then AcRead(false, z, s1)
      else ParseRefineRun(w, s1, p, z, k + 1, kex)
  }

  /** A coefficient truncated toward zero by one more bit. */
  function Half(x: int): int {
    if x < 0 then -(-x / 2) else x / 2
  }

  lemma JcoefId(x: int)
    requires IsCoef(x)
    ensures Jcoef(x) == x
  {
  }

  /** The band k..se of z holds what the previous scan left of x. */
  predicate HoldsPrevious(p: AcParams, z: Zigzag, x: Zigzag, k: nat)
    requires p.se < DCTSIZE2
  {
    forall j :: k <= j <= p.se ==> z[j] == 2 * Half(x[j]) * Pow2(p.al) && IsCoef(x[j] * Pow2(p.al))
  }

  /** How one coefficient is refined. */
  lemma RefineOne(x: int, z: int, p1: int)
    requires p1 >= 1 && z == 2 * Half(x) * p1 && IsCoef(x * p1)
    ensures z != 0 <==> Abs(x) / 2 != 0
    ensures z != 0 && Abs(x) % 2 == 1 ==> Jcoef(if z < 0 then z - p1 else z + p1) == x * p1
    ensures z != 0 && Abs(x) % 2 == 0 ==> z == x * p1
    ensures z == 0 && x != 0 ==> Jcoef(if SignBit(x) == 1 then -p1 else p1) == x * p1
    ensures x == 0 ==> x * p1 == 0
    ensures Jcoef(x * p1) == x * p1
  {
    hide Jcoef;
    JcoefId(x * p1);
    var h, odd := Half(x), Abs(x) % 2;
    if h == 0 {
      assert z == 0;
      assert x == 0 || x == 1 || x == -1;
    } else {
      SignedMultiple(2 * h, p1);
      assert x == if h > 0 then 2 * h + odd else 2 * h - odd;
      Distribute(2 * h, odd, p1);
    }
  }

  lemma SignedMultiple(k: int, m: int)
    requires k != 0 && m >= 1
    ensures k > 0 <==> k * m > 0
    ensures k < 0 <==> k * m < 0
  {
    if k > 0 {
      MulAtLeast(k, m);
    } else {
      MulAtLeast(-k, m);
    }
  }

  lemma {:induction false} RefineParsed(w: seq<Byte>, s: Coder, p: AcParams, z: Zigzag, x: Zigzag, k: nat, ke: nat, kex: nat, kexD: nat)
    requires 1 <= k && kex <= ke <= p.se < DCTSIZE2 && (ke > 0 ==> x[ke] != 0)
    requires forall j :: ke < j <= p.se ==> x[j] == 0
    requires kex == kexD || (kex < k && kexD < k)
    requires HoldsPrevious(p, z, x, k)
    requires Holds(w, s, RefineFrom(p, x, k, ke, kex))
    ensures ParseRefineFrom(w, s, p, z, k, kexD)
         == AcRead(true, Filled(z, x, k, p.se, p.al), CodeAll(s, RefineFrom(p, x, k, ke, kex)))
    decreases DCTSIZE2 - k, 1
  {
    hide Code, DecodeBit, Holds, HoldsPrevious, Filled;
    var st := Ac(p.t, 3 * (k - 1));
    if k > ke {
      FillPreviousZeros(p, z, x, k);
      assert k > kexD;
      if k <= p.se {
        assert RefineFrom(p, x, k, ke, kex) == [Decision(st, 1)] + [];
        HoldsCons(w, s, Decision(st, 1), []);
      }
    } else if k > kex {
      HoldsCons(w, s, Decision(st, 0), RefineRun(p, x, k, ke, kex));
      RefineRunParsed(w, Code(s, Decision(st, 0)), p, z, x, k, ke, kex, kexD);
    } else {
      assert RefineFrom(p, x, k, ke, kex) == RefineRun(p, x, k, ke, kex);
      RefineRunParsed(w, s, p, z, x, k, ke, kex, kexD);
    }
  }

  lemma FillPreviousZeros(p: AcParams, z: Zigzag, x: Zigzag, k: nat)
    requires p.se < DCTSIZE2 && HoldsPrevious(p, z, x, k)
    requires forall j :: k <= j <= p.se ==> x[j] == 0
    ensures Filled(z, x, k, p.se, p.al) == z
  {
    FillZeros(z, x, k, p.se, p.al);
  }

  lemma HoldsPreviousNext(p: AcParams, z: Zigzag, x: Zigzag, k: nat, c: int)
    requires k <= p.se < DCTSIZE2 && HoldsPrevious(p, z, x, k)
    ensures HoldsPrevious(p, z[k := c], x, k + 1)
    ensures z[k] == 2 * Half(x[k]) * Pow2(p.al) && IsCoef(x[k] * Pow2(p.al))
  {
  }

  lemma {:induction false} RefineRunParsed(w: seq<Byte>, s: Coder, p: AcParams, z: Zigzag, x: Zigzag, k: nat, ke: nat, kex: nat, kexD: nat)
    requires 1 <= k <= ke <= p.se < DCTSIZE2 && kex <= ke && x[ke] != 0
    requires forall j :: ke < j <= p.se ==> x[j] == 0
    requires kex == kexD || (kex < k && kexD < k)
    requires HoldsPrevious(p, z, x, k)
    requires Holds(w, s, RefineRun(p, x, k, ke, kex))
    ensures ParseRefineRun(w, s, p, z, k, kexD)
         == AcRead(true, Filled(z, x, k, p.se, p.al), CodeAll(s, RefineRun(p, x, k, ke, kex)))
    decreases DCTSIZE2 - k, 0, 1
  {
    hide Code, DecodeBit, Holds, HoldsPrevious, Filled, Jcoef;
    var st := Ac(p.t, 3 * (k - 1));
    HoldsPreviousNext(p, z, x, k, Jcoef(x[k] * Pow2(p.al)));
    RefineOne(x[k], z[k], Pow2(p.al));
    FillOne(z, x, k, p.se, p.al);
    if x[k] == 0 {
      assert z[k := Jcoef(x[k] * Pow2(p.al))] == z;
      HoldsCons(w, s, Decision(st.Plus(1), 0), RefineRun(p, x, k + 1, ke, kex));
      RefineRunParsed(w, Code(s, Decision(st.Plus(1), 0)), p, z, x, k + 1, ke, kex, kexD);
    } else if Abs(x[k]) / 2 != 0 {
      RefineOldParsed(w, s, p, z, x, k, ke, kex, kexD);
    } else {
      RefineNewParsed(w, s, p, z, x, k, ke, kex, kexD);
    }
  }

  /** A previously nonzero coefficient gets a correction bit. */
  lemma {:induction false} RefineOldParsed(w: seq<Byte>, s: Coder, p: AcParams, z: Zigzag, x: Zigzag, k: nat, ke: nat, kex: nat, kexD: nat)
    requires 1 <= k <= ke <= p.se < DCTSIZE2 && kex <= ke && x[ke] != 0
    requires forall j :: ke < j <= p.se ==> x[j] == 0
    requires kex == kexD || (kex < k && kexD < k)
    requires HoldsPrevious(p, z, x, k)
    requires Holds(w, s, RefineRun(p, x, k, ke, kex)) && Abs(x[k]) / 2 != 0
    ensures ParseRefineRun(w, s, p, z, k, kexD)
         == AcRead(true, Filled(z, x, k, p.se, p.al), CodeAll(s, RefineRun(p, x, k, ke, kex)))
    decreases DCTSIZE2 - k, 0, 0
  {
    hide Code, DecodeBit, Holds, HoldsPrevious, Filled, Jcoef, Half;
    var st := Ac(p.t, 3 * (k - 1));
    var v := Jcoef(x[k] * Pow2(p.al));
    HoldsPreviousNext(p, z, x, k, v);
    OldValue(p, z, x, k);
    FillOne(z, x, k, p.se, p.al);
    var d := Decision(st.Plus(2), Abs(x[k]) % 2);
    HoldsCons(w, s, d, RefineFrom(p, x, k + 1, ke, kex));
    assert ParseRefineRun(w, s, p, z, k, kexD) == ParseRefineFrom(w, Code(s, d), p, z[k := v], k + 1, kexD);
    hide ParseRefineRun;
    RefineParsed(w, Code(s, d), p, z[k := v], x, k + 1, ke, kex, kexD);
  }

  /** What the correction bit makes of a previously nonzero coefficient. */
  lemma OldValue(p: AcParams, z: Zigzag, x: Zigzag, k: nat)
    requires k <= p.se < DCTSIZE2 && HoldsPrevious(p, z, x, k) && Abs(x[k]) / 2 != 0
    ensures var p1: int := Pow2(p.al);
            && z[k] != 0
            && z[k := Jcoef(x[k] * p1)] == if Abs(x[k]) % 2 == 1 then z[k := Jcoef(if z[k] < 0 then z[k] - p1 else z[k] + p1)] else z
  {
    hide Jcoef;
    HoldsPreviousNext(p, z, x, k, 0);
    RefineOne(x[k], z[k], Pow2(p.al));
  }

  /** A newly nonzero coefficient is announced and gets a sign. */
  lemma {:induction false} RefineNewParsed(w: seq<Byte>, s: Coder, p: AcParams, z: Zigzag, x: Zigzag, k: nat, ke: nat, kex: nat, kexD: nat)
    requires 1 <= k <= ke <= p.se < DCTSIZE2 && kex <= ke && x[ke] != 0
    requires forall j :: ke < j <= p.se ==> x[j] == 0
    requires kex == kexD || (kex < k && kexD < k)
    requires HoldsPrevious(p, z, x, k)
    requires Holds(w, s, RefineRun(p, x, k, ke, kex)) && x[k] != 0 && Abs(x[k]) / 2 == 0
    ensures ParseRefineRun(w, s, p, z, k, kexD)
         == AcRead(true, Filled(z, x, k, p.se, p.al), CodeAll(s, RefineRun(p, x, k, ke, kex)))
    decreases DCTSIZE2 - k, 0, 0
  {
    hide Code, DecodeBit, Holds, HoldsPrevious, Filled, Jcoef;
    var st := Ac(p.t, 3 * (k - 1));
    var p1: int := Pow2(p.al);
    var z' := z[k := Jcoef(x[k] * p1)];
    HoldsPreviousNext(p, z, x, k, Jcoef(x[k] * p1));
    RefineOne(x[k], z[k], p1);
    FillOne(z, x, k, p.se, p.al);
    var rest := RefineFrom(p, x, k + 1, ke, kex);
    var d0, d1 := Decision(st.Plus(1), 1), Decision(Fixed, SignBit(x[k]));
    HoldsCons(w, s, d0, [d1] + rest);
    HoldsCons(w, Code(s, d0), d1, rest);
    assert z' == z[k := Jcoef(if d1.bit == 1 then -p1 else p1)];
    RefineParsed(w, Code(Code(s, d0), d1), p, z', x, k + 1, ke, kex, kexD);
  }
}
