/**
 * Exact interval arithmetic for the binary arithmetic coder of sections D.1 and D.2 of
 * ITU-T T.81: the coding interval is kept with unbounded precision, a byte string denotes a
 * point, and decoding asks in which subinterval the point lies. The encoder and the decoder
 * of jcarith.c and jdarith.c are proved to implement this arithmetic in fixed-size registers.
 */
module ArithSpec {
  import opened Arithmetic
  import opened Bits
  import opened Aritab

  /** The statistics bins: `dc_stats[tbl][i]`, `ac_stats[tbl][i]` and `fixed_bin[0]`. */
  datatype BinId = Dc(tbl: nat, i: nat) | Ac(tbl: nat, i: nat) | Fixed
  {
    /** Pointer arithmetic on `unsigned char *st`. */
    function Plus(k: nat): BinId
      requires !Fixed?
    {
      match this
      case Dc(t, j) => Dc(t, j + k)
      case Ac(t, j) => Ac(t, j + k)
    }
  }

  type Bins = map<BinId, Stat>

  /** Bins never coded still hold the value start_pass or the module initializer gave them. */
  function Get(bins: Bins, id: BinId): Stat {
    if id in bins then bins[id] else if id.Fixed? then 113 else 0
  }

  datatype Decision = Decision(bin: BinId, bit: Bit)

  /** [low, low + a) in units of 2^-n, the whole interval being [0, 0x10000) at n == 0. */
  datatype Interval = Interval(low: nat, a: nat, n: nat)
  {
    predicate Sound() {
      0 < a <= 0x10000 && low + a <= 0x10000 * Pow2(n)
    }
  }

  datatype CoderState = CoderState(iv: Interval, bins: Bins)

  /** The state between two decisions: the interval is normalized. */
  type Coder = s: CoderState | s.iv.Sound() && s.iv.a >= 0x8000
    witness CoderState(Interval(0, 0x10000, 0), map[])

  const START: Coder := CoderState(Interval(0, 0x10000, 0), map[])

  /**
   * The subinterval of a decision: the MPS has the larger part except that the lower part
   * always has size a - Qe (sections D.1.4 and D.1.5 with conditional exchange).
   */
  function Narrow(iv: Interval, sv: Stat, bit: Bit): (r: Interval)
    requires iv.Sound() && iv.a >= 0x8000
    ensures r.Sound() && r.n == iv.n
    ensures iv.low <= r.low && r.low + r.a <= iv.low + iv.a
  {
    var qe := RowOf(sv).qe;
    var rest := iv.a - qe;
    if Upper(iv, sv, bit) then Interval(iv.low + rest, qe, iv.n) else Interval(iv.low, rest, iv.n)
  }

  /** Whether the decision owns the upper part. */
  predicate Upper(iv: Interval, sv: Stat, bit: Bit) {
    (bit != Mps(sv)) == (iv.a - RowOf(sv).qe >= RowOf(sv).qe)
  }

  /** Probability estimation happens exactly when the coder renormalizes. */
  function NextStat(iv: Interval, sv: Stat, bit: Bit): Stat {
    if bit != Mps(sv) then AfterLps(sv)
    else if iv.a - RowOf(sv).qe >= 0x8000 then sv
    else AfterMps(sv)
  }

  function Doubled(iv: Interval): Interval {
    Interval(2 * iv.low, 2 * iv.a, iv.n + 1)
  }

  function Renorm(iv: Interval): (r: Interval)
    requires iv.Sound()
    ensures r.Sound() && r.a >= 0x8000
    decreases 0x10000 - iv.a
  {
    if iv.a >= 0x8000 then iv else Renorm(Doubled(iv))
  }

  function Code(s: Coder, d: Decision): Coder {
    var sv := Get(s.bins, d.bin);
    CoderState(Renorm(Narrow(s.iv, sv, d.bit)), s.bins[d.bin := NextStat(s.iv, sv, d.bit)])
  }

  function CodeAll(s: Coder, ds: seq<Decision>): Coder {
    if ds == [] then s else Code(CodeAll(s, ds[..|ds| - 1]), ds[|ds| - 1])
  }

  /** The fixed-probability bin holds 113 for ever. */
  lemma {:induction false} FixedForEver(s: Coder, ds: seq<Decision>)
    requires Get(s.bins, Fixed) == 113
    ensures Get(CodeAll(s, ds).bins, Fixed) == 113
  {
    hide RowOf, AfterLps, AfterMps, Renorm, Narrow;
    if ds != [] {
      FixedForEver(s, ds[..|ds| - 1]);
      FixedStays();
    }
  }

  lemma CodeAllSnoc(s: Coder, ds: seq<Decision>, d: Decision)
    ensures CodeAll(s, ds + [d]) == Code(CodeAll(s, ds), d)
  {
    assert (ds + [d])[..|ds|] == ds;
  }

  lemma {:induction false} CodeAllConcat(s: Coder, ds: seq<Decision>, es: seq<Decision>)
    ensures CodeAll(s, ds + es) == CodeAll(CodeAll(s, ds), es)
  {
    hide Code;
    if es == [] {
      assert ds + es == ds;
    } else {
      var es', d := es[..|es| - 1], es[|es| - 1];
      calc {
        CodeAll(s, ds + es);
      ==  { assert ds + es == (ds + es') + [d]; }
        CodeAll(s, (ds + es') + [d]);
      ==  { CodeAllSnoc(s, ds + es', d); }
        Code(CodeAll(s, ds + es'), d);
      ==  { CodeAllConcat(s, ds, es'); }
        Code(CodeAll(CodeAll(s, ds), es'), d);
      ==
        CodeAll(CodeAll(s, ds), es);
      }
    }
  }

  // ----- Points -----

  /** A byte string is continued with zero bytes for ever. */
  function At(w: seq<Byte>, i: nat): Byte {
    if i < |w| then w[i] else 0
  }

  /** The value of the first j bytes. */
  function Prefix(w: seq<Byte>, j: nat): nat {
    if j == 0 then 0 else Prefix(w, j - 1) * 256 + At(w, j - 1)
  }

  /** The number of bytes that resolve 16 + n bits, and the bits left over in the last of them. */
  function Bytes(n: nat): nat {
    (n + 23) / 8
  }

  function Cut(n: nat): (c: nat)
    ensures c <= 7 && 8 * Bytes(n) == 16 + n + c
  {
    8 * Bytes(n) - 16 - n
  }

  /** The point denoted by w lies in the interval. */
  predicate In(w: seq<Byte>, iv: Interval) {
    iv.low * Pow2(Cut(iv.n)) <= Prefix(w, Bytes(iv.n)) < (iv.low + iv.a) * Pow2(Cut(iv.n))
  }

  /** The same question asked with j bytes. */
  predicate InAt(w: seq<Byte>, iv: Interval, j: nat)
    requires 8 * j >= 16 + iv.n
  {
    var cut := 8 * j - 16 - iv.n;
    iv.low * Pow2(cut) <= Prefix(w, j) < (iv.low + iv.a) * Pow2(cut)
  }

  /** More bytes never change the answer. */
  lemma {:induction false} InAtAny(w: seq<Byte>, iv: Interval, j: nat)
    requires j >= Bytes(iv.n)
    ensures InAt(w, iv, j) <==> In(w, iv)
    decreases j
  {
    if j > Bytes(iv.n) {
      InAtAny(w, iv, j - 1);
      var cut := 8 * (j - 1) - 16 - iv.n;
      Pow2Add(8, cut);
      assert Pow2(8) == 256;
      Between256(iv.low, iv.low + iv.a, Pow2(cut), Prefix(w, j - 1), At(w, j - 1));
    }
  }

  lemma Between256(x: nat, y: nat, p: nat, v: nat, b: Byte)
    ensures x * p <= v < y * p <==> x * (256 * p) <= v * 256 + b < y * (256 * p)
  {
    assert x * (256 * p) == 256 * (x * p);
    assert y * (256 * p) == 256 * (y * p);
  }

  lemma InDoubled(w: seq<Byte>, iv: Interval)
    ensures In(w, Doubled(iv)) <==> In(w, iv)
  {
    if Cut(iv.n) == 0 {
      InDoubledNewByte(w, iv);
    } else {
      hide Prefix;
      assert Bytes(iv.n + 1) == Bytes(iv.n) && Cut(iv.n + 1) == Cut(iv.n) - 1;
      var p := Pow2(Cut(iv.n) - 1);
      HalveScale(iv.low, p);
      HalveScale(iv.low + iv.a, p);
    }
  }

  lemma InDoubledNewByte(w: seq<Byte>, iv: Interval)
    requires Cut(iv.n) == 0
    ensures In(w, Doubled(iv)) <==> In(w, iv)
  {
    assert Bytes(iv.n + 1) == Bytes(iv.n) + 1 && Cut(iv.n + 1) == 7;
    assert Pow2(7) == 128;
  }

  lemma HalveScale(x: int, p: int)
    ensures 2 * x * p == x * (2 * p)
  {
  }

  lemma {:induction false} InRenorm(w: seq<Byte>, iv: Interval)
    requires iv.Sound()
    ensures In(w, Renorm(iv)) <==> In(w, iv)
    decreases 0x10000 - iv.a
  {
    if iv.a < 0x8000 {
      InDoubled(w, iv);
      InRenorm(w, Doubled(iv));
    }
  }

  /** Whether the point lies in the upper part of a split. */
  predicate PointIsUpper(w: seq<Byte>, iv: Interval, sv: Stat)
    requires iv.a >= 0x8000
  {
    Prefix(w, Bytes(iv.n)) >= (iv.low + iv.a - RowOf(sv).qe) * Pow2(Cut(iv.n))
  }

  /** A decision's subinterval holds exactly the points of the interval on its side. */
  lemma InNarrow(w: seq<Byte>, iv: Interval, sv: Stat, bit: Bit)
    requires iv.Sound() && iv.a >= 0x8000
    ensures In(w, Narrow(iv, sv, bit)) <==> In(w, iv) && PointIsUpper(w, iv, sv) == Upper(iv, sv, bit)
  {
    hide RowOf;
    var p, r := Pow2(Cut(iv.n)), Narrow(iv, sv, bit);
    MulMonotone(iv.low, r.low, p);
    MulMonotone(r.low + r.a, iv.low + iv.a, p);
  }

  /** One decision as the decoder makes it. */
  function DecodeBit(w: seq<Byte>, s: Coder, bin: BinId): Bit {
    var sv := Get(s.bins, bin);
    if Upper(s.iv, sv, 0) == PointIsUpper(w, s.iv, sv) then 0 else 1
  }

  function DecodeStep(w: seq<Byte>, s: Coder, bin: BinId): Coder {
    Code(s, Decision(bin, DecodeBit(w, s, bin)))
  }

  /** Coding steps never lose the point: it is in the new interval iff it was in the old one and the bit is the decoded one. */
  lemma InCode(w: seq<Byte>, s: Coder, d: Decision)
    ensures In(w, Code(s, d).iv) <==> In(w, s.iv) && d.bit == DecodeBit(w, s, d.bin)
  {
    var sv := Get(s.bins, d.bin);
    InRenorm(w, Narrow(s.iv, sv, d.bit));
    InNarrow(w, s.iv, sv, d.bit);
    assert Upper(s.iv, sv, 0) != Upper(s.iv, sv, 1);
  }

  function DecodeAll(w: seq<Byte>, s: Coder, bins: seq<BinId>): seq<Bit>
    decreases |bins|
  {
    if bins == [] then [] else [DecodeBit(w, s, bins[0])] + DecodeAll(w, DecodeStep(w, s, bins[0]), bins[1..])
  }

  function BinsOf(ds: seq<Decision>): seq<BinId> {
    if ds == [] then [] else [ds[0].bin] + BinsOf(ds[1..])
  }

  function BitsOf(ds: seq<Decision>): seq<Bit> {
    if ds == [] then [] else [ds[0].bit] + BitsOf(ds[1..])
  }

  lemma CodeAllCons(s: Coder, d: Decision, ds: seq<Decision>)
    ensures CodeAll(s, [d] + ds) == CodeAll(Code(s, d), ds)
  {
    CodeAllConcat(s, [d], ds);
    CodeAllSnoc(s, [], d);
    assert [] + [d] == [d];
  }

  /** Intervals are nested: a point of the final interval was in every earlier one. */
  lemma {:induction false} InNested(w: seq<Byte>, s: Coder, ds: seq<Decision>)
    requires In(w, CodeAll(s, ds).iv)
    ensures In(w, s.iv)
  {
    if ds != [] {
      InCode(w, CodeAll(s, ds[..|ds| - 1]), ds[|ds| - 1]);
      InNested(w, s, ds[..|ds| - 1]);
    }
  }

  /**
   * Decodability: reading a byte string with a list of bins returns a given list of bits
   * exactly when the string denotes a point of the interval those decisions code.
   */
  lemma {:induction false} DecodesIffInside(w: seq<Byte>, s: Coder, ds: seq<Decision>)
    requires In(w, s.iv)
    ensures In(w, CodeAll(s, ds).iv) <==> DecodeAll(w, s, BinsOf(ds)) == BitsOf(ds)
    decreases |ds|
  {
    if ds != [] {
      var d, rest := ds[0], ds[1..];
      assert ds == [d] + rest;
      CodeAllCons(s, d, rest);
      InCode(w, s, d);
      var bits := DecodeAll(w, s, BinsOf(ds));
      if d.bit == DecodeBit(w, s, d.bin) {
        DecodesIffInside(w, Code(s, d), rest);
        ConsEqual(d.bit, DecodeAll(w, Code(s, d), BinsOf(rest)), BitsOf(rest));
        assert BinsOf(ds)[1..] == BinsOf(rest);
      } else {
        if In(w, CodeAll(s, ds).iv) {
          InNested(w, Code(s, d), rest);
          assert false;
        }
        assert bits[0] != BitsOf(ds)[0];
      }
    }
  }

  lemma ConsEqual<T>(x: T, s: seq<T>, t: seq<T>)
    ensures [x] + s == [x] + t <==> s == t
  {
    if [x] + s == [x] + t {
      assert s == ([x] + s)[1..] == ([x] + t)[1..] == t;
    }
  }
}
