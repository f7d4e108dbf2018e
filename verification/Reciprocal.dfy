/**
 * Quantization by multiplication, from jcdctmgr.c: compute_reciprocal chooses a factor, a correction
 * and a shift with which quantize divides and rounds exactly. The word size of DCTELEM is a parameter
 * (16 or 32 in the source).
 */
module Reciprocal {
  import opened Arithmetic
  import opened Bits
  import opened Blocks

  // ----- Why one multiplication and a shift are enough -----

  /** A remainder that is known up to a factor. */
  lemma Rest(rest: int, d: int, n: int, t: int)
    requires d > 0 && rest * d == t && 0 <= t < n * d
    ensures 0 <= rest < n
  {
    MulCancel(0, rest, d);
    MulCancel(n, rest, d);
  }

  /** The reciprocal is exact. */
  lemma ExactReciprocal(y: nat, d: nat, q: nat, n: nat)
    requires d > 0 && q * d == n > 0
    ensures y * q / n == y / d
  {
    var k, s := y / d, y % d;
    DivMod(y, d);
    Distribute(k * d, s, q);
    MulAssociative(k, d, q);
    MulMonotone(s + 1, d, q);
    Distribute(s, 1, q);
    QuotientUnique(y * q, n, k, s * q);
  }

  /** The reciprocal is rounded down by f / d: one more in the dividend makes up for it. */
  lemma RoundedDown(y: nat, d: nat, q: nat, f: nat, n: nat)
    requires d > 0 && q * d + f == n && 0 < f && (y + 1) * f <= n
    ensures (y + 1) * q / n == y / d
  {
    var k, s := y / d, y % d;
    DivMod(y, d);
    var rest := (y + 1) * q - k * n;
    RestDown(y, d, q, f, n, k, s, rest);
    QuotientUnique((y + 1) * q, n, k, rest);
  }

  lemma RestDown(y: nat, d: nat, q: nat, f: nat, n: nat, k: nat, s: nat, rest: int)
    requires q * d + f == n && 0 < f && (y + 1) * f <= n && y == k * d + s && s < d && rest == (y + 1) * q - k * n
    ensures 0 <= rest < n
  {
    var t := (s + 1) * n - (y + 1) * f;
    assert rest * d == t by {
      Distribute((y + 1) * q, k * n, d);
      MulAssociative(y + 1, q, d);
      assert (y + 1) * (q * d) == (y + 1) * n - (y + 1) * f by { Difference(y + 1, q * d, f, n); }
      assert k * n * d == k * d * n;
      Distribute(k * d, s + 1, n);
    }
    MulAtLeast(y + 1, f);
    MulMonotone(s + 1, d, n);
    Distribute(s, 1, n);
    MulMonotone(0, s, n);
    Rest(rest, d, n, t);
  }

  lemma Difference(a: int, b: int, f: int, n: int)
    requires b + f == n
    ensures a * b == a * n - a * f
  {
    assert a * (b + f) == a * b + a * f;
  }

  /** The reciprocal is rounded up by g / d. */
  lemma RoundedUp(y: nat, d: nat, q: nat, g: nat, n: nat)
    requires d > 0 && q * d == n + g && y * g < n
    ensures y * q / n == y / d
  {
    var k, s := y / d, y % d;
    DivMod(y, d);
    var rest := y * q - k * n;
    RestUp(y, d, q, g, n, k, s, rest);
    QuotientUnique(y * q, n, k, rest);
  }

  lemma RestUp(y: nat, d: nat, q: nat, g: nat, n: nat, k: nat, s: nat, rest: int)
    requires q * d == n + g && y * g < n && y == k * d + s && s < d && rest == y * q - k * n
    ensures 0 <= rest < n
  {
    var t := s * n + y * g;
    assert rest * d == t by {
      Distribute(y * q, k * n, d);
      MulAssociative(y, q, d);
      assert y * (n + g) == y * n + y * g;
      assert k * n * d == k * d * n;
      Distribute(k * d, s, n);
    }
    MulMonotone(0, s, n);
    MulMonotone(0, y, g);
    MulMonotone(s + 1, d, n);
    Distribute(s, 1, n);
    Rest(rest, d, n, t);
  }

  // ----- compute_reciprocal -----

  /** With these values, the product of the dividend x, shifted, is the rounded quotient. */
  predicate DividesAt(w: nat, d: nat, recip: nat, corr: nat, shift: nat, x: nat)
    requires d > 0
  {
    (x + corr) * recip / Pow2(shift + w) == (x + d / 2) / d
  }

  /** The values fit the word, and divide every magnitude that leaves room for the rounding. */
  ghost predicate Divides(w: nat, d: nat, recip: nat, corr: nat, shift: nat)
    requires d > 0
  {
    && recip < Pow2(w) && corr <= d / 2 + 1 && shift <= 15
    && forall x: nat :: HasRoom(w, d, x) ==> DividesAt(w, d, recip, corr, shift, x)
  }

  /** Adding the rounding and the correction does not overflow the word. */
  predicate HasRoom(w: nat, d: nat, x: nat) {
    x + d / 2 + 1 <= Pow2(w)
  }

  /** The position of the highest one bit. */
  predicate IsTopBit(val: nat, bit: nat) {
    if val == 0 then bit == 0 else bit > 0 && Pow2(bit - 1) <= val < Pow2(bit)
  }

  /** One step of the search: nothing in the upper `n` bits of 16. */
  lemma SearchStep(v0: nat, val: nat, bit: nat, n: nat)
    requires n <= bit <= 16 && val == v0 * Pow2(16 - bit) && val < Pow2(16 - n)
    ensures val * Pow2(n) == v0 * Pow2(16 - (bit - n)) && val * Pow2(n) < Pow2(16)
  {
    hide Pow2;
    Pow2Add(16 - bit, n);
    assert 16 - bit + n == 16 - (bit - n) && 16 - n + n == 16;
    MulAssociative(v0, Pow2(16 - bit), Pow2(n));
    Pow2Add(16 - n, n);
    MulMonotone(val + 1, Pow2(16 - n), Pow2(n));
    Distribute(val, 1, Pow2(n));
  }

  lemma Sixteen()
    ensures Pow2(8) == 0x100 && Pow2(4) == 0x10 && Pow2(2) == 4 && Pow2(1) == 2 && Pow2(0) == 1
    ensures Pow2(12) == 0x1000 && Pow2(14) == 0x4000 && Pow2(15) == 0x8000 && Pow2(16) == 0x1_0000
  {
    Pow2Values();
    Pow2Add(4, 8);
    Pow2Add(6, 8);
  }

  lemma TopBitFound(v0: nat, val: nat, bit: nat)
    requires v0 > 0 && bit <= 16 && val == v0 * Pow2(16 - bit) && 0x8000 <= val < 0x1_0000
    ensures IsTopBit(v0, bit)
  {
    Sixteen();
    Pow2Add(bit, 16 - bit);
    hide Pow2;
    var p: int := Pow2(16 - bit);
    MulCancel(v0, Pow2(bit) - 1, p);
    Distribute(Pow2(bit), 1, p);
    if bit == 0 {
      MulAtLeast(v0, p);
    } else {
      Pow2Add(bit - 1, 16 - bit);
      assert bit - 1 + (16 - bit) == 15;
      MulCancel(Pow2(bit - 1), v0, p);
      if v0 == Pow2(bit) {
        assert false;
      }
    }
  }

  /** Find the highest bit in a 16-bit integer through binary search. */
  method Flss(v0: nat) returns (bit: nat)
    requires v0 < 0x1_0000
    ensures IsTopBit(v0, bit) && bit <= 16
  {
    hide Pow2;
    Sixteen();
    var val := v0;
    bit := 16;
    if val == 0 {
      return 0;
    }
    if val / 0x100 == 0 {              // !(val & 0xff00)
      SearchStep(v0, val, bit, 8);
      bit := bit - 8;
      val := val * 0x100;
    }
    if val / 0x1000 == 0 {             // !(val & 0xf000)
      SearchStep(v0, val, bit, 4);
      bit := bit - 4;
      val := val * 0x10;
    }
    if val / 0x4000 == 0 {             // !(val & 0xc000)
      SearchStep(v0, val, bit, 2);
      bit := bit - 2;
      val := val * 4;
    }
    if val / 0x8000 == 0 {             // !(val & 0x8000)
      SearchStep(v0, val, bit, 1);
      bit := bit - 1;
      val := val * 2;
    }
    TopBitFound(v0, val, bit);
  }

  /** A divisor of a power of two is a power of two. */
  lemma {:induction false} PowerOfTwo(q: nat, d: nat, r: nat) returns (e: nat)
    requires q * d == Pow2(r)
    ensures d == Pow2(e)
  {
    if r == 0 {
      e := 0;
      if d > 1 && q > 0 {
        MulAtLeast(q, d);
      }
    } else if d % 2 == 0 {
      HalfProduct(d, q, Pow2(r - 1));
      e := PowerOfTwo(q, d / 2, r - 1);
      e := e + 1;
    } else {
      OddProduct(q, d, Pow2(r - 1));
      HalfProduct(q, d, Pow2(r - 1));
      e := PowerOfTwo(q / 2, d, r - 1);
    }
  }

  lemma OddProduct(q: int, d: int, p: int)
    requires q * d == 2 * p && d % 2 == 1
    ensures q % 2 == 0
  {
    assert q * d == 2 * (q * (d / 2)) + q;
  }

  lemma HalfProduct(a: int, b: int, p: int)
    requires a * b == 2 * p && a % 2 == 0
    ensures b * (a / 2) == p && a / 2 * b == p
  {
    var h := a / 2;
    MulAssociative(2, h, b);
  }

  /** Dividing 2^(w+b) without a remainder: the divisor is 2^b. */
  lemma NoRemainder(w: nat, b: nat, d: nat, q: nat)
    requires Pow2(b) <= d < Pow2(b + 1) && q * d == Pow2(w + b)
    ensures d == Pow2(b) && q == Pow2(w)
  {
    var e := PowerOfTwo(q, d, w + b);
    if e < b {
      Pow2Monotone(e + 1, b);
    } else if e > b {
      Pow2Monotone(b + 1, e);
    }
    Pow2Add(w, b);
    hide Pow2;
    var p: int := Pow2(b);
    MulCancel(q, Pow2(w), p);
  }

  lemma NoRemainderBack(w: nat, b: nat, d: nat)
    requires d == Pow2(b)
    ensures Pow2(w + b) % d == 0
  {
    Pow2Add(w, b);
    hide Pow2;
    RemainderUnique(Pow2(w + b), d, Pow2(w), 0);
  }

  /** The first case: the divisor is a power of two. */
  lemma ExactCase(w: nat, b: nat, d: nat, q: nat)
    requires w > 0 && b > 0 && Pow2(b) <= d < Pow2(b + 1) && q * d == Pow2(w + b) && b <= 15
    ensures Divides(w, d, q / 2, d / 2, b - 1)
  {
    NoRemainder(w, b, d, q);
    assert q / 2 == Pow2(w - 1);
    Pow2Add(w - 1, b);
    assert w - 1 + b == b - 1 + w;
    hide Pow2;
    forall x: nat | HasRoom(w, d, x) ensures DividesAt(w, d, q / 2, d / 2, b - 1, x) {
      ExactReciprocal(x + d / 2, d, q / 2, Pow2(b - 1 + w));
    }
    assert q / 2 < Pow2(w);
  }

  lemma ProductAtMost(u: int, v: int, p: int, t: int)
    requires 0 <= u <= p && 0 <= v <= t
    ensures u * v <= p * t
  {
    MulMonotone(u, p, v);
    assert p * v <= p * t by { MulMonotone(v, t, p); }
  }

  /** The second case: the fraction is at most a half, and the reciprocal is rounded down. */
  lemma DownCase(w: nat, b: nat, d: nat, q: nat, f: nat)
    requires Pow2(b) <= d < Pow2(b + 1) && q * d + f == Pow2(w + b) && 0 < f <= d / 2 && b <= 15
    ensures Divides(w, d, q, d / 2 + 1, b)
  {
    Pow2Add(w, b);
    assert d / 2 <= Pow2(b);
    assert w + b == b + w;
    hide Pow2;
    assert q < Pow2(w) by {
      if q >= Pow2(w) {
        ProductAtMost(Pow2(w), Pow2(b), q, d);
      }
    }
    forall x: nat | HasRoom(w, d, x) ensures DividesAt(w, d, q, d / 2 + 1, b, x) {
      ProductAtMost(x + d / 2 + 1, f, Pow2(w), Pow2(b));
      RoundedDown(x + d / 2, d, q, f, Pow2(b + w));
    }
  }

  /** The third case: the fraction is above a half, and the reciprocal is rounded up. */
  lemma UpCase(w: nat, b: nat, d: nat, q: nat, f: nat)
    requires Pow2(b) <= d < Pow2(b + 1) && q * d + f == Pow2(w + b) && d / 2 < f < d <= Pow2(w) && b <= 15
    ensures Divides(w, d, q + 1, d / 2, b)
  {
    Pow2Add(w, b);
    var g: nat := d - f;
    var p: int := Pow2(b);
    assert g < p && w + b == b + w;
    NotPower(w, b, d, q, f);
    hide Pow2;
    Distribute(q, 1, d);
    UpFits(q + 1, d, g, Pow2(w), p);
    forall x: nat | HasRoom(w, d, x) ensures DividesAt(w, d, q + 1, d / 2, b, x) {
      UpRoom(x + d / 2, g, Pow2(w), p);
      RoundedUp(x + d / 2, d, q + 1, g, Pow2(b + w));
    }
  }

  lemma UpFits(q: int, d: int, g: int, m: int, p: int)
    requires q * d == m * p + g && g < m && d >= p + 1 && m >= 0 && p >= 0
    ensures q < m
  {
    if q >= m {
      ProductAtMost(m, p + 1, q, d);
      Distribute(p, 1, m);
    }
  }

  lemma UpRoom(y: int, g: int, m: int, p: int)
    requires 0 <= y < m && 0 <= g <= p && p > 0
    ensures y * g < m * p
  {
    ProductAtMost(y, g, m - 1, p);
    Distribute(m, 1, p);
  }

  lemma NotPower(w: nat, b: nat, d: nat, q: nat, f: nat)
    requires q * d + f == Pow2(w + b) && 0 < f < d && Pow2(b) <= d
    ensures d >= Pow2(b) + 1
  {
    if d == Pow2(b) {
      NoRemainderBack(w, b, d);
      RemainderUnique(Pow2(w + b), d, q, f);
      assert false;
    }
  }

  /** A value as it is stored in an unsigned word. */
  function Word(w: nat, v: nat): nat {
    v % Pow2(w)
  }

  lemma WordKept(w: nat, v: nat)
    requires v < Pow2(w)
    ensures Word(w, v) == v
  {
    RemainderUnique(v, Pow2(w), 0, v);
  }

  lemma ReciprocalCases(w: nat, b: nat, d: nat, q: nat, f: nat)
    requires w >= 16 && 0 < b <= 15 && Pow2(b) <= d < Pow2(b + 1) && q * d + f == Pow2(w + b) && f < d <= Pow2(w)
    ensures f == 0 ==> Divides(w, d, q / 2, d / 2, b - 1)
    ensures 0 < f <= d / 2 ==> Divides(w, d, q, d / 2 + 1, b)
    ensures f > d / 2 ==> Divides(w, d, q + 1, d / 2, b)
  {
    hide Divides, Pow2;
    if f == 0 {
      ExactCase(w, b, d, q);
    } else if f <= d / 2 {
      DownCase(w, b, d, q, f);
    } else {
      UpCase(w, b, d, q, f);
    }
  }

  /** The quotient and the remainder of a power of two, and what they are good for. */
  lemma Quotients(w: nat, b: nat, d: nat, n: nat)
    requires w >= 16 && 0 < b <= 15 && Pow2(b) <= d < Pow2(b + 1) && n == Pow2(w + b) && d <= Pow2(w)
    ensures var q, f := n / d, n % d;
            && q >= 0
            && (f == 0 ==> Divides(w, d, q / 2, d / 2, b - 1))
            && (0 < f <= d / 2 ==> Divides(w, d, q, d / 2 + 1, b))
            && (f > d / 2 ==> Divides(w, d, q + 1, d / 2, b))
  {
    hide Divides, Pow2;
    DivMod(n, d);
    QuotientBound(n, d, 0);
    ReciprocalCases(w, b, d, n / d, n % d);
  }

  /** compute_reciprocal: the reciprocal, the correction, and r. */
  method Reciprocate(w: nat, divisor: nat) returns (fq: nat, c: nat, r: nat)
    requires w >= 16 && 2 <= divisor < 0x1_0000
    ensures w <= r <= w + 15 && Divides(w, divisor, fq, c, r - w)
  {
    hide Pow2, Divides;
    var b: int := Flss(divisor);
    TopBitAbove(w, divisor, b);
    b := b - 1;
    r := w + b;
    Quotients(w, b, divisor, Pow2(r));
    fq := Pow2(r) / divisor;
    var fr := Pow2(r) % divisor;
    c := divisor / 2;                  // for rounding
    if fr == 0 {
      fq := fq / 2;
      r := r - 1;
    } else if fr <= divisor / 2 {
      c := c + 1;
    } else {
      fq := fq + 1;
    }
  }

  lemma TopBitAbove(w: nat, d: nat, bit: nat)
    requires IsTopBit(d, bit) && bit <= 16 && d >= 2 && w >= 16
    ensures bit >= 2 && Pow2(bit - 1) <= d < Pow2(bit) <= Pow2(w)
  {
    assert bit == 1 ==> Pow2(bit) == 2;
    Pow2Monotone(bit, w);
  }

  // ----- Rounding -----

  /** Division that rounds to the nearest integer, and halves away from zero. */
  function RoundDiv(v: int, d: nat): int
    requires d > 0
  {
    if v < 0 then -((-v + d / 2) / d) else (v + d / 2) / d
  }

  lemma RoundMagnitude(x: nat, d: nat, q: int)
    requires d > 0 && q == (x + d / 2) / d
    ensures 0 <= q <= x && 2 * (q * d - x) <= d && 2 * (x - q * d) < d
  {
    var y := x + d / 2;
    DivMod(y, d);
    QuotientBound(y, d, 0);
    QuotientBound(y, d, x + 1);
    Distribute(x, 1, d);
    if x > 0 {
      MulAtLeast(d, x);
    }
  }

  /** No integer is nearer to v / d; of two that are equally near it is the one of larger magnitude. */
  lemma RoundsHalfAway(v: int, d: nat)
    requires d > 0
    ensures var e := v - RoundDiv(v, d) * d;
            2 * Abs(e) <= d && (2 * Abs(e) == d ==> Abs(v) < Abs(v - e))
    ensures RoundDiv(-v, d) == -RoundDiv(v, d)
    ensures Abs(RoundDiv(v, d)) <= Abs(v)
  {
    var x: int := Abs(v);
    var q := (x + d / 2) / d;
    RoundMagnitude(x, d, q);
    RoundSigns(v, d, q);
    assert (-q) * d == -(q * d);
  }

  lemma RoundSigns(v: int, d: nat, q: int)
    requires d > 0 && q == (Abs(v) + d / 2) / d && (v == 0 ==> q == 0)
    ensures RoundDiv(v, d) == (if v < 0 then -q else q) && RoundDiv(-v, d) == if v <= 0 then q else -q
  {
  }

  /** `(JCOEF) v`: the low 16 bits as a signed number. */
  function ToCoef(v: int): int {
    (v + 0x8000) % 0x1_0000 - 0x8000
  }

  /** The cast loses nothing of a quotient by 8 or more, unless the value is far beyond 16 bits. */
  lemma CoefKept(v: int, d: nat)
    requires d >= 8 && Abs(v) < 0x3_FFFC
    ensures ToCoef(RoundDiv(v, d)) == RoundDiv(v, d)
  {
    var x: int := Abs(v);
    var q := (x + d / 2) / d;
    QuotientBound(x + d / 2, d, 0x8000);
    QuotientBound(x + d / 2, d, 0);
    SmallCoef(v, d, q);
  }

  lemma SmallCoef(v: int, d: nat, q: int)
    requires d >= 8 && q == (Abs(v) + d / 2) / d && 0 <= q < 0x8000
    ensures ToCoef(RoundDiv(v, d)) == RoundDiv(v, d)
  {
    if v == 0 {
      QuotientUnique(d / 2, d, 0, d / 2);
    }
    RoundSigns(v, d, q);
    hide RoundDiv;
  }

  // ----- The divisor tables -----

  const NUM_QUANT_TBLS := 4

  type QuantTbl = q: seq<nat> | |q| == DCTSIZE2 witness seq(DCTSIZE2, _ => 1)

  datatype Slot = Missing | Present(quantval: QuantTbl)

  /** The range in which the shift by 3 stays within 16 bits, and the divisor above 1. */
  predicate UsableTbl(q: QuantTbl) {
    forall i :: 0 <= i < DCTSIZE2 ==> 1 <= q[i] <= 8191
  }

  class FdctController {
    const w: nat                     // bits of a DCTELEM
    const divisors: array2<nat>      // per table: reciprocals, corrections, scales, shifts

    constructor (w: nat)
      requires w == 16 || w == 32
      ensures Shape() && this.w == w && fresh(divisors)
    {
      this.w := w;
      divisors := new nat[NUM_QUANT_TBLS, DCTSIZE2 * 4]((i, j) => 0);
    }

    predicate Shape() {
      w >= 16 && divisors.Length0 == NUM_QUANT_TBLS && divisors.Length1 == DCTSIZE2 * 4
    }

    /** The numbers at index i of table t divide by d. */
    ghost predicate EntryFor(t: nat, i: nat, d: nat)
      requires Shape() && t < NUM_QUANT_TBLS && i < DCTSIZE2 && d > 0
      reads divisors
    {
      Divides(w, d, divisors[t, i], divisors[t, DCTSIZE2 + i], divisors[t, DCTSIZE2 * 3 + i])
    }

    /** Table t divides by eight times the quantization values. */
    ghost predicate TableDivides(t: nat, q: QuantTbl)
      requires Shape() && t < NUM_QUANT_TBLS && UsableTbl(q)
      reads divisors
    {
      forall i :: 0 <= i < DCTSIZE2 ==> EntryFor(t, i, q[i] * 8)
    }

    /** compute_reciprocal; the result says whether the scale fits the word. */
    method ComputeReciprocal(divisor: nat, t: nat, i: nat) returns (simd: bool)
      requires Shape() && 2 <= divisor < 0x1_0000 && t < NUM_QUANT_TBLS && i < DCTSIZE2
      modifies divisors
      ensures EntryFor(t, i, divisor)
      ensures forall u, j :: 0 <= u < NUM_QUANT_TBLS && 0 <= j < DCTSIZE2 * 4 && (u != t || j % DCTSIZE2 != i) ==>
                divisors[u, j] == old(divisors[u, j])
    {
      var fq, c, r := Reciprocate(w, divisor);
      Stored(w, divisor, fq, c, r - w);
      hide Divides, Pow2;
      divisors[t, i] := Word(w, fq);
      divisors[t, DCTSIZE2 + i] := Word(w, c);
      divisors[t, DCTSIZE2 * 2 + i] := Word(w, Pow2(w * 2 - r));
      divisors[t, DCTSIZE2 * 3 + i] := r - w;
      simd := r > 16;
    }

    /** The start of a pass with JDCT_ISLOW; false stands for the error exit on a missing table. */
    method StartPass(quantTblNo: seq<int>, quantTbls: seq<Slot>) returns (ok: bool)
      requires Shape() && |quantTbls| == NUM_QUANT_TBLS
      requires forall t :: 0 <= t < NUM_QUANT_TBLS && quantTbls[t].Present? ==> UsableTbl(quantTbls[t].quantval)
      modifies divisors
      ensures ok <==> forall ci :: 0 <= ci < |quantTblNo| ==> 0 <= quantTblNo[ci] < NUM_QUANT_TBLS && quantTbls[quantTblNo[ci]].Present?
      ensures ok ==> forall ci :: 0 <= ci < |quantTblNo| ==> TableDivides(quantTblNo[ci], quantTbls[quantTblNo[ci]].quantval)
    {
      hide FdctController.EntryFor;
      for ci := 0 to |quantTblNo|
        invariant forall i :: 0 <= i < ci ==> 0 <= quantTblNo[i] < NUM_QUANT_TBLS && quantTbls[quantTblNo[i]].Present?
        invariant forall i :: 0 <= i < ci ==> TableDivides(quantTblNo[i], quantTbls[quantTblNo[i]].quantval)
      {
        var qtblno := quantTblNo[ci];
        if qtblno < 0 || qtblno >= NUM_QUANT_TBLS || quantTbls[qtblno].Missing? {
          return false;
        }
        FillTable(qtblno, quantTbls[qtblno].quantval);
      }
      ok := true;
    }

    method FillTable(t: nat, q: QuantTbl)
      requires Shape() && t < NUM_QUANT_TBLS && UsableTbl(q)
      modifies divisors
      ensures TableDivides(t, q)
      ensures forall u, p: QuantTbl :: 0 <= u < NUM_QUANT_TBLS && u != t && UsableTbl(p) ==> (TableDivides(u, p) <==> old(TableDivides(u, p)))
    {
      for i := 0 to DCTSIZE2
        invariant forall j :: 0 <= j < i ==> EntryFor(t, j, q[j] * 8)
        invariant forall u, j :: 0 <= u < NUM_QUANT_TBLS && u != t && 0 <= j < DCTSIZE2 * 4 ==> divisors[u, j] == old(divisors[u, j])
      {
        var simd := ComputeReciprocal(q[i] * 8, t, i);
      }
    }

    /** One coefficient. */
    method QuantizeOne(t: nat, i: nat, temp0: int, ghost d: nat) returns (temp: int)
      requires Shape() && t < NUM_QUANT_TBLS && i < DCTSIZE2 && 2 <= d < 0x1_0000 && EntryFor(t, i, d)
      requires Abs(temp0) < Pow2(w - 1)
      ensures temp == RoundDiv(temp0, d)
    {
      temp := temp0;
      var recip, corr, shift := divisors[t, i], divisors[t, DCTSIZE2 + i], divisors[t, DCTSIZE2 * 3 + i];
      WithinRoom(w, d, Abs(temp));
      assert DividesAt(w, d, recip, corr, shift, Abs(temp));
      ProductFits(w, d, Abs(temp), recip, corr);
      hide Pow2, Divides, Word;
      if temp < 0 {
        temp := -temp;
        var product := Word(2 * w, (temp + corr) * recip);
        temp := product / Pow2(shift + w);
        temp := -temp;
      } else {
        var product := Word(2 * w, (temp + corr) * recip);
        temp := product / Pow2(shift + w);
      }
    }

    /** Quantize the coefficients in the workspace, and store them. */
    method Quantize(coefBlock: array<int>, t: nat, workspace: array<int>, ghost q: QuantTbl)
      requires Shape() && t < NUM_QUANT_TBLS && UsableTbl(q) && TableDivides(t, q)
      requires coefBlock.Length == workspace.Length == DCTSIZE2 && coefBlock != workspace
      requires forall i :: 0 <= i < DCTSIZE2 ==> Abs(workspace[i]) < Pow2(w - 1)
      modifies coefBlock
      ensures forall i :: 0 <= i < DCTSIZE2 ==> coefBlock[i] == ToCoef(RoundDiv(workspace[i], q[i] * 8))
      ensures forall i :: 0 <= i < DCTSIZE2 && Abs(workspace[i]) < 0x3_FFFC ==> coefBlock[i] == RoundDiv(workspace[i], q[i] * 8)
    {
      hide Pow2, FdctController.EntryFor, RoundDiv, ToCoef;
      for i := 0 to DCTSIZE2
        invariant forall j :: 0 <= j < i ==> coefBlock[j] == ToCoef(RoundDiv(workspace[j], q[j] * 8))
        invariant forall j :: 0 <= j < i && Abs(workspace[j]) < 0x3_FFFC ==> coefBlock[j] == RoundDiv(workspace[j], q[j] * 8)
      {
        var temp := QuantizeOne(t, i, workspace[i], q[i] * 8);
        coefBlock[i] := ToCoef(temp);
        if Abs(workspace[i]) < 0x3_FFFC {
          CoefKept(workspace[i], q[i] * 8);
        }
      }
    }
  }

  /** The three numbers survive being stored in words. */
  lemma Stored(w: nat, d: nat, fq: nat, c: nat, shift: nat)
    requires w >= 16 && 2 <= d < 0x1_0000 && Divides(w, d, fq, c, shift)
    ensures Word(w, fq) == fq && Word(w, c) == c
  {
    Sixteen();
    Pow2Monotone(16, w);
    hide Pow2;
    WordKept(w, fq);
    WordKept(w, c);
  }

  /** The product does not overflow the double word. */
  lemma ProductFits(w: nat, d: nat, x: nat, recip: nat, corr: nat)
    requires HasRoom(w, d, x) && corr <= d / 2 + 1 && recip < Pow2(w)
    ensures Word(2 * w, (x + corr) * recip) == (x + corr) * recip
  {
    Pow2Add(w, w);
    var m: int := Pow2(w);
    assert w + w == 2 * w;
    hide Pow2;
    var y, product := x + corr, (x + corr) * recip;
    Below(y, recip, m, product);
    WordKept(2 * w, product);
  }

  lemma Below(y: int, g: int, m: int, t: int)
    requires 0 <= y <= m && 0 <= g < m && t == y * g
    ensures 0 <= t < m * m
  {
    UpRoom(g, y, m, m);
    MulMonotone(0, y, g);
  }

  /** Every magnitude of a signed word leaves room for the rounding. */
  lemma WithinRoom(w: nat, d: nat, x: nat)
    requires w >= 16 && d < 0x1_0000 && x < Pow2(w - 1)
    ensures HasRoom(w, d, x)
  {
    Sixteen();
    Pow2Monotone(15, w - 1);
  }
}
