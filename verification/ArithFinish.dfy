/**
 * Termination of arithmetic encoding: which point finish_pass picks, that the bytes sent denote
 * it, and that no shorter byte string denotes any point of the final interval.
 */
module ArithFinish {
  import opened Bits
  import opened ArithSpec

  lemma {:induction false} SamePoint(w: seq<Byte>, t: seq<Byte>, j: nat)
    requires forall i: nat :: At(w, i) == At(t, i)
    ensures Prefix(w, j) == Prefix(t, j)
  {
    if j > 0 {
      SamePoint(w, t, j - 1);
    }
  }

  /** x followed by so many zero bits. */
  function Scale(x: nat, bits: nat): nat {
    x * Pow2(bits)
  }

  lemma {:induction false} PrefixWhole(w: seq<Byte>)
    ensures Prefix(w, |w|) == Val(w)
    decreases |w|
  {
    if w != [] {
      var w' := w[..|w| - 1];
      PrefixWhole(w');
      PrefixOfPrefix(w, w', |w'|);
    }
  }

  /** The value of the first j bytes when the string has no more than j. */
  lemma {:induction false} PrefixPadded(w: seq<Byte>, j: nat)
    requires j >= |w|
    ensures Prefix(w, j) == Scale(Val(w), 8 * (j - |w|))
    decreases j
  {
    if j == |w| {
      PrefixWhole(w);
    } else {
      PrefixPadded(w, j - 1);
      var p := Pow2(8 * (j - 1 - |w|));
      Pow2Byte(j - 1 - |w|);
      assert Val(w) * (256 * p) == 256 * (Val(w) * p);
    }
  }

  lemma {:induction false} PrefixOfPrefix(w: seq<Byte>, v: seq<Byte>, j: nat)
    requires j <= |v| <= |w| && v == w[..|v|]
    ensures Prefix(w, j) == Prefix(v, j)
  {
    if j > 0 {
      PrefixOfPrefix(w, v, j - 1);
    }
  }

  lemma MulLess(x: int, y: int, p: int)
    requires x < y && p > 0
    ensures x * p + p <= y * p
  {
    assert (x + 1) * p <= y * p;
  }

  lemma Cancel(x: int, y: int, p: int)
    requires p > 0 && x * p == y * p
    ensures x == y
  {
    if x < y {
      MulLess(x, y, p);
    } else if y < x {
      MulLess(y, x, p);
    }
  }

  /** Splitting a power of two off a larger one. */
  lemma Multiple(x: nat, bits: nat, cut: nat)
    requires bits >= cut
    ensures Scale(x, bits) == Scale(Scale(x, bits - cut), cut)
  {
    Pow2Add(bits - cut, cut);
    var p, q := Pow2(bits - cut), Pow2(cut);
    assert x * (p * q) == (x * p) * q;
  }

  /** A string without trailing zero has as few bytes as its value allows. */
  lemma NoTrailingZero(w: seq<Byte>, j: nat, m: nat, q: nat)
    requires w != [] && w[|w| - 1] != 0
    requires |w| <= j && m <= j
    requires Prefix(w, j) == Scale(q, 8 * m)
    ensures |w| <= j - m
  {
    var z := j - |w|;
    if m > z {
      PrefixPadded(w, j);
      Multiple(q, 8 * m, 8 * z);
      Cancel(Val(w), q * Pow2(8 * (m - z)), Pow2(8 * z));
      Pow2Byte(m - z - 1);
      LastByte(w);
      Divisible(Val(w), q, Pow2(8 * (m - z - 1)));
    }
  }

  lemma LastByte(w: seq<Byte>)
    requires w != []
    ensures Val(w) % 256 == w[|w| - 1]
  {
  }

  lemma Divisible(v: nat, q: nat, p: nat)
    requires v == q * (256 * p)
    ensures v % 256 == 0
  {
    assert v == 256 * (q * p);
  }

  /**
   * The point finish_pass looks for: a multiple of 0x10000 in [lo, lo + a) if there is one,
   * else a multiple of 0x8000.
   */
  predicate BestPoint(lo: nat, a: nat, z: nat)
    requires a > 0
  {
    && lo <= z < lo + a
    && (z % 0x10000 == 0 || (z % 0x8000 == 0 && LastMultiple(lo, a) < lo))
  }

  /** The largest multiple of 0x10000 below lo + a. */
  function LastMultiple(lo: nat, a: nat): nat
    requires a > 0
  {
    (a - 1 + lo) / 0x10000 * 0x10000
  }

  lemma HalfAligned(x: nat)
    requires x % 0x10000 == 0
    ensures x % 0x8000 == 0
  {
    MultipleOfHalf(x, 2 * (x / 0x10000));
  }

  lemma MultipleOfHalf(x: nat, y: nat)
    requires x == y * 0x8000
    ensures x % 0x8000 == 0
  {
  }

  /** `if ((temp = (a - 1 + c) & 0xFFFF0000) < c) c = temp + 0x8000; else c = temp;` */
  function PickPoint(c: nat, a: nat): (z: nat)
    requires 0x8000 <= a <= 0x10000
    ensures BestPoint(c, a, z)
  {
    var temp := LastMultiple(c, a);
    if temp < c then
      MultipleOfHalf(temp + 0x8000, (a - 1 + c) / 0x10000 * 2 + 1);
      temp + 0x8000
    else temp
  }

  lemma ShiftMod(z: nat, k: nat)
    ensures (z + k * 0x10000) % 0x10000 == z % 0x10000
  {
  }

  lemma ShiftHalfMod(z: nat, k: nat)
    ensures (z + k * 0x10000) % 0x8000 == z % 0x8000
  {
  }

  lemma ShiftDiv(z: nat, k: nat)
    ensures (z + k * 0x10000) / 0x10000 == z / 0x10000 + k
  {
  }

  /** Adding a multiple of 0x10000 to the interval moves its best point along. */
  lemma BestPointShift(c: nat, a: nat, z: nat, k: nat)
    requires a > 0 && BestPoint(c, a, z)
    ensures BestPoint(c + k * 0x10000, a, z + k * 0x10000)
  {
    ShiftMod(z, k);
    ShiftHalfMod(z, k);
    ShiftDiv(a - 1 + c, k);
  }

  lemma BestPointAligned(iv: Interval, z: nat)
    requires iv.a > 0 && BestPoint(iv.low, iv.a, z)
    ensures z % 0x8000 == 0
  {
    if z % 0x10000 == 0 {
      HalfAligned(z);
    }
  }

  /** No string that denotes a point of the interval is shorter than one that denotes the best point. */
  lemma Shortest(iv: Interval, w: seq<Byte>, v: seq<Byte>, j: nat, z: nat)
    requires 0 < iv.a <= 0x10000 && 8 * j >= 16 + iv.n && j >= Bytes(iv.n)
    requires BestPoint(iv.low, iv.a, z)
    requires |w| <= j && (w != [] ==> w[|w| - 1] != 0)
    requires Prefix(w, j) == Scale(z, 8 * j - 16 - iv.n)
    requires In(v, iv)
    ensures |w| <= |v|
  {
    hide Scale, In, Prefix, BestPoint;
    BestPointAligned(iv, z);
    if |v| < |w| {
      if 8 * (j - |v|) >= 8 * j - iv.n {
        CoarsePoint(iv, w, v, j, z);
        NoTrailingZero(w, j, j - |v|, Val(v));
      } else {
        FinePoint(iv, w, j, z, j - |v|);
      }
    }
  }

  /** If v's point is a multiple of 0x10000 it is the best point itself. */
  lemma CoarsePoint(iv: Interval, w: seq<Byte>, v: seq<Byte>, j: nat, z: nat)
    requires 0 < iv.a <= 0x10000 && 8 * j >= 16 + iv.n
    requires BestPoint(iv.low, iv.a, z)
    requires In(v, iv) && j >= Bytes(iv.n) && |v| <= j && 8 * (j - |v|) >= 8 * j - iv.n
    requires Prefix(w, j) == Scale(z, 8 * j - 16 - iv.n)
    ensures Prefix(w, j) == Scale(Val(v), 8 * (j - |v|))
  {
    var cut, m := 8 * j - 16 - iv.n, j - |v|;
    hide Scale;
    var q := Scale(Val(v), 8 * m - (cut + 16));
    PrefixPadded(v, j);
    InAtAny(v, iv, j);
    Multiple(Val(v), 8 * m, cut + 16);
    Multiple(q, cut + 16, cut);
    assert cut + 16 - cut == 16;
    ScaleBetween(iv, v, j, q);
    UniqueMultiple(iv.low, iv.a, z, q);
    assert Scale(q, 16) == z by {
      Scale16(q);
    }
  }

  /** The best point is a multiple of 0x8000, so that many bits need no bytes. */
  lemma FinePoint(iv: Interval, w: seq<Byte>, j: nat, z: nat, m: nat)
    requires 8 * j >= 16 + iv.n && z % 0x8000 == 0 && m <= j && 8 * m <= 8 * j - iv.n - 1
    requires w != [] && |w| <= j && w[|w| - 1] != 0
    requires Prefix(w, j) == Scale(z, 8 * j - 16 - iv.n)
    ensures |w| <= j - m
  {
    var cut := 8 * j - 16 - iv.n;
    Refactor(z, cut, 8 * m);
    NoTrailingZero(w, j, m, Scale(z / 0x8000, cut + 15 - 8 * m));
  }

  lemma Refactor(z: nat, cut: nat, bits: nat)
    requires z % 0x8000 == 0 && bits <= cut + 15
    ensures Scale(z, cut) == Scale(Scale(z / 0x8000, cut + 15 - bits), bits)
  {
    var y := z / 0x8000;
    Pow2Values();
    Multiple(y, cut + 15, cut);
    Multiple(y, cut + 15, bits);
    assert y * Pow2(15) == z;
  }

  lemma Scale16(q: nat)
    ensures Scale(q, 16) == q * 0x10000
  {
    Pow2Values();
  }

  lemma ScaleBetween(iv: Interval, v: seq<Byte>, j: nat, q: nat)
    requires 8 * j >= 16 + iv.n && InAt(v, iv, j)
    requires Prefix(v, j) == Scale(Scale(q, 16), 8 * j - 16 - iv.n)
    ensures iv.low <= q * 0x10000 < iv.low + iv.a
  {
    Pow2Values();
    Between(iv.low, iv.low + iv.a, q * 0x10000, Pow2(8 * j - 16 - iv.n));
  }

  lemma Between(lo: int, hi: int, x: int, p: int)
    requires p > 0 && lo * p <= x * p < hi * p
    ensures lo <= x < hi
  {
    if x < lo {
      MulLess(x, lo, p);
    } else if x > hi {
      MulLess(hi, x, p);
    }
  }

  lemma UniqueMultiple(lo: nat, a: nat, z: nat, q: nat)
    requires 0 < a <= 0x10000 && BestPoint(lo, a, z)
    requires lo <= q * 0x10000 < lo + a
    ensures z == q * 0x10000
  {
    var y := (a - 1 + lo) / 0x10000;
    assert q <= y;
    assert z % 0x10000 == 0;
    assert z == z / 0x10000 * 0x10000;
  }
}
