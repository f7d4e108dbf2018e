/**
 * Bit output: emit_bits and flush_bits of jcphuff.c, which keep the pending bits left-justified in 24
 * bits, and the 32-bit macros of jchuff.c, which keep them right-justified. Either way the bytes
 * written, once unstuffed, and the pending bits are the exact concatenation of the fields.
 */
module HuffmanBits {
  import opened Arithmetic
  import opened Bits

  /** A bit string: its length, and its value as a binary numeral. */
  datatype BitString = BitString(v: nat, n: nat)
  {
    /** Followed by the `size` bits of `code`. */
    function Append(code: nat, size: nat): BitString {
      BitString(v * Pow2(size) + code, n + size)
    }
  }

  const NONE := BitString(0, 0)

  /** `code & ((1 << size) - 1)`, also for the two's complement of a negative code. */
  function Masked(code: int, size: nat): (r: nat)
    ensures r < Pow2(size)
  {
    code % Pow2(size)
  }

  lemma AppendFits(v: nat, n: nat, code: nat, size: nat)
    requires v < Pow2(n) && code < Pow2(size)
    ensures v * Pow2(size) + code < Pow2(n + size)
  {
    hide Pow2;
    Pow2Add(n, size);
    DigitFits(v, Pow2(n), code, Pow2(size), Pow2(n + size));
  }

  /** A numeral with one more digit. */
  lemma DigitFits(v: int, p: int, c: int, s: int, t: int)
    requires 0 <= v < p && 0 <= c < s && t == p * s
    ensures v * s + c < t
  {
    MulMonotone(v + 1, p, s);
    Distribute(v, 1, s);
  }

  /** Bitwise or. */
  function BitOr(a: nat, b: nat): nat
    decreases a + b
  {
    if a == 0 && b == 0 then 0
    else 2 * BitOr(a / 2, b / 2) + if a % 2 == 1 || b % 2 == 1 then 1 else 0
  }

  lemma OrStep(a: nat, y: nat)
    ensures BitOr(a, 2 * y) == 2 * BitOr(a / 2, y) + a % 2
  {
  }

  /** With no one bits in common, or is addition. */
  lemma {:induction false} OrAdds(a: nat, q: nat, k: nat)
    requires a < Pow2(k)
    ensures BitOr(a, q * Pow2(k)) == a + q * Pow2(k)
    decreases k
  {
    if k == 0 {
      OrZero(q);
    } else {
      var w := Pow2(k - 1);
      OrAdds(a / 2, q, k - 1);
      OrStep(a, q * w);
      hide BitOr;
      MoveFactor(q, w);
    }
  }

  lemma MoveFactor(q: int, w: int)
    ensures q * (2 * w) == 2 * (q * w)
  {
  }

  lemma {:induction false} OrZero(q: nat)
    ensures BitOr(0, q) == q
    decreases q
  {
    if q > 0 {
      OrZero(q / 2);
    }
  }

  const WORD := 0x1_0000_0000
  const WORD24 := 0x100_0000

  /** `x << k` in a 32-bit register. */
  function Shl32(x: nat, k: nat): nat {
    x * Pow2(k) % WORD
  }

  /**
   * What has been sent and what is pending make up all the bits: w are the data bytes, `pend` the last
   * `k` bits.
   */
  predicate Holds(all: BitString, w: seq<Byte>, pend: nat, k: nat) {
    all.n == 8 * |w| + k && pend < Pow2(k) && all.v == Val(w) * Pow2(k) + pend
  }

  lemma HoldsAppend(all: BitString, w: seq<Byte>, pend: nat, k: nat, code: nat, size: nat)
    requires Holds(all, w, pend, k) && code < Pow2(size)
    ensures Holds(all.Append(code, size), w, pend * Pow2(size) + code, k + size)
  {
    hide Pow2, Val;
    AppendFits(pend, k, code, size);
    Pow2Add(k, size);
    AppendValue(Val(w), Pow2(k), pend, Pow2(size), Pow2(k + size), all.v);
  }

  lemma AppendValue(w: int, p: int, pend: int, s: int, t: int, v: int)
    requires v == w * p + pend && t == p * s
    ensures v * s == w * t + pend * s
  {
    Distribute(w * p, pend, s);
    MulAssociative(w, p, s);
  }

  /** The first eight pending bits become a byte. */
  lemma HoldsByte(all: BitString, w: seq<Byte>, pend: nat, k: nat, c: Byte, rest: nat)
    requires k >= 8 && Holds(all, w, pend, k) && pend == c * Pow2(k - 8) + rest && rest < Pow2(k - 8)
    ensures Holds(all, w + [c], rest, k - 8)
  {
    ValSnoc(w, c);
    Pow2Values();
    Pow2Add(8, k - 8);
    hide Pow2, Val;
    ByteValue(Val(w), c, Pow2(k - 8), Pow2(k));
  }

  lemma ByteValue(w: int, c: int, s: int, t: int)
    requires t == 256 * s
    ensures (w * 256 + c) * s == w * t + c * s
  {
    Distribute(w * 256, c, s);
    MulAssociative(w, 256, s);
  }

  /** Dropping pending ones that only pad: what is sent is all the bits and then ones. */
  lemma HoldsPadded(before: BitString, w: seq<Byte>, pend: nat, k: nat)
    requires Holds(before.Append(0x7F, 7), w, pend, k) && k <= 7 && pend == Pow2(k) - 1
    ensures 8 * |w| == before.n + (7 - k) && Val(w) == before.v * Pow2(7 - k) + (Pow2(7 - k) - 1)
  {
    assert Pow2(7) == 128;
    Pow2Add(7 - k, k);
    hide Pow2, Val;
    PaddedValue(Val(w), Pow2(k), before.v, Pow2(7 - k));
  }

  lemma PaddedValue(w: int, p: int, v: int, q: int)
    requires p > 0 && q * p == 128 && w * p + (p - 1) == v * 128 + 127
    ensures w == v * q + (q - 1)
  {
    Distribute(v * q, q, p);
    MulAssociative(v, q, p);
    Distribute(v * q + q, 1, p);
    MulCancel(w, v * q + q - 1, p);
  }

  /** Ones below a run of seven ones. */
  lemma LowOnes(v: int, k: nat, w: int, pend: nat)
    requires k <= 7 && v * 128 + 127 == w * Pow2(k) + pend && pend < Pow2(k)
    ensures pend == Pow2(k) - 1
  {
    assert Pow2(7) == 128;
    Pow2Add(7 - k, k);
    hide Pow2;
    LowOnesValue(v, Pow2(7 - k), Pow2(k), w, pend);
  }

  lemma LowOnesValue(v: int, q: int, p: int, w: int, pend: int)
    requires p > 0 && q * p == 128 && v * 128 + 127 == w * p + pend && 0 <= pend < p
    ensures pend == p - 1
  {
    MulAssociative(v, q, p);
    Distribute(v * q + q - 1, w, p);
    Distribute(v * q + q, 1, p);
    Distribute(v * q, q, p);
    SmallMultiple(v * q + q - 1 - w, p);
  }

  lemma Sevens(v: nat)
    ensures Masked(0x7F, 7) == 0x7F && v * Pow2(7) + 0x7F == v * 128 + 127
  {
    assert Pow2(7) == 128;
  }

  // ----- jcphuff.c: left-justified in 24 bits -----

  /** Above the 24 bits there may be bits already sent; in the 24 bits, the pending bits and then zeros. */
  predicate LeftJustified(putBuffer: nat, high: nat, pend: nat, k: nat) {
    k <= 24 && high < 256 && pend < Pow2(k) && putBuffer == high * WORD24 + pend * Pow2(24 - k)
  }

  lemma Pow2Word()
    ensures Pow2(24) == WORD24 && Pow2(16) == 0x1_0000 && Pow2(8) == 256
  {
    Pow2Values();
  }

  /** The part of the buffer that is in use, seen from bit 24 - k up. */
  lemma LeftAsMultiple(high: nat, pend: nat, k: nat)
    requires k <= 24
    ensures high * WORD24 + pend * Pow2(24 - k) == (high * Pow2(k) + pend) * Pow2(24 - k)
  {
    Pow2Word();
    Pow2Add(k, 24 - k);
    hide Pow2;
    Distribute(high * Pow2(k), pend, Pow2(24 - k));
    MulAssociative(high, Pow2(k), Pow2(24 - k));
  }

  /** The incoming bits, aligned, lie below the bits in use. */
  lemma LeftOr(putBuffer: nat, high: nat, pend: nat, k: nat, m: nat, size: nat)
    requires LeftJustified(putBuffer, high, pend, k) && m < Pow2(size) && k + size <= 24
    ensures BitOr(m * Pow2(24 - (k + size)), putBuffer) == m * Pow2(24 - (k + size)) + putBuffer
  {
    var t: nat := 24 - (k + size);
    AppendFits(m, size, 0, t);
    assert size + t == 24 - k;
    hide Pow2, BitOr;
    LeftAsMultiple(high, pend, k);
    OrAddsAt(m * Pow2(t), high * Pow2(k) + pend, 24 - k, putBuffer);
  }

  lemma OrAddsAt(a: nat, q: nat, k: nat, x: nat)
    requires a < Pow2(k) && x == q * Pow2(k)
    ensures BitOr(a, x) == a + x
  {
    OrAdds(a, q, k);
  }

  /** Align incoming bits and merge them with the old buffer contents. */
  lemma LeftMerged(putBuffer: nat, high: nat, pend: nat, k: nat, m: nat, size: nat)
    requires LeftJustified(putBuffer, high, pend, k) && m < Pow2(size) && k + size <= 24
    ensures LeftJustified(BitOr(m * Pow2(24 - (k + size)), putBuffer), high, pend * Pow2(size) + m, k + size)
  {
    hide Pow2, BitOr;
    LeftOr(putBuffer, high, pend, k, m, size);
    AppendFits(pend, k, m, size);
    var t: nat := 24 - (k + size);
    Pow2Add(size, t);
    assert size + t == 24 - k;
    MergedValue(pend, Pow2(size), m, Pow2(t), Pow2(24 - k));
  }

  lemma MergedValue(pend: int, s: int, m: int, t: int, u: int)
    requires u == s * t
    ensures (pend * s + m) * t == pend * u + m * t
  {
    Distribute(pend * s, m, t);
    MulAssociative(pend, s, t);
  }

  /** `c = (put_buffer >> 16) & 0xFF` and `put_buffer <<= 8`. */
  lemma LeftByte(putBuffer: nat, high: nat, pend: nat, k: nat)
    requires LeftJustified(putBuffer, high, pend, k) && k >= 8
    ensures var c, rest := putBuffer / 0x1_0000 % 256, pend % Pow2(k - 8);
            && pend == c * Pow2(k - 8) + rest
            && LeftJustified(putBuffer * 256 % WORD, c, rest, k - 8)
  {
    Pow2Word();
    Pow2Add(8, k - 8);
    Pow2Add(k - 8, 24 - k);
    Pow2Add(8, 24 - k);
    assert 8 + (24 - k) == 24 - (k - 8) && k - 8 + (24 - k) == 16;
    hide Pow2;
    LeftByteAll(putBuffer, high, pend, Pow2(k - 8), Pow2(24 - k), Pow2(k), Pow2(24 - (k - 8)));
  }

  lemma LeftByteAll(buffer: int, high: int, pend: int, p: int, t: int, q: int, u: int)
    requires p > 0 && t > 0 && p * t == 0x1_0000 && q == 256 * p && u == 256 * t
    requires 0 <= pend < q && 0 <= high < 256 && buffer == high * WORD24 + pend * t
    ensures var c := buffer / 0x1_0000 % 256;
            pend == c * p + pend % p && buffer * 256 % WORD == c * WORD24 + pend % p * u
  {
    var c, rest := pend / p, pend % p;
    QuotientBound(pend, p, 256);
    assert pend == c * p + rest;
    LeftByteParts(c, rest, p, t);
    LeftByteValue(buffer, high, c, rest * t);
    MoveByte(rest, t, u);
  }

  lemma MoveByte(rest: int, t: int, t': int)
    requires t' == 256 * t
    ensures rest * t' == 256 * (rest * t)
  {
  }

  lemma LeftByteParts(c: int, rest: int, p: int, t: int)
    requires p > 0 && t > 0 && p * t == 0x1_0000 && 0 <= rest < p
    ensures (c * p + rest) * t == c * 0x1_0000 + rest * t && 0 <= rest * t < 0x1_0000
  {
    Distribute(c * p, rest, t);
    MulAssociative(c, p, t);
    MulMonotone(rest + 1, p, t);
    MulMonotone(0, rest, t);
    Distribute(rest, 1, t);
  }

  lemma LeftByteValue(buffer: int, high: int, c: int, y: int)
    requires 0 <= c < 256 && 0 <= high < 256 && 0 <= y < 0x1_0000
    requires buffer == high * WORD24 + c * 0x1_0000 + y
    ensures buffer / 0x1_0000 % 256 == c
    ensures buffer * 256 % WORD == c * WORD24 + 256 * y
  {
  }

  class LeftWriter {
    var out: seq<Byte>               // the data destination
    var putBuffer: nat               // current bit-accumulation buffer, a 32-bit register
    var putBits: nat                 // # of bits now in it

    ghost var prior: seq<Byte>       // output before the current run of bits
    ghost var w: seq<Byte>           // its data bytes already in `out`
    ghost var all: BitString         // all its bits
    ghost var pend: nat              // those not in `out`
    ghost var high: nat              // what is left of sent bits in the register

    constructor ()
      ensures Valid() && out == [] && all == NONE && prior == []
    {
      hide Stuff, RightJustified, LeftJustified, Holds;
      EmptyRun();
      out, putBuffer, putBits, prior, w, all, pend, high := [], 0, 0, [], [], NONE, 0, 0;
    }

    ghost predicate Registers()
      reads this
    {
      out == prior + Stuff(w) && putBuffer < WORD && LeftJustified(putBuffer, high, pend, putBits) && Holds(all, w, pend, putBits)
    }

    ghost predicate Valid()
      reads this
    {
      Registers() && putBits <= 7
    }

    method EmitByte(val: Byte)
      modifies this`out
      ensures out == old(out) + [val]
    {
      out := out + [val];
    }

    /** The body of `while (put_bits >= 8)`. */
    method SendByte()
      requires Registers() && putBits >= 8
      modifies this
      ensures Registers() && putBits == old(putBits) - 8 && all == old(all) && prior == old(prior)
    {
      hide Stuff, Pow2, Val;
      LeftByte(putBuffer, high, pend, putBits);
      var c := putBuffer / 0x1_0000 % 256;
      HoldsByte(all, w, pend, putBits, c, pend % Pow2(putBits - 8));
      StuffSnoc(w, c);
      EmitByte(c);
      if c == 0xFF {
        // need to stuff a zero byte
        EmitByte(0);
      }
      high, pend, w := c, pend % Pow2(putBits - 8), w + [c];
      putBuffer := putBuffer * 256 % WORD;
      putBits := putBits - 8;
    }

    /** Emit some bits; false stands for the error exit on a symbol without a code. */
    method EmitBits(code: int, size: nat) returns (ok: bool)
      requires Valid() && size <= 16
      modifies this
      ensures ok <==> size != 0
      ensures Valid() && prior == old(prior)
      ensures all == if ok then old(all).Append(Masked(code, size), size) else old(all)
    {
      hide Stuff, Pow2, Val, BitOr;
      ok := size != 0;
      if !ok {
        return;
      }
      var buffer := Masked(code, size);
      Merge(buffer, size);
      while putBits >= 8
        invariant Registers() && prior == old(prior) && all == old(all).Append(Masked(code, size), size)
        decreases putBits
      {
        SendByte();
      }
    }

    /** Align incoming bits and merge them with the old buffer contents. */
    method Merge(m: nat, size: nat)
      requires Valid() && m < Pow2(size) && size <= 16
      modifies this`putBuffer, this`putBits, this`all, this`pend
      ensures Registers() && all == old(all).Append(m, size) && putBits == old(putBits) + size
    {
      hide Stuff, Pow2, Val, BitOr, LeftJustified, Holds;
      LeftMerged(putBuffer, high, pend, putBits, m, size);
      HoldsAppend(all, w, pend, putBits, m, size);
      putBits := putBits + size;
      putBuffer := BitOr(m * Pow2(24 - putBits), putBuffer);
      all, pend := all.Append(m, size), pend * Pow2(size) + m;
      LeftBounds(putBuffer, high, pend, putBits);
    }

    lemma LeftBounds(buffer: nat, h: nat, p: nat, k: nat)
      requires LeftJustified(buffer, h, p, k)
      ensures buffer < WORD
    {
      Pow2Word();
      AppendFits(p, k, 0, 24 - k);
    }

    /** Fill any partial byte with ones and reset the bit buffer to empty. */
    method FlushBits()
      requires Valid()
      modifies this
      ensures out == prior + Stuff(w) && prior == old(prior) && putBuffer == putBits == 0
      ensures var pad := 8 * |w| - old(all.n);
              0 <= pad <= 7 && Val(w) == old(all.v) * Pow2(pad) + (Pow2(pad) - 1)
      ensures all == old(all)
    {
      ghost var before := all;
      Sevens(before.v);
      hide Stuff, Pow2, Val;
      var ok := EmitBits(0x7F, 7);
      LowOnes(before.v, putBits, Val(w), pend);
      HoldsPadded(before, w, pend, putBits);
      putBuffer := 0;
      putBits := 0;
      all := before;
    }

    /** After a flush, a new run of bits starts at the end of the output. */
    ghost method StartRun()
      requires putBuffer == putBits == 0
      modifies this`prior, this`w, this`all, this`pend, this`high
      ensures Valid() && all == NONE && prior == out
    {
      hide Stuff, RightJustified, LeftJustified, Holds;
      EmptyRun();
      prior, w, all, pend, high := out, [], NONE, 0, 0;
    }
  }

  // ----- jchuff.c: right-justified in a 32-bit register -----

  /** The low k bits of the register are the pending bits; above them there may be bits already sent. */
  predicate RightJustified(putBuffer: nat, high: nat, pend: nat, k: nat) {
    k <= 31 && putBuffer < WORD && pend < Pow2(k) && putBuffer == high * Pow2(k) + pend
  }

  lemma Pow2Word32(k: nat)
    requires k <= 32
    ensures Pow2(k) * Pow2(32 - k) == WORD
  {
    Pow2Values();
    Pow2Add(16, 16);
    Pow2Add(k, 32 - k);
  }

  /** `put_buffer << size` makes room for `size` bits. */
  lemma RightShifted(putBuffer: nat, high: nat, pend: nat, k: nat, size: nat)
    requires RightJustified(putBuffer, high, pend, k) && k + size <= 32
    ensures Shl32(putBuffer, size) == (high % Pow2(32 - size - k) * Pow2(k) + pend) * Pow2(size)
  {
    Pow2Word32(size);
    Pow2Add(k, 32 - size - k);
    assert k + (32 - size - k) == 32 - size;
    hide Pow2;
    RemainderSplit(high, pend, Pow2(k), Pow2(32 - size - k));
    ShiftModulo(putBuffer, Pow2(size), Pow2(32 - size));
  }

  lemma ShiftModulo(x: nat, s: nat, m: nat)
    requires s > 0 && m > 0 && s * m == WORD
    ensures x * s % WORD == x % m * s
  {
    RemainderSplit(x, 0, s, m);
  }

  lemma RightValue(h: nat, pend: nat, k: nat, code: nat, size: nat)
    ensures code + (h * Pow2(k) + pend) * Pow2(size) == h * Pow2(k + size) + (pend * Pow2(size) + code)
  {
    hide Pow2;
    Pow2Add(k, size);
    MergedValue(h, Pow2(k), pend, Pow2(size), Pow2(k + size));
  }

  lemma FitsTwice(h: nat, n: nat, pend: nat, k: nat, code: nat, size: nat)
    requires h < Pow2(n) && pend < Pow2(k) && code < Pow2(size)
    ensures (h * Pow2(k) + pend) * Pow2(size) + code < Pow2(n + k + size)
  {
    hide Pow2;
    AppendFits(h, n, pend, k);
    AppendFits(h * Pow2(k) + pend, n + k, code, size);
  }

  lemma Pow2Of32(n: nat)
    requires n == 32
    ensures Pow2(n) == WORD
  {
    Pow2Word32(n);
    assert Pow2(32 - n) == 1;
  }

  /** `put_buffer = (put_buffer << size) | code`. */
  lemma RightMerged(putBuffer: nat, high: nat, pend: nat, k: nat, code: nat, size: nat)
    requires RightJustified(putBuffer, high, pend, k) && k + size <= 31 && code < Pow2(size)
    ensures RightJustified(BitOr(code, Shl32(putBuffer, size)), high % Pow2(32 - size - k), pend * Pow2(size) + code, k + size)
  {
    hide Pow2, BitOr, Shl32;
    var n: nat := 32 - size - k;
    var h := high % Pow2(n);
    RightShifted(putBuffer, high, pend, k, size);
    AppendFits(pend, k, code, size);
    FitsTwice(h, n, pend, k, code, size);
    Pow2Of32(n + k + size);
    OrAddsAt(code, h * Pow2(k) + pend, size, Shl32(putBuffer, size));
    RightValue(h, pend, k, code, size);
  }

  /** `(put_buffer >> put_bits) & 0xFF` after `put_bits -= 8`. */
  lemma RightByte(putBuffer: nat, high: nat, pend: nat, k: nat)
    requires RightJustified(putBuffer, high, pend, k) && k >= 8
    ensures var c, rest := putBuffer / Pow2(k - 8) % 256, pend % Pow2(k - 8);
            pend == c * Pow2(k - 8) + rest && RightJustified(putBuffer, high * 256 + c, rest, k - 8)
  {
    Pow2Word();
    Pow2Add(8, k - 8);
    hide Pow2;
    RightByteAll(putBuffer, high, pend, Pow2(k - 8), Pow2(k));
  }

  lemma RightByteAll(buffer: nat, high: nat, pend: nat, p: nat, q: nat)
    requires p > 0 && q == 256 * p && pend < q && buffer == high * q + pend
    ensures var c := buffer / p % 256;
            pend == c * p + pend % p && buffer == (high * 256 + c) * p + pend % p
  {
    var c, rest := pend / p, pend % p;
    QuotientBound(pend, p, 256);
    DivMod(pend, p);
    ByteOnTop(high, c, rest, p, q);
    QuotientUnique(buffer, p, high * 256 + c, rest);
    LowByte(buffer / p, high, c);
  }

  lemma LowByte(x: int, high: int, c: int)
    requires x == high * 256 + c && 0 <= c < 256
    ensures x % 256 == c
  {
  }

  lemma ByteOnTop(high: int, c: int, rest: int, p: int, q: int)
    requires q == 256 * p
    ensures high * q + (c * p + rest) == (high * 256 + c) * p + rest
  {
    MulAssociative(high, 256, p);
    Distribute(high * 256, c, p);
  }

  lemma EmptyRun()
    ensures Holds(NONE, [], 0, 0) && RightJustified(0, 0, 0, 0) && LeftJustified(0, 0, 0, 0) && Stuff([]) == []
  {
    hide RightJustified, LeftJustified, Holds;
    Empty([], 0);
  }

  lemma Empty(w: seq<Byte>, k: nat)
    requires w == [] && k == 0
    ensures Holds(NONE, w, 0, k) && RightJustified(0, 0, 0, k) && LeftJustified(0, 0, 0, k)
  {
    assert Pow2(k) == 1;
    hide Pow2;
  }

  class RightWriter {
    var out: seq<Byte>
    var putBuffer: nat
    var putBits: nat

    ghost var prior: seq<Byte>
    ghost var w: seq<Byte>
    ghost var all: BitString
    ghost var pend: nat
    ghost var high: nat

    constructor ()
      ensures Valid() && out == [] && all == NONE && prior == []
    {
      hide Stuff, RightJustified, LeftJustified, Holds;
      EmptyRun();
      out, putBuffer, putBits, prior, w, all, pend, high := [], 0, 0, [], [], NONE, 0, 0;
    }

    ghost predicate Registers()
      reads this
    {
      out == prior + Stuff(w) && RightJustified(putBuffer, high, pend, putBits) && Holds(all, w, pend, putBits)
    }

    ghost predicate Valid()
      reads this
    {
      Registers() && putBits <= 15
    }

    /** EMIT_BYTE: the first pending byte, with a stuffed zero after 0xFF. */
    method SendByte()
      requires Registers() && putBits >= 8
      modifies this
      ensures Registers() && putBits == old(putBits) - 8 && all == old(all) && prior == old(prior)
    {
      hide Stuff, Pow2, Val;
      RightByte(putBuffer, high, pend, putBits);
      ghost var rest := pend % Pow2(putBits - 8);
      putBits := putBits - 8;
      var c := putBuffer / Pow2(putBits) % 256;
      HoldsByte(all, w, pend, putBits + 8, c, rest);
      StuffSnoc(w, c);
      out := out + [c];
      if c == 0xFF {
        // need to stuff a zero byte
        out := out + [0];
      }
      high, pend, w := high * 256 + c, rest, w + [c];
    }

    /** PUT_BITS. */
    method PutBits(code: nat, size: nat)
      requires Registers() && code < Pow2(size) && putBits + size <= 31
      modifies this
      ensures Registers() && putBits == old(putBits) + size && all == old(all).Append(code, size) && prior == old(prior)
    {
      hide Stuff, Pow2, Val, BitOr, RightJustified, Holds;
      RightMerged(putBuffer, high, pend, putBits, code, size);
      HoldsAppend(all, w, pend, putBits, code, size);
      all, pend, high := all.Append(code, size), pend * Pow2(size) + code, high % Pow2(32 - size - putBits);
      putBits := putBits + size;
      putBuffer := BitOr(code, Shl32(putBuffer, size));
    }

    /** EMIT_BITS: PUT_BITS and CHECKBUF15. */
    method EmitBits(code: nat, size: nat)
      requires Valid() && code < Pow2(size) && size <= 16
      modifies this
      ensures Valid() && all == old(all).Append(code, size) && prior == old(prior)
    {
      hide Stuff, Pow2, Val, RightJustified, Holds;
      PutBits(code, size);
      if putBits > 15 {
        SendByte();
        SendByte();
      }
    }

    /** Fill any partial byte with ones and reset the bit buffer to empty. */
    method FlushBits()
      requires Valid()
      modifies this
      ensures out == prior + Stuff(w) && prior == old(prior) && putBuffer == putBits == 0
      ensures var pad := 8 * |w| - old(all.n);
              0 <= pad <= 7 && Val(w) == old(all.v) * Pow2(pad) + (Pow2(pad) - 1)
      ensures all == old(all)
    {
      ghost var before := all;
      Sevens(before.v);
      hide Stuff, Pow2, Val, RightJustified;
      PutBits(0x7F, 7);
      while putBits >= 8
        invariant Registers() && prior == old(prior) && all == before.Append(0x7F, 7)
        decreases putBits
      {
        SendByte();
      }
      LowOnes(before.v, putBits, Val(w), pend);
      HoldsPadded(before, w, pend, putBits);
      putBuffer := 0;
      putBits := 0;
      all := before;
    }

    /** After a flush, a new run of bits starts at the end of the output. */
    ghost method StartRun()
      requires putBuffer == putBits == 0
      modifies this`prior, this`w, this`all, this`pend, this`high
      ensures Valid() && all == NONE && prior == out
    {
      hide Stuff, RightJustified, LeftJustified, Holds;
      EmptyRun();
      prior, w, all, pend, high := out, [], NONE, 0, 0;
    }
  }
}
