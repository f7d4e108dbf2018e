/**
 * What the registers of the arithmetic encoder (c, a, sc, zc, ct, buffer of jcarith.c) stand for,
 * and why each step of arith_encode and finish_pass keeps that meaning: the bytes already sent,
 * the pending zeros, the buffered byte, the stacked 0xFF bytes and the C register together denote
 * the exact lower end of the coding interval.
 */
module ArithRegisters {
  import opened Arithmetic
  import opened Bits
  import opened Aritab
  import opened ArithSpec
  import opened ArithFinish

  // ----- Values of byte strings around a carry -----

  /** The delayed bytes: pending zeros, the most recent byte that is not 0xFF, stacked 0xFF bytes. */
  function Delayed(zc: nat, buffer: int, sc: nat): seq<Byte>
    requires -1 <= buffer <= 0xFE
  {
    Repeat(0, zc) + (if buffer >= 0 then [buffer] else []) + Repeat(0xFF, sc)
  }

  lemma {:induction false} ValOnes(s: seq<Byte>, k: nat)
    ensures Val(s + Repeat(0xFF, k)) + 1 == (Val(s) + 1) * Pow2(8 * k)
  {
    if k == 0 {
      assert s + Repeat(0xFF, 0) == s;
    } else {
      var t := s + Repeat(0xFF, k - 1);
      ValOnes(s, k - 1);
      assert s + Repeat(0xFF, k) == t + [0xFF];
      ValSnoc(t, 0xFF);
      Pow2Byte(k - 1);
      Times256(Val(s) + 1, Pow2(8 * (k - 1)), Pow2(8 * k));
    }
  }

  lemma {:induction false} ValZeros(s: seq<Byte>, k: nat)
    ensures Val(s + Repeat(0, k)) == Val(s) * Pow2(8 * k)
  {
    if k == 0 {
      assert s + Repeat(0, 0) == s;
    } else {
      var t := s + Repeat(0, k - 1);
      ValZeros(s, k - 1);
      assert s + Repeat(0, k) == t + [0];
      ValSnoc(t, 0);
      Pow2Byte(k - 1);
      Times256(Val(s), Pow2(8 * (k - 1)), Pow2(8 * k));
    }
  }

  lemma Times256(x: int, p: int, q: int)
    requires q == 256 * p
    ensures x * q == 256 * (x * p)
  {
  }

  /** Adding one to a value increments the byte before the stacked 0xFF bytes and zeroes them. */
  lemma CarryVal(s: seq<Byte>, b: Byte, k: nat)
    requires b <= 0xFE
    ensures Val(s + [b] + Repeat(0xFF, k)) + 1 == Val(s + [b + 1] + Repeat(0, k))
  {
    ValOnes(s + [b], k);
    ValZeros(s + [b + 1], k);
    ValSnoc(s, b);
    ValSnoc(s, b + 1);
  }

  /** The delayed bytes with what was sent before them. */
  function Sent(w: seq<Byte>, zc: nat, buffer: int, sc: nat): seq<Byte>
    requires -1 <= buffer <= 0xFE
  {
    w + Delayed(zc, buffer, sc)
  }

  /** t is s with one more byte position, whose value `temp` may carry into s. */
  predicate Appended(s: seq<Byte>, t: seq<Byte>, temp: int) {
    |t| == |s| + 1 && Val(t) == Val(s) * 256 + temp
  }

  datatype Regs = Regs(c: int, a: int, sc: int, zc: int, ct: int, buffer: int)

  /** What holds of the counters and of the data bytes w sent so far, whatever the interval. */
  predicate WellFormed(w: seq<Byte>, r: Regs) {
    match r
    case Regs(c, a, sc, zc, ct, buffer) =>
      && sc >= 0 && zc >= 0 && -1 <= buffer <= 0xFE
      && (buffer == -1 ==> w == [] && zc == 0)
      && (w != [] ==> w[|w| - 1] != 0)
  }

  /** How the registers represent an exact interval. */
  predicate Represents(iv: Interval, w: seq<Byte>, r: Regs) {
    && WellFormed(w, r)
    && 0 <= r.c && 0 < r.a <= 0x10000 && iv.a == r.a && 0 <= r.ct <= 11
    && var all := Sent(w, r.zc, r.buffer, r.sc);
    && iv.low == Val(all) * Pow2(27 - r.ct) + r.c
    && iv.n + r.ct == 8 * |all| + 11
    && (r.ct > 8 ==> all == [])
    && r.c + r.a <= 9 * Pow2(24 - r.ct)
  }

  lemma NoneRepeated(w: seq<Byte>, b: Byte)
    ensures w == w + Repeat(b, 0)
  {
  }

  lemma OneMoreRepeated(w: seq<Byte>, b: Byte, n: nat)
    ensures w + Repeat(b, n) + [b] == w + Repeat(b, n + 1)
  {
    assert Repeat(b, n + 1) == Repeat(b, n) + [b];
  }

  /** The carry bit of the final register value. */
  lemma CarrySplit(c: nat)
    requires c < 0x1000_0000
    ensures c % 0x800_0000 == if c >= 0x800_0000 then c - 0x800_0000 else c
    ensures c % 0x800 == 0 ==> c % 0x800_0000 % 0x800 == 0
  {
  }

  lemma NothingSent(out: seq<Byte>)
    ensures out == out + Stuff([])
  {
  }

  lemma StartRepresents()
    ensures Represents(START.iv, [], Regs(0, 0x10000, 0, 0, 11, -1))
  {
    Pow2Values();
    assert Pow2(24) == 2048 * Pow2(13) by { Pow2Add(11, 13); }
    assert Sent([], 0, -1, 0) == [];
  }

  lemma RepresentsBounds(iv: Interval, w: seq<Byte>, r: Regs)
    requires Represents(iv, w, r)
    ensures 0 <= r.c < 0x1000_0000 && 0 < r.a <= 0x10000 && 0 <= r.ct <= 11 && -1 <= r.buffer <= 0xFE
    ensures WellFormed(w, r) && iv.a == r.a
  {
    Pow2Values();
    Pow2Monotone(24 - r.ct, 24);
  }

  /** While no byte is delayed that could absorb a carry, the interval ends below the carry bit. */
  lemma NoCarryBeforeFirstByte(iv: Interval, w: seq<Byte>, r: Regs)
    requires Represents(iv, w, r) && iv.Sound() && r.buffer == -1
    ensures r.c + r.a <= Pow2(27 - r.ct)
  {
    hide Pow2, Val;
    var all := Sent(w, r.zc, -1, r.sc);
    assert all == [] + Repeat(0xFF, r.sc);
    ValOnes([], r.sc);
    assert Val([]) == 0 by { ValNil(); }
    Pow2Add(16, iv.n);
    Pow2Add(8 * r.sc, 27 - r.ct);
    Pow2Values();
    BelowCarry(Val(all), r.c + r.a, Pow2(27 - r.ct));
  }

  lemma ValNil()
    ensures Val([]) == 0
  {
  }

  lemma BelowCarry(v: int, x: int, q: int)
    requires v * q + x <= (v + 1) * q
    ensures x <= q
  {
  }

  /** A carry only happens behind a delayed byte that can absorb it, and leaves at most 0x1F. */
  lemma CarryIsAbsorbed(iv: Interval, w: seq<Byte>, c: int, a: int, sc: int, zc: int, buffer: int)
    requires Represents(iv, w, Regs(c, a, sc, zc, 0, buffer)) && iv.Sound()
    ensures c / 0x80000 <= 0x11F
    ensures c / 0x80000 > 0xFF ==> 0 <= buffer <= 0xFE
  {
    Pow2Values();
    if buffer < 0 {
      NoCarryBeforeFirstByte(iv, w, Regs(c, a, sc, zc, 0, buffer));
    }
  }

  /** A byte-out moves the top of c behind the delayed bytes. */
  lemma ByteOutRepresents(iv: Interval, w: seq<Byte>, c: int, a: int, sc: int, zc: int, buffer: int,
                          w': seq<Byte>, sc': int, zc': int, buffer': int)
    requires Represents(iv, w, Regs(c, a, sc, zc, 0, buffer))
    requires WellFormed(w', Regs(c % 0x80000, a, sc', zc', 8, buffer'))
    requires Appended(Sent(w, zc, buffer, sc), Sent(w', zc', buffer', sc'), c / 0x80000)
    ensures Represents(iv, w', Regs(c % 0x80000, a, sc', zc', 8, buffer'))
  {
    Pow2Values();
    Regroup(Val(Sent(w, zc, buffer, sc)), Val(Sent(w', zc', buffer', sc')), c);
  }

  lemma Regroup(v: int, v': int, c: int)
    requires v' == v * 256 + c / 0x80000
    ensures v' * 0x80000 + c % 0x80000 == v * 0x800_0000 + c
  {
  }

  /** The three ways a ready byte joins the delayed bytes. */
  lemma CarryStep(w: seq<Byte>, sc: nat, zc: nat, buffer: Byte, temp: int)
    requires buffer <= 0xFE && 0x100 <= temp <= 0x11F
    ensures var w' := w + Repeat(0, zc) + [buffer + 1];
            Appended(Sent(w, zc, buffer, sc), Sent(w', sc, temp - 0x100, 0), temp)
  {
    hide Pow2, Val, Repeat;
    var w' := w + Repeat(0, zc) + [buffer + 1];
    assert w + Delayed(zc, buffer, sc) == (w + Repeat(0, zc)) + [buffer] + Repeat(0xFF, sc);
    assert w' + Delayed(sc, temp - 0x100, 0) == (w' + Repeat(0, sc)) + [temp - 0x100];
    CarryVal(w + Repeat(0, zc), buffer, sc);
    ValSnoc(w' + Repeat(0, sc), temp - 0x100);
  }

  lemma StackStep(w: seq<Byte>, sc: nat, zc: nat, buffer: int)
    requires -1 <= buffer <= 0xFE
    ensures Appended(Sent(w, zc, buffer, sc), Sent(w, zc, buffer, sc + 1), 0xFF)
  {
    assert w + Delayed(zc, buffer, sc + 1) == (w + Delayed(zc, buffer, sc)) + [0xFF];
    ValSnoc(w + Delayed(zc, buffer, sc), 0xFF);
  }

  lemma SettleStep(w: seq<Byte>, sc: nat, zc: nat, buffer: int, w': seq<Byte>, zc': nat, temp: Byte)
    requires -1 <= buffer <= 0xFE && temp <= 0xFE
    requires Sent(w, zc, buffer, sc) == w' + Repeat(0, zc')
    ensures Appended(Sent(w, zc, buffer, sc), Sent(w', zc', temp, 0), temp)
  {
    assert w' + Delayed(zc', temp, 0) == (w' + Repeat(0, zc')) + [temp];
    ValSnoc(w' + Repeat(0, zc'), temp);
  }

  /** Shifting both registers doubles the interval's scale. */
  lemma DoubledRepresents(iv: Interval, w: seq<Byte>, r: Regs)
    requires Represents(iv, w, r) && r.ct >= 1 && r.a < 0x8000
    ensures Represents(Doubled(iv), w, r.(c := 2 * r.c, a := 2 * r.a, ct := r.ct - 1))
  {
    var v, p := Val(Sent(w, r.zc, r.buffer, r.sc)), Pow2(27 - r.ct);
    assert Pow2(27 - (r.ct - 1)) == 2 * p && Pow2(24 - (r.ct - 1)) == 2 * Pow2(24 - r.ct);
    assert v * (2 * p) == 2 * (v * p);
  }

  /** Taking a subinterval moves c by the same amount as the exact lower end. */
  lemma NarrowedRepresents(iv: Interval, w: seq<Byte>, r: Regs, sv: Stat, bit: Bit)
    requires Represents(iv, w, r) && iv.Sound() && iv.a >= 0x8000
    ensures var iv' := Narrow(iv, sv, bit);
            Represents(iv', w, r.(c := r.c + iv'.low - iv.low, a := iv'.a))
  {
  }

  /** Coding an LPS: the smaller part, and always renormalization. */
  lemma CodeLps(s: Coder, st: BinId)
    ensures var sv := Get(s.bins, st);
            var qe, iv := RowOf(sv).qe, Narrow(s.iv, sv, 1 - Mps(sv));
            var rest := s.iv.a - qe;
            && Code(s, Decision(st, 1 - Mps(sv))) == CoderState(Renorm(iv), s.bins[st := AfterLps(sv)])
            && iv.a == (if rest >= qe then qe else rest) && iv.low == s.iv.low + (if rest >= qe then rest else 0)
            && iv.Sound() && rest > 0 && 0 < qe && iv.a < 0x8000
  {
    hide RowOf;
  }

  /** Coding an MPS: the larger part, and renormalization only when it fell below 0x8000. */
  lemma CodeMps(s: Coder, st: BinId)
    ensures var sv := Get(s.bins, st);
            var qe, iv := RowOf(sv).qe, Narrow(s.iv, sv, Mps(sv));
            var rest := s.iv.a - qe;
            && Code(s, Decision(st, Mps(sv))) == CoderState(Renorm(iv), s.bins[st := if rest >= 0x8000 then sv else AfterMps(sv)])
            && iv.a == (if rest < qe then qe else rest) && iv.low == s.iv.low + (if rest < qe then rest else 0)
            && iv.Sound() && rest > 0 && 0 < qe < 0x8000
            && (rest < 0x8000 ==> iv.a < 0x8000) && (rest >= 0x8000 ==> Renorm(iv) == iv)
  {
    hide RowOf;
  }

  // ----- Termination -----

  /** The exact point that the chosen register value y stands for. */
  function ExactPoint(iv: Interval, c: int, y: int): int {
    iv.low + y - c
  }

  lemma SplitOff16(v: nat, ct: nat)
    requires ct <= 11
    ensures v * Pow2(27 - ct) == (v * Pow2(11 - ct)) * 0x10000
  {
    var p := Pow2(11 - ct);
    Pow2Values();
    Pow2Add(11 - ct, 16);
    assert v * (p * 0x10000) == (v * p) * 0x10000;
  }

  lemma ExactPointIsBest(iv: Interval, w: seq<Byte>, r: Regs, y: nat)
    requires Represents(iv, w, r) && BestPoint(r.c, r.a, y)
    ensures ExactPoint(iv, r.c, y) >= 0 && BestPoint(iv.low, iv.a, ExactPoint(iv, r.c, y))
  {
    hide BestPoint, Sent;
    var v := Val(Sent(w, r.zc, r.buffer, r.sc));
    SplitOff16(v, r.ct);
    BestPointShift(r.c, r.a, y, v * Pow2(11 - r.ct));
    BestPointBounds(r.c, r.a, y);
  }

  /** The settled bytes s and two more bytes carry the value of the point, left-aligned. */
  lemma FinishedPrefix(iv: Interval, w: seq<Byte>, r: Regs, y: nat, s: seq<Byte>, b1: Byte, b2: Byte, wf: seq<Byte>)
    requires Represents(iv, w, r) && r.ct >= 1 && BestPoint(r.c, r.a, y)
    requires |s| == |Sent(w, r.zc, r.buffer, r.sc)|
    requires (Val(s) - Val(Sent(w, r.zc, r.buffer, r.sc))) * 0x800_0000 + b1 * 0x8_0000 + b2 * 0x800 == Shl(y, r.ct)
    requires SameBytes(wf, s + [b1, b2])
    ensures ExactPoint(iv, r.c, y) >= 0
    ensures Prefix(wf, |s| + 4) == Scale(ExactPoint(iv, r.c, y), r.ct + 5)
  {
    hide BestPoint, Sent, Scale;
    BestPointBounds(r.c, r.a, y);
    var v := Val(Sent(w, r.zc, r.buffer, r.sc));
    SamePoint(wf, s + [b1, b2], |s| + 4);
    TwoMoreBytes(s, b1, b2);
    ScaledPoint(v, y, r.ct);
  }

  lemma TwoMoreBytes(s: seq<Byte>, b1: Byte, b2: Byte)
    ensures Prefix(s + [b1, b2], |s| + 4) == Val(s) * 0x1_0000_0000 + b1 * 0x100_0000 + b2 * 0x1_0000
  {
    var t := s + [b1, b2];
    PrefixPadded(t, |s| + 4);
    Scale16(Val(t));
    hide Scale, Val, Prefix;
    assert t == (s + [b1]) + [b2];
    ValSnoc(s + [b1], b2);
    ValSnoc(s, b1);
  }

  lemma ScaledPoint(v: nat, y: nat, ct: nat)
    requires ct <= 11
    ensures Scale(v * Pow2(27 - ct) + y, ct + 5) == 32 * (v * 0x800_0000 + y * Pow2(ct))
  {
    var p, q := Pow2(27 - ct), Pow2(ct);
    Pow2Values();
    Pow2Add(27 - ct, ct);
    Pow2Add(ct, 5);
    assert Pow2(5) == 32;
    assert (v * p + y) * (q * 32) == 32 * (v * (p * q) + y * q);
  }

  lemma BestPointBounds(c: nat, a: nat, y: nat)
    requires a > 0 && BestPoint(c, a, y)
    ensures c <= y < c + a && y % 0x8000 == 0
  {
    if y % 0x10000 == 0 {
      HalfAligned(y);
    }
  }

  /** The bits below the two final bytes are zero, and the chosen value still fits the register. */
  lemma FinalBits(c: nat, a: nat, y: nat, ct: nat)
    requires 1 <= ct <= 11 && a > 0 && c + a <= 9 * Pow2(24 - ct) && BestPoint(c, a, y)
    ensures y * Pow2(ct) < 0x1000_0000 && y * Pow2(ct) % 0x800 == 0
  {
    BestPointBounds(c, a, y);
    hide BestPoint;
    FinalBelow(y, ct);
    FinalAligned(y, Pow2(ct));
  }

  lemma FinalBelow(y: nat, ct: nat)
    requires ct <= 11 && y <= 9 * Pow2(24 - ct)
    ensures y * Pow2(ct) < 0x1000_0000
  {
    Pow2Values();
    Pow2Add(24 - ct, ct);
    var p, q := Pow2(24 - ct), Pow2(ct);
    MulMonotone(y, 9 * p, q);
    assert (9 * p) * q == 9 * (p * q);
  }

  lemma FinalAligned(y: nat, q: nat)
    requires y % 0x8000 == 0
    ensures y * q % 0x800 == 0
  {
    var h := y / 0x8000;
    assert y == 0x800 * (16 * h);
    assert y * q == 0x800 * (16 * h * q);
  }

  /** Before the first byte the chosen value does not carry either. */
  lemma NoFinalCarry(iv: Interval, w: seq<Byte>, r: Regs, y: nat)
    requires Represents(iv, w, r) && iv.Sound() && r.buffer == -1 && BestPoint(r.c, r.a, y)
    ensures y * Pow2(r.ct) < 0x800_0000
  {
    hide BestPoint;
    BestPointBounds(r.c, r.a, y);
    NoCarryBeforeFirstByte(iv, w, r);
    Pow2Values();
    Pow2Add(27 - r.ct, r.ct);
    MulLess(y, Pow2(27 - r.ct), Pow2(r.ct));
  }

  lemma FinalCarry(w: seq<Byte>, zc: nat, buffer: Byte, sc: nat)
    requires buffer <= 0xFE
    ensures var s, t := Sent(w, zc, buffer, sc), w + Repeat(0, zc) + [buffer + 1] + Repeat(0, sc);
            |t| == |s| && Val(t) == Val(s) + 1
  {
    assert Sent(w, zc, buffer, sc) == w + Repeat(0, zc) + [buffer] + Repeat(0xFF, sc);
    CarryVal(w + Repeat(0, zc), buffer, sc);
  }

  lemma ChosenFits(iv: Interval, w: seq<Byte>, r: Regs, y: nat)
    requires Represents(iv, w, r) && iv.Sound() && 1 <= r.ct && BestPoint(r.c, r.a, y)
    ensures 0 <= Shl(y, r.ct) < 0x1000_0000 && Shl(y, r.ct) % 0x800 == 0
    ensures y < 0x1000_0000
    ensures r.buffer == -1 ==> Shl(y, r.ct) < 0x800_0000
  {
    FinalBits(r.c, r.a, y, r.ct);
    if r.buffer == -1 {
      NoFinalCarry(iv, w, r, y);
    }
    MulMonotone(1, Pow2(r.ct), y);
  }

  /** Equal when continued with zeros. */
  ghost predicate SameBytes(w: seq<Byte>, t: seq<Byte>) {
    forall i: nat :: At(w, i) == At(t, i)
  }

  /** The two byte fields of the final register value. */
  lemma FinalFields(c: nat)
    requires c % 0x800 == 0
    ensures 0 <= c % 0x800_0000 / 0x8_0000 < 0x100 && 0 <= c % 0x8_0000 / 0x800 < 0x100
    ensures c / 0x8_0000 % 0x100 == c % 0x800_0000 / 0x8_0000
    ensures c / 0x800 % 0x100 == c % 0x8_0000 / 0x800
    ensures c % 0x800_0000 == c % 0x800_0000 / 0x8_0000 * 0x8_0000 + c % 0x8_0000 / 0x800 * 0x800
    ensures c % 0x800_0000 / 0x800 == 0 <==> c % 0x800_0000 / 0x8_0000 == 0 && c % 0x8_0000 / 0x800 == 0
  {
    var h := c / 0x800;
    var g, b2 := h / 0x100, h % 0x100;
    var hi, b1 := g / 0x100, g % 0x100;
    assert c == ((hi * 0x100 + b1) * 0x100 + b2) * 0x800;
    FieldsOf(hi, b1, b2);
  }

  lemma FieldsOf(hi: nat, b1: nat, b2: nat)
    requires b1 < 0x100 && b2 < 0x100
    ensures var c := ((hi * 0x100 + b1) * 0x100 + b2) * 0x800;
            && c / 0x8_0000 == hi * 0x100 + b1 && c / 0x800 == (hi * 0x100 + b1) * 0x100 + b2
            && c % 0x800_0000 == b1 * 0x8_0000 + b2 * 0x800 && c % 0x8_0000 == b2 * 0x800
  {
  }

  lemma NoBytesNeeded(w: seq<Byte>, zc: nat)
    ensures SameBytes(w, w + Repeat(0, zc) + [0, 0])
  {
  }

  lemma OneByteNeeded(s: seq<Byte>, b: Byte)
    ensures SameBytes(s + [b], s + [b, 0])
  {
  }

  lemma TwoBytesNeeded(s: seq<Byte>, b1: Byte, b2: Byte)
    ensures SameBytes(s + [b1] + [b2], s + [b1, b2])
  {
    assert s + [b1] + [b2] == s + [b1, b2];
  }

  /** What finish_pass has sent denotes a point of the interval, in as few bytes as possible. */
  lemma FinishedPoint(iv: Interval, w: seq<Byte>, r: Regs, s: seq<Byte>, b1: Byte, b2: Byte, wf: seq<Byte>)
    requires Represents(iv, w, r) && r.ct >= 1 && r.a >= 0x8000
    requires |s| == |Sent(w, r.zc, r.buffer, r.sc)|
    requires (Val(s) - Val(Sent(w, r.zc, r.buffer, r.sc))) * 0x800_0000 + b1 * 0x8_0000 + b2 * 0x800
          == Shl(PickPoint(r.c, r.a), r.ct)
    requires SameBytes(wf, s + [b1, b2])
    requires wf != [] ==> wf[|wf| - 1] != 0
    ensures In(wf, iv)
    ensures forall v :: In(v, iv) ==> |wf| <= |v|
  {
    var y, j := PickPoint(r.c, r.a), |s| + 4;
    FinishedPrefix(iv, w, r, y, s, b1, b2, wf);
    ExactPointIsBest(iv, w, r, y);
    var z := ExactPoint(iv, r.c, y);
    assert 8 * j == 16 + iv.n + r.ct + 5;
    BestPointBounds(iv.low, iv.a, z);
    PointInside(iv, wf, j, z);
    SameLength(wf, s + [b1, b2]);
    forall v | In(v, iv) ensures |wf| <= |v| {
      Shortest(iv, wf, v, j, z);
    }
  }

  lemma SameLength(w: seq<Byte>, t: seq<Byte>)
    requires SameBytes(w, t) && (w != [] ==> w[|w| - 1] != 0)
    ensures |w| <= |t|
  {
    if w != [] {
      assert At(w, |w| - 1) == At(t, |w| - 1);
    }
  }

  lemma PointInside(iv: Interval, w: seq<Byte>, j: nat, z: nat)
    requires 8 * j >= 16 + iv.n && j >= Bytes(iv.n) && iv.low <= z < iv.low + iv.a
    requires Prefix(w, j) == Scale(z, 8 * j - 16 - iv.n)
    ensures In(w, iv)
  {
    var p := Pow2(8 * j - 16 - iv.n);
    MulMonotone(iv.low, z, p);
    MulLess(z, iv.low + iv.a, p);
    InAtAny(w, iv, j);
  }
}
