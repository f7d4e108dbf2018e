/** Bytes, powers of two, big-endian values and the byte stuffing of entropy-coded segments. */
module Bits {

  type Byte = x: int | 0 <= x < 256
  type Bit = x: int | 0 <= x <= 1

  /** 2 to the power n, written `1 << n` in the source. */
  function Pow2(n: nat): (r: nat)
    ensures r >= 1
  {
    if n == 0 then 1 else 2 * Pow2(n - 1)
  }

  /** `x << n`. */
  function Shl(x: int, n: nat): int {
    x * Pow2(n)
  }

  lemma {:induction false} Pow2Add(m: nat, n: nat)
    ensures Pow2(m + n) == Pow2(m) * Pow2(n)
  {
    if m > 0 {
      Pow2Add(m - 1, n);
      assert Pow2(m + n) == 2 * Pow2(m - 1 + n);
    }
  }

  lemma {:induction false} Pow2Monotone(m: nat, n: nat)
    requires m <= n
    ensures Pow2(m) <= Pow2(n)
    decreases n
  {
    if m < n {
      Pow2Monotone(m, n - 1);
    }
  }

  lemma Pow2Values()
    ensures Pow2(8) == 0x100 && Pow2(11) == 0x800 && Pow2(15) == 0x8000 && Pow2(16) == 0x1_0000
    ensures Pow2(19) == 0x8_0000 && Pow2(24) == 0x100_0000 && Pow2(27) == 0x800_0000
  {
    assert Pow2(8) == 0x100;
    Pow2Add(8, 8);
    Pow2Add(8, 16);
    Pow2Add(3, 8);
    Pow2Add(3, 16);
    Pow2Add(3, 24);
  }

  /** A byte more is a factor of 256. */
  lemma Pow2Byte(n: nat)
    ensures Pow2(8 * (n + 1)) == 256 * Pow2(8 * n)
  {
    Pow2Values();
    Pow2Add(8, 8 * n);
  }

  /** The big-endian value of a byte string. */
  function Val(s: seq<Byte>): nat {
    if s == [] then 0 else Val(s[..|s| - 1]) * 256 + s[|s| - 1]
  }

  lemma ValSnoc(s: seq<Byte>, b: Byte)
    ensures Val(s + [b]) == Val(s) * 256 + b
  {
    assert (s + [b])[..|s|] == s;
  }

  function Repeat(b: Byte, n: nat): (s: seq<Byte>)
    ensures |s| == n
    ensures forall i :: 0 <= i < n ==> s[i] == b
  {
    if n == 0 then [] else Repeat(b, n - 1) + [b]
  }

  lemma RepeatSnoc(b: Byte, n: nat)
    ensures Repeat(b, n + 1) == Repeat(b, n) + [b]
    ensures Repeat(b, n + 1) == [b] + Repeat(b, n)
  {
  }

  /** Byte stuffing: every 0xFF data byte is followed by 0x00. */
  function Stuff(s: seq<Byte>): seq<Byte> {
    if s == [] then []
    else Stuff(s[..|s| - 1]) + if s[|s| - 1] == 0xFF then [0xFF, 0x00] else [s[|s| - 1]]
  }

  lemma StuffSnoc(s: seq<Byte>, b: Byte)
    ensures Stuff(s + [b]) == Stuff(s) + if b == 0xFF then [0xFF, 0x00] else [b]
  {
    assert (s + [b])[..|s|] == s;
  }

  /** The offset of the first byte at or after `i` that is not 0xFF. */
  function SkipFills(s: seq<Byte>, i: nat): (j: nat)
    requires i <= |s|
    ensures i <= j <= |s|
    ensures j < |s| ==> s[j] != 0xFF
    ensures forall k :: i <= k < j ==> s[k] == 0xFF
    decreases |s| - i
  {
    if i < |s| && s[i] == 0xFF then SkipFills(s, i + 1) else i
  }

  /**
   * The data bytes a reader finds in `s`: up to the first marker (0xFF, any number of
   * further 0xFF fill bytes, a byte that is neither 0x00 nor 0xFF), with stuffing removed.
   */
  function Unstuff(s: seq<Byte>): seq<Byte>
    decreases |s|
  {
    if s == [] then []
    else if s[0] != 0xFF then [s[0]] + Unstuff(s[1..])
    else
      var j := SkipFills(s, 1);
      if j < |s| && s[j] == 0x00 then [0xFF] + Unstuff(s[j + 1..]) else []
  }

  /** The front form of `Stuff`. */
  lemma {:induction false} StuffCons(b: Byte, s: seq<Byte>)
    ensures Stuff([b] + s) == (if b == 0xFF then [0xFF, 0x00] else [b]) + Stuff(s)
  {
    if s == [] {
      assert [b] + s == [] + [b];
      StuffSnoc([], b);
      assert [b] + s == [b];
    } else {
      var t := s[..|s| - 1];
      StuffCons(b, t);
      assert [b] + s == ([b] + t) + [s[|s| - 1]];
      StuffSnoc([b] + t, s[|s| - 1]);
    }
  }

  lemma UnstuffPlain(b: Byte, rest: seq<Byte>)
    requires b != 0xFF
    ensures Unstuff([b] + rest) == [b] + Unstuff(rest)
  {
    assert ([b] + rest)[1..] == rest;
  }

  lemma UnstuffEscaped(rest: seq<Byte>)
    ensures Unstuff([0xFF, 0x00] + rest) == [0xFF] + Unstuff(rest)
  {
    var whole := [0xFF, 0x00] + rest;
    assert SkipFills(whole, 1) == 1;
    assert whole[2..] == rest;
  }

  /** What a reader finds is what was stuffed, whatever marker segment follows. */
  lemma {:induction false} UnstuffStuff(s: seq<Byte>, tail: seq<Byte>)
    requires Unstuff(tail) == []
    ensures Unstuff(Stuff(s) + tail) == s
  {
    if s == [] {
      assert Stuff(s) + tail == tail;
    } else {
      var more := Stuff(s[1..]) + tail;
      UnstuffStuff(s[1..], tail);
      StuffedFront(s, tail);
      if s[0] == 0xFF {
        UnstuffEscaped(more);
      } else {
        UnstuffPlain(s[0], more);
      }
      hide *;
      assert s == [s[0]] + s[1..];
    }
  }

  lemma StuffedFront(s: seq<Byte>, tail: seq<Byte>)
    requires s != []
    ensures Stuff(s) + tail == (if s[0] == 0xFF then [0xFF, 0x00] else [s[0]]) + (Stuff(s[1..]) + tail)
  {
    hide Stuff;
    assert s == [s[0]] + s[1..];
    StuffCons(s[0], s[1..]);
    Associate(if s[0] == 0xFF then [0xFF, 0x00] else [s[0]], Stuff(s[1..]), tail);
  }

  lemma Associate(a: seq<Byte>, b: seq<Byte>, c: seq<Byte>)
    ensures a + b + c == a + (b + c)
  {
  }

  /** Stuffing adds one byte for each 0xFF. */
  lemma {:induction false} StuffedLength(s: seq<Byte>)
    ensures |Stuff(s)| == |s| + multiset(s)[0xFF]
  {
    if s != [] {
      var n := |s| - 1;
      StuffedLength(s[..n]);
      assert s == s[..n] + [s[n]];
    }
  }

  predicate PairedAt(t: seq<Byte>, i: nat)
    requires i < |t|
  {
    t[i] == 0xFF ==> i + 1 < |t| && t[i + 1] == 0x00
  }

  /** A stuffed segment never contains 0xFF followed by a nonzero byte, and never ends in 0xFF. */
  lemma {:induction false} StuffedHasNoMarker(s: seq<Byte>)
    ensures forall i: nat :: i < |Stuff(s)| ==> PairedAt(Stuff(s), i)
  {
    if s != [] {
      var t, t' := Stuff(s), Stuff(s[..|s| - 1]);
      StuffedHasNoMarker(s[..|s| - 1]);
      forall i: nat | i < |t| ensures PairedAt(t, i) {
        if i < |t'| {
          assert PairedAt(t', i);
        }
      }
    }
  }
}
