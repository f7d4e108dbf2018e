/**
 * The arithmetic decoder of jdarith.c: byte input with marker detection, renormalization with a
 * floating cut point, and the decision itself. The ghost fields say which exact state the
 * registers stand for: `coder` as after full renormalization, `iv` the interval as it is now.
 */
module ArithDecoder {
  import opened Arithmetic
  import opened Bits
  import opened Markers
  import opened Aritab
  import opened ArithSpec
  import opened ArithStats

  /** c is the distance of the point from the lower end, in units of the last bit read. */
  predicate Tracks(w: seq<Byte>, iv: Interval, read: nat, c: int, a: int, ct: int) {
    && iv.Sound() && a == iv.a && ct == Cut(iv.n) && read == Bytes(iv.n)
    && c == Prefix(w, read) - iv.low * Pow2(ct)
    && In(w, iv)
  }

  lemma TracksBounds(w: seq<Byte>, iv: Interval, read: nat, c: int, a: int, ct: int)
    requires Tracks(w, iv, read, c, a, ct)
    ensures iv.Sound() && a == iv.a && 0 <= ct <= 7 && ct == Cut(iv.n)
    ensures 0 <= c < a * Pow2(ct)
    ensures 0 <= c < 0x80_0000
  {
    DistributeSum(iv.low, iv.a, Pow2(ct));
    BelowWindow(a, ct);
  }

  lemma DistributeSum(x: int, y: int, p: int)
    ensures (x + y) * p == x * p + y * p
  {
  }

  lemma BelowWindow(a: nat, ct: nat)
    requires a <= 0x1_0000 && ct <= 7
    ensures a * Pow2(ct) <= 0x80_0000
  {
    Pow2Monotone(ct, 7);
    assert Pow2(7) == 128;
    MulMonotone(a, 0x1_0000, Pow2(ct));
  }

  /** Shifting `a` instead of c: the cut point moves, a byte is appended when no bit is left. */
  lemma TracksDoubled(w: seq<Byte>, iv: Interval, read: nat, c: int, a: int, ct: int)
    requires Tracks(w, iv, read, c, a, ct) && a < 0x8000
    ensures ct > 0 ==> Tracks(w, Doubled(iv), read, c, 2 * a, ct - 1)
    ensures ct == 0 ==> Tracks(w, Doubled(iv), read + 1, 256 * c + At(w, read), 2 * a, 7)
  {
    InDoubled(w, iv);
    if ct > 0 {
      assert Pow2(ct) == 2 * Pow2(ct - 1);
      assert Cut(iv.n + 1) == ct - 1 && Bytes(iv.n + 1) == read;
      HalveScale(iv.low, Pow2(ct - 1));
    } else {
      assert Cut(iv.n + 1) == 7 && Bytes(iv.n + 1) == read + 1;
      assert Pow2(7) == 128;
    }
  }

  /** The first two bytes give the whole interval. */
  lemma TracksStart(w: seq<Byte>, c: int)
    requires c == Prefix(w, 2)
    ensures Tracks(w, START.iv, 2, c, 0x1_0000, 0)
  {
    assert Prefix(w, 1) == At(w, 0);
    assert Prefix(w, 0) == 0;
  }

  /** The comparison of the registers is the comparison of the point with the cut. */
  lemma TracksUpper(w: seq<Byte>, iv: Interval, sv: Stat, read: nat, c: int, a: int, ct: int)
    requires Tracks(w, iv, read, c, a, ct) && a >= 0x8000
    ensures c >= Shl(a - RowOf(sv).qe, ct) <==> PointIsUpper(w, iv, sv)
    ensures 0 < RowOf(sv).qe < 0x8000
  {
    hide RowOf;
    var rest := a - RowOf(sv).qe;
    DistributeSum(iv.low, rest, Pow2(ct));
    assert iv.low + rest == iv.low + iv.a - RowOf(sv).qe;
  }

  /** The registers follow the interval into the part that holds the point. */
  lemma TracksNarrowed(w: seq<Byte>, iv: Interval, sv: Stat, bit: Bit, read: nat, c: int, a: int, ct: int)
    requires Tracks(w, iv, read, c, a, ct) && a >= 0x8000
    requires PointIsUpper(w, iv, sv) == Upper(iv, sv, bit)
    ensures var rest := a - RowOf(sv).qe;
            var iv' := Narrow(iv, sv, bit);
            if Upper(iv, sv, bit) then iv'.a == RowOf(sv).qe && Tracks(w, iv', read, c - Shl(rest, ct), iv'.a, ct)
            else iv'.a == rest && Tracks(w, iv', read, c, iv'.a, ct)
  {
    hide RowOf, Prefix, PointIsUpper;
    InNarrow(w, iv, sv, bit);
    DistributeSum(iv.low, a - RowOf(sv).qe, Pow2(ct));
    hide In;
  }

  /** What the comparison means: the decision, the next statistics byte and the next state. */
  lemma DecisionCases(w: seq<Byte>, s: Coder, st: BinId)
    ensures var sv := Get(s.bins, st);
            var qe, bit, upper := RowOf(sv).qe, DecodeBit(w, s, st), PointIsUpper(w, s.iv, sv);
            var rest := s.iv.a - qe;
            && upper == Upper(s.iv, sv, bit) && rest > 0
            && bit == (if upper == (rest >= qe) then 1 - Mps(sv) else Mps(sv))
            && DecodeStep(w, s, st)
               == CoderState(Renorm(Narrow(s.iv, sv, bit)),
                             s.bins[st := if upper == (rest >= qe) then AfterLps(sv)
                                          else if rest >= 0x8000 then sv else AfterMps(sv)])
  {
    hide RowOf, PointIsUpper, AfterLps, AfterMps, Narrow;
  }

  /** The whole decision in terms of the registers. */
  lemma DecisionTracked(w: seq<Byte>, s: Coder, st: BinId, read: nat, c: int, a: int, ct: int)
    requires Tracks(w, s.iv, read, c, a, ct)
    ensures var sv := Get(s.bins, st);
            var qe, bit := RowOf(sv).qe, DecodeBit(w, s, st);
            var rest, iv := a - qe, Narrow(s.iv, sv, bit);
            var upper := c >= Shl(rest, ct);
            && ct >= 0 && rest > 0 && 0 < qe < 0x8000 && iv.Sound()
            && bit == (if upper == (rest >= qe) then 1 - Mps(sv) else Mps(sv))
            && Tracks(w, iv, read, if upper then c - Shl(rest, ct) else c, if upper then qe else rest, ct)
            && DecodeStep(w, s, st)
               == CoderState(Renorm(iv), s.bins[st := if upper == (rest >= qe) then AfterLps(sv)
                                                      else if rest >= 0x8000 then sv else AfterMps(sv)])
  {
    hide RowOf, PointIsUpper, AfterLps, AfterMps, Narrow, Tracks, Shl, DecodeBit, DecodeStep, Mps, Upper, Get;
    var sv := Get(s.bins, st);
    TracksBounds(w, s.iv, read, c, a, ct);
    DecisionCases(w, s, st);
    TracksUpper(w, s.iv, sv, read, c, a, ct);
    TracksNarrowed(w, s.iv, sv, DecodeBit(w, s, st), read, c, a, ct);
  }

  lemma FixedStep(w: seq<Byte>, s: Coder, st: BinId)
    requires Get(s.bins, Fixed) == 113
    ensures Get(DecodeStep(w, s, st).bins, Fixed) == 113
  {
    hide DecodeBit, RowOf, AfterLps, AfterMps, Renorm, Narrow;
    FixedStays();
  }

  datatype Source = Source(bytes: seq<Byte>, pos: nat, unreadMarker: nat)

  /** get_byte on a source that ends: jdatasrc.c then supplies a fake EOI marker. */
  function ByteAt(bytes: seq<Byte>, pos: nat): Byte {
    if pos < |bytes| then bytes[pos] else if (pos - |bytes|) % 2 == 0 then 0xFF else JPEG_EOI
  }

  /** The input still holds the data bytes of w from number `read` on, and then the marker `next`. */
  predicate InputHolds(w: seq<Byte>, read: nat, next: Found, src: Source) {
    if src.unreadMarker == 0 then
      read <= |w| && src.pos <= |src.bytes| && w[read..] == Unstuff(src.bytes[src.pos..]) && next == Marker(src.bytes[src.pos..])
    else
      && read >= |w| && src.unreadMarker == next.code
      && (next.code != JPEG_EOI ==> src.pos <= |src.bytes| && src.bytes[src.pos..] == next.rest)
  }

  /** What the next byte of w is, given what the input still holds. */
  lemma NextOf(w: seq<Byte>, read: nat, rest: seq<Byte>)
    requires read <= |w| && w[read..] == rest
    ensures rest == [] ==> read == |w| && At(w, read) == 0
    ensures rest != [] ==> read < |w| && At(w, read) == rest[0] && w[read + 1..] == rest[1..]
  {
    if rest != [] {
      assert w[read + 1..] == w[read..][1..];
    }
  }

  lemma UnstuffStep(bytes: seq<Byte>, pos: nat)
    requires pos <= |bytes|
    ensures pos == |bytes| ==> Unstuff(bytes[pos..]) == []
    ensures pos < |bytes| && bytes[pos] != 0xFF ==> Unstuff(bytes[pos..]) == [bytes[pos]] + Unstuff(bytes[pos + 1..])
    ensures pos < |bytes| && bytes[pos] != 0xFF ==> Marker(bytes[pos..]) == Marker(bytes[pos + 1..])
  {
    if pos < |bytes| {
      assert bytes[pos..][1..] == bytes[pos + 1..];
    }
  }

  lemma SkipFillsAt(s: seq<Byte>, i: nat, j: nat)
    requires i <= j <= |s| && (j < |s| ==> s[j] != 0xFF)
    requires forall k :: i <= k < j ==> s[k] == 0xFF
    ensures SkipFills(s, i) == j
    decreases j - i
  {
    if i < j {
      SkipFillsAt(s, i + 1, j);
    }
  }

  /** 0xFF, fill bytes, then the byte at q: a stuffed 0xFF if that byte is zero, else a marker. */
  lemma SkippedFills(bytes: seq<Byte>, p0: nat, q: nat)
    requires p0 <= |bytes| && p0 < q && ByteAt(bytes, p0) == 0xFF && ByteAt(bytes, q) != 0xFF
    requires forall k :: p0 < k < q ==> ByteAt(bytes, k) == 0xFF
    ensures ByteAt(bytes, q) == 0 ==> q < |bytes| && Unstuff(bytes[p0..]) == [0xFF] + Unstuff(bytes[q + 1..])
    ensures ByteAt(bytes, q) == 0 ==> Marker(bytes[p0..]) == Marker(bytes[q + 1..])
    ensures ByteAt(bytes, q) != 0 ==> Unstuff(bytes[p0..]) == []
    ensures ByteAt(bytes, q) != 0 ==> if q < |bytes| then Marker(bytes[p0..]) == Found(bytes[q], bytes[q + 1..])
                                      else ByteAt(bytes, q) == JPEG_EOI && Marker(bytes[p0..]) == Found(JPEG_EOI, [])
  {
    if p0 < |bytes| {
      var t := bytes[p0..];
      if q < |bytes| {
        assert forall k :: 1 <= k < q - p0 ==> t[k] == ByteAt(bytes, p0 + k);
        SkipFillsAt(t, 1, q - p0);
        assert t[q - p0 + 1..] == bytes[q + 1..];
      } else {
        assert forall k :: 1 <= k < |t| ==> t[k] == ByteAt(bytes, p0 + k);
        SkipFillsAt(t, 1, |t|);
      }
    }
  }

  class Decoder {
    var c: int                       // base of coding interval + input bit buffer
    var a: int                       // normalized size of coding interval
    var ct: int                      // # of bits left in bit buffer part of c; -16 before the first bytes
    var src: seq<Byte>               // the data source
    var pos: nat                     // next input byte
    var unreadMarker: nat            // marker code met in the data, 0 if none
    const stats: Statistics          // the statistics areas

    ghost var coder: Coder           // the exact state, renormalized
    ghost var iv: Interval           // the interval the registers hold now
    ghost var w: seq<Byte>           // the data bytes of the segment
    ghost var read: nat              // how many bytes of w (continued with zeros) have been fetched
    ghost var next: Found            // the marker behind the segment

    function Input(): Source
      reads this`src, this`pos, this`unreadMarker
    {
      Source(src, pos, unreadMarker)
    }

    method GetByte() returns (b: Byte)
      modifies this`pos
      ensures b == ByteAt(src, old(pos)) && pos == old(pos) + 1
    {
      b := if pos < |src| then src[pos] else if (pos - |src|) % 2 == 0 then 0xFF else JPEG_EOI;
      pos := pos + 1;
    }

    /** After a 0xFF byte: swallow extra 0xFF bytes; zero is a stuffed byte, anything else a marker. */
    method FetchEscaped() returns (data: Byte)
      requires pos > 0 && unreadMarker == 0 && pos - 1 <= |src| && ByteAt(src, pos - 1) == 0xFF
      modifies this`pos, this`unreadMarker
      ensures pos > old(pos)
      ensures unreadMarker == 0 ==> data == 0xFF && pos <= |src| && Unstuff(src[old(pos) - 1..]) == [0xFF] + Unstuff(src[pos..])
                                    && Marker(src[old(pos) - 1..]) == Marker(src[pos..])
      ensures unreadMarker != 0 ==> data == 0 && Unstuff(src[old(pos) - 1..]) == [] && unreadMarker == Marker(src[old(pos) - 1..]).code
      ensures unreadMarker != 0 && unreadMarker != JPEG_EOI ==> pos <= |src| && src[pos..] == Marker(src[old(pos) - 1..]).rest
    {
      ghost var p0 := pos - 1;
      data := GetByte();
      while data == 0xFF
        invariant p0 + 1 < pos <= |src| + 2 && data == ByteAt(src, pos - 1) && unreadMarker == 0
        invariant forall k :: p0 < k < pos - 1 ==> ByteAt(src, k) == 0xFF
        decreases |src| + 2 - pos
      {
        data := GetByte();
      }
      SkippedFills(src, p0, pos - 1);
      if data == 0 {
        data := 0xFF;
      } else {
        unreadMarker := data;
        data := 0;
      }
    }

    /** Fetch the next data byte, or zero once a marker has been met. */
    method FetchData() returns (data: Byte)
      requires InputHolds(w, read, next, Input())
      modifies this`pos, this`unreadMarker, this`read
      ensures data == At(w, old(read)) && read == old(read) + 1
      ensures InputHolds(w, read, next, Input())
    {
      hide Unstuff, Marker;
      if unreadMarker != 0 {
        data := 0;
      } else {
        UnstuffStep(src, pos);
        NextOf(w, read, Unstuff(src[pos..]));
        data := GetByte();
        if data == 0xFF {
          data := FetchEscaped();
        }
      }
      read := read + 1;
    }

    /** jinit_arith_decoder. */
    constructor (src: seq<Byte>)
      ensures fresh(stats) && fresh(stats.Repr()) && Settled() && coder == START
      ensures this.src == src && pos == 0 && unreadMarker == 0
    {
      stats := new Statistics();
      c, a, ct := 0, 0, 0;
      this.src, pos, unreadMarker := src, 0, 0;
      coder, iv, w, read, next := START, START.iv, [], 0, Found(JPEG_EOI, []);
    }

    /** Before the first decision: two bytes must be fetched to fill c. */
    ghost predicate Starting()
      reads this
    {
      a == 0 && ct == -16 + 8 * read && read < 2 && c == Prefix(w, read) && iv == START.iv
    }

    /** The input is where the data and the marker behind it are, whatever the registers hold. */
    ghost predicate Fed()
      reads this
    {
      InputHolds(w, read, next, Input())
    }

    ghost predicate Valid()
      reads this, stats, stats.dcStats, stats.acStats, stats.fixedBin
    {
      && Fed()
      && (Starting() || Tracks(w, iv, read, c, a, ct))
      && iv.Sound() && Renorm(iv) == coder.iv
      && Settled()
    }

    /** The statistics areas hold the exact bins. */
    ghost predicate Settled()
      reads this, stats, stats.dcStats, stats.acStats, stats.fixedBin
    {
      stats.Agrees(coder.bins) && Get(coder.bins, Fixed) == 113
    }

    /** The value that marks a bad code is no shift count. */
    lemma ValidRuns()
      requires Valid()
      ensures ct != -1 && Fed()
    {
    }

    /** After a bad code: no further decision is decoded in this segment. */
    method GiveUp()
      requires Valid()
      modifies this`ct
      ensures Fed() && Settled() && ct == -1
    {
      ct := -1;
    }

    /** Initialize the arithmetic decoding variables at the start of a segment's data. */
    method InitRegisters()
      requires stats.Agrees(map[]) && pos <= |src| && unreadMarker == 0
      modifies this`c, this`a, this`ct, this`coder, this`iv, this`w, this`read, this`next
      ensures Valid() && coder == START && w == Unstuff(src[pos..]) && next == Marker(src[pos..])
    {
      c := 0;
      a := 0;
      ct := -16;
      coder, iv, w, read, next := START, START.iv, Unstuff(src[pos..]), 0, Marker(src[pos..]);
      hide Unstuff, Marker, Tracks, Statistics.Agrees;
      assert w[0..] == w;
      assert Prefix(w, 0) == 0;
    }

    /** One turn of the renormalization loop. */
    method RenormStep()
      requires InputHolds(w, read, next, Input()) && a < 0x8000
      requires Starting() || Tracks(w, iv, read, c, a, ct)
      modifies this`c, this`a, this`ct, this`iv, this`pos, this`unreadMarker, this`read
      ensures InputHolds(w, read, next, Input())
      ensures old(Starting()) ==> iv == old(iv) && read == old(read) + 1
                                  && if read < 2 then Starting() else Tracks(w, iv, read, c, a, ct) && a == 0x1_0000
      ensures !old(Starting()) ==> iv == Doubled(old(iv)) && a == 2 * old(a) && Tracks(w, iv, read, c, a, ct)
    {
      hide InputHolds, Tracks;
      ghost var starting := Starting();
      if !starting {
        TracksBounds(w, iv, read, c, a, ct);
        TracksDoubled(w, iv, read, c, a, ct);
        iv := Doubled(iv);
      }
      ct := ct - 1;
      if ct < 0 {
        var data := FetchData();
        c := c * 0x100 + data;
        ct := ct + 8;
        if ct < 0 {
          // need more initial bytes
          ct := ct + 1;
          if ct == 0 {
            // got 2 initial bytes -> re-init a and exit loop
            a := 0x8000;
          }
        }
      }
      a := 2 * a;
      if starting && read == 2 {
        TracksStart(w, c);
      }
    }

    /** next_marker of jdmarker.c: skip to the next marker, stuffed zeros and data included. */
    method NextMarker()
      requires unreadMarker == 0 && pos <= |src|
      modifies this`pos, this`unreadMarker
      ensures unreadMarker == Marker(old(src[pos..])).code
      ensures unreadMarker != JPEG_EOI ==> pos <= |src| && src[pos..] == Marker(old(src[pos..])).rest
    {
      hide Unstuff, Marker;
      while true
        invariant unreadMarker == 0 && pos <= |src| && Marker(src[pos..]) == Marker(old(src[pos..]))
        decreases |src| - pos
      {
        UnstuffStep(src, pos);
        var b := GetByte();
        if b == 0xFF {
          b := FetchEscaped();
          if b == 0 {
            return;
          }
        }
      }
    }

    /**
     * read_restart_marker: the marker behind the segment must be RSTn with the expected number;
     * resync_to_restart is not called, the method only reports that it would be.
     */
    method ReadRestartMarker(n: nat) returns (ok: bool)
      requires n < 8 && Fed()
      modifies this`pos, this`unreadMarker
      ensures ok <==> next.code == RST0 + n
      ensures ok ==> unreadMarker == 0 && pos <= |src| && src[pos..] == next.rest
    {
      hide Unstuff, Marker;
      if unreadMarker == 0 {
        NextMarker();
      }
      ok := unreadMarker == RST0 + n;
      if ok {
        unreadMarker := 0;
      }
    }

    /** Renormalization and data input: `while (a < 0x8000) { ... }`. */
    method Renormalize()
      requires InputHolds(w, read, next, Input()) && iv.Sound()
      requires Starting() || Tracks(w, iv, read, c, a, ct)
      modifies this`c, this`a, this`ct, this`iv, this`pos, this`unreadMarker, this`read
      ensures InputHolds(w, read, next, Input()) && Tracks(w, iv, read, c, a, ct) && a >= 0x8000
      ensures iv == Renorm(old(iv))
    {
      hide InputHolds, Tracks, Prefix;
      if !Starting() {
        TracksBounds(w, iv, read, c, a, ct);
      }
      while a < 0x8000
        invariant InputHolds(w, read, next, Input()) && iv.Sound()
        invariant Starting() || (Tracks(w, iv, read, c, a, ct) && a == iv.a)
        invariant Renorm(iv) == Renorm(old(iv))
        decreases if a == 0 then 2 - read else 0, 0x1_0000 - a
      {
        RenormStep();
        if !Starting() {
          TracksBounds(w, iv, read, c, a, ct);
        }
      }
      TracksBounds(w, iv, read, c, a, ct);
    }

    /** The point lies in the upper part: conditional LPS exchange. */
    method UpperPart(st: BinId, sv: Stat, qe: int, nl: Byte, nm: Byte) returns (bit: Bit)
      requires stats.Agrees(coder.bins) && stats.Usable(st)
      requires Xor80(sv, nl) == AfterLps(sv) && Xor80(sv, nm) == AfterMps(sv)
      modifies this`a, stats.dcStats, stats.acStats, stats.fixedBin
      ensures a == qe && bit == (if old(a) >= qe then 1 - Mps(sv) else Mps(sv))
      ensures stats.Agrees(coder.bins[st := if old(a) >= qe then AfterLps(sv) else AfterMps(sv)])
    {
      hide Statistics.Agrees, AfterLps, AfterMps, Xor80;
      bit := Mps(sv);
      if a < qe {
        a := qe;
        stats.Store(st, Xor80(sv, nm), coder.bins);
      } else {
        a := qe;
        stats.Store(st, Xor80(sv, nl), coder.bins);
        bit := 1 - bit;
      }
    }

    /** The point lies in the lower part: conditional MPS exchange, estimation only if renormalization follows. */
    method LowerPart(st: BinId, sv: Stat, qe: int, nl: Byte, nm: Byte) returns (bit: Bit)
      requires stats.Agrees(coder.bins) && stats.Usable(st) && sv == Get(coder.bins, st)
      requires Xor80(sv, nl) == AfterLps(sv) && Xor80(sv, nm) == AfterMps(sv) && qe < 0x8000
      modifies stats.dcStats, stats.acStats, stats.fixedBin
      ensures bit == (if a < qe then 1 - Mps(sv) else Mps(sv))
      ensures stats.Agrees(coder.bins[st := if a < qe then AfterLps(sv) else if a >= 0x8000 then sv else AfterMps(sv)])
    {
      hide Statistics.Agrees, AfterLps, AfterMps, Xor80, Get, RowOf;
      stats.LoadAgrees(coder.bins, st);
      bit := Mps(sv);
      if a < 0x8000 {
        if a < qe {
          stats.Store(st, Xor80(sv, nl), coder.bins);
          bit := 1 - bit;
        } else {
          stats.Store(st, Xor80(sv, nm), coder.bins);
        }
      }
    }

    /** The decision itself, from a normalized state. */
    method Decide(st: BinId) returns (bit: Bit)
      requires InputHolds(w, read, next, Input()) && iv == coder.iv && Tracks(w, iv, read, c, a, ct)
      requires Settled() && stats.Usable(st)
      modifies this`c, this`a, this`iv, this`coder, stats.dcStats, stats.acStats, stats.fixedBin
      ensures bit == DecodeBit(w, old(coder), st) && coder == DecodeStep(w, old(coder), st)
      ensures Valid()
    {
      hide InputHolds, Tracks, Prefix, RowOf, Statistics.Agrees, Xor80, AfterLps, AfterMps, DecodeBit, PointIsUpper, Shl, DecodeStep, Narrow, Upper, Mps, Get, Renorm;
      DecisionTracked(w, coder, st, read, c, a, ct);
      FixedStep(w, coder, st);
      stats.LoadAgrees(coder.bins, st);
      var sv := stats.Load(st);
      var qe, nl, nm := Fetch(sv);
      ghost var next, iv' := DecodeStep(w, coder, st), Narrow(iv, sv, DecodeBit(w, coder, st));
      a := a - qe;
      var temp := Shl(a, ct);
      if c >= temp {
        c := c - temp;
        bit := UpperPart(st, sv, qe, nl, nm);
      } else {
        bit := LowerPart(st, sv, qe, nl, nm);
      }
      coder, iv := next, iv';
    }

    /** The core arithmetic decoding routine. */
    method ArithDecode(st: BinId) returns (bit: Bit)
      requires Valid() && stats.Usable(st)
      modifies this`c, this`a, this`ct, this`pos, this`unreadMarker, this`iv, this`coder, this`read
      modifies stats.dcStats, stats.acStats, stats.fixedBin
      ensures Valid()
      ensures bit == DecodeBit(w, old(coder), st) && coder == DecodeStep(w, old(coder), st)
    {
      hide InputHolds, Tracks, Prefix, Statistics.Agrees, DecodeBit, DecodeStep;
      Renormalize();
      bit := Decide(st);
    }
  }
}
