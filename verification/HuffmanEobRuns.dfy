/**
 * The AC scans of progressive Huffman coding (sections G.1.2.2 and G.1.2.3 of ITU-T T.81): runs of
 * zeros, runs of end-of-block, and correction bits that wait for the symbol they belong to. First
 * scans and refinement scans share the machinery; a first scan simply has no coefficients that were
 * sent before. A reader that follows figure G.7 gets every coefficient and every correction bit back.
 */
module HuffmanEobRuns {
  import opened Arithmetic
  import opened Bits
  import opened Blocks
  import opened HuffmanBits
  import opened HuffmanSymbols

  // ----- What is sent for one block -----

  /** A coefficient that was nonzero before this scan: it only needs a correction bit. */
  predicate IsOld(refine: bool, v: int) {
    refine && Abs(v) > 1
  }

  /** A coefficient that is sent for the first time. */
  predicate IsNew(refine: bool, v: int) {
    v != 0 && !IsOld(refine, v)
  }

  /** Pending: the run of end-of-blocks (EOBRUN) and its correction bits (the first BE of the buffer). */
  datatype Pend = Pend(eobrun: nat, be: seq<Bit>)

  const NO_PEND := Pend(0, [])
  const MAX_EOBRUN := 0x7FFF
  const MAX_CORR_BITS := 1000

  function Raws(bits: seq<Bit>): seq<Item> {
    if bits == [] then [] else Raws(bits[..|bits| - 1]) + [Raw(bits[|bits| - 1], 1)]
  }

  /** The symbol for a run of c end-of-blocks, and the low bits of c. */
  function EobHeader(t: nat, c: nat): seq<Item>
    requires c > 0
  {
    var n := NBits(c) - 1;
    [Sym(AcTbl(t), n * 16)] + if n > 0 then [Raw(Masked(c, n), n)] else []
  }

  /** emit_eobrun: the pending run and its correction bits. */
  function EobItems(t: nat, p: Pend): seq<Item> {
    if p.eobrun > 0 then EobHeader(t, p.eobrun) + Raws(p.be) else []
  }

  datatype Progress = Progress(items: seq<Item>, p: Pend, r: nat, br: seq<Bit>)

  /** The index of the last new coefficient of the band, 0 if there is none. */
  function LastNew(refine: bool, x: Zigzag, ss: nat, se: nat): (eob: nat)
    requires 1 <= ss && se < DCTSIZE2
    ensures eob == 0 || (ss <= eob <= se && IsNew(refine, x[eob]))
    ensures forall j :: ss <= j <= se && j > eob ==> !IsNew(refine, x[j])
    decreases se
  {
    if se < ss then 0 else if IsNew(refine, x[se]) then se else LastNew(refine, x, ss, se - 1)
  }

  /**
   * From coefficient k on: r zeros and the correction bits br since the last symbol, p pending from
   * earlier blocks. Zero runs are only announced where a new coefficient follows.
   */
  function BandItems(t: nat, refine: bool, x: Zigzag, se: nat, eob: nat, k: nat, r: nat, br: seq<Bit>, p: Pend): Progress
    requires eob <= se < DCTSIZE2 && k <= se + 1
    decreases se + 1 - k, r
  {
    if k > se then Progress([], p, r, br)
    else if x[k] == 0 then BandItems(t, refine, x, se, eob, k + 1, r + 1, br, p)
    else if r > 15 && k <= eob then
      Prefixed(EobItems(t, p) + ([Sym(AcTbl(t), ZRL)] + Raws(br)), BandItems(t, refine, x, se, eob, k, r - 16, [], NO_PEND))
    else if IsOld(refine, x[k]) then BandItems(t, refine, x, se, eob, k + 1, r, br + [Abs(x[k]) % 2], p)
    else
      Prefixed(EobItems(t, p) + ([Sym(AcTbl(t), r * 16 + NBits(Abs(x[k]))), Extra(x[k])] + Raws(br)),
               BandItems(t, refine, x, se, eob, k + 1, 0, [], NO_PEND))
  }

  function Prefixed(items: seq<Item>, q: Progress): Progress {
    q.(items := items + q.items)
  }

  /** Trailing zeros or correction bits count as one more end-of-block; the run is forced out before it gets too long. */
  function EndOfBlock(t: nat, q: Progress): (seq<Item>, Pend) {
    if q.r > 0 || q.br != [] then
      var p := Pend(q.p.eobrun + 1, q.p.be + q.br);
      if p.eobrun == MAX_EOBRUN || |p.be| > MAX_CORR_BITS - DCTSIZE2 + 1 then (q.items + EobItems(t, p), NO_PEND)
      else (q.items, p)
    else (q.items, q.p)
  }

  /** One block of an AC scan. */
  function BlockOut(t: nat, refine: bool, x: Zigzag, ss: nat, se: nat, p: Pend): (seq<Item>, Pend)
    requires 1 <= ss <= se < DCTSIZE2
  {
    EndOfBlock(t, BandItems(t, refine, x, se, LastNew(refine, x, ss, se), ss, 0, [], p))
  }

  /** What the encoder promises between blocks. */
  predicate PendOk(p: Pend) {
    p.eobrun < MAX_EOBRUN && |p.be| <= MAX_CORR_BITS - DCTSIZE2 + 1 && (p.be != [] ==> p.eobrun > 0)
  }

  // ----- A reader -----

  /** A coefficient band as it is read: new values, and correction bits where `seen` says so. */
  datatype Band = Band(y: Zigzag, rest: seq<Item>, eobrun: nat) | BadBand

  type Flags = f: seq<bool> | |f| == DCTSIZE2 witness seq(DCTSIZE2, _ => false)

  /** The remaining coefficients of a block inside an end-of-block run: correction bits only. */
  function ReadTail(items: seq<Item>, seen: Flags, y: Zigzag, k: nat, se: nat, e: nat): Band
    requires se < DCTSIZE2 && e > 0
    decreases se + 1 - k
  {
    if k > se then Band(y, items, e - 1)
    else if seen[k] then
      if items == [] || !items[0].Raw? || items[0].n != 1 then BadBand
      else ReadTail(items[1..], seen, y[k := items[0].bits], k + 1, se, e)
    else ReadTail(items, seen, y, k + 1, se, e)
  }

  datatype Skipped = Skipped(y: Zigzag, rest: seq<Item>, k: nat) | BadSkip

  /** Advance over coefficients already nonzero, which get correction bits, and over r that are still zero. */
  function Skip(items: seq<Item>, seen: Flags, y: Zigzag, k: nat, se: nat, r: nat): (s: Skipped)
    requires se < DCTSIZE2
    ensures s.Skipped? ==> k <= s.k && (s.k <= se ==> !seen[s.k])
    decreases se + 1 - k
  {
    if k > se then Skipped(y, items, k)
    else if seen[k] then
      if items == [] || !items[0].Raw? || items[0].n != 1 then BadSkip
      else Skip(items[1..], seen, y[k := items[0].bits], k + 1, se, r)
    else if r == 0 then Skipped(y, items, k)
    else Skip(items, seen, y, k + 1, se, r - 1)
  }

  /** The rest of a block, from coefficient k on, outside an end-of-block run. */
  function ReadFrom(t: nat, items: seq<Item>, seen: Flags, y: Zigzag, k: nat, se: nat): Band
    requires se < DCTSIZE2
    decreases se + 1 - k
  {
    if k > se then Band(y, items, 0)
    else if items == [] || !items[0].Sym? || items[0].tbl != AcTbl(t) then BadBand
    else
      var r, n := items[0].s / 16, items[0].s % 16;
      if n == 0 && r < 15 then
        if r == 0 then ReadTail(items[1..], seen, y, k, se, 1)
        else if |items| < 2 || !items[1].Raw? || items[1].n != r then BadBand
        else ReadTail(items[2..], seen, y, k, se, Pow2(r) + items[1].bits)
      else if n == 0 then
        match Skip(items[1..], seen, y, k, se, 15)
        case BadSkip => BadBand
        case Skipped(y', rest, k') => if k' > se then BadBand else ReadFrom(t, rest, seen, y', k' + 1, se)
      else if |items| < 2 || !items[1].Raw? || items[1].n != n then BadBand
      else
        match Skip(items[2..], seen, y, k, se, r)
        case BadSkip => BadBand
        case Skipped(y', rest, k') =>
          if k' > se then BadBand else ReadFrom(t, rest, seen, y'[k' := Extend(items[1].bits, n)], k' + 1, se)
  }

  /** One block, given how many blocks of an end-of-block run are left. */
  function ReadBand(t: nat, items: seq<Item>, seen: Flags, y: Zigzag, ss: nat, se: nat, e: nat): Band
    requires se < DCTSIZE2
  {
    if e > 0 then ReadTail(items, seen, y, ss, se, e) else ReadFrom(t, items, seen, y, ss, se)
  }

  // ----- Regions without new coefficients -----

  function Zeros(x: Zigzag, k: nat, m: nat): nat
    requires m <= DCTSIZE2
    decreases m - k
  {
    if k >= m then 0 else (if x[k] == 0 then 1 else 0) + Zeros(x, k + 1, m)
  }

  /** The correction bits of the coefficients k..m-1. */
  function Corr(x: Zigzag, k: nat, m: nat): seq<Bit>
    requires m <= DCTSIZE2
    decreases m - k
  {
    if k >= m then [] else (if x[k] != 0 then [Abs(x[k]) % 2] else []) + Corr(x, k + 1, m)
  }

  predicate NothingNew(refine: bool, x: Zigzag, k: nat, m: nat)
    requires m <= DCTSIZE2
  {
    forall j :: k <= j < m ==> !IsNew(refine, x[j])
  }

  lemma {:induction false} RegionSnoc(x: Zigzag, k: nat, m: nat)
    requires k <= m < DCTSIZE2
    ensures Zeros(x, k, m + 1) == Zeros(x, k, m) + if x[m] == 0 then 1 else 0
    ensures Corr(x, k, m + 1) == Corr(x, k, m) + if x[m] != 0 then [Abs(x[m]) % 2] else []
    decreases m - k
  {
    if k < m {
      RegionSnoc(x, k + 1, m);
    }
  }

  lemma {:induction false} RegionSplit(x: Zigzag, k: nat, i: nat, m: nat)
    requires k <= i <= m <= DCTSIZE2
    ensures Zeros(x, k, m) == Zeros(x, k, i) + Zeros(x, i, m)
    ensures Corr(x, k, m) == Corr(x, k, i) + Corr(x, i, m)
    decreases i - k
  {
    if k < i {
      RegionSplit(x, k + 1, i, m);
    }
  }

  lemma {:induction false} AllZeros(x: Zigzag, k: nat, m: nat)
    requires k <= m <= DCTSIZE2 && forall j :: k <= j < m ==> x[j] == 0
    ensures Zeros(x, k, m) == m - k && Corr(x, k, m) == []
    decreases m - k
  {
    if k < m {
      AllZeros(x, k + 1, m);
    }
  }

  lemma {:induction false} EmptyRegion(refine: bool, x: Zigzag, k: nat, m: nat)
    requires k <= m <= DCTSIZE2 && Zeros(x, k, m) == 0 && Corr(x, k, m) == []
    ensures k == m
  {
  }

  lemma {:induction false} RawsCons(b: Bit, s: seq<Bit>)
    ensures Raws([b] + s) == [Raw(b, 1)] + Raws(s)
  {
    if s == [] {
      assert [b] + s == [b] && [b][..0] == [];
    } else {
      var n := |s| - 1;
      RawsCons(b, s[..n]);
      assert ([b] + s)[..n + 1] == [b] + s[..n];
    }
  }

  lemma {:induction false} RawsConcat(a: seq<Bit>, b: seq<Bit>)
    ensures Raws(a + b) == Raws(a) + Raws(b)
  {
    if b == [] {
      assert a + b == a;
    } else {
      var n := |b| - 1;
      RawsConcat(a, b[..n]);
      assert (a + b)[..|a| + n] == a + b[..n];
    }
  }

  /** The flags a reader has: which coefficients are nonzero already. */
  predicate FlagsFor(refine: bool, x: Zigzag, seen: Flags) {
    forall j :: 0 <= j < DCTSIZE2 ==> (seen[j] <==> IsOld(refine, x[j]))
  }

  /** y with the band k..m-1 as it is sent: values of new coefficients, correction bits of old ones. */
  function Sent(refine: bool, x: Zigzag, y: Zigzag, k: nat, m: nat): Zigzag {
    seq(DCTSIZE2, j requires 0 <= j < DCTSIZE2 => if k <= j < m then (if IsOld(refine, x[j]) then Abs(x[j]) % 2 else x[j]) else y[j])
  }

  predicate Clear(y: Zigzag, k: nat) {
    forall j :: k <= j < DCTSIZE2 ==> y[j] == 0
  }

  lemma SentStep(refine: bool, x: Zigzag, y: Zigzag, k: nat, m: nat)
    requires k < m <= DCTSIZE2 && Clear(y, k)
    ensures IsOld(refine, x[k]) ==> Sent(refine, x, y, k, m) == Sent(refine, x, y[k := Abs(x[k]) % 2], k + 1, m)
    ensures x[k] == 0 ==> Sent(refine, x, y, k, m) == Sent(refine, x, y, k + 1, m)
  {
  }

  /** The correction bits of a region, one coefficient at a time. */
  lemma CorrHead(x: Zigzag, k: nat, m: nat, rest: seq<Item>)
    requires k < m <= DCTSIZE2
    ensures var items, more := Raws(Corr(x, k, m)) + rest, Raws(Corr(x, k + 1, m)) + rest;
            if x[k] == 0 then items == more
            else items != [] && items[0] == Raw(Abs(x[k]) % 2, 1) && items[1..] == more
  {
    hide Raws;
    if x[k] != 0 {
      RawsCons(Abs(x[k]) % 2, Corr(x, k + 1, m));
      assert Raws(Corr(x, k, m)) + rest == [Raw(Abs(x[k]) % 2, 1)] + (Raws(Corr(x, k + 1, m)) + rest);
    } else {
      assert Corr(x, k, m) == Corr(x, k + 1, m);
    }
  }

  lemma CorrNone(x: Zigzag, k: nat, m: nat, rest: seq<Item>)
    requires m <= k && m <= DCTSIZE2
    ensures Raws(Corr(x, k, m)) + rest == rest
  {
    assert Raws([]) + rest == rest;
  }

  /** In a region without new coefficients, the tail reader takes exactly the correction bits. */
  lemma {:induction false} TailRead(refine: bool, x: Zigzag, seen: Flags, y: Zigzag, k: nat, se: nat, e: nat, rest: seq<Item>)
    requires se < DCTSIZE2 && k <= se + 1 && e > 0 && FlagsFor(refine, x, seen) && NothingNew(refine, x, k, se + 1) && Clear(y, k)
    ensures ReadTail(Raws(Corr(x, k, se + 1)) + rest, seen, y, k, se, e) == Band(Sent(refine, x, y, k, se + 1), rest, e - 1)
    decreases se + 1 - k
  {
    hide Sent, Raws, Corr;
    if k > se {
      CorrNone(x, k, se + 1, rest);
      SentNothing(refine, x, y, k, se + 1);
    } else {
      SentStep(refine, x, y, k, se + 1);
      CorrHead(x, k, se + 1, rest);
      TailRead(refine, x, seen, if seen[k] then y[k := Abs(x[k]) % 2] else y, k + 1, se, e, rest);
    }
  }

  lemma SentNothing(refine: bool, x: Zigzag, y: Zigzag, k: nat, m: nat)
    requires m <= k
    ensures Sent(refine, x, y, k, m) == y
  {
  }

  /** Skipping stops at coefficient m, which is not flagged, having passed the zeros before it. */
  lemma {:induction false} SkipTo(refine: bool, x: Zigzag, seen: Flags, y: Zigzag, k: nat, m: nat, se: nat, rest: seq<Item>)
    requires k <= m <= se < DCTSIZE2 && FlagsFor(refine, x, seen) && NothingNew(refine, x, k, m) && Clear(y, k) && !seen[m]
    ensures Skip(Raws(Corr(x, k, m)) + rest, seen, y, k, se, Zeros(x, k, m)) == Skipped(Sent(refine, x, y, k, m), rest, m)
    decreases m - k
  {
    hide Sent, Raws, Corr;
    if k == m {
      CorrNone(x, k, m, rest);
      SentNothing(refine, x, y, k, m);
    } else {
      SentStep(refine, x, y, k, m);
      CorrHead(x, k, m, rest);
      SkipTo(refine, x, seen, if seen[k] then y[k := Abs(x[k]) % 2] else y, k + 1, m, se, rest);
    }
  }

  // ----- One block read back -----

  /** A run length that is announced has its zeros at the end of the region. */
  predicate Late(x: Zigzag, k: nat, r: nat, eob: nat)
    requires k <= DCTSIZE2
  {
    k <= eob && r > 15 ==> r - 15 <= k && forall j :: k - (r - 15) <= j < k ==> x[j] == 0
  }

  /** The coefficients k0..k-1 since the last symbol: r zeros, and old ones with the correction bits br. */
  predicate Region(refine: bool, x: Zigzag, k0: nat, k: nat, r: nat, br: seq<Bit>)
    requires k <= DCTSIZE2
  {
    k0 <= k && r == Zeros(x, k0, k) && br == Corr(x, k0, k) && NothingNew(refine, x, k0, k)
  }

  /** The values the band has to send are of at most 15 bits. */
  predicate InBand(refine: bool, x: Zigzag, k: nat, se: nat) {
    forall j :: k <= j <= se && j < DCTSIZE2 && IsNew(refine, x[j]) ==> NBits(Abs(x[j])) <= 15
  }

  /** What follows the band's items: nothing, or the symbol of an end-of-block run of c blocks and the last correction bits. */
  function Trailer(t: nat, r: nat, br: seq<Bit>, c: nat): seq<Item>
    requires c > 0
  {
    if r > 0 || br != [] then EobHeader(t, c) + Raws(br) else []
  }

  predicate ReadsBack(t: nat, refine: bool, x: Zigzag, seen: Flags, y: Zigzag, k0: nat, se: nat, q: Progress, c: nat, rest: seq<Item>)
    requires se < DCTSIZE2 && c > 0
  {
    && q.p == NO_PEND
    && ReadFrom(t, q.items + (Trailer(t, q.r, q.br, c) + rest), seen, y, k0, se)
       == Band(Sent(refine, x, y, k0, se + 1), rest, if q.r > 0 || q.br != [] then c - 1 else 0)
  }

  lemma HeaderRead(t: nat, items: seq<Item>, seen: Flags, y: Zigzag, k: nat, se: nat, c: nat, rest: seq<Item>)
    requires k <= se < DCTSIZE2 && 0 < c <= MAX_EOBRUN && items == EobHeader(t, c) + rest
    ensures ReadFrom(t, items, seen, y, k, se) == ReadTail(rest, seen, y, k, se, c)
  {
    hide ReadTail;
    var n := NBits(c) - 1;
    NBitsBounds(c);
    assert Pow2(15) == 0x8000 by { Pow2Values(); }
    NBitsAtMost(c, 15);
    assert items[0] == Sym(AcTbl(t), n * 16);
    assert n * 16 / 16 == n && n * 16 % 16 == 0;
    if n > 0 {
      assert items[1] == Raw(Masked(c, n), n) && items[2..] == rest;
      assert Pow2(n + 1) == 2 * Pow2(n);
      RemainderUnique(c, Pow2(n), 1, c - Pow2(n));
    } else {
      assert items[1..] == rest;
      assert c == 1 by { assert Pow2(1) == 2; }
    }
  }

  /** At the end of the band. */
  lemma EndRead(t: nat, refine: bool, x: Zigzag, seen: Flags, y: Zigzag, k0: nat, se: nat, r: nat, br: seq<Bit>, c: nat, rest: seq<Item>)
    requires se < DCTSIZE2 && 0 < c <= MAX_EOBRUN && FlagsFor(refine, x, seen) && Clear(y, k0)
    requires Region(refine, x, k0, se + 1, r, br)
    ensures ReadsBack(t, refine, x, seen, y, k0, se, Progress([], NO_PEND, r, br), c, rest)
  {
    hide Raws, EobHeader, Sent, ReadTail;
    if r > 0 || br != [] {
      var items := [] + (Trailer(t, r, br, c) + rest);
      assert items == EobHeader(t, c) + (Raws(br) + rest);
      RegionNonempty(x, k0, se + 1);
      HeaderRead(t, items, seen, y, k0, se, c, Raws(br) + rest);
      TailRead(refine, x, seen, y, k0, se, c, rest);
    } else {
      EmptyRegion(refine, x, k0, se + 1);
      SentNothing(refine, x, y, k0, se + 1);
      assert [] + ([] + rest) == rest;
    }
  }

  lemma RegionNonempty(x: Zigzag, k: nat, m: nat)
    requires m <= DCTSIZE2 && (Zeros(x, k, m) > 0 || Corr(x, k, m) != [])
    ensures k < m
  {
  }

  /** After a zero that was passed, or a new value that was stored, the rest is sent as before. */
  lemma SentJoin(refine: bool, x: Zigzag, y: Zigzag, k: nat, i: nat, m: nat)
    requires k <= i < m <= DCTSIZE2 && Clear(y, k) && !IsOld(refine, x[i])
    ensures Sent(refine, x, Sent(refine, x, y, k, i)[i := x[i]], i + 1, m) == Sent(refine, x, y, k, m)
    ensures x[i] == 0 ==> Sent(refine, x, y, k, i)[i := x[i]] == Sent(refine, x, y, k, i)
    ensures Clear(Sent(refine, x, y, k, i)[i := x[i]], i + 1)
  {
  }

  lemma Front(i: Item, a: seq<Item>, b: seq<Item>, c: seq<Item>)
    ensures [] + ([i] + a) + b + c == [i] + (a + (b + c))
  {
  }

  lemma FrontTwo(i: Item, j: Item, a: seq<Item>, b: seq<Item>, c: seq<Item>)
    ensures var all := [] + ([i, j] + a) + b + c;
            |all| >= 2 && all[0] == i && all[1] == j && all[2..] == a + (b + c)
  {
    var all := [] + ([i, j] + a) + b + c;
    assert all == [i, j] + (a + (b + c));
  }

  /** Sixteen zeros: read up to the sixteenth, at position i. */
  lemma ZrlStep(t: nat, refine: bool, x: Zigzag, seen: Flags, y: Zigzag, k0: nat, i: nat, se: nat, q: Progress, c: nat, rest: seq<Item>)
    requires k0 <= i <= se < DCTSIZE2 && c > 0 && FlagsFor(refine, x, seen) && Clear(y, k0) && NothingNew(refine, x, k0, i)
    requires x[i] == 0 && Zeros(x, k0, i) == 15
    requires ReadsBack(t, refine, x, seen, Sent(refine, x, y, k0, i), i + 1, se, q, c, rest)
    ensures ReadsBack(t, refine, x, seen, y, k0, se, Prefixed([] + ([Sym(AcTbl(t), ZRL)] + Raws(Corr(x, k0, i))), q), c, rest)
  {
    hide Raws, Corr, Zeros, Sent, Trailer;
    var tail := Trailer(t, q.r, q.br, c) + rest;
    var br := Raws(Corr(x, k0, i));
    var items := [] + ([Sym(AcTbl(t), ZRL)] + br) + q.items + tail;
    Front(Sym(AcTbl(t), ZRL), br, q.items, tail);
    assert items[0] == Sym(AcTbl(t), ZRL) && items[1..] == br + (q.items + tail);
    SkipTo(refine, x, seen, y, k0, i, se, q.items + tail);
    SentJoin(refine, x, y, k0, i, se + 1);
  }

  /** A new coefficient after r zeros. */
  lemma NewStep(t: nat, refine: bool, x: Zigzag, seen: Flags, y: Zigzag, k0: nat, k: nat, se: nat, q: Progress, c: nat, rest: seq<Item>)
    requires k0 <= k <= se < DCTSIZE2 && c > 0 && FlagsFor(refine, x, seen) && Clear(y, k0) && NothingNew(refine, x, k0, k)
    requires IsNew(refine, x[k]) && Zeros(x, k0, k) <= 15 && InBand(refine, x, k0, se)
    requires ReadsBack(t, refine, x, seen, Sent(refine, x, y, k0, k)[k := x[k]], k + 1, se, q, c, rest)
    ensures var r := Zeros(x, k0, k);
            ReadsBack(t, refine, x, seen, y, k0, se,
              Prefixed([] + ([Sym(AcTbl(t), r * 16 + NBits(Abs(x[k]))), Extra(x[k])] + Raws(Corr(x, k0, k))), q), c, rest)
  {
    hide Raws, Corr, Zeros, Sent, Trailer, Extend, NBits;
    var r, n := Zeros(x, k0, k), NBits(Abs(x[k]));
    var tail := Trailer(t, q.r, q.br, c) + rest;
    var br := Raws(Corr(x, k0, k));
    var sym := Sym(AcTbl(t), r * 16 + n);
    var items := [] + ([sym, Extra(x[k])] + br) + q.items + tail;
    FrontTwo(sym, Extra(x[k]), br, q.items, tail);
    NBitsPositive(x[k]);
    ExtendsBack(x[k]);
    SymbolParts(r, n);
    SkipTo(refine, x, seen, y, k0, k, se, q.items + tail);
    SentJoin(refine, x, y, k0, k, se + 1);
  }

  lemma SymbolParts(r: nat, n: nat)
    requires n <= 15
    ensures (r * 16 + n) / 16 == r && (r * 16 + n) % 16 == n
  {
  }

  /** Where the sixteenth zero is. */
  lemma SixteenthZero(refine: bool, x: Zigzag, k0: nat, k: nat, r: nat, br: seq<Bit>, eob: nat)
    requires k <= eob && k <= DCTSIZE2 && r > 15 && Region(refine, x, k0, k, r, br) && Late(x, k, r, eob)
    ensures var i := k - (r - 15);
            && k0 <= i < k && x[i] == 0 && Zeros(x, k0, i) == 15 && Corr(x, k0, i) == br && NothingNew(refine, x, k0, i)
            && Region(refine, x, i + 1, k, r - 16, []) && Late(x, k, r - 16, eob)
  {
    var i := k - (r - 15);
    ZerosAtMost(x, k0, k);
    if i < k0 {
      AllZeros(x, k0, k);
    }
    RegionSplit(x, k0, i, k);
    AllZeros(x, i, k);
    AllZeros(x, i + 1, k);
  }

  lemma {:induction false} ZerosAtMost(x: Zigzag, k: nat, m: nat)
    requires k <= m <= DCTSIZE2
    ensures Zeros(x, k, m) <= m - k
    decreases m - k
  {
    if k < m {
      ZerosAtMost(x, k + 1, m);
    }
  }

  lemma RegionGrows(refine: bool, x: Zigzag, k0: nat, k: nat, r: nat, br: seq<Bit>)
    requires k < DCTSIZE2 && Region(refine, x, k0, k, r, br) && !IsNew(refine, x[k])
    ensures Region(refine, x, k0, k + 1, if x[k] == 0 then r + 1 else r, if x[k] != 0 then br + [Abs(x[k]) % 2] else br)
  {
    RegionSnoc(x, k0, k);
  }

  /** The reader gets the band back: new values where there are any, correction bits where they belong. */
  lemma {:induction false} BandRead(t: nat, refine: bool, x: Zigzag, seen: Flags, y: Zigzag, se: nat, eob: nat,
                                    k0: nat, k: nat, r: nat, br: seq<Bit>, c: nat, rest: seq<Item>)
    requires eob <= se < DCTSIZE2 && k <= se + 1 && Region(refine, x, k0, k, r, br) && Late(x, k, r, eob)
    requires forall j :: eob < j <= se && k <= j ==> !IsNew(refine, x[j])
    requires FlagsFor(refine, x, seen) && Clear(y, k0) && InBand(refine, x, k0, se) && 0 < c <= MAX_EOBRUN
    ensures ReadsBack(t, refine, x, seen, y, k0, se, BandItems(t, refine, x, se, eob, k, r, br, NO_PEND), c, rest)
    decreases se + 1 - k, r
  {
    hide Raws, Corr, Zeros, Sent, Trailer, Extend, NBits, ReadsBack, Region, Extra;
    if k > se {
      EndRead(t, refine, x, seen, y, k0, se, r, br, c, rest);
    } else if x[k] == 0 {
      RegionGrows(refine, x, k0, k, r, br);
      BandRead(t, refine, x, seen, y, se, eob, k0, k + 1, r + 1, br, c, rest);
    } else if r > 15 && k <= eob {
      var i := k - (r - 15);
      SixteenthZero(refine, x, k0, k, r, br, eob);
      SentJoin(refine, x, y, k0, i, se + 1);
      BandRead(t, refine, x, seen, Sent(refine, x, y, k0, i), se, eob, i + 1, k, r - 16, [], c, rest);
      ZrlStep(t, refine, x, seen, y, k0, i, se, BandItems(t, refine, x, se, eob, k, r - 16, [], NO_PEND), c, rest);
    } else if IsOld(refine, x[k]) {
      RegionGrows(refine, x, k0, k, r, br);
      BandRead(t, refine, x, seen, y, se, eob, k0, k + 1, r, br + [Abs(x[k]) % 2], c, rest);
    } else {
      RegionFacts(refine, x, k0, k, r, br);
      FreshRegion(refine, x, k + 1);
      SentJoin(refine, x, y, k0, k, se + 1);
      BandRead(t, refine, x, seen, Sent(refine, x, y, k0, k)[k := x[k]], se, eob, k + 1, k + 1, 0, [], c, rest);
      NewStep(t, refine, x, seen, y, k0, k, se, BandItems(t, refine, x, se, eob, k + 1, 0, [], NO_PEND), c, rest);
    }
  }

  lemma RegionFacts(refine: bool, x: Zigzag, k0: nat, k: nat, r: nat, br: seq<Bit>)
    requires k <= DCTSIZE2 && Region(refine, x, k0, k, r, br)
    ensures k0 <= k && r == Zeros(x, k0, k) && br == Corr(x, k0, k) && NothingNew(refine, x, k0, k)
  {
  }

  lemma FreshRegion(refine: bool, x: Zigzag, k: nat)
    requires k <= DCTSIZE2
    ensures Region(refine, x, k, k, 0, [])
  {
  }

  // ----- Blocks one after the other -----

  /** With no new coefficient left, nothing is sent: zeros and correction bits accumulate. */
  lemma {:induction false} NothingSent(t: nat, refine: bool, x: Zigzag, se: nat, eob: nat, k: nat, r: nat, br: seq<Bit>, p: Pend)
    requires eob <= se < DCTSIZE2 && eob < k <= se + 1 && NothingNew(refine, x, k, se + 1)
    ensures BandItems(t, refine, x, se, eob, k, r, br, p) == Progress([], p, r + Zeros(x, k, se + 1), br + Corr(x, k, se + 1))
    decreases se + 1 - k
  {
    hide Raws, Extra, NBits;
    if k <= se {
      NothingSent(t, refine, x, se, eob, k + 1, if x[k] == 0 then r + 1 else r, if x[k] != 0 then br + [Abs(x[k]) % 2] else br, p);
      assert (br + [Abs(x[k]) % 2]) + Corr(x, k + 1, se + 1) == br + ([Abs(x[k]) % 2] + Corr(x, k + 1, se + 1));
    } else {
      assert br + [] == br;
    }
  }

  /** With a new coefficient to come, what was pending is sent first and nothing else changes. */
  lemma {:induction false} PendingFirst(t: nat, refine: bool, x: Zigzag, se: nat, eob: nat, k: nat, r: nat, br: seq<Bit>, p: Pend)
    requires k <= eob <= se < DCTSIZE2 && IsNew(refine, x[eob])
    ensures BandItems(t, refine, x, se, eob, k, r, br, p)
         == Prefixed(EobItems(t, p), BandItems(t, refine, x, se, eob, k, r, br, NO_PEND))
    decreases se + 1 - k, r
  {
    hide Raws, Extra, NBits, EobItems;
    NoPendNoItems(t);
    if x[k] == 0 {
      PendingFirst(t, refine, x, se, eob, k + 1, r + 1, br, p);
    } else if r > 15 {
      var here := [Sym(AcTbl(t), ZRL)] + Raws(br);
      var q := BandItems(t, refine, x, se, eob, k, r - 16, [], NO_PEND);
      assert EobItems(t, p) + here + q.items == EobItems(t, p) + ([] + here + q.items);
    } else if IsOld(refine, x[k]) {
      PendingFirst(t, refine, x, se, eob, k + 1, r, br + [Abs(x[k]) % 2], p);
    } else {
      var here := [Sym(AcTbl(t), r * 16 + NBits(Abs(x[k]))), Extra(x[k])] + Raws(br);
      var q := BandItems(t, refine, x, se, eob, k + 1, 0, [], NO_PEND);
      assert EobItems(t, p) + here + q.items == EobItems(t, p) + ([] + here + q.items);
    }
  }

  lemma NoPendNoItems(t: nat)
    ensures EobItems(t, NO_PEND) == []
  {
  }

  datatype Read = Read(ys: seq<Zigzag>, rest: seq<Item>, eobrun: nat) | BadRead

  function Zeroed(): Zigzag {
    seq(DCTSIZE2, _ => 0)
  }

  /** One block more. */
  function WithBand(ys: seq<Zigzag>, b: Band): Read {
    match b
    case BadBand => BadRead
    case Band(y, rest, e) => Read(ys + [y], rest, e)
  }

  /** Reads as many blocks as there are flags. */
  function ReadBlocks(t: nat, items: seq<Item>, flags: seq<Flags>, ss: nat, se: nat): Read
    requires se < DCTSIZE2
    decreases |flags|
  {
    if flags == [] then Read([], items, 0)
    else
      match ReadBlocks(t, items, flags[..|flags| - 1], ss, se)
      case BadRead => BadRead
      case Read(ys, rest, e) => WithBand(ys, ReadBand(t, rest, flags[|flags| - 1], Zeroed(), ss, se, e))
  }

  /** The pending run as it will be sent if it goes on for j more blocks. */
  function Final(t: nat, p: Pend, j: nat): seq<Item> {
    if p.eobrun > 0 then EobHeader(t, p.eobrun + j) + Raws(p.be) else []
  }

  predicate MayGoOn(p: Pend, j: nat) {
    p.eobrun + j <= MAX_EOBRUN && (p.eobrun == 0 ==> j == 0)
  }

  /**
   * Whatever comes later: if the run goes on for j more blocks and `more` follows, the reader gets the
   * blocks sent so far and stands before `more`, with j blocks of the run to go.
   */
  predicate DeliversWith(t: nat, sent: seq<Item>, p: Pend, flags: seq<Flags>, ys: seq<Zigzag>, ss: nat, se: nat, j: nat, more: seq<Item>)
    requires se < DCTSIZE2
  {
    ReadBlocks(t, sent + (Final(t, p, j) + more), flags, ss, se) == Read(ys, more, j)
  }

  ghost predicate Delivers(t: nat, sent: seq<Item>, p: Pend, flags: seq<Flags>, ys: seq<Zigzag>, ss: nat, se: nat)
    requires se < DCTSIZE2
  {
    forall j: nat, more: seq<Item> :: MayGoOn(p, j) ==> DeliversWith(t, sent, p, flags, ys, ss, se, j, more)
  }

  lemma OneMoreBand(t: nat, items: seq<Item>, flags: seq<Flags>, ys: seq<Zigzag>, seen: Flags, y: Zigzag, ss: nat, se: nat,
                    mid: seq<Item>, e: nat, rest: seq<Item>, e': nat)
    requires se < DCTSIZE2 && ReadBlocks(t, items, flags, ss, se) == Read(ys, mid, e)
    requires ReadBand(t, mid, seen, Zeroed(), ss, se, e) == Band(y, rest, e')
    ensures ReadBlocks(t, items, flags + [seen], ss, se) == Read(ys + [y], rest, e')
  {
    hide ReadBand;
    assert (flags + [seen])[..|flags|] == flags;
  }

  /** What one block of the encoder must satisfy. */
  predicate BlockFits(refine: bool, x: Zigzag, seen: Flags, ss: nat, se: nat) {
    FlagsFor(refine, x, seen) && InBand(refine, x, ss, se)
  }

  /** A block that sends a symbol. */
  lemma SymbolStep(t: nat, refine: bool, x: Zigzag, seen: Flags, ss: nat, se: nat, sent: seq<Item>, p: Pend,
                   flags: seq<Flags>, ys: seq<Zigzag>, j: nat, more: seq<Item>)
    requires 1 <= ss <= se < DCTSIZE2 && BlockFits(refine, x, seen, ss, se) && PendOk(p) && Delivers(t, sent, p, flags, ys, ss, se)
    requires LastNew(refine, x, ss, se) > 0 || p.eobrun == 0
    requires var q := BandItems(t, refine, x, se, LastNew(refine, x, ss, se), ss, 0, [], NO_PEND);
             MayGoOn(if q.r > 0 || q.br != [] then Pend(1, q.br) else NO_PEND, j)
    ensures var q := BandItems(t, refine, x, se, LastNew(refine, x, ss, se), ss, 0, [], NO_PEND);
            var p1 := if q.r > 0 || q.br != [] then Pend(1, q.br) else NO_PEND;
            DeliversWith(t, sent + (EobItems(t, p) + q.items), p1, flags + [seen], ys + [Sent(refine, x, Zeroed(), ss, se + 1)], ss, se, j, more)
  {
    hide Raws, EobHeader, Sent, BandItems, ReadFrom, ReadTail, Delivers;
    var eob := LastNew(refine, x, ss, se);
    var q := BandItems(t, refine, x, se, eob, ss, 0, [], NO_PEND);
    var p1 := if q.r > 0 || q.br != [] then Pend(1, q.br) else NO_PEND;
    var mid := q.items + (Trailer(t, q.r, q.br, 1 + j) + more);
    var items := sent + (EobItems(t, p) + q.items) + (Final(t, p1, j) + more);
    assert items == sent + (Final(t, p, 0) + mid);
    DeliversNow(t, sent, p, flags, ys, ss, se, 0, mid);
    FreshRegion(refine, x, ss);
    BandRead(t, refine, x, seen, Zeroed(), se, eob, ss, ss, 0, [], 1 + j, more);
    OneMoreBand(t, items, flags, ys, seen, Sent(refine, x, Zeroed(), ss, se + 1), ss, se, mid, 0, more, j);
  }

  lemma DeliversNow(t: nat, sent: seq<Item>, p: Pend, flags: seq<Flags>, ys: seq<Zigzag>, ss: nat, se: nat, j: nat, more: seq<Item>)
    requires se < DCTSIZE2 && Delivers(t, sent, p, flags, ys, ss, se) && MayGoOn(p, j)
    ensures DeliversWith(t, sent, p, flags, ys, ss, se, j, more)
  {
  }

  /** A block without a new coefficient inside a run. */
  lemma RunStep(t: nat, refine: bool, x: Zigzag, seen: Flags, ss: nat, se: nat, sent: seq<Item>, p: Pend,
                flags: seq<Flags>, ys: seq<Zigzag>, j: nat, more: seq<Item>)
    requires 1 <= ss <= se < DCTSIZE2 && BlockFits(refine, x, seen, ss, se) && p.eobrun > 0 && Delivers(t, sent, p, flags, ys, ss, se)
    requires NothingNew(refine, x, ss, se + 1)
    requires MayGoOn(Pend(p.eobrun + 1, p.be + Corr(x, ss, se + 1)), j)
    ensures DeliversWith(t, sent, Pend(p.eobrun + 1, p.be + Corr(x, ss, se + 1)), flags + [seen],
                         ys + [Sent(refine, x, Zeroed(), ss, se + 1)], ss, se, j, more)
  {
    hide Raws, EobHeader, Sent, ReadTail, Delivers, Corr;
    var br := Corr(x, ss, se + 1);
    var mid := Raws(br) + more;
    var items := sent + (Final(t, Pend(p.eobrun + 1, p.be + br), j) + more);
    RawsConcat(p.be, br);
    assert items == sent + (Final(t, p, j + 1) + mid);
    DeliversNow(t, sent, p, flags, ys, ss, se, j + 1, mid);
    TailRead(refine, x, seen, Zeroed(), ss, se, j + 1, more);
    OneMoreBand(t, items, flags, ys, seen, Sent(refine, x, Zeroed(), ss, se + 1), ss, se, mid, j + 1, more, j);
  }

  /** Forcing a pending run out. */
  lemma FlushDelivers(t: nat, sent: seq<Item>, p: Pend, flags: seq<Flags>, ys: seq<Zigzag>, ss: nat, se: nat)
    requires se < DCTSIZE2 && Delivers(t, sent, p, flags, ys, ss, se) && p.eobrun <= MAX_EOBRUN
    ensures Delivers(t, sent + EobItems(t, p), NO_PEND, flags, ys, ss, se)
  {
    hide Raws, EobHeader, ReadBlocks;
    forall j: nat, more: seq<Item> | MayGoOn(NO_PEND, j)
      ensures DeliversWith(t, sent + EobItems(t, p), NO_PEND, flags, ys, ss, se, j, more)
    {
      DeliversNow(t, sent, p, flags, ys, ss, se, 0, more);
      assert sent + EobItems(t, p) + (Final(t, NO_PEND, 0) + more) == sent + (Final(t, p, 0) + more);
    }
  }

  /** How many correction bits a block can add. */
  lemma {:induction false} FewBits(t: nat, refine: bool, x: Zigzag, se: nat, eob: nat, k: nat, r: nat, br: seq<Bit>, p: Pend)
    requires eob <= se < DCTSIZE2 && k <= se + 1
    ensures |BandItems(t, refine, x, se, eob, k, r, br, p).br| <= |br| + (se + 1 - k)
    ensures var q := BandItems(t, refine, x, se, eob, k, r, br, p); q.p == p || q.p == NO_PEND
    decreases se + 1 - k, r
  {
    hide Raws, Extra, NBits, EobItems;
    if k <= se {
      if x[k] == 0 {
        FewBits(t, refine, x, se, eob, k + 1, r + 1, br, p);
      } else if r > 15 && k <= eob {
        FewBits(t, refine, x, se, eob, k, r - 16, [], NO_PEND);
      } else if IsOld(refine, x[k]) {
        FewBits(t, refine, x, se, eob, k + 1, r, br + [Abs(x[k]) % 2], p);
      } else {
        FewBits(t, refine, x, se, eob, k + 1, 0, [], NO_PEND);
      }
    }
  }

  /** The pending run after the band of a block, before it may be forced out. */
  function PendAfter(q: Progress): Pend {
    if q.r > 0 || q.br != [] then Pend(q.p.eobrun + 1, q.p.be + q.br) else q.p
  }

  lemma BandDelivers(t: nat, refine: bool, x: Zigzag, seen: Flags, ss: nat, se: nat, sent: seq<Item>, p: Pend,
                     flags: seq<Flags>, ys: seq<Zigzag>)
    requires 1 <= ss <= se < DCTSIZE2 && BlockFits(refine, x, seen, ss, se) && PendOk(p) && Delivers(t, sent, p, flags, ys, ss, se)
    ensures var q := BandItems(t, refine, x, se, LastNew(refine, x, ss, se), ss, 0, [], p);
            Delivers(t, sent + q.items, PendAfter(q), flags + [seen], ys + [Sent(refine, x, Zeroed(), ss, se + 1)], ss, se)
  {
    hide Raws, EobHeader, Sent, BandItems, ReadBlocks, Delivers, EobItems;
    var eob := LastNew(refine, x, ss, se);
    var q := BandItems(t, refine, x, se, eob, ss, 0, [], p);
    var q0 := BandItems(t, refine, x, se, eob, ss, 0, [], NO_PEND);
    var y := Sent(refine, x, Zeroed(), ss, se + 1);
    FewBits(t, refine, x, se, eob, ss, 0, [], NO_PEND);
    if eob > 0 {
      PendingFirst(t, refine, x, se, eob, ss, 0, [], p);
    } else {
      NothingSent(t, refine, x, se, eob, ss, 0, [], p);
      NothingSent(t, refine, x, se, eob, ss, 0, [], NO_PEND);
      assert [] + Corr(x, ss, se + 1) == Corr(x, ss, se + 1);
      NoneToSend(t, refine, x, ss, se, p, sent);
    }
    DeliversAll(t, refine, x, seen, ss, se, sent, p, flags, ys, q, q0, y);
  }

  lemma NoneToSend(t: nat, refine: bool, x: Zigzag, ss: nat, se: nat, p: Pend, sent: seq<Item>)
    requires 1 <= ss <= se < DCTSIZE2 && NothingNew(refine, x, ss, se + 1)
    ensures Zeros(x, ss, se + 1) > 0 || Corr(x, ss, se + 1) != []
    ensures sent + [] == sent && EobItems(t, NO_PEND) == [] && (p.eobrun == 0 ==> EobItems(t, p) + [] == [])
  {
  }

  lemma DeliversAll(t: nat, refine: bool, x: Zigzag, seen: Flags, ss: nat, se: nat, sent: seq<Item>, p: Pend,
                    flags: seq<Flags>, ys: seq<Zigzag>, q: Progress, q0: Progress, y: Zigzag)
    requires 1 <= ss <= se < DCTSIZE2 && BlockFits(refine, x, seen, ss, se) && PendOk(p) && Delivers(t, sent, p, flags, ys, ss, se)
    requires var eob := LastNew(refine, x, ss, se);
             && q0 == BandItems(t, refine, x, se, eob, ss, 0, [], NO_PEND) && q0.p == NO_PEND && y == Sent(refine, x, Zeroed(), ss, se + 1)
             && (eob > 0 ==> q == Prefixed(EobItems(t, p), q0))
             && (eob == 0 ==> q == Progress([], p, q0.r, q0.br) && q0.items == [] && q0.br == Corr(x, ss, se + 1)
                              && NothingNew(refine, x, ss, se + 1) && (q0.r > 0 || q0.br != []))
    ensures Delivers(t, sent + q.items, PendAfter(q), flags + [seen], ys + [y], ss, se)
  {
    hide Raws, EobHeader, Sent, BandItems, ReadBlocks, DeliversWith;
    var p1 := PendAfter(q);
    forall j: nat, more: seq<Item> | MayGoOn(p1, j)
      ensures DeliversWith(t, sent + q.items, p1, flags + [seen], ys + [y], ss, se, j, more)
    {
      if LastNew(refine, x, ss, se) > 0 || p.eobrun == 0 {
        assert [] + q0.br == q0.br;
        SymbolStep(t, refine, x, seen, ss, se, sent, p, flags, ys, j, more);
        assert q.items == EobItems(t, p) + q0.items;
      } else {
        RunStep(t, refine, x, seen, ss, se, sent, p, flags, ys, j, more);
        assert sent + [] == sent;
      }
    }
  }

  /** One block of the encoder: the reader will get it, and the pending run stays within its limits. */
  lemma BlockDelivers(t: nat, refine: bool, x: Zigzag, seen: Flags, ss: nat, se: nat, sent: seq<Item>, p: Pend,
                      flags: seq<Flags>, ys: seq<Zigzag>)
    requires 1 <= ss <= se < DCTSIZE2 && BlockFits(refine, x, seen, ss, se) && PendOk(p) && Delivers(t, sent, p, flags, ys, ss, se)
    ensures var (items, p') := BlockOut(t, refine, x, ss, se, p);
            && PendOk(p')
            && Delivers(t, sent + items, p', flags + [seen], ys + [Sent(refine, x, Zeroed(), ss, se + 1)], ss, se)
  {
    hide Raws, EobHeader, Sent, BandItems, ReadBlocks, Delivers;
    var q := BandItems(t, refine, x, se, LastNew(refine, x, ss, se), ss, 0, [], p);
    BandDelivers(t, refine, x, seen, ss, se, sent, p, flags, ys);
    FewBits(t, refine, x, se, LastNew(refine, x, ss, se), ss, 0, [], p);
    FlushDelivers(t, sent + q.items, PendAfter(q), flags + [seen], ys + [Sent(refine, x, Zeroed(), ss, se + 1)], ss, se);
    assert sent + q.items + EobItems(t, PendAfter(q)) == sent + (q.items + EobItems(t, PendAfter(q)));
  }

  // ----- A whole run of blocks -----

  datatype Stream = Stream(items: seq<Item>, p: Pend)

  /** The items for the blocks xs, and what is still pending. */
  function StreamOut(t: nat, refine: bool, xs: seq<Zigzag>, ss: nat, se: nat): Stream
    requires 1 <= ss <= se < DCTSIZE2
  {
    if xs == [] then Stream([], NO_PEND)
    else
      var s := StreamOut(t, refine, xs[..|xs| - 1], ss, se);
      var (items, p) := BlockOut(t, refine, xs[|xs| - 1], ss, se, s.p);
      Stream(s.items + items, p)
  }

  function AllSent(refine: bool, xs: seq<Zigzag>, ss: nat, se: nat): seq<Zigzag> {
    if xs == [] then [] else AllSent(refine, xs[..|xs| - 1], ss, se) + [Sent(refine, xs[|xs| - 1], Zeroed(), ss, se + 1)]
  }

  predicate AllFit(refine: bool, xs: seq<Zigzag>, flags: seq<Flags>, ss: nat, se: nat) {
    |xs| == |flags| && forall i :: 0 <= i < |xs| ==> BlockFits(refine, xs[i], flags[i], ss, se)
  }

  lemma {:induction false} StreamDelivers(t: nat, refine: bool, xs: seq<Zigzag>, flags: seq<Flags>, ss: nat, se: nat)
    requires 1 <= ss <= se < DCTSIZE2 && AllFit(refine, xs, flags, ss, se)
    ensures var s := StreamOut(t, refine, xs, ss, se);
            PendOk(s.p) && Delivers(t, s.items, s.p, flags, AllSent(refine, xs, ss, se), ss, se)
  {
    hide Sent, BlockOut, BlockFits;
    if xs == [] {
      NothingDelivers(t, ss, se);
    } else {
      var n := |xs| - 1;
      StreamDelivers(t, refine, xs[..n], flags[..n], ss, se);
      var s := StreamOut(t, refine, xs[..n], ss, se);
      BlockDelivers(t, refine, xs[n], flags[n], ss, se, s.items, s.p, flags[..n], AllSent(refine, xs[..n], ss, se));
      assert flags == flags[..n] + [flags[n]];
    }
  }

  lemma NothingDelivers(t: nat, ss: nat, se: nat)
    requires se < DCTSIZE2
    ensures Delivers(t, [], NO_PEND, [], [], ss, se)
  {
    forall j: nat, more: seq<Item> | MayGoOn(NO_PEND, j) ensures DeliversWith(t, [], NO_PEND, [], [], ss, se, j, more) {
      assert [] + ([] + more) == more;
    }
  }

  /**
   * Every new value and every correction bit arrives exactly once, in coefficient order, block by block,
   * and nothing else is read, once the last pending run has been sent.
   */
  lemma StreamReadBack(t: nat, refine: bool, xs: seq<Zigzag>, flags: seq<Flags>, ss: nat, se: nat, rest: seq<Item>)
    requires 1 <= ss <= se < DCTSIZE2 && AllFit(refine, xs, flags, ss, se)
    ensures var s := StreamOut(t, refine, xs, ss, se);
            ReadBlocks(t, s.items + EobItems(t, s.p) + rest, flags, ss, se) == Read(AllSent(refine, xs, ss, se), rest, 0)
  {
    hide Sent, BlockOut, ReadBlocks, Delivers, EobHeader, Raws, AllFit;
    StreamDelivers(t, refine, xs, flags, ss, se);
    var s := StreamOut(t, refine, xs, ss, se);
    DeliversNow(t, s.items, s.p, flags, AllSent(refine, xs, ss, se), ss, se, 0, rest);
    assert s.items + EobItems(t, s.p) + rest == s.items + (Final(t, s.p, 0) + rest);
  }
}
