/**
 * Reading progressive Huffman-coded data (section G.2 of ITU-T T.81), as a specification on bits: what a
 * reader of items makes of a segment, a reader of its bits makes of these.
 */
module HuffmanProgressiveDecoding {
  import opened Bits
  import opened Blocks
  import opened Markers
  import opened ArithScan
  import opened HuffmanCodes
  import opened HuffmanBits
  import opened HuffmanSymbols
  import opened HuffmanEobRuns
  import opened HuffmanScan
  import opened HuffmanOutput
  import opened HuffmanDecoding
  import opened HuffmanProgressive
  import opened HuffmanProgressiveScan

  // ----- AC bands -----

  datatype BandBits = BandBits(y: Zigzag, rest: BitString, eobrun: nat) | BadBandBits

  /** A correction bit for every coefficient that has been seen. */
  function DecodeTail(b: BitString, seen: Flags, y: Zigzag, k: nat, se: nat, e: nat): BandBits
    requires se < DCTSIZE2 && e > 0
    decreases se + 1 - k
  {
    if k > se then BandBits(y, b, e - 1)
    else if seen[k] then
      if b.n == 0 then BadBandBits else DecodeTail(Behind(b, 1), seen, y[k := First(b, 1)], k + 1, se, e)
    else DecodeTail(b, seen, y, k + 1, se, e)
  }

  datatype SkippedBits = SkippedBits(y: Zigzag, rest: BitString, k: nat) | BadSkipBits

  /** Over r coefficients that are still zero, with correction bits for those seen. */
  function DecodeSkip(b: BitString, seen: Flags, y: Zigzag, k: nat, se: nat, r: nat): SkippedBits
    requires se < DCTSIZE2
    decreases se + 1 - k
  {
    if k > se then SkippedBits(y, b, k)
    else if seen[k] then
      if b.n == 0 then BadSkipBits else DecodeSkip(Behind(b, 1), seen, y[k := First(b, 1)], k + 1, se, r)
    else if r == 0 then SkippedBits(y, b, k)
    else DecodeSkip(b, seen, y, k + 1, se, r - 1)
  }

  lemma SkipAdvances(b: BitString, seen: Flags, y: Zigzag, k: nat, se: nat, r: nat)
    requires se < DCTSIZE2
    ensures DecodeSkip(b, seen, y, k, se, r).SkippedBits? ==> k <= DecodeSkip(b, seen, y, k, se, r).k
    decreases se + 1 - k
  {
  }

  /** The rest of a block outside an end-of-block run. */
  ghost function DecodeFrom(c: Codes, b: BitString, seen: Flags, y: Zigzag, k: nat, se: nat): BandBits
    requires se < DCTSIZE2
    decreases se + 1 - k
  {
    if k > se then BandBits(y, b, 0)
    else
      match DecodeSym(c, b)
      case NoSymbol => BadBandBits
      case Decoded(s, rest) =>
        var r, n := s / 16, s % 16;
        if n == 0 && r < 15 then
          if r == 0 then DecodeTail(rest, seen, y, k, se, 1)
          else if r > rest.n then BadBandBits
          else DecodeTail(Behind(rest, r), seen, y, k, se, Pow2(r) + First(rest, r))
        else if n > rest.n then BadBandBits
        else
          var more := if n == 0 then rest else Behind(rest, n);
          SkipAdvances(more, seen, y, k, se, r);
          match DecodeSkip(more, seen, y, k, se, r)
          case BadSkipBits => BadBandBits
          case SkippedBits(y', rest', k') =>
            if k' > se then BadBandBits
            else DecodeFrom(c, rest', seen, if n == 0 then y' else y'[k' := Extend(First(rest, n), n)], k' + 1, se)
  }

  ghost function DecodeBand(c: Codes, b: BitString, seen: Flags, y: Zigzag, ss: nat, se: nat, e: nat): BandBits
    requires se < DCTSIZE2
  {
    if e > 0 then DecodeTail(b, seen, y, ss, se, e) else DecodeFrom(c, b, seen, y, ss, se)
  }

  /** Items whose codes and bits can be read. */
  predicate Readable(tables: Tables, t: nat, items: seq<Item>) {
    AllCoded(tables, items) && AcTbl(t) in tables && PrefixCode(tables[AcTbl(t)].co, tables[AcTbl(t)].si)
  }

  /** The bits of items, and bits behind them. */
  function Stream(tables: Tables, items: seq<Item>, behind: BitString): BitString
    requires AllCoded(tables, items)
  {
    Cat(BitsOf(tables, items), behind)
  }

  lemma NextRaw(tables: Tables, items: seq<Item>, behind: BitString)
    requires items != [] && AllCoded(tables, items) && Proper(behind) && items[0].Raw?
    ensures AllCoded(tables, items[1..])
    ensures var b := Stream(tables, items, behind); var n := items[0].n;
            n <= b.n && First(b, n) == items[0].bits && Behind(b, n) == Stream(tables, items[1..], behind)
  {
    hide Coded, AppendItems;
    FirstItem(tables, items, behind);
    RawRead(tables, items[0].bits, items[0].n, Stream(tables, items[1..], behind));
  }

  lemma NextSym(tables: Tables, t: nat, items: seq<Item>, behind: BitString)
    requires items != [] && Readable(tables, t, items) && Proper(behind) && items[0].Sym? && items[0].tbl == AcTbl(t)
    ensures Readable(tables, t, items[1..]) && items[0].s < 256
    ensures DecodeSym(tables[AcTbl(t)], Stream(tables, items, behind)) == Decoded(items[0].s, Stream(tables, items[1..], behind))
  {
    hide AppendItems, PrefixCode;
    FirstItem(tables, items, behind);
    SymbolDecoded(tables, AcTbl(t), items[0].s, Stream(tables, items[1..], behind));
  }

  lemma {:induction false} TailBits(tables: Tables, items: seq<Item>, seen: Flags, y: Zigzag, k: nat, se: nat, e: nat, behind: BitString)
    requires se < DCTSIZE2 && e > 0 && AllCoded(tables, items) && Proper(behind) && ReadTail(items, seen, y, k, se, e).Band?
    ensures var r := ReadTail(items, seen, y, k, se, e);
            AllCoded(tables, r.rest) && DecodeTail(Stream(tables, items, behind), seen, y, k, se, e) == BandBits(r.y, Stream(tables, r.rest, behind), r.eobrun)
    decreases se + 1 - k
  {
    hide AllCoded, Stream, First, Behind;
    if k <= se {
      if seen[k] {
        NextRaw(tables, items, behind);
        TailBits(tables, items[1..], seen, y[k := items[0].bits], k + 1, se, e, behind);
      } else {
        TailBits(tables, items, seen, y, k + 1, se, e, behind);
      }
    }
  }

  lemma {:induction false} SkipBits(tables: Tables, items: seq<Item>, seen: Flags, y: Zigzag, k: nat, se: nat, r: nat, behind: BitString)
    requires se < DCTSIZE2 && AllCoded(tables, items) && Proper(behind) && Skip(items, seen, y, k, se, r).Skipped?
    ensures var s := Skip(items, seen, y, k, se, r);
            AllCoded(tables, s.rest) && DecodeSkip(Stream(tables, items, behind), seen, y, k, se, r) == SkippedBits(s.y, Stream(tables, s.rest, behind), s.k)
    decreases se + 1 - k
  {
    hide AllCoded, Stream, First, Behind;
    if k <= se {
      if seen[k] {
        NextRaw(tables, items, behind);
        SkipBits(tables, items[1..], seen, y[k := items[0].bits], k + 1, se, r, behind);
      } else if r > 0 {
        SkipBits(tables, items, seen, y, k + 1, se, r - 1, behind);
      }
    }
  }

  lemma {:induction false} FromBits(tables: Tables, t: nat, items: seq<Item>, seen: Flags, y: Zigzag, k: nat, se: nat, behind: BitString)
    requires se < DCTSIZE2 && Readable(tables, t, items) && Proper(behind) && ReadFrom(t, items, seen, y, k, se).Band?
    ensures var r := ReadFrom(t, items, seen, y, k, se);
            Readable(tables, t, r.rest)
            && DecodeFrom(tables[AcTbl(t)], Stream(tables, items, behind), seen, y, k, se) == BandBits(r.y, Stream(tables, r.rest, behind), r.eobrun)
    decreases se + 1 - k
  {
    hide AllCoded, Stream, First, Behind, DecodeSym, PrefixCode, Extend, ReadTail, DecodeTail, Skip, DecodeSkip;
    if k <= se {
      var r, n := items[0].s / 16, items[0].s % 16;
      NextSym(tables, t, items, behind);
      if n == 0 && r < 15 {
        if r == 0 {
          TailBits(tables, items[1..], seen, y, k, se, 1, behind);
        } else {
          NextRaw(tables, items[1..], behind);
          assert items[1..][0] == items[1] && items[1..][1..] == items[2..];
          TailBits(tables, items[2..], seen, y, k, se, Pow2(r) + items[1].bits, behind);
        }
      } else if n == 0 {
        var s := Skip(items[1..], seen, y, k, se, 15);
        SkipBits(tables, items[1..], seen, y, k, se, 15, behind);
        FromBits(tables, t, s.rest, seen, s.y, s.k + 1, se, behind);
      } else {
        NextRaw(tables, items[1..], behind);
        assert items[1..][0] == items[1] && items[1..][1..] == items[2..];
        var s := Skip(items[2..], seen, y, k, se, r);
        SkipBits(tables, items[2..], seen, y, k, se, r, behind);
        FromBits(tables, t, s.rest, seen, s.y[s.k := Extend(items[1].bits, n)], s.k + 1, se, behind);
      }
    }
  }

  datatype BandsBits = BandsBits(ys: seq<Zigzag>, rest: BitString, eobrun: nat) | BadBandsBits

  /** The blocks of a segment of an AC scan, given which coefficients each has already. */
  ghost function DecodeBands(c: Codes, b: BitString, flags: seq<Flags>, ss: nat, se: nat): BandsBits
    requires se < DCTSIZE2
    decreases |flags|
  {
    if flags == [] then BandsBits([], b, 0)
    else
      match DecodeBands(c, b, flags[..|flags| - 1], ss, se)
      case BadBandsBits => BadBandsBits
      case BandsBits(ys, rest, e) =>
        match DecodeBand(c, rest, flags[|flags| - 1], Zeroed(), ss, se, e)
        case BadBandBits => BadBandsBits
        case BandBits(y, rest', e') => BandsBits(ys + [y], rest', e')
  }

  lemma {:induction false} BlocksBits(tables: Tables, t: nat, items: seq<Item>, flags: seq<Flags>, ss: nat, se: nat, behind: BitString)
    requires se < DCTSIZE2 && Readable(tables, t, items) && Proper(behind) && ReadBlocks(t, items, flags, ss, se).Read?
    ensures var r := ReadBlocks(t, items, flags, ss, se);
            Readable(tables, t, r.rest)
            && DecodeBands(tables[AcTbl(t)], Stream(tables, items, behind), flags, ss, se) == BandsBits(r.ys, Stream(tables, r.rest, behind), r.eobrun)
    decreases |flags|
  {
    hide AllCoded, Stream, PrefixCode, ReadTail, DecodeTail, ReadFrom, DecodeFrom;
    if flags != [] {
      var n := |flags| - 1;
      BlocksBits(tables, t, items, flags[..n], ss, se, behind);
      var r := ReadBlocks(t, items, flags[..n], ss, se);
      if r.eobrun > 0 {
        TailBits(tables, r.rest, flags[n], Zeroed(), ss, se, r.eobrun, behind);
      } else {
        FromBits(tables, t, r.rest, flags[n], Zeroed(), ss, se, behind);
      }
    }
  }

  /**
   * The bytes of a segment of an AC scan: every new value and every correction bit is decoded, in order, by
   * a reader that knows which coefficients are nonzero already.
   */
  lemma AcSegmentDecoded(sc: PScan, tables: Tables, vs: seq<Visit>, flags: seq<Flags>, w: seq<Byte>)
    requires PScanOk(sc) && !sc.IsDc() && InScan(sc, vs) && AllFit(sc.Refines(), Bands(vs, sc.al), flags, sc.ss, sc.se)
    requires AcTbl(sc.tbl[0]) in tables && PrefixCode(tables[AcTbl(sc.tbl[0])].co, tables[AcTbl(sc.tbl[0])].si)
    requires Packed(tables, WholeSegment(sc, vs), w)
    ensures var r := DecodeBands(tables[AcTbl(sc.tbl[0])], BitString(Val(w), 8 * |w|), flags, sc.ss, sc.se);
            r.BandsBits? && r.eobrun == 0 && r.ys == AllSent(sc.Refines(), Bands(vs, sc.al), sc.ss, sc.se)
  {
    hide AppendItems, Coded, WholeSegment, AllFit, AllSent, ReadBlocks, DecodeBands, PrefixCode;
    var items := WholeSegment(sc, vs);
    var b := BitsOf(tables, items);
    var pad := 8 * |w| - b.n;
    var ones := BitString(Pow2(pad) - 1, pad);
    assert BitString(Val(w), 8 * |w|) == Stream(tables, items, ones);
    AcSegmentReadBack(sc, vs, flags, []);
    assert items + [] == items;
    BlocksBits(tables, sc.tbl[0], items, flags, sc.ss, sc.se, ones);
  }

  // ----- What the reader makes of it -----

  /** What the reader has of a block before the scan. */
  function Known(sc: PScan, z: Zigzag): Zigzag {
    if sc.Refines() then Trunc(z, sc.ah) else Zeroed()
  }

  /** Which of its coefficients are nonzero. */
  function FlagsOf(y: Zigzag): Flags {
    seq(DCTSIZE2, j requires 0 <= j < DCTSIZE2 => y[j] != 0)
  }

  /** A coefficient with what has been read for it: a new value, or one more bit of its magnitude. */
  function Combined(known: int, sent: int): int {
    if known == 0 then sent else if known < 0 then 2 * known - sent else 2 * known + sent
  }

  lemma CoefCompleted(x: int, al: nat)
    ensures var v, known := TruncCoef(x, al), TruncCoef(x, al + 1);
            (known != 0 <==> Abs(v) > 1) && Combined(known, if Abs(v) > 1 then Abs(v) % 2 else v) == v
  {
    HalfTrunc(x, al);
    hide TruncCoef;
  }

  predicate Progresses(sc: PScan) {
    sc.Refines() ==> sc.ah == sc.al + 1
  }

  /** A first scan sends whole values, which the coder must accept; a refinement scan sends single bits. */
  predicate Sendable(sc: PScan, z: Zigzag)
    requires PScanOk(sc)
  {
    sc.Refines() || BandInRange(Trunc(z, sc.al), sc.ss, sc.se + 1)
  }

  lemma KnownFits(sc: PScan, z: Zigzag)
    requires PScanOk(sc) && Progresses(sc) && Sendable(sc, z)
    ensures BlockFits(sc.Refines(), Trunc(z, sc.al), FlagsOf(Known(sc, z)), sc.ss, sc.se)
  {
    OneBit();
    hide TruncCoef, NBits;
    var x := Trunc(z, sc.al);
    forall j | 0 <= j < DCTSIZE2 ensures FlagsOf(Known(sc, z))[j] <==> IsOld(sc.Refines(), x[j]) {
      CoefCompleted(z[j], sc.al);
    }
    forall j | sc.ss <= j <= sc.se && j < DCTSIZE2 && IsNew(sc.Refines(), x[j]) ensures NBits(Abs(x[j])) <= 15 {
    }
  }

  lemma OneBit()
    ensures NBits(1) == 1 && NBits(0) == 0
  {
  }

  /** The band of the block is what the reader knew combined with what it read. */
  predicate BandCompleted(sc: PScan, z: Zigzag, y: Zigzag) {
    forall j :: sc.ss <= j <= sc.se && j < DCTSIZE2 ==> Combined(Known(sc, z)[j], y[j]) == Trunc(z, sc.al)[j]
  }

  lemma SentCompletes(sc: PScan, z: Zigzag)
    requires PScanOk(sc) && Progresses(sc)
    ensures BandCompleted(sc, z, Sent(sc.Refines(), Trunc(z, sc.al), Zeroed(), sc.ss, sc.se + 1))
  {
    hide TruncCoef;
    forall j | sc.ss <= j <= sc.se && j < DCTSIZE2
      ensures Combined(Known(sc, z)[j], Sent(sc.Refines(), Trunc(z, sc.al), Zeroed(), sc.ss, sc.se + 1)[j]) == Trunc(z, sc.al)[j]
    {
      CoefCompleted(z[j], sc.al);
    }
  }

  lemma {:induction false} AllSentAt(refine: bool, xs: seq<Zigzag>, ss: nat, se: nat, i: nat)
    requires i < |xs|
    ensures |AllSent(refine, xs, ss, se)| == |xs| && AllSent(refine, xs, ss, se)[i] == Sent(refine, xs[i], Zeroed(), ss, se + 1)
    decreases |xs|
  {
    hide Sent;
    var n := |xs| - 1;
    if n > 0 {
      AllSentAt(refine, xs[..n], ss, se, if i < n then i else 0);
    }
  }

  /** The flags of the blocks, from what is known of them. */
  function SegmentFlags(sc: PScan, vs: seq<Visit>): seq<Flags> {
    seq(|vs|, i requires 0 <= i < |vs| => FlagsOf(Known(sc, vs[i].z)))
  }

  /**
   * One segment of an AC scan, first or refinement: from the blocks truncated at Ah (nothing, in a first
   * scan) and the bytes, a reader gets the bands truncated at Al.
   */
  lemma AcSegmentCompletes(sc: PScan, tables: Tables, vs: seq<Visit>, w: seq<Byte>)
    requires PScanOk(sc) && !sc.IsDc() && InScan(sc, vs) && Progresses(sc) && forall i :: 0 <= i < |vs| ==> Sendable(sc, vs[i].z)
    requires AcTbl(sc.tbl[0]) in tables && PrefixCode(tables[AcTbl(sc.tbl[0])].co, tables[AcTbl(sc.tbl[0])].si)
    requires Packed(tables, WholeSegment(sc, vs), w)
    ensures var r := DecodeBands(tables[AcTbl(sc.tbl[0])], BitString(Val(w), 8 * |w|), SegmentFlags(sc, vs), sc.ss, sc.se);
            r.BandsBits? && r.eobrun == 0 && |r.ys| == |vs| && forall i :: 0 <= i < |vs| ==> BandCompleted(sc, vs[i].z, r.ys[i])
  {
    hide Packed, WholeSegment, DecodeBands, PrefixCode, BlockFits, Trunc, Known, Sendable, Sent, BandCompleted, AllSent;
    var flags, xs := SegmentFlags(sc, vs), Bands(vs, sc.al);
    forall i | 0 <= i < |vs| ensures BlockFits(sc.Refines(), xs[i], flags[i], sc.ss, sc.se) {
      KnownFits(sc, vs[i].z);
    }
    AcSegmentDecoded(sc, tables, vs, flags, w);
    forall i | 0 <= i < |vs| ensures |AllSent(sc.Refines(), xs, sc.ss, sc.se)| == |vs| && BandCompleted(sc, vs[i].z, AllSent(sc.Refines(), xs, sc.ss, sc.se)[i]) {
      AllSentAt(sc.Refines(), xs, sc.ss, sc.se, i);
      SentCompletes(sc, vs[i].z);
    }
    if vs == [] {
      NoneSent(sc.Refines(), xs, sc.ss, sc.se);
    } else {
      AllSentAt(sc.Refines(), xs, sc.ss, sc.se, 0);
    }
  }

  lemma NoneSent(refine: bool, xs: seq<Zigzag>, ss: nat, se: nat)
    requires xs == []
    ensures AllSent(refine, xs, ss, se) == []
  {
  }

  // ----- DC scans -----

  /** The prediction for component ci: the last value decoded for it. */
  function LastValue(cis: seq<nat>, vals: seq<int>, ci: nat): int
    requires |cis| >= |vals|
  {
    if vals == [] then 0
    else
      var n := |vals| - 1;
      if cis[n] == ci then vals[n] else LastValue(cis, vals[..n], ci)
  }

  datatype DcBits = DcBits(vals: seq<int>, rest: BitString) | BadDcBits

  /** A first scan: one difference per block. */
  ghost function DecodeDcFirst(sc: PScan, tables: Tables, cis: seq<nat>, b: BitString): DcBits
    requires PScanOk(sc) && forall i :: 0 <= i < |cis| ==> cis[i] < |sc.tbl| && DcTbl(sc.tbl[cis[i]]) in tables
    decreases |cis|
  {
    if cis == [] then DcBits([], b)
    else
      var ci := cis[|cis| - 1];
      match DecodeDcFirst(sc, tables, cis[..|cis| - 1], b)
      case BadDcBits => BadDcBits
      case DcBits(vals, rest) =>
        if |vals| > |cis| then BadDcBits
        else
          match DecodeSym(tables[DcTbl(sc.tbl[ci])], rest)
          case NoSymbol => BadDcBits
          case Decoded(n, more) =>
            if n > more.n then BadDcBits
            else DcBits(vals + [LastValue(cis, vals, ci) + Extend(First(more, n), n)], Behind(more, n))
  }

  /** The values that are sent. */
  function DcValues(sc: PScan, vs: seq<Visit>): (vals: seq<int>)
    ensures |vals| == |vs|
  {
    seq(|vs|, i requires 0 <= i < |vs| => Shift(vs[i].z[0], sc.al))
  }

  lemma {:induction false} PredictionsAgree(sc: PScan, vs: seq<Visit>, cis: seq<nat>, ci: nat)
    requires |cis| >= |vs| && forall i :: 0 <= i < |vs| ==> cis[i] == vs[i].ci
    ensures LastValue(cis, DcValues(sc, vs), ci) == Shift(LastDc(vs, ci), sc.al)
    decreases |vs|
  {
    if vs == [] {
      ZeroQuotient(Pow2(sc.al));
    } else {
      var n := |vs| - 1;
      assert DcValues(sc, vs)[..n] == DcValues(sc, vs[..n]);
      if vs[n].ci != ci {
        PredictionsAgree(sc, vs[..n], cis, ci);
      }
    }
  }

  lemma ZeroQuotient(p: nat)
    requires p > 0
    ensures 0 / p == 0
  {
  }

  predicate DcTablesFor(sc: PScan, tables: Tables) {
    forall ci :: 0 <= ci < |sc.tbl| ==> DcTbl(sc.tbl[ci]) in tables && PrefixCode(tables[DcTbl(sc.tbl[ci])].co, tables[DcTbl(sc.tbl[ci])].si)
  }

  lemma OneDc(tables: Tables, t: nat, diff: int, behind: BitString)
    requires AllCoded(tables, DcItems(t, diff)) && DcTbl(t) in tables && PrefixCode(tables[DcTbl(t)].co, tables[DcTbl(t)].si) && Proper(behind)
    ensures var b := Stream(tables, DcItems(t, diff), behind);
            var d := DecodeSym(tables[DcTbl(t)], b);
            d.Decoded? && d.s <= d.rest.n && Extend(First(d.rest, d.s), d.s) == diff && Behind(d.rest, d.s) == behind
  {
    hide PrefixCode, AppendItems, NBits, Extend, Coded, ItemBits, Cat, Proper, First, Behind, DecodeSym;
    var items := DcItems(t, diff);
    ExtendsBack(diff);
    FirstItem(tables, items, behind);
    SymbolDecoded(tables, DcTbl(t), items[0].s, Stream(tables, items[1..], behind));
    NextRaw(tables, items[1..], behind);
    assert items[1..][0] == Extra(diff);
    NoItems(tables, items[1..][1..], behind);
  }

  /** A first DC scan is decoded to the point-transformed DC values. */
  lemma {:induction false} DcFirstDecoded(sc: PScan, tables: Tables, vs: seq<Visit>, behind: BitString)
    requires PScanOk(sc) && sc.IsDc() && !sc.Refines() && InScan(sc, vs) && DcTablesFor(sc, tables) && Proper(behind)
    requires AllCoded(tables, SegOut(sc, vs).items)
    ensures DecodeDcFirst(sc, tables, Components(vs), Stream(tables, SegOut(sc, vs).items, behind)) == DcBits(DcValues(sc, vs), behind)
    decreases |vs|
  {
    hide PrefixCode, AppendItems, Extend, Coded, ItemBits, Cat, Proper, First, Behind, DecodeSym, DcItems, LastDc, LastValue, Shift;
    if vs == [] {
      NoItems(tables, [], behind);
    } else {
      var n := |vs| - 1;
      var front, v := vs[..n], vs[n];
      var items := DcItems(sc.tbl[v.ci], DcDiff(sc, front, v));
      assert SegOut(sc, vs).items == SegOut(sc, front).items + items;
      CodedParts(tables, SegOut(sc, front).items, items);
      BitsOfConcat(tables, SegOut(sc, front).items, items);
      CatAssociative(BitsOf(tables, SegOut(sc, front).items), BitsOf(tables, items), behind);
      AppendedBits(tables, NONE, items);
      CatProper(BitsOf(tables, items), behind);
      DcFirstDecoded(sc, tables, front, Stream(tables, items, behind));
      OneDc(tables, sc.tbl[v.ci], DcDiff(sc, front, v), behind);
      assert Components(vs)[..n] == Components(front);
      PredictionsAgree(sc, front, Components(vs), v.ci);
      assert DcValues(sc, vs) == DcValues(sc, front) + [Shift(v.z[0], sc.al)];
    }
  }

  /** A refinement scan: one bit per block. */
  function DecodeDcRefine(n: nat, b: BitString): seq<nat>
    requires n <= b.n
  {
    if n == 0 then [] else [First(b, 1)] + DecodeDcRefine(n - 1, Behind(b, 1))
  }

  /** The next bit of each DC value. */
  function DcBitItems(sc: PScan, vs: seq<Visit>): seq<Item> {
    if vs == [] then [] else [Raw(Masked(Shift(vs[0].z[0], sc.al), 1), 1)] + DcBitItems(sc, vs[1..])
  }

  lemma {:induction false} DcRefineItems(sc: PScan, vs: seq<Visit>)
    requires PScanOk(sc) && sc.IsDc() && sc.Refines() && InScan(sc, vs)
    ensures SegOut(sc, vs).items == DcBitItems(sc, vs)
    decreases |vs|
  {
    hide Masked, Shift;
    if vs != [] {
      var n := |vs| - 1;
      DcRefineItems(sc, vs[..n]);
      DcBitItemsSnoc(sc, vs[..n], vs[n]);
      assert vs == vs[..n] + [vs[n]];
    }
  }

  lemma {:induction false} DcBitItemsSnoc(sc: PScan, vs: seq<Visit>, v: Visit)
    ensures DcBitItems(sc, vs + [v]) == DcBitItems(sc, vs) + [Raw(Masked(Shift(v.z[0], sc.al), 1), 1)]
  {
    hide Masked, Shift;
    if vs == [] {
      assert [] + [v] == [v] && [v][1..] == [];
    } else {
      assert (vs + [v])[1..] == vs[1..] + [v];
      DcBitItemsSnoc(sc, vs[1..], v);
    }
  }

  lemma NextDcBit(x: int, al: nat)
    ensures Masked(Shift(x, al), 1) == Shift(x, al) % 2 && Shift(x, al) == 2 * Shift(x, al + 1) + Shift(x, al) % 2
  {
    assert Pow2(1) == 2;
    HalfShift(x, al);
  }

  /** The DC values truncated at Al + 1 and the decoded bits are the DC values truncated at Al. */
  lemma {:induction false} DcRefineDecoded(sc: PScan, tables: Tables, vs: seq<Visit>, behind: BitString)
    requires PScanOk(sc) && AllCoded(tables, DcBitItems(sc, vs)) && Proper(behind)
    ensures var b := Stream(tables, DcBitItems(sc, vs), behind);
            |vs| <= b.n && var bits := DecodeDcRefine(|vs|, b);
            |bits| == |vs| && forall i :: 0 <= i < |vs| ==> Shift(vs[i].z[0], sc.al) == 2 * Shift(vs[i].z[0], sc.al + 1) + bits[i]
    decreases |vs|
  {
    hide AppendItems, Coded, Cat, Proper, Shift, Masked;
    if vs != [] {
      var items := DcBitItems(sc, vs);
      NextDcBit(vs[0].z[0], sc.al);
      NextRaw(tables, items, behind);
      assert items[1..] == DcBitItems(sc, vs[1..]);
      DcRefineDecoded(sc, tables, vs[1..], behind);
    }
  }

  // ----- An AC scan -----

  /** A segment of an AC scan, read from its data bytes, completes its bands. */
  ghost predicate SegmentCompleted(sc: PScan, tables: Tables, vs: seq<Visit>, w: seq<Byte>)
    requires PScanOk(sc) && AcTbl(sc.tbl[0]) in tables
  {
    var r := DecodeBands(tables[AcTbl(sc.tbl[0])], BitString(Val(w), 8 * |w|), SegmentFlags(sc, vs), sc.ss, sc.se);
    r.BandsBits? && r.eobrun == 0 && |r.ys| == |vs| && forall i :: 0 <= i < |vs| ==> BandCompleted(sc, vs[i].z, r.ys[i])
  }

  /** All of an AC scan with its restart markers, as OptimizedScan writes it. */
  lemma AcScanCompletes(sc: PScan, tables: Tables, segs: seq<seq<Visit>>, ws: seq<seq<Byte>>, tail: seq<Byte>)
    requires PScanOk(sc) && !sc.IsDc() && Progresses(sc) && UsableTables(sc, tables) && PacksScan(sc, tables, segs, ws) && ws != []
    requires (forall k, i :: 0 <= k < |segs| && 0 <= i < |segs[k]| ==> Sendable(sc, segs[k][i].z)) && Unstuff(tail) == []
    ensures |segs| == |ws| && ReadData(ScanData(ws) + tail, |segs|) == ws && AcTbl(sc.tbl[0]) in tables
    ensures forall k :: 0 <= k < |segs| ==> SegmentCompleted(sc, tables, segs[k], ws[k])
  {
    hide Packed, WholeSegment, DecodeBands, PrefixCode, Sendable, BandCompleted, InScan, Unstuff, ScanData, ReadData;
    DataRead(ws, tail);
    assert sc.Tbl(sc.tbl[0]) == AcTbl(sc.tbl[0]);
    forall k | 0 <= k < |segs| ensures SegmentCompleted(sc, tables, segs[k], ws[k]) {
      AcSegmentCompletes(sc, tables, segs[k], ws[k]);
    }
  }

  // ----- A DC scan -----

  /** DC scans have no end-of-block runs. */
  lemma {:induction false} NothingPending(sc: PScan, vs: seq<Visit>)
    requires PScanOk(sc) && sc.IsDc() && InScan(sc, vs)
    ensures SegOut(sc, vs).p == NO_PEND && WholeSegment(sc, vs) == SegOut(sc, vs).items
    decreases |vs|
  {
    if vs != [] {
      NothingPending(sc, vs[..|vs| - 1]);
    }
  }

  /** A segment of a DC scan, read from its data bytes: the values, or one more bit of each. */
  ghost predicate DcSegmentCompleted(sc: PScan, tables: Tables, vs: seq<Visit>, w: seq<Byte>)
    requires PScanOk(sc) && InScan(sc, vs) && (!sc.Refines() ==> DcTablesFor(sc, tables))
  {
    var b := BitString(Val(w), 8 * |w|);
    if sc.Refines() then
      |vs| <= b.n && var bits := DecodeDcRefine(|vs|, b);
      |bits| == |vs| && forall i :: 0 <= i < |vs| ==> Shift(vs[i].z[0], sc.al) == 2 * Shift(vs[i].z[0], sc.al + 1) + bits[i]
    else
      var r := DecodeDcFirst(sc, tables, Components(vs), b);
      r.DcBits? && r.vals == DcValues(sc, vs)
  }

  lemma DcSegmentCompletes(sc: PScan, tables: Tables, vs: seq<Visit>, w: seq<Byte>)
    requires PScanOk(sc) && sc.IsDc() && InScan(sc, vs) && (!sc.Refines() ==> DcTablesFor(sc, tables)) && Packed(tables, WholeSegment(sc, vs), w)
    ensures DcSegmentCompleted(sc, tables, vs, w)
  {
    hide AppendItems, Coded, WholeSegment, SegOut, DecodeDcFirst, DecodeDcRefine, PrefixCode, Shift, DcBitItems, DcValues;
    var items := WholeSegment(sc, vs);
    var b := BitsOf(tables, items);
    var pad := 8 * |w| - b.n;
    var ones := BitString(Pow2(pad) - 1, pad);
    assert BitString(Val(w), 8 * |w|) == Stream(tables, items, ones);
    NothingPending(sc, vs);
    if sc.Refines() {
      DcRefineItems(sc, vs);
      DcRefineDecoded(sc, tables, vs, ones);
    } else {
      DcFirstDecoded(sc, tables, vs, ones);
    }
  }

  /** All of a DC scan with its restart markers, first or refinement, as OptimizedScan writes it. */
  lemma DcScanCompletes(sc: PScan, tables: Tables, segs: seq<seq<Visit>>, ws: seq<seq<Byte>>, tail: seq<Byte>)
    requires PScanOk(sc) && sc.IsDc() && UsableTables(sc, tables) && PacksScan(sc, tables, segs, ws) && ws != [] && Unstuff(tail) == []
    ensures |segs| == |ws| && ReadData(ScanData(ws) + tail, |segs|) == ws && (!sc.Refines() ==> DcTablesFor(sc, tables))
    ensures forall k :: 0 <= k < |segs| ==> InScan(sc, segs[k]) && DcSegmentCompleted(sc, tables, segs[k], ws[k])
  {
    hide Packed, WholeSegment, PrefixCode, InScan, Unstuff, ScanData, ReadData, DcSegmentCompleted;
    DataRead(ws, tail);
    forall ci: nat | ci < |sc.tbl| ensures sc.Tbl(sc.tbl[ci]) == DcTbl(sc.tbl[ci]) {
    }
    forall k | 0 <= k < |segs| ensures InScan(sc, segs[k]) && DcSegmentCompleted(sc, tables, segs[k], ws[k]) {
      DcSegmentCompletes(sc, tables, segs[k], ws[k]);
    }
  }
}
