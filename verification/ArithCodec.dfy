/**
 * The arithmetic coder as a codec for decisions: any sequence of (bin, bit) decisions, encoded and
 * terminated by jcarith.c, is decoded by jdarith.c from the same bins, and the statistics end equal.
 */
module ArithCodec {
  import opened Bits
  import opened ArithSpec
  import opened ArithStats
  import opened ArithEncoder
  import opened ArithDecoder

  /** The bin exists. */
  predicate BinExists(st: BinId) {
    match st
    case Dc(t, i) => t < NUM_ARITH_TBLS && i < DC_STAT_BINS
    case Ac(t, i) => t < NUM_ARITH_TBLS && i < AC_STAT_BINS
    case Fixed => true
  }

  predicate AllExist(ds: seq<Decision>) {
    forall i :: 0 <= i < |ds| ==> BinExists(ds[i].bin)
  }

  /** All statistics areas zeroed, as start_pass does for the tables of a scan. */
  method ZeroAll(stats: Statistics)
    requires stats.Agrees(map[])
    modifies stats, stats.dcStats, stats.acStats
    ensures stats.Agrees(map[]) && forall st :: BinExists(st) ==> stats.Usable(st)
  {
    hide Statistics.Agrees;
    for t := 0 to NUM_ARITH_TBLS
      invariant stats.Agrees(map[])
      invariant forall u: nat :: u < t ==> u in stats.dcTables && u in stats.acTables
    {
      stats.ZeroDc(t);
      stats.ZeroAc(t);
    }
  }

  /** Encode decisions from the initial state, and terminate. */
  method EncodeAll(ds: seq<Decision>) returns (e: Encoder)
    requires AllExist(ds)
    ensures fresh(e) && fresh(e.stats) && fresh(e.stats.dcStats) && fresh(e.stats.acStats) && fresh(e.stats.fixedBin)
    ensures e.coder == CodeAll(START, ds) && e.stats.Agrees(e.coder.bins) && forall st :: BinExists(st) ==> e.stats.Usable(st)
    ensures e.out == Stuff(e.w) && In(e.w, e.coder.iv)
    ensures (e.w != [] ==> e.w[|e.w| - 1] != 0) && forall v :: In(v, e.coder.iv) ==> |e.w| <= |v|
  {
    hide Statistics.Agrees, Code, In, Stuff, Encoder.Registers;
    e := new Encoder();
    ZeroAll(e.stats);
    e.InitRegisters();
    for i := 0 to |ds|
      invariant e.Valid() && e.coder == CodeAll(START, ds[..i]) && e.prior == []
      invariant forall st :: BinExists(st) ==> e.stats.Usable(st)
      modifies e`c, e`a, e`sc, e`zc, e`ct, e`buffer, e`out, e`w, e`coder, e.stats.dcStats, e.stats.acStats, e.stats.fixedBin
    {
      e.ArithEncode(ds[i].bin, ds[i].bit);
      CodeAllSnoc(START, ds[..i], ds[i]);
      assert ds[..i + 1] == ds[..i] + [ds[i]];
    }
    assert ds[..|ds|] == ds;
    e.FinishPass();
    assert [] + Stuff(e.w) == Stuff(e.w);
  }

  /** A point of the final interval decodes to the next bit at every step. */
  lemma NextDecoded(w: seq<Byte>, ds: seq<Decision>, i: nat)
    requires i < |ds| && In(w, CodeAll(START, ds).iv)
    ensures var s := CodeAll(START, ds[..i]);
            DecodeBit(w, s, ds[i].bin) == ds[i].bit && DecodeStep(w, s, ds[i].bin) == CodeAll(START, ds[..i + 1])
  {
    hide In, Code, DecodeBit;
    var s, d := CodeAll(START, ds[..i]), ds[i];
    assert ds[..i + 1] == ds[..i] + [d] && ds == ds[..i + 1] + ds[i + 1..];
    CodeAllSnoc(START, ds[..i], d);
    CodeAllConcat(START, ds[..i + 1], ds[i + 1..]);
    InNested(w, Code(s, d), ds[i + 1..]);
    InCode(w, s, d);
  }

  /** Decode from the bins of ds; zeros are supplied once a marker is met. */
  method DecodeAll(src: seq<Byte>, ds: seq<Decision>) returns (d: Decoder, bits: seq<Bit>)
    requires AllExist(ds) && In(Unstuff(src), CodeAll(START, ds).iv)
    ensures fresh(d) && fresh(d.stats) && d.coder == CodeAll(START, ds) && d.stats.Agrees(d.coder.bins)
    ensures forall st :: BinExists(st) ==> d.stats.Usable(st)
    ensures |bits| == |ds| && forall i :: 0 <= i < |ds| ==> bits[i] == ds[i].bit
  {
    hide Statistics.Agrees, Code, In, Unstuff, DecodeBit, DecodeStep, Decoder.Starting, Decoder.Fed;
    d := new Decoder(src);
    ZeroAll(d.stats);
    d.InitRegisters();
    assert src[0..] == src;
    bits := [];
    for i := 0 to |ds|
      invariant d.Valid() && d.coder == CodeAll(START, ds[..i]) && d.w == Unstuff(src)
      invariant |bits| == i && forall j :: 0 <= j < i ==> bits[j] == ds[j].bit
      invariant forall st :: BinExists(st) ==> d.stats.Usable(st)
      modifies d`c, d`a, d`ct, d`pos, d`unreadMarker, d`iv, d`coder, d`read, d.stats.dcStats, d.stats.acStats, d.stats.fixedBin
    {
      NextDecoded(d.w, ds, i);
      var bit := d.ArithDecode(ds[i].bin);
      bits := bits + [bit];
    }
    assert ds[..|ds|] == ds;
  }

  /** There and back: the same bits, whatever marker follows. */
  method RoundTrip(ds: seq<Decision>, tail: seq<Byte>) returns (bits: seq<Bit>)
    requires AllExist(ds) && Unstuff(tail) == []
    ensures |bits| == |ds| && forall i :: 0 <= i < |ds| ==> bits[i] == ds[i].bit
  {
    var e, d;
    bits, e, d := BothSides(ds, tail);
  }

  /** The same, and every statistics bin ends the same on both sides. */
  method BothSides(ds: seq<Decision>, tail: seq<Byte>) returns (bits: seq<Bit>, e: Encoder, d: Decoder)
    requires AllExist(ds) && Unstuff(tail) == []
    ensures |bits| == |ds| && forall i :: 0 <= i < |ds| ==> bits[i] == ds[i].bit
    ensures forall st :: BinExists(st) ==>
              e.stats.Usable(st) && d.stats.Usable(st) && e.stats.Shapes() && d.stats.Shapes() && e.stats.Load(st) == d.stats.Load(st)
  {
    hide Code, In, Unstuff, Stuff, Statistics.Agrees;
    e := EncodeAll(ds);
    UnstuffStuff(e.w, tail);
    d, bits := DecodeAll(e.out + tail, ds);
    SameBins(e.stats, d.stats, CodeAll(START, ds).bins);
  }

  lemma SameBins(a: Statistics, b: Statistics, bins: Bins)
    requires a.Agrees(bins) && b.Agrees(bins) && forall st :: BinExists(st) ==> a.Usable(st) && b.Usable(st)
    ensures a.Shapes() && b.Shapes() && forall st :: BinExists(st) ==> a.Load(st) == b.Load(st)
  {
    forall st | BinExists(st) ensures a.Shapes() && b.Shapes() && a.Load(st) == b.Load(st) {
      a.LoadAgrees(bins, st);
      b.LoadAgrees(bins, st);
    }
    b.LoadAgrees(bins, Fixed);
    a.LoadAgrees(bins, Fixed);
  }
}
