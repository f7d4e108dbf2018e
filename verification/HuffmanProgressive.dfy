/**
 * The progressive Huffman coder of jcphuff.c, one block at a time. Its routines either count symbols
 * (gather_statistics) or send them; both ways they go through the same list of items.
 */
module HuffmanProgressive {
  import opened Arithmetic
  import opened Bits
  import opened Blocks
  import opened NaturalOrder
  import opened HuffmanBits
  import opened HuffmanSymbols
  import opened HuffmanSequential
  import opened HuffmanEobRuns

  /** A scan: the table number of each of its components, and the band and bit positions. */
  datatype PScan = PScan(tbl: seq<nat>, ss: nat, se: nat, ah: nat, al: nat)
  {
    predicate IsDc() {
      ss == 0
    }

    predicate Refines() {
      ah != 0
    }

    function Tbl(no: nat): TblId {
      if IsDc() then DcTbl(no) else AcTbl(no)
    }

    /** The tables the scan uses: none, if it refines DC coefficients. */
    predicate Uses(t: TblId) {
      !(IsDc() && Refines()) && exists ci :: 0 <= ci < |tbl| && t == Tbl(tbl[ci])
    }

    predicate UsesAll(items: seq<Item>) {
      forall j :: 0 <= j < |items| ==> items[j].Sym? ==> Uses(items[j].tbl)
    }
  }

  /** What jcmaster.c has validated: only DC scans may be interleaved. */
  predicate PScanOk(sc: PScan) {
    && 1 <= |sc.tbl| <= 4
    && (forall ci :: 0 <= ci < |sc.tbl| ==> sc.tbl[ci] < NUM_HUFF_TBLS)
    && if sc.ss == 0 then sc.se == 0 else sc.ss <= sc.se < DCTSIZE2 && |sc.tbl| == 1
  }

  /** The band of a block, point transform applied, is in the range the coder accepts. */
  predicate BandInRange(x: Zigzag, k: nat, m: nat)
    requires m <= DCTSIZE2
  {
    forall j :: k <= j < m ==> NBits(Abs(x[j])) <= MAX_COEF_BITS
  }

  // ----- Steps of BandItems -----

  lemma PrefixedTwice(a: seq<Item>, b: seq<Item>, q: Progress)
    ensures Prefixed(a, Prefixed(b, q)) == Prefixed(a + b, q)
  {
    assert a + (b + q.items) == a + b + q.items;
  }

  lemma RawsNone(t: nat, items: seq<Item>)
    ensures Raws([]) == [] && EobItems(t, NO_PEND) == [] && items + [] == items && [] + items == items
  {
  }

  lemma ZrlItems(t: nat, refine: bool, x: Zigzag, se: nat, eob: nat, k: nat, r: nat, br: seq<Bit>)
    requires k <= eob <= se < DCTSIZE2 && x[k] != 0 && r > 15
    ensures BandItems(t, refine, x, se, eob, k, r, br, NO_PEND)
         == Prefixed([Sym(AcTbl(t), ZRL)] + Raws(br), BandItems(t, refine, x, se, eob, k, r - 16, [], NO_PEND))
  {
    RawsNone(t, [Sym(AcTbl(t), ZRL)] + Raws(br));
  }

  lemma NewItems(t: nat, refine: bool, x: Zigzag, se: nat, eob: nat, k: nat, r: nat, br: seq<Bit>)
    requires k <= eob <= se < DCTSIZE2 && IsNew(refine, x[k]) && r <= 15
    ensures BandItems(t, refine, x, se, eob, k, r, br, NO_PEND)
         == Prefixed([Sym(AcTbl(t), r * 16 + NBits(Abs(x[k]))), Extra(x[k])] + Raws(br), BandItems(t, refine, x, se, eob, k + 1, 0, [], NO_PEND))
  {
    RawsNone(t, [Sym(AcTbl(t), r * 16 + NBits(Abs(x[k]))), Extra(x[k])] + Raws(br));
  }

  lemma HeaderBits(c: nat)
    requires 0 < c <= MAX_EOBRUN
    ensures NBits(c) - 1 <= 14
  {
    assert Pow2(15) == 0x8000 by { Pow2Values(); }
    NBitsAtMost(c, 15);
  }

  /** Where the band of a block is headed: all items at its end, and what will be pending. */
  datatype Goal = Goal(refine: bool, x: Zigzag, eob: nat, whole: Progress)

  class PhuffEncoder {
    const gather: bool               // gather_statistics
    const order: seq<int>
    const scan: PScan
    const tables: Tables             // derived_tbls, if not gathering
    const writer: LeftWriter
    const counts: array2<nat>        // count_ptrs, 257 entries each
    const bitBuffer: array<Bit>      // correction bits
    var eobrun: nat                  // run length of EOBs
    var be: nat                      // # of buffered correction bits before MCU

    ghost var past: seq<Item>        // items of earlier segments
    ghost var items: seq<Item>       // items of this segment

    /** start_pass_phuff. */
    constructor (gather: bool, order: seq<int>, sc: PScan, tables: Tables)
      requires IsNaturalOrder(order) && PScanOk(sc)
      ensures this.gather == gather && this.order == order && scan == sc && this.tables == tables
      ensures Synced() && eobrun == be == 0 && past == items == [] && writer.prior == writer.out == []
      ensures fresh(writer) && fresh(counts) && fresh(bitBuffer)
    {
      this.gather, this.order, scan, this.tables := gather, order, sc, tables;
      writer := new LeftWriter();
      counts := new nat[NUM_HUFF_TBLS, 257]((i, j) => 0);
      bitBuffer := new Bit[MAX_CORR_BITS](_ => 0);
      eobrun, be, past, items := 0, 0, [], [];
      new;
      hide LeftWriter.Valid;
      assert past + items == [];
    }

    ghost predicate Shape() {
      counts.Length0 == NUM_HUFF_TBLS && counts.Length1 == 257 && bitBuffer.Length == MAX_CORR_BITS
      && IsNaturalOrder(order) && PScanOk(scan)
    }

    /** The counts are those of the items so far. */
    ghost predicate Counted()
      reads this`past, this`items, counts
    {
      && Shape() && AllSane(past + items) && scan.UsesAll(past + items)
      && (gather ==>
            forall no: nat, s: nat :: no < NUM_HUFF_TBLS && s < 257 ==> counts[no, s] == CountSym(past + items, scan.Tbl(no), s))
    }

    /** The counts, or the bits, are those of the items so far. */
    ghost predicate Synced()
      reads this`past, this`items, counts, writer
    {
      && Counted()
      && (!gather ==> writer.Valid() && AllCoded(tables, items) && writer.all == AppendItems(tables, NONE, items))
    }

    /** A new segment: no items yet. */
    ghost method NextSegment()
      requires Counted() && (!gather ==> writer.Valid() && writer.all == NONE)
      modifies this`past, this`items
      ensures Synced() && past == old(past + items) && items == []
    {
      hide LeftWriter.Valid, CountSym, IsNaturalOrder;
      past, items := past + items, [];
      assert past + items == past;
    }

    /** Counting needs no codes. */
    ghost predicate CanSend(these: seq<Item>) {
      gather || AllCoded(tables, these)
    }

    // ----- Emitting -----

    /** Emit (or just count) a Huffman symbol. */
    method EmitSymbol(no: nat, s: nat)
      requires Synced() && no < NUM_HUFF_TBLS && scan.Uses(scan.Tbl(no)) && Sane(Sym(scan.Tbl(no), s)) && CanSend([Sym(scan.Tbl(no), s)])
      modifies this`items, counts, writer
      ensures Synced() && items == old(items) + [Sym(scan.Tbl(no), s)] && writer.prior == old(writer.prior)
    {
      hide AppendItems, CountSym, LeftWriter.Valid, IsNaturalOrder;
      ghost var i := Sym(scan.Tbl(no), s);
      Snoc(i);
      if gather {
        counts[no, s] := counts[no, s] + 1;
      } else {
        assert Coded(tables, [i][0]);
        var c := tables[scan.Tbl(no)];
        CodeKept(c.co[s], c.si[s]);
        var ok := writer.EmitBits(c.co[s], c.si[s]);
      }
      items := items + [i];
    }

    lemma CodeKept(code: nat, size: nat)
      requires code < Pow2(size)
      ensures Masked(code, size) == code
    {
      RemainderUnique(code, Pow2(size), 0, code);
    }

    /** One more item: in the counts, and in the bits. */
    lemma Snoc(i: Item)
      requires Synced() && Sane(i) && (i.Sym? ==> scan.Uses(i.tbl))
      ensures AllSane(past + (items + [i])) && scan.UsesAll(past + (items + [i]))
      ensures gather ==> forall no: nat, s: nat :: no < NUM_HUFF_TBLS && s < 257 ==>
                CountSym(past + (items + [i]), scan.Tbl(no), s) == counts[no, s] + if i == Sym(scan.Tbl(no), s) then 1 else 0
      ensures !gather && Coded(tables, i) ==> AllCoded(tables, items + [i]) && AppendItems(tables, NONE, items + [i]) == AppendItem(tables, writer.all, i)
    {
      hide CountSym, AppendItems, LeftWriter.Valid, Coded, Sane, IsNaturalOrder;
      assert past + (items + [i]) == (past + items) + [i];
      if gather {
        forall no: nat, s: nat | no < NUM_HUFF_TBLS && s < 257
          ensures CountSym(past + (items + [i]), scan.Tbl(no), s) == counts[no, s] + if i == Sym(scan.Tbl(no), s) then 1 else 0
        {
          CountSymSnoc(past + items, i, scan.Tbl(no), s);
        }
      } else if Coded(tables, i) {
        AppendItemsSnoc(tables, NONE, items, i);
      }
    }

    /** Emit some bits, unless we are in gather mode. */
    method EmitBits(code: int, size: nat)
      requires Synced() && 0 < size <= 16
      modifies this`items, writer
      ensures Synced() && items == old(items) + [Raw(Masked(code, size), size)] && writer.prior == old(writer.prior)
    {
      hide AppendItems, CountSym, LeftWriter.Valid, IsNaturalOrder;
      Snoc(Raw(Masked(code, size), size));
      if !gather {
        var ok := writer.EmitBits(code, size);
      }
      items := items + [Raw(Masked(code, size), size)];
    }

    /** Emit bits from a correction bit buffer. */
    method EmitBufferedBits(start: nat, nbits: nat)
      requires Synced() && start + nbits <= MAX_CORR_BITS
      modifies this`items, writer
      ensures Synced() && items == old(items) + Raws(bitBuffer[start..start + nbits]) && writer.prior == old(writer.prior)
    {
      hide AppendItems, CountSym, LeftWriter.Valid, IsNaturalOrder, Synced;
      assert Shape() && bitBuffer.Length == MAX_CORR_BITS by { SyncedShape(); }
      for n := 0 to nbits
        invariant Synced() && items == old(items) + Raws(bitBuffer[start..start + n]) && writer.prior == old(writer.prior)
      {
        ghost var bits := bitBuffer[start..start + n + 1];
        assert bits[..n] == bitBuffer[start..start + n];
        EmitBits(bitBuffer[start + n], 1);
        OneBit(bitBuffer[start + n]);
      }
    }

    lemma SyncedShape()
      requires Synced()
      ensures Shape() && |order| == DCTSIZE2
    {
    }

    lemma OneBit(b: Bit)
      ensures Masked(b, 1) == b
    {
      assert Pow2(1) == 2;
    }

    function Pending(): Pend
      requires be <= bitBuffer.Length
      reads this`eobrun, this`be, bitBuffer
    {
      Pend(eobrun, bitBuffer[..be])
    }

    lemma OwnTable(no: nat)
      requires Synced() && no in scan.tbl && !(scan.IsDc() && scan.Refines())
      ensures no < NUM_HUFF_TBLS && scan.Uses(scan.Tbl(no))
    {
      var ci :| 0 <= ci < |scan.tbl| && scan.tbl[ci] == no;
    }

    /** `nbits = 0; while (temp >>= 1) nbits++;` */
    method Log2Of(v: nat) returns (nbits: nat)
      requires v > 0
      ensures nbits == NBits(v) - 1
    {
      var temp: nat := v / 2;
      nbits := 0;
      while temp != 0
        invariant nbits + NBits(temp) == NBits(v) - 1
      {
        nbits := nbits + 1;
        temp := temp / 2;
      }
    }

    /** The symbol for the pending run, and its low bits. */
    method EmitRunLength(no: nat)
      requires Synced() && no in scan.tbl && !scan.IsDc() && 0 < eobrun <= MAX_EOBRUN && CanSend(EobHeader(no, eobrun))
      modifies this`items, counts, writer
      ensures Synced() && items == old(items) + EobHeader(no, eobrun) && writer.prior == old(writer.prior)
    {
      hide AppendItems, CountSym, LeftWriter.Valid, IsNaturalOrder, Synced, NBits, Pow2, Coded;
      var nbits := Log2Of(eobrun);
      HeaderBits(eobrun);
      // no more than 14 bits: the error exit is never taken
      ghost var before, all := items, EobHeader(no, eobrun);
      assert all[0] == Sym(AcTbl(no), nbits * 16);
      OwnTable(no);
      EmitSymbol(no, nbits * 16);
      if nbits != 0 {
        EmitBits(eobrun, nbits);
      }
      assert items == before + all;
    }

    lemma HeaderFirst(no: nat, p: Pend)
      requires p.eobrun > 0 && CanSend(EobItems(no, p))
      ensures CanSend(EobHeader(no, p.eobrun))
    {
      if !gather {
        hide Coded, EobHeader, Raws;
        forall j | 0 <= j < |EobHeader(no, p.eobrun)| ensures Coded(tables, EobHeader(no, p.eobrun)[j]) {
          assert EobItems(no, p)[j] == EobHeader(no, p.eobrun)[j];
        }
      }
    }

    /** Emit any pending EOBRUN symbol, and the correction bits that wait for it. */
    method EmitEobrun(no: nat)
      requires Synced() && no in scan.tbl && eobrun <= MAX_EOBRUN && be <= MAX_CORR_BITS && (be > 0 ==> eobrun > 0)
      requires scan.IsDc() ==> eobrun == 0
      requires Shape() && CanSend(EobItems(no, Pending()))
      modifies this`items, this`eobrun, this`be, counts, writer
      ensures Synced() && items == old(items) + EobItems(no, old(Pending())) && eobrun == be == 0 && writer.prior == old(writer.prior)
    {
      hide LeftWriter.Valid, IsNaturalOrder, Synced, Raws, EobHeader, PhuffEncoder.CanSend;
      if eobrun > 0 {
        HeaderFirst(no, Pending());
        EmitRunLength(no);
        eobrun := 0;
        EmitBufferedBits(0, be);
        assert bitBuffer[0..be] == bitBuffer[..be];
        be := 0;
      }
    }

    // ----- The AC coefficients of a block -----

    ghost predicate Emitting(g: Goal)
      reads this`past, this`items, this`eobrun, this`be, counts, writer
    {
      && Synced() && !scan.IsDc() && g.eob <= scan.se && CanSend(g.whole.items)
      && eobrun < MAX_EOBRUN && be <= MAX_CORR_BITS - DCTSIZE2 + 1 && (be > 0 ==> eobrun > 0)
    }

    /** What is left of the band, behind the items so far, leads to the goal. */
    ghost predicate Ahead(g: Goal, k: nat, r: nat, br: seq<Bit>)
      requires PScanOk(scan) && g.eob <= scan.se < DCTSIZE2 && be <= bitBuffer.Length
      reads this`items, this`eobrun, this`be, bitBuffer
    {
      && k <= scan.se + 1
      && Prefixed(items, BandItems(scan.tbl[0], g.refine, g.x, scan.se, g.eob, k, r, br, Pending())) == g.whole
    }

    /** The next items of the goal can be sent. */
    lemma NextCanBeSent(g: Goal, sent: seq<Item>, next: seq<Item>, q: Progress)
      requires CanSend(g.whole.items) && g.whole == Prefixed(sent, Prefixed(next, q))
      ensures CanSend(next)
    {
      if !gather {
        hide Coded;
        forall j | 0 <= j < |next| ensures Coded(tables, next[j]) {
          assert g.whole.items[|sent| + j] == next[j];
        }
      }
    }

    /** The first of the items to come can be sent. */
    lemma FirstCanBeSent(g: Goal, sent: seq<Item>, next: seq<Item>, q: Progress, n: nat)
      requires CanSend(g.whole.items) && g.whole == Prefixed(sent, Prefixed(next, q)) && n < |next|
      ensures CanSend([next[n]])
    {
      NextCanBeSent(g, sent, next, q);
    }

    /** A new coefficient is ahead: what is pending has to be sent. */
    method SendPending(ghost g: Goal, ghost k: nat, ghost r: nat, ghost br: seq<Bit>)
      requires Shape() && Emitting(g) && Ahead(g, k, r, br) && k <= g.eob && IsNew(g.refine, g.x[g.eob])
      modifies this`items, this`eobrun, this`be, counts, writer
      ensures Emitting(g) && Ahead(g, k, r, br) && eobrun == be == 0 && writer.prior == old(writer.prior)
    {
      hide LeftWriter.Valid, IsNaturalOrder, Synced, BandItems, EobItems, PhuffEncoder.CanSend;
      ghost var no, p := scan.tbl[0], Pending();
      ghost var q := BandItems(no, g.refine, g.x, scan.se, g.eob, k, r, br, NO_PEND);
      PendingFirst(no, g.refine, g.x, scan.se, g.eob, k, r, br, p);
      NextCanBeSent(g, items, EobItems(no, p), q);
      PrefixedTwice(items, EobItems(no, p), q);
      EmitEobrun(scan.tbl[0]);
      assert Pending() == NO_PEND;
    }

    /** Sixteen zeros. */
    method SendZrl(ghost g: Goal, ghost k: nat, ghost r: nat, start: nat, n: nat)
      requires Shape() && Emitting(g) && eobrun == be == 0 && start + n <= MAX_CORR_BITS
      requires Ahead(g, k, r, bitBuffer[start..start + n]) && k <= g.eob && g.x[k] != 0 && r > 15
      modifies this`items, counts, writer
      ensures Emitting(g) && Ahead(g, k, r - 16, []) && writer.prior == old(writer.prior)
    {
      hide LeftWriter.Valid, IsNaturalOrder, Synced, BandItems, Coded, Raws;
      ghost var no, br, before := scan.tbl[0], bitBuffer[start..start + n], items;
      ghost var head := [Sym(AcTbl(no), ZRL)];
      ghost var q := BandItems(no, g.refine, g.x, scan.se, g.eob, k, r - 16, [], NO_PEND);
      assert Pending() == NO_PEND;
      ZrlItems(no, g.refine, g.x, scan.se, g.eob, k, r, br);
      FirstCanBeSent(g, items, head + Raws(br), q, 0);
      EmitSymbol(scan.tbl[0], ZRL);
      EmitBufferedBits(start, n);
      assert items == before + (head + Raws(br));
      PrefixedTwice(before, head + Raws(br), q);
    }

    /** A coefficient that is new: its symbol, its bits, and the correction bits before it. */
    method SendNew(ghost g: Goal, ghost k: nat, r: nat, temp2: int, nbits: nat, start: nat, n: nat)
      requires Shape() && Emitting(g) && eobrun == be == 0 && start + n <= MAX_CORR_BITS
      requires Ahead(g, k, r, bitBuffer[start..start + n]) && k <= g.eob && IsNew(g.refine, g.x[k]) && r <= 15
      requires nbits == NBits(Abs(g.x[k])) <= MAX_COEF_BITS && Raw(Masked(temp2, nbits), nbits) == Extra(g.x[k])
      modifies this`items, counts, writer
      ensures Emitting(g) && Ahead(g, k + 1, 0, []) && writer.prior == old(writer.prior)
    {
      hide LeftWriter.Valid, IsNaturalOrder, Synced, BandItems, Coded, Raws, NBits, Extra, Masked;
      ghost var no, br, before := scan.tbl[0], bitBuffer[start..start + n], items;
      ghost var head := [Sym(AcTbl(no), r * 16 + nbits), Extra(g.x[k])];
      ghost var q := BandItems(no, g.refine, g.x, scan.se, g.eob, k + 1, 0, [], NO_PEND);
      assert Pending() == NO_PEND;
      NewItems(no, g.refine, g.x, scan.se, g.eob, k, r, br);
      FirstCanBeSent(g, items, head + Raws(br), q, 0);
      NBitsPositive(g.x[k]);
      EmitSymbol(scan.tbl[0], r * 16 + nbits);
      EmitBits(temp2, nbits);
      EmitBufferedBits(start, n);
      assert items == before + (head + Raws(br));
      PrefixedTwice(before, head + Raws(br), q);
    }

    /** Between blocks. */
    ghost predicate Ready()
      reads this`past, this`items, this`eobrun, this`be, counts, writer, bitBuffer
    {
      Synced() && !scan.IsDc() && be <= bitBuffer.Length && PendOk(Pending()) && (!scan.Refines() ==> be == 0)
    }

    /** What the next block adds, and what is pending behind it. */
    ghost function Out(x: Zigzag): (seq<Item>, Pend)
      requires Ready()
      reads this`past, this`items, this`eobrun, this`be, counts, writer, bitBuffer
    {
      BlockOut(scan.tbl[0], scan.Refines(), x, scan.ss, scan.se, Pending())
    }

    ghost function GoalOf(x: Zigzag): (g: Goal)
      requires Ready()
      reads this`past, this`items, this`eobrun, this`be, counts, writer, bitBuffer
      ensures g.eob <= scan.se
    {
      var eob := LastNew(scan.Refines(), x, scan.ss, scan.se);
      Goal(scan.Refines(), x, eob, Prefixed(items, BandItems(scan.tbl[0], scan.Refines(), x, scan.se, eob, scan.ss, 0, [], Pending())))
    }

    lemma GoalReached(x: Zigzag)
      requires Ready() && CanSend(items + Out(x).0)
      ensures EndOfBlock(scan.tbl[0], GoalOf(x).whole) == (items + Out(x).0, Out(x).1) && Emitting(GoalOf(x))
      ensures Ahead(GoalOf(x), scan.ss, 0, [])
    {
      hide LeftWriter.Valid, IsNaturalOrder, BandItems, EobItems, Coded, Raws, LastNew;
      var eob := LastNew(scan.Refines(), x, scan.ss, scan.se);
      var q := BandItems(scan.tbl[0], scan.Refines(), x, scan.se, eob, scan.ss, 0, [], Pending());
      var last := EobItems(scan.tbl[0], PendAfter(q));
      assert items + q.items + last == items + (q.items + last);
      if !gather {
        forall j | 0 <= j < |items + q.items| ensures Coded(tables, (items + q.items)[j]) {
          assert (items + Out(x).0)[j] == (items + q.items)[j];
        }
      }
    }

    /** The block's last zeros and correction bits join the run of end-of-blocks. */
    ghost predicate AtEnd(g: Goal, r: nat, br: seq<Bit>)
      reads this`past, this`items, this`eobrun, this`be, counts, writer, bitBuffer
    {
      && Shape() && Emitting(g) && be <= bitBuffer.Length
      && g.whole == Progress(items, Pending(), r, br) && CanSend(EndOfBlock(scan.tbl[0], g.whole).0)
    }

    lemma RunCanBeSent(g: Goal, p: Pend)
      requires PScanOk(scan) && CanSend(EndOfBlock(scan.tbl[0], g.whole).0)
      requires p == PendAfter(g.whole) && EndOfBlock(scan.tbl[0], g.whole).0 == g.whole.items + EobItems(scan.tbl[0], p)
      ensures CanSend(EobItems(scan.tbl[0], p))
    {
      hide EndOfBlock, EobItems, Coded;
      if !gather {
        var last := EobItems(scan.tbl[0], p);
        forall j | 0 <= j < |last| ensures Coded(tables, last[j]) {
          assert (g.whole.items + last)[|g.whole.items| + j] == last[j];
        }
      }
    }

    /** `if (r > 0 || BR > 0)`: count an end-of-block, and force the run out before it overflows. */
    method EndRefine(ghost g: Goal, r: nat, n: nat)
      requires be + n <= bitBuffer.Length && AtEnd(g, r, bitBuffer[be..be + n]) && scan.Refines()
      modifies this`items, this`eobrun, this`be, counts, writer
      ensures Ready() && (items, Pending()) == EndOfBlock(scan.tbl[0], g.whole) && writer.prior == old(writer.prior)
    {
      hide LeftWriter.Valid, IsNaturalOrder, Synced, EobItems, Coded;
      if r > 0 || n > 0 {
        assert bitBuffer[..be] + bitBuffer[be..be + n] == bitBuffer[..be + n];
        eobrun := eobrun + 1;
        be := be + n;
        assert Pending() == PendAfter(g.whole);
        if eobrun == MAX_EOBRUN || be > MAX_CORR_BITS - DCTSIZE2 + 1 {
          RunCanBeSent(g, Pending());
          EmitEobrun(scan.tbl[0]);
          assert Pending() == NO_PEND;
        }
      }
    }

    /** `if (r > 0)`, in a first scan. */
    method EndFirst(ghost g: Goal, r: nat)
      requires be == 0 && AtEnd(g, r, []) && !scan.Refines()
      modifies this`items, this`eobrun, this`be, counts, writer
      ensures Ready() && (items, Pending()) == EndOfBlock(scan.tbl[0], g.whole) && writer.prior == old(writer.prior)
    {
      hide LeftWriter.Valid, IsNaturalOrder, Synced, EobItems, Coded;
      if r > 0 {
        eobrun := eobrun + 1;
        assert Pending() == PendAfter(g.whole);
        if eobrun == MAX_EOBRUN {
          RunCanBeSent(g, Pending());
          EmitEobrun(scan.tbl[0]);   // force it out to avoid overflow
          assert Pending() == NO_PEND;
        }
      }
    }

    // ----- First scans -----

    /** The absolute value after the point transform, and the bits to send. */
    method PointTransform(block: Block, k: nat) returns (temp: nat, temp2: int)
      requires IsNaturalOrder(order) && k < DCTSIZE2
      ensures var v := Trunc(Zz(order, block), scan.al)[k]; temp == Abs(v) && (v != 0 ==> temp2 == if v < 0 then v - 1 else v)
    {
      var v: int := block[order[k]];
      if v < 0 {
        v := -v;
        QuotientAtLeast(v, Pow2(scan.al));
        temp := v / Pow2(scan.al);
        temp2 := -1 - temp;            // ~temp
      } else {
        QuotientAtLeast(v, Pow2(scan.al));
        temp := v / Pow2(scan.al);
        temp2 := temp;
      }
    }

    lemma QuotientAtLeast(v: nat, p: nat)
      requires p > 0
      ensures v / p >= 0
    {
    }

    /** `nbits = 1; while (temp >>= 1) nbits++;` for a nonzero value. */
    method NonzeroBits(v: nat) returns (nbits: nat)
      requires v > 0
      ensures nbits == NBits(v)
    {
      nbits := Log2Of(v);
      nbits := nbits + 1;
    }

    /** Emit special run-length-16 codes while the run is longer than 15. */
    method FirstRuns(ghost g: Goal, k: nat, r0: nat) returns (r: nat)
      requires Shape() && Emitting(g) && eobrun == be == 0 && Ahead(g, k, r0, []) && k <= g.eob && g.x[k] != 0
      modifies this`items, counts, writer
      ensures Emitting(g) && Ahead(g, k, r, []) && r <= 15 && writer.prior == old(writer.prior)
    {
      hide LeftWriter.Valid, IsNaturalOrder, Synced, BandItems, PhuffEncoder.Ahead;
      r := r0;
      while r > 15
        invariant Emitting(g) && Ahead(g, k, r, []) && writer.prior == old(writer.prior)
      {
        assert bitBuffer[0..0] == [];
        SendZrl(g, k, r, 0, 0);
        r := r - 16;
      }
    }

    /** A nonzero coefficient of a first scan; false if it is out of range. */
    method FirstCoef(ghost g: Goal, k: nat, r0: nat, temp: nat, temp2: int) returns (ok: bool)
      requires Shape() && Emitting(g) && Ahead(g, k, r0, []) && k <= g.eob && be == 0
      requires IsNew(g.refine, g.x[k]) && IsNew(g.refine, g.x[g.eob])
      requires temp == Abs(g.x[k]) && temp2 == if g.x[k] < 0 then g.x[k] - 1 else g.x[k]
      modifies this`items, this`eobrun, this`be, counts, writer
      ensures ok <==> NBits(Abs(g.x[k])) <= MAX_COEF_BITS
      ensures ok ==> Emitting(g) && Ahead(g, k + 1, 0, []) && be == 0 && writer.prior == old(writer.prior)
    {
      hide LeftWriter.Valid, IsNaturalOrder, Synced, BandItems, PhuffEncoder.Emitting, PhuffEncoder.Ahead, NBits, PScanOk;
      SendPending(g, k, r0, []);
      var r := FirstRuns(g, k, r0);
      var nbits := NonzeroBits(temp);
      // check for out-of-range coefficient values
      ok := nbits <= MAX_COEF_BITS;
      if ok {
        assert bitBuffer[0..0] == [];
        SendNew(g, k, r, temp2, nbits, 0, 0);
      }
    }

    /** encode_mcu_AC_first for its block; false stands for the error exit on a value out of range. */
    method EncodeAcFirst(block: Block) returns (ok: bool)
      requires Ready() && !scan.Refines() && CanSend(items + Out(Trunc(Zz(order, block), scan.al)).0)
      modifies this`items, this`eobrun, this`be, counts, writer
      ensures ok <==> BandInRange(Trunc(Zz(order, block), scan.al), scan.ss, scan.se + 1)
      ensures ok ==> Ready() && items == old(items + Out(Trunc(Zz(order, block), scan.al)).0)
      ensures ok ==> Pending() == old(Out(Trunc(Zz(order, block), scan.al)).1) && writer.prior == old(writer.prior)
    {
      hide LeftWriter.Valid, IsNaturalOrder, Synced, BandItems, PhuffEncoder.CanSend, PhuffEncoder.Ahead, NBits, BlockOut, EndOfBlock, Trunc;
      assert Shape() by { SyncedShape(); }
      ghost var x := Trunc(Zz(order, block), scan.al);
      ghost var g := GoalOf(x);
      GoalReached(x);
      var r: nat := 0;
      for k := scan.ss to scan.se + 1
        invariant Emitting(g) && Ahead(g, k, r, []) && be == 0 && BandInRange(x, scan.ss, k) && writer.prior == old(writer.prior)
      {
        var temp, temp2 := PointTransform(block, k);
        if temp == 0 {
          ZeroStep(g, k, r, []);
          r := r + 1;
        } else {
          ok := FirstCoef(g, k, r, temp, temp2);
          if !ok {
            return;
          }
          r := 0;
        }
      }
      EndStep(g, r, []);
      EndFirst(g, r);
      ok := true;
    }

    /** A coefficient that is zero. */
    lemma ZeroStep(g: Goal, k: nat, r: nat, br: seq<Bit>)
      requires Shape() && g.eob <= scan.se && be <= bitBuffer.Length && k <= scan.se && Ahead(g, k, r, br) && g.x[k] == 0
      ensures Ahead(g, k + 1, r + 1, br) && NBits(Abs(0)) == 0
    {
    }

    lemma EndStep(g: Goal, r: nat, br: seq<Bit>)
      requires Shape() && g.eob <= scan.se && be <= bitBuffer.Length && Ahead(g, scan.se + 1, r, br)
      ensures g.whole == Progress(items, Pending(), r, br)
    {
      assert items + [] == items;
    }

    // ----- Refinement scans -----

    /** The pre-pass: absolute values, and the position of the last newly nonzero coefficient. */
    method PrePass(block: Block) returns (absvalues: array<nat>, eob: nat)
      requires Shape() && 1 <= scan.ss
      ensures absvalues.Length == DCTSIZE2 && fresh(absvalues)
      ensures forall k :: scan.ss <= k <= scan.se ==> absvalues[k] == Abs(Trunc(Zz(order, block), scan.al)[k])
      ensures eob == LastNew(true, Trunc(Zz(order, block), scan.al), scan.ss, scan.se)
    {
      hide IsNaturalOrder, Trunc;
      ghost var x := Trunc(Zz(order, block), scan.al);
      absvalues := new nat[DCTSIZE2](_ => 0);
      eob := 0;
      for k := scan.ss to scan.se + 1
        invariant forall j :: scan.ss <= j < k ==> absvalues[j] == Abs(x[j])
        invariant eob == LastNew(true, x, scan.ss, k - 1)
      {
        var temp, _ := PointTransform(block, k);
        absvalues[k] := temp;
        if temp == 1 {
          eob := k;
        }
      }
    }

    /** Emit any required ZRLs, but not if they can be folded into EOB. */
    method RefineRuns(ghost g: Goal, k: nat, eob: nat, r0: nat, start0: nat, n0: nat) returns (r: nat, start: nat, n: nat)
      requires Shape() && Emitting(g) && g.eob == eob && (k <= eob ==> IsNew(g.refine, g.x[eob]))
      requires start0 == be && start0 + n0 <= MAX_CORR_BITS && k <= scan.se && g.x[k] != 0
      requires Ahead(g, k, r0, bitBuffer[start0..start0 + n0])
      modifies this`items, this`eobrun, this`be, counts, writer
      ensures Emitting(g) && start == be && start + n <= start0 + n0 && n <= n0 && Ahead(g, k, r, bitBuffer[start..start + n])
      ensures (r > 15 ==> k > eob) && writer.prior == old(writer.prior)
    {
      hide LeftWriter.Valid, IsNaturalOrder, Synced, BandItems, PhuffEncoder.Ahead, IsNew;
      r, start, n := r0, start0, n0;
      while r > 15 && k <= eob
        invariant Emitting(g) && start == be && start + n <= start0 + n0 && n <= n0 && Ahead(g, k, r, bitBuffer[start..start + n])
        invariant writer.prior == old(writer.prior)
        decreases r
      {
        SendPending(g, k, r, bitBuffer[start..start + n]);
        SendZrl(g, k, r, start, n);
        r := r - 16;
        start, n := 0, 0;            // BE bits are gone now
        assert bitBuffer[0..0] == [];
      }
    }

    /** A coefficient that only needs a correction bit. */
    lemma OldStep(g: Goal, k: nat, r: nat, br: seq<Bit>)
      requires Shape() && g.eob <= scan.se && be <= bitBuffer.Length && k <= scan.se && Ahead(g, k, r, br)
      requires IsOld(g.refine, g.x[k]) && (r > 15 ==> k > g.eob)
      ensures Ahead(g, k + 1, r, br + [Abs(g.x[k]) % 2])
    {
      hide LeftWriter.Valid, IsNaturalOrder, EobItems, Raws, Extra, NBits;
    }

    /** The sign bit of a newly nonzero coefficient. */
    lemma SignBit(v: int, b: Bit)
      requires Abs(v) == 1 && b == if v < 0 then 0 else 1
      ensures NBits(Abs(v)) == 1 && Raw(Masked(b, 1), 1) == Extra(v)
    {
      assert Pow2(1) == 2;
    }

    /** `BR_buffer[BR++] = b`. */
    method StoreBit(ghost g: Goal, ghost k: nat, ghost r: nat, n: nat, b: Bit) returns (n': nat)
      requires Shape() && g.eob <= scan.se && be + n < MAX_CORR_BITS && Ahead(g, k, r, bitBuffer[be..be + n] + [b])
      modifies bitBuffer
      ensures n' == n + 1 && Ahead(g, k, r, bitBuffer[be..be + n'])
    {
      hide BandItems;
      bitBuffer[be + n] := b;
      n' := n + 1;
      assert bitBuffer[be..be + n'] == old(bitBuffer[be..be + n]) + [b];
      assert bitBuffer[..be] == old(bitBuffer[..be]);
    }

    /** A newly nonzero coefficient: pending runs, its symbol, its sign, and the correction bits before it. */
    method RefineNew(ghost g: Goal, block: Block, k: nat, r: nat, start: nat, n: nat)
      requires |order| == DCTSIZE2 && Shape() && Emitting(g) && g.x == Trunc(Zz(order, block), scan.al) && k <= scan.se && k <= g.eob
      requires start == be && start + n <= MAX_CORR_BITS && Ahead(g, k, r, bitBuffer[start..start + n]) && r <= 15
      requires Abs(g.x[k]) == 1 && IsNew(g.refine, g.x[k]) && IsNew(g.refine, g.x[g.eob])
      modifies this`items, this`eobrun, this`be, counts, writer
      ensures Emitting(g) && be == 0 && Ahead(g, k + 1, 0, []) && writer.prior == old(writer.prior)
    {
      hide LeftWriter.Valid, IsNaturalOrder, Synced, BandItems, PhuffEncoder.Ahead, NBits, Extra;
      SendPending(g, k, r, bitBuffer[start..start + n]);
      SignOf(block, k);
      var temp := if block[order[k]] < 0 then 0 else 1;
      SignBit(g.x[k], temp);
      SendNew(g, k, r, temp, 1, start, n);
    }

    lemma SignOf(block: Block, k: nat)
      requires IsNaturalOrder(order) && k < DCTSIZE2
      ensures 0 <= order[k] < DCTSIZE2
      ensures var v := Trunc(Zz(order, block), scan.al)[k]; v != 0 ==> (v < 0 <==> block[order[k]] < 0)
    {
      var v := block[order[k]];
      QuotientAtLeast(Abs(v), Pow2(scan.al));
    }

    /** A nonzero coefficient. */
    method RefineCoef(ghost g: Goal, block: Block, k: nat, eob: nat, temp: nat, r0: nat, start0: nat, n0: nat) returns (r: nat, start: nat, n: nat)
      requires |order| == DCTSIZE2 && Shape() && Emitting(g) && g.x == Trunc(Zz(order, block), scan.al) && k <= scan.se && temp == Abs(g.x[k]) != 0
      requires g.refine && g.eob == eob && (k <= eob ==> IsNew(true, g.x[eob])) && (IsNew(true, g.x[k]) ==> k <= eob)
      requires start0 == be && start0 + n0 < MAX_CORR_BITS && Ahead(g, k, r0, bitBuffer[start0..start0 + n0])
      modifies this`items, this`eobrun, this`be, counts, writer, bitBuffer
      ensures Emitting(g) && start == be && n <= n0 + 1 && start + n <= MAX_CORR_BITS && Ahead(g, k + 1, r, bitBuffer[start..start + n]) && writer.prior == old(writer.prior)
    {
      hide LeftWriter.Valid, IsNaturalOrder, Synced, BandItems, PhuffEncoder.Ahead, NBits, Trunc, Extra;
      r, start, n := RefineRuns(g, k, eob, r0, start0, n0);
      if temp > 1 {
        // the correction bit is the next bit of the absolute value
        OldStep(g, k, r, bitBuffer[start..start + n]);
        n := StoreBit(g, k + 1, r, n, temp % 2);
      } else {
        RefineNew(g, block, k, r, start, n);
        r, start, n := 0, 0, 0;
        assert bitBuffer[0..0] == [];
      }
    }

    /** encode_mcu_AC_refine for its block. */
    method EncodeAcRefine(block: Block)
      requires Ready() && scan.Refines() && CanSend(items + Out(Trunc(Zz(order, block), scan.al)).0)
      modifies this`items, this`eobrun, this`be, counts, writer, bitBuffer
      ensures Ready() && items == old(items + Out(Trunc(Zz(order, block), scan.al)).0)
      ensures Pending() == old(Out(Trunc(Zz(order, block), scan.al)).1) && writer.prior == old(writer.prior)
    {
      hide LeftWriter.Valid, IsNaturalOrder, Synced, BandItems, PhuffEncoder.CanSend, PhuffEncoder.Ahead, NBits, BlockOut, EndOfBlock, Trunc, Extra;
      assert Shape() && |order| == DCTSIZE2 by { SyncedShape(); }
      ghost var x := Trunc(Zz(order, block), scan.al);
      ghost var g := GoalOf(x);
      GoalReached(x);
      var absvalues, eob := PrePass(block);
      var r: nat, start: nat, n: nat := 0, be, 0;
      assert bitBuffer[start..start] == [];
      for k := scan.ss to scan.se + 1
        invariant forall j :: scan.ss <= j <= scan.se ==> absvalues[j] == Abs(x[j])
        invariant Emitting(g) && start == be && n <= k - scan.ss && Ahead(g, k, r, bitBuffer[start..start + n])
        invariant writer.prior == old(writer.prior)
      {
        if absvalues[k] == 0 {
          ZeroStep(g, k, r, bitBuffer[start..start + n]);
          r := r + 1;
        } else {
          r, start, n := RefineCoef(g, block, k, eob, absvalues[k], r, start, n);
        }
      }
      EndStep(g, r, bitBuffer[start..start + n]);
      EndRefine(g, r, n);
    }

    // ----- DC coefficients -----

    /** A field of no bits: nothing is sent or counted. */
    ghost method SkipBits()
      requires Synced()
      modifies this`items
      ensures Synced() && items == old(items) + [Raw(0, 0)]
    {
      hide AppendItems, CountSym, LeftWriter.Valid, IsNaturalOrder;
      Snoc(Raw(0, 0));
      items := items + [Raw(0, 0)];
    }

    /** The DC difference of a block; false stands for the error exit on a value out of range. */
    method EncodeDcFirst(no: nat, diff: int) returns (ok: bool)
      requires Synced() && scan.IsDc() && !scan.Refines() && no in scan.tbl && CanSend(DcItems(no, diff))
      modifies this`items, counts, writer
      ensures ok <==> NBits(Abs(diff)) <= MAX_COEF_BITS + 1
      ensures ok ==> Synced() && items == old(items) + DcItems(no, diff) && writer.prior == old(writer.prior)
    {
      hide LeftWriter.Valid, Synced, NBits, Coded;
      var temp, temp2 := diff, diff;
      if temp < 0 {
        temp := -temp;
        // for a negative input, want temp2 = bitwise complement of abs(input)
        temp2 := temp2 - 1;
      }
      var nbits := 0;
      if temp != 0 {
        nbits := NonzeroBits(temp);
      }
      NoBits();
      // the range limit is twice as much, since we're encoding a difference
      ok := nbits <= MAX_COEF_BITS + 1;
      if ok {
        ghost var before, all := items, DcItems(no, diff);
        assert all[0] == Sym(DcTbl(no), nbits);
        OwnTable(no);
        EmitSymbol(no, nbits);
        if nbits != 0 {
          EmitBits(temp2, nbits);
        } else {
          SkipBits();
        }
        assert items == before + all;
      }
    }

    lemma NoBits()
      ensures NBits(0) == 0 && Masked(0, 0) == 0 && forall v: nat :: v > 0 ==> NBits(v) > 0
    {
    }

    /** The Al'th bit of the DC coefficient. */
    method EncodeDcRefine(block: Block)
      requires Synced()
      modifies this`items, writer
      ensures Synced() && items == old(items) + [Raw(Masked(Shift(block[0], scan.al), 1), 1)] && writer.prior == old(writer.prior)
    {
      EmitBits(Shift(block[0], scan.al), 1);
    }
  }
}
