/**
 * The sequential Huffman coder of jchuff.c: the statistics pass and the output pass work on the same
 * list of symbols, so with optimized tables the output pass never meets a symbol without a code.
 */
module HuffmanSequential {
  import opened Blocks
  import opened NaturalOrder
  import opened HuffmanBits
  import opened HuffmanSymbols

  const NUM_HUFF_TBLS := 4

  lemma AppendItemsCons(tables: Tables, b: BitString, i: Item, rest: seq<Item>)
    requires Coded(tables, i) && AllCoded(tables, rest)
    ensures AppendItems(tables, b, [i] + rest) == AppendItems(tables, AppendItem(tables, b, i), rest)
  {
    hide Coded, AppendItem;
    AppendItemsConcat(tables, b, [i], rest);
    AppendItemsSnoc(tables, b, [], i);
    assert [] + [i] == [i];
  }

  /** The first two of the items: a symbol and its extra bits. */
  lemma AppendItemsTwo(tables: Tables, b: BitString, i: Item, j: Item, rest: seq<Item>)
    requires AllCoded(tables, [i, j] + rest)
    ensures Coded(tables, i) && Coded(tables, j) && AllCoded(tables, rest)
    ensures AppendItems(tables, b, [i, j] + rest) == AppendItems(tables, AppendItem(tables, AppendItem(tables, b, i), j), rest)
  {
    hide Coded, AppendItem;
    var all := [i, j] + rest;
    assert all[0] == i && all[1] == j;
    forall k | 0 <= k < |rest| ensures Coded(tables, rest[k]) {
      assert all[k + 2] == rest[k];
    }
    assert [i, j] + rest == [i] + ([j] + rest);
    AppendItemsCons(tables, b, i, [j] + rest);
    AppendItemsCons(tables, AppendItem(tables, b, i), j, rest);
  }

  lemma AppendItemsOne(tables: Tables, b: BitString, i: Item, rest: seq<Item>)
    requires AllCoded(tables, [i] + rest)
    ensures Coded(tables, i) && AllCoded(tables, rest)
    ensures AppendItems(tables, b, [i] + rest) == AppendItems(tables, AppendItem(tables, b, i), rest)
  {
    hide Coded, AppendItem;
    var all := [i] + rest;
    assert all[0] == i;
    forall k | 0 <= k < |rest| ensures Coded(tables, rest[k]) {
      assert all[k + 1] == rest[k];
    }
    AppendItemsCons(tables, b, i, rest);
  }

  /** The absolute value without a branch, and one less than a negative value. */
  method Magnitude(v: int) returns (temp: nat, temp2: int)
    ensures temp == Abs(v) && temp2 == if v < 0 then v - 1 else v
  {
    var temp3 := if v < 0 then -1 else 0;      // temp >> 31
    var t := if temp3 == -1 then -v - 1 else v; // temp ^ temp3
    temp := t - temp3;
    temp2 := v + temp3;
  }

  /** One block of a sequential scan. */
  class BlockEncoder {
    const writer: RightWriter
    const order: seq<int>

    constructor (order: seq<int>)
      requires IsNaturalOrder(order)
      ensures this.order == order && fresh(writer) && writer.Valid() && writer.out == [] && writer.all == NONE && writer.prior == []
    {
      this.order := order;
      writer := new RightWriter();
    }

    /** The Huffman code of a symbol. */
    method EmitSymbol(tables: Tables, t: TblId, s: nat)
      requires writer.Valid() && Coded(tables, Sym(t, s))
      modifies writer
      ensures writer.Valid() && writer.prior == old(writer.prior)
      ensures writer.all == AppendItem(tables, old(writer.all), Sym(t, s))
    {
      writer.EmitBits(tables[t].co[s], tables[t].si[s]);
    }

    /** A symbol for a value, and the value's low bits. */
    method EmitValue(tables: Tables, t: TblId, s: nat, v: int, temp2: int, nbits: nat)
      requires writer.Valid() && Coded(tables, Sym(t, s)) && Coded(tables, Extra(v))
      requires nbits == NBits(Abs(v)) && temp2 == if v < 0 then v - 1 else v
      modifies writer
      ensures writer.Valid() && writer.prior == old(writer.prior)
      ensures writer.all == AppendItem(tables, AppendItem(tables, old(writer.all), Sym(t, s)), Extra(v))
    {
      EmitSymbol(tables, t, s);
      // mask off any extra bits in code
      writer.EmitBits(Masked(temp2, nbits), nbits);
    }

    /** Encode the AC coefficients per section F.1.2.2 of ITU-T T.81. */
    method EncodeAc(tables: Tables, ta: nat, block: Block)
      requires writer.Valid() && IsNaturalOrder(order) && AllCoded(tables, AcItems(ta, Zz(order, block), 1, 0))
      modifies writer
      ensures writer.Valid() && writer.prior == old(writer.prior)
      ensures writer.all == AppendItems(tables, old(writer.all), AcItems(ta, Zz(order, block), 1, 0))
    {
      hide Coded, AppendItem, AppendItems, AllCoded, RightWriter.Valid, Extra;
      ghost var z := Zz(order, block);
      var r := 0;
      for k := 1 to DCTSIZE2
        invariant writer.Valid() && writer.prior == old(writer.prior) && r >= 0
        invariant AllCoded(tables, AcItems(ta, z, k, r))
        invariant AppendItems(tables, writer.all, AcItems(ta, z, k, r)) == AppendItems(tables, old(writer.all), AcItems(ta, z, 1, 0))
      {
        var temp := block[order[k]];
        if temp == 0 {
          r := r + 1;
        } else {
          EncodeCoef(tables, ta, z, k, r, temp);
          r := 0;
        }
      }
      FinishAc(tables, ta, z, r);
    }

    /** A nonzero coefficient after a run of r0 zeros. */
    method EncodeCoef(tables: Tables, ta: nat, ghost z: Zigzag, k: nat, r0: nat, temp: int)
      requires writer.Valid() && k < DCTSIZE2 && temp == z[k] != 0 && AllCoded(tables, AcItems(ta, z, k, r0))
      modifies writer
      ensures writer.Valid() && writer.prior == old(writer.prior) && AllCoded(tables, AcItems(ta, z, k + 1, 0))
      ensures AppendItems(tables, writer.all, AcItems(ta, z, k + 1, 0)) == AppendItems(tables, old(writer.all), AcItems(ta, z, k, r0))
    {
      hide Coded, AppendItem, AppendItems, AllCoded, RightWriter.Valid, Extra;
      var r := EmitRuns(tables, ta, z, k, r0);
      var v, temp2 := Magnitude(temp);
      var nbits := NBits(v);
      AppendItemsTwo(tables, writer.all, Sym(AcTbl(ta), r * 16 + nbits), Extra(temp), AcItems(ta, z, k + 1, 0));
      EmitValue(tables, AcTbl(ta), r * 16 + nbits, temp, temp2, nbits);
    }

    /** If run length > 15, must emit special run-length-16 codes. */
    method EmitRuns(tables: Tables, ta: nat, ghost z: Zigzag, k: nat, r0: nat) returns (r: nat)
      requires writer.Valid() && k < DCTSIZE2 && z[k] != 0 && AllCoded(tables, AcItems(ta, z, k, r0))
      modifies writer
      ensures writer.Valid() && writer.prior == old(writer.prior) && r <= 15 && AllCoded(tables, AcItems(ta, z, k, r))
      ensures AppendItems(tables, writer.all, AcItems(ta, z, k, r)) == AppendItems(tables, old(writer.all), AcItems(ta, z, k, r0))
    {
      hide Coded, AppendItem, AppendItems, AllCoded, RightWriter.Valid, Extra;
      r := r0;
      while r > 15
        invariant writer.Valid() && writer.prior == old(writer.prior) && AllCoded(tables, AcItems(ta, z, k, r))
        invariant AppendItems(tables, writer.all, AcItems(ta, z, k, r)) == AppendItems(tables, old(writer.all), AcItems(ta, z, k, r0))
      {
        AppendItemsOne(tables, writer.all, Sym(AcTbl(ta), ZRL), AcItems(ta, z, k, r - 16));
        EmitSymbol(tables, AcTbl(ta), ZRL);
        r := r - 16;
      }
    }

    /** If the last coefficients were zero, emit an end-of-block code. */
    method FinishAc(tables: Tables, ta: nat, ghost z: Zigzag, r: nat)
      requires writer.Valid() && AllCoded(tables, AcItems(ta, z, DCTSIZE2, r))
      modifies writer
      ensures writer.Valid() && writer.prior == old(writer.prior)
      ensures writer.all == AppendItems(tables, old(writer.all), AcItems(ta, z, DCTSIZE2, r))
    {
      hide Coded, AppendItem, RightWriter.Valid;
      if r > 0 {
        assert [Sym(AcTbl(ta), 0)] + [] == [Sym(AcTbl(ta), 0)];
        AppendItemsOne(tables, writer.all, Sym(AcTbl(ta), 0), []);
        EmitSymbol(tables, AcTbl(ta), 0);
      }
    }

    /** Encode a single block's worth of coefficients. */
    method EncodeOneBlock(tables: Tables, td: nat, ta: nat, block: Block, last: int)
      requires writer.Valid() && IsNaturalOrder(order) && AllCoded(tables, BlockItems(td, ta, Zz(order, block), last))
      modifies writer
      ensures writer.Valid() && writer.prior == old(writer.prior)
      ensures writer.all == AppendItems(tables, old(writer.all), BlockItems(td, ta, Zz(order, block), last))
    {
      hide Coded, AppendItem, AppendItems, AllCoded, RightWriter.Valid, Extra, AcItems;
      ghost var z := Zz(order, block);
      var temp := block[0] - last;
      var v, temp2 := Magnitude(temp);
      var nbits := NBits(v);
      AppendItemsTwo(tables, writer.all, Sym(DcTbl(td), nbits), Extra(temp), AcItems(ta, z, 1, 0));
      EmitValue(tables, DcTbl(td), nbits, temp, temp2, nbits);
      EncodeAc(tables, ta, block);
    }
  }
}
