/**
 * A sequential Huffman-coded scan: the statistics pass encode_mcu_gather and the output pass
 * encode_mcu_huff of jchuff.c, restarts included, over the same MCUs.
 */
module HuffmanScan {
  import opened Blocks
  import opened NaturalOrder
  import opened HuffmanBits
  import opened HuffmanSymbols
  import opened HuffmanSequential

  /** The table numbers of the scan's components. */
  datatype HScan = HScan(dcTbl: seq<nat>, acTbl: seq<nat>)

  predicate HScanOk(sc: HScan) {
    && 1 <= |sc.dcTbl| == |sc.acTbl| <= 4
    && forall ci :: 0 <= ci < |sc.dcTbl| ==> sc.dcTbl[ci] < NUM_HUFF_TBLS && sc.acTbl[ci] < NUM_HUFF_TBLS
  }

  predicate AreMembers(sc: HScan, vs: seq<Visit>) {
    forall i :: 0 <= i < |vs| ==> vs[i].ci < |sc.dcTbl|
  }

  /** The DC value that the next block of component ci is differenced against. */
  function LastDc(vs: seq<Visit>, ci: nat): int {
    if vs == [] then 0
    else if vs[|vs| - 1].ci == ci then vs[|vs| - 1].z[0]
    else LastDc(vs[..|vs| - 1], ci)
  }

  /** The items of one block behind the blocks vs. */
  function VisitItems(sc: HScan, vs: seq<Visit>, v: Visit): seq<Item>
    requires HScanOk(sc) && v.ci < |sc.dcTbl|
  {
    BlockItems(sc.dcTbl[v.ci], sc.acTbl[v.ci], v.z, LastDc(vs, v.ci))
  }

  /** The items of a segment. */
  function SegItems(sc: HScan, vs: seq<Visit>): seq<Item>
    requires HScanOk(sc) && AreMembers(sc, vs)
  {
    if vs == [] then []
    else SegItems(sc, vs[..|vs| - 1]) + VisitItems(sc, vs[..|vs| - 1], vs[|vs| - 1])
  }

  /** The coder accepts every block of the segment. */
  predicate SegInRange(sc: HScan, vs: seq<Visit>)
    requires AreMembers(sc, vs)
  {
    forall i :: 0 <= i < |vs| ==> InRange(vs[i].z, LastDc(vs[..i], vs[i].ci))
  }

  lemma ShorterInRange(sc: HScan, vs: seq<Visit>)
    requires vs != [] && AreMembers(sc, vs) && SegInRange(sc, vs)
    ensures var n := |vs| - 1; AreMembers(sc, vs[..n]) && SegInRange(sc, vs[..n]) && InRange(vs[n].z, LastDc(vs[..n], vs[n].ci))
  {
    hide InRange;
    var front := vs[..|vs| - 1];
    assert forall i :: 0 <= i < |front| ==> front[..i] == vs[..i];
  }

  lemma RangeSnoc(sc: HScan, vs: seq<Visit>, v: Visit)
    requires AreMembers(sc, vs) && v.ci < |sc.dcTbl|
    ensures AreMembers(sc, vs + [v]) && (SegInRange(sc, vs + [v]) <==> SegInRange(sc, vs) && InRange(v.z, LastDc(vs, v.ci)))
  {
    hide InRange, LastDc;
    var all := vs + [v];
    assert all[..|vs|] == vs && all[|vs|] == v;
    assert forall i :: 0 <= i < |vs| ==> all[..i] == vs[..i] && all[i] == vs[i];
  }

  /** The MCU m, behind the MCUs given, leaves its segment in range. */
  predicate NextInRange(sc: HScan, interval: nat, given: seq<Mcu>, m: Mcu) {
    var segs := Segments(interval, given + [m]);
    AreMembers(sc, segs[|segs| - 1]) && SegInRange(sc, segs[|segs| - 1])
  }

  predicate AllInRange(sc: HScan, segs: seq<seq<Visit>>)
    requires SegmentsOk(sc, segs)
  {
    forall i :: 0 <= i < |segs| ==> SegInRange(sc, segs[i])
  }

  predicate SegmentsOk(sc: HScan, segs: seq<seq<Visit>>) {
    forall i :: 0 <= i < |segs| ==> AreMembers(sc, segs[i])
  }

  /** The items of all segments. */
  function ScanItems(sc: HScan, segs: seq<seq<Visit>>): seq<Item>
    requires HScanOk(sc) && SegmentsOk(sc, segs)
  {
    if segs == [] then [] else ScanItems(sc, segs[..|segs| - 1]) + SegItems(sc, segs[|segs| - 1])
  }

  lemma OneMoreVisit(sc: HScan, vs: seq<Visit>, v: Visit)
    requires HScanOk(sc) && AreMembers(sc, vs) && v.ci < |sc.dcTbl|
    ensures AreMembers(sc, vs + [v]) && SegItems(sc, vs + [v]) == SegItems(sc, vs) + VisitItems(sc, vs, v)
    ensures forall ci :: LastDc(vs + [v], ci) == if ci == v.ci then v.z[0] else LastDc(vs, ci)
  {
    assert (vs + [v])[..|vs|] == vs;
  }

  lemma OneMoreSegment(sc: HScan, segs: seq<seq<Visit>>, vs: seq<Visit>)
    requires HScanOk(sc) && SegmentsOk(sc, segs) && AreMembers(sc, vs)
    ensures SegmentsOk(sc, segs + [vs]) && ScanItems(sc, segs + [vs]) == ScanItems(sc, segs) + SegItems(sc, vs)
  {
    hide AreMembers, SegItems;
    assert (segs + [vs])[..|segs|] == segs;
  }

  lemma ClosedSegment(sc: HScan, segs: seq<seq<Visit>>, vs: seq<Visit>)
    requires HScanOk(sc) && SegmentsOk(sc, segs) && AreMembers(sc, vs)
    ensures SegmentsOk(sc, segs + [vs]) && AreMembers(sc, []) && SegItems(sc, []) == []
    ensures ScanItems(sc, segs + [vs]) + SegItems(sc, []) == ScanItems(sc, segs) + SegItems(sc, vs)
  {
    OneMoreSegment(sc, segs, vs);
    assert AreMembers(sc, []);
    hide ScanItems;
  }

  /** A leading symbol, and items that are not symbols, in a count. */
  lemma CountFirst(i: Item, rest: seq<Item>)
    ensures forall t, s :: CountSym([i] + rest, t, s) == CountSym(rest, t, s) + if i == Sym(t, s) then 1 else 0
  {
    forall t, s ensures CountSym([i] + rest, t, s) == CountSym(rest, t, s) + if i == Sym(t, s) then 1 else 0 {
      CountSymConcat([i], rest, t, s);
      CountSymSnoc([], i, t, s);
      assert [] + [i] == [i];
    }
  }

  lemma CountFirstTwo(i: Item, j: Item, rest: seq<Item>)
    requires j.Raw?
    ensures forall t, s :: CountSym([i, j] + rest, t, s) == CountSym(rest, t, s) + if i == Sym(t, s) then 1 else 0
  {
    CountFirst(j, rest);
    CountFirst(i, [j] + rest);
    assert [i, j] + rest == [i] + ([j] + rest);
  }

  // ----- Statistics -----

  class Statistics {
    const dcCounts: array2<nat>      // dc_count_ptrs, 257 entries each
    const acCounts: array2<nat>
    const order: seq<int>

    constructor (order: seq<int>)
      requires IsNaturalOrder(order)
      ensures this.order == order && Shape() && fresh(dcCounts) && fresh(acCounts)
      ensures forall t: TblId, s: nat :: t.no < NUM_HUFF_TBLS && s < 257 ==> Count(t, s) == 0
    {
      this.order := order;
      dcCounts := new nat[NUM_HUFF_TBLS, 257]((i, j) => 0);
      acCounts := new nat[NUM_HUFF_TBLS, 257]((i, j) => 0);
    }

    ghost predicate Shape() {
      && dcCounts.Length0 == acCounts.Length0 == NUM_HUFF_TBLS && dcCounts.Length1 == acCounts.Length1 == 257
      && dcCounts != acCounts && IsNaturalOrder(order)
    }

    ghost function Count(t: TblId, s: nat): nat
      requires Shape() && t.no < NUM_HUFF_TBLS && s < 257
      reads dcCounts, acCounts
    {
      match t
      case DcTbl(i) => dcCounts[i, s]
      case AcTbl(i) => acCounts[i, s]
    }

    /** The counts are those of `items` beyond what they were before. */
    twostate predicate Counted(items: seq<Item>)
      requires Shape()
      reads dcCounts, acCounts
    {
      forall t: TblId, s: nat :: t.no < NUM_HUFF_TBLS && s < 257 ==> Count(t, s) == old(Count(t, s)) + CountSym(items, t, s)
    }

    /** The count array of a table. */
    method Row(t: TblId) returns (row: seq<nat>)
      requires Shape() && t.no < NUM_HUFF_TBLS
      ensures |row| == 257 && forall s: nat :: s < 257 ==> row[s] == Count(t, s)
    {
      var a := match t case DcTbl(_) => dcCounts case AcTbl(_) => acCounts;
      row := seq(257, s requires 0 <= s < 257 reads a => a[t.no, s]);
    }

    method Bump(t: TblId, s: nat)
      requires Shape() && t.no < NUM_HUFF_TBLS && s < 257
      modifies dcCounts, acCounts
      ensures forall t': TblId, s': nat :: t'.no < NUM_HUFF_TBLS && s' < 257 ==>
                Count(t', s') == old(Count(t', s')) + if t' == t && s' == s then 1 else 0
    {
      match t
      case DcTbl(i) => dcCounts[i, s] := dcCounts[i, s] + 1;
      case AcTbl(i) => acCounts[i, s] := acCounts[i, s] + 1;
    }

    /** `nbits = 0; while (temp) { nbits++; temp >>= 1; }` */
    method BitsNeeded(v: nat) returns (nbits: nat)
      ensures nbits == NBits(v)
    {
      var temp := v;
      nbits := 0;
      while temp != 0
        invariant nbits + NBits(temp) == NBits(v)
      {
        nbits := nbits + 1;
        temp := temp / 2;
      }
    }

    /** What is left to be counted of `all` is `rest`. */
    twostate predicate Remaining(all: seq<Item>, rest: seq<Item>)
      requires Shape()
      reads dcCounts, acCounts
    {
      forall t: TblId, s: nat :: t.no < NUM_HUFF_TBLS && s < 257 ==>
        Count(t, s) + CountSym(rest, t, s) == old(Count(t, s)) + CountSym(all, t, s)
    }

    /** Count the first of the remaining items. */
    method BumpFirst(t: TblId, s: nat, ghost rest: seq<Item>, ghost more: seq<Item>)
      requires Shape() && t.no < NUM_HUFF_TBLS && s < 257
      requires rest == [Sym(t, s)] + more || (|rest| >= 2 && rest[1].Raw? && rest == [Sym(t, s), rest[1]] + more)
      modifies dcCounts, acCounts
      ensures Remaining(rest, more)
    {
      if rest == [Sym(t, s)] + more {
        CountFirst(Sym(t, s), more);
      } else {
        CountFirstTwo(Sym(t, s), rest[1], more);
      }
      Bump(t, s);
    }

    /** A nonzero coefficient; false if it is out of range. */
    method TestCoef(ta: nat, ghost z: Zigzag, k: nat, r0: nat, v: int) returns (ok: bool)
      requires Shape() && ta < NUM_HUFF_TBLS && k < DCTSIZE2 && v == z[k] != 0
      modifies dcCounts, acCounts
      ensures ok <==> NBits(Abs(v)) <= MAX_COEF_BITS
      ensures ok ==> Remaining(AcItems(ta, z, k, r0), AcItems(ta, z, k + 1, 0))
    {
      hide NBits, CountSym, Extra, IsNaturalOrder;
      var r: nat := r0;
      while r > 15
        invariant Remaining(AcItems(ta, z, k, r0), AcItems(ta, z, k, r))
      {
        BumpFirst(AcTbl(ta), ZRL, AcItems(ta, z, k, r), AcItems(ta, z, k, r - 16));
        r := r - 16;
      }
      var nbits := BitsNeeded(if v < 0 then -v else v);
      ok := nbits <= MAX_COEF_BITS;
      if ok {
        BumpFirst(AcTbl(ta), r * 16 + nbits, AcItems(ta, z, k, r), AcItems(ta, z, k + 1, 0));
      }
    }

    /** The AC coefficients; false if one is out of range. */
    method TestAc(ta: nat, block: Block) returns (ok: bool)
      requires Shape() && ta < NUM_HUFF_TBLS
      modifies dcCounts, acCounts
      ensures ok <==> forall k :: 1 <= k < DCTSIZE2 ==> NBits(Abs(Zz(order, block)[k])) <= MAX_COEF_BITS
      ensures ok ==> Remaining(AcItems(ta, Zz(order, block), 1, 0), [])
    {
      hide NBits, CountSym, Extra;
      ghost var z := Zz(order, block);
      var r := 0;
      for k := 1 to DCTSIZE2
        invariant r >= 0 && Remaining(AcItems(ta, z, 1, 0), AcItems(ta, z, k, r))
        invariant forall j :: 1 <= j < k ==> NBits(Abs(z[j])) <= MAX_COEF_BITS
      {
        var temp := block[order[k]];
        if temp == 0 {
          r := r + 1;
          ZeroInRange();
        } else {
          ok := TestCoef(ta, z, k, r, temp);
          if !ok {
            return;
          }
          r := 0;
        }
      }
      if r > 0 {
        assert [Sym(AcTbl(ta), 0)] + [] == [Sym(AcTbl(ta), 0)];
        BumpFirst(AcTbl(ta), 0, AcItems(ta, z, DCTSIZE2, r), []);
      }
      ok := true;
    }

    lemma ZeroInRange()
      ensures NBits(Abs(0)) == 0
    {
    }

    /** Process a single block's worth of coefficients; false stands for the error exit on a value out of range. */
    method TestOneBlock(td: nat, ta: nat, block: Block, last: int) returns (ok: bool)
      requires Shape() && td < NUM_HUFF_TBLS && ta < NUM_HUFF_TBLS
      modifies dcCounts, acCounts
      ensures ok <==> InRange(Zz(order, block), last)
      ensures ok ==> Counted(BlockItems(td, ta, Zz(order, block), last))
    {
      hide NBits, Extra, AcItems;
      ghost var z := Zz(order, block);
      var temp := block[0] - last;
      var nbits := BitsNeeded(if temp < 0 then -temp else temp);
      if nbits > MAX_COEF_BITS + 1 {
        return false;
      }
      BumpFirst(DcTbl(td), nbits, BlockItems(td, ta, z, last), AcItems(ta, z, 1, 0));
      ok := TestAc(ta, block);
    }
  }

  /** Component ci has had a block. */
  predicate Seen(segs: seq<seq<Visit>>, ci: nat) {
    exists k: nat, j: nat :: k < |segs| && j < |segs[k]| && segs[k][j].ci == ci
  }

  // ----- The two passes -----

  /** Everything but the entropy coder's own work that the passes share. */
  predicate GoodMcu(sc: HScan, members: seq<nat>, blocks: seq<Block>) {
    |members| == |blocks| && forall i :: 0 <= i < |blocks| ==> members[i] < |sc.dcTbl|
  }

  class GatherPass {
    const stats: Statistics
    const lastDcVal: array<int>
    var scan: HScan
    var restartInterval: nat
    var restartsToGo: nat

    ghost var given: seq<Mcu>

    /** start_pass_huff with gather_statistics: zeroed counts, no predictions. */
    constructor (order: seq<int>, sc: HScan, interval: nat)
      requires IsNaturalOrder(order) && HScanOk(sc)
      ensures Valid() && given == [] && scan == sc && restartInterval == interval && stats.order == order
      ensures fresh(stats) && fresh(stats.dcCounts) && fresh(stats.acCounts) && fresh(lastDcVal)
    {
      stats := new Statistics(order);
      lastDcVal := new int[4](_ => 0);
      scan, restartInterval, restartsToGo, given := sc, interval, interval, [];
      new;
      assert Segments(interval, []) == [[]];
      assert ScanItems(sc, []) == [] && SegItems(sc, []) == [];
    }

    /** The counts and predictions behind the segments `closed` and the blocks cur of the current one. */
    ghost predicate Behind(closed: seq<seq<Visit>>, cur: seq<Visit>)
      reads this`scan, lastDcVal, stats.dcCounts, stats.acCounts
    {
      && stats.Shape() && lastDcVal.Length == 4 && HScanOk(scan) && SegmentsOk(scan, closed) && AreMembers(scan, cur)
      && (forall ci :: 0 <= ci < |scan.dcTbl| ==> lastDcVal[ci] == LastDc(cur, ci))
      && AllInRange(scan, closed) && SegInRange(scan, cur)
      && AllSane(ScanItems(scan, closed) + SegItems(scan, cur))
      && forall t: TblId, s: nat :: t.no < NUM_HUFF_TBLS && s < 257 ==>
           stats.Count(t, s) == CountSym(ScanItems(scan, closed) + SegItems(scan, cur), t, s)
    }

    ghost function Segs(): (segs: seq<seq<Visit>>)
      reads this
      ensures segs != []
    {
      Segments(restartInterval, given)
    }

    ghost predicate Valid()
      reads this, lastDcVal, stats.dcCounts, stats.acCounts
    {
      && Behind(Segs()[..|Segs()| - 1], Segs()[|Segs()| - 1])
      && (restartInterval > 0 ==> restartsToGo == ToGo(restartInterval, |given|))
    }

    /** Every component of the scan has had a block. */
    ghost predicate EveryComponent()
      reads this
    {
      forall ci :: 0 <= ci < |scan.dcTbl| ==> Seen(Segs(), ci)
    }

    lemma SegmentsShape()
      requires Valid()
      ensures stats.Shape() && HScanOk(scan) && SegmentsOk(scan, Segs())
    {
      var segs := Segs();
      assert segs == segs[..|segs| - 1] + [segs[|segs| - 1]];
    }

    /** The counts are the numbers of occurrences in the whole scan. */
    lemma CountsAreOccurrences(t: TblId, s: nat)
      requires Valid() && t.no < NUM_HUFF_TBLS && s < 257
      ensures stats.Shape() && HScanOk(scan) && SegmentsOk(scan, Segs()) && AllSane(ScanItems(scan, Segs()))
      ensures stats.Count(t, s) == CountSym(ScanItems(scan, Segs()), t, s)
    {
      hide CountSym, SegItems, AreMembers;
      var segs := Segs();
      OneMoreSegment(scan, segs[..|segs| - 1], segs[|segs| - 1]);
      assert segs == segs[..|segs| - 1] + [segs[|segs| - 1]];
    }

    /** Re-initialize DC predictions to 0. */
    method Restart(ghost closed: seq<seq<Visit>>, ghost cur: seq<Visit>)
      requires Behind(closed, cur)
      modifies lastDcVal
      ensures Behind(closed + [cur], [])
    {
      hide CountSym, AreMembers, ScanItems, SegItems, SegInRange;
      ClosedSegment(scan, closed, cur);
      NothingInRange();
      for ci := 0 to |scan.dcTbl|
        invariant forall i :: 0 <= i < ci ==> lastDcVal[i] == 0
      {
        lastDcVal[ci] := 0;
      }
    }

    lemma NothingInRange()
      ensures AreMembers(scan, []) && SegInRange(scan, [])
    {
    }

    method TestBlock(ci: nat, block: Block, ghost closed: seq<seq<Visit>>, ghost cur: seq<Visit>) returns (ok: bool)
      requires Behind(closed, cur) && ci < |scan.dcTbl|
      modifies lastDcVal, stats.dcCounts, stats.acCounts
      ensures ok <==> InRange(Zz(stats.order, block), LastDc(cur, ci))
      ensures ok ==> Behind(closed, cur + [Visit(ci, Zz(stats.order, block))])
    {
      hide BlockItems, CountSym, InRange, AreMembers, SegmentsOk, ScanItems, SegItems, LastDc, Sane, SegInRange, AllInRange;
      ghost var z := Zz(stats.order, block);
      ghost var v := Visit(ci, z);
      ghost var before, more := ScanItems(scan, closed) + SegItems(scan, cur), BlockItems(scan.dcTbl[ci], scan.acTbl[ci], z, LastDc(cur, ci));
      OneMoreVisit(scan, cur, v);
      RangeSnoc(scan, cur, v);
      assert ScanItems(scan, closed) + SegItems(scan, cur + [v]) == before + more;
      forall t: TblId, s: nat ensures CountSym(before + more, t, s) == CountSym(before, t, s) + CountSym(more, t, s) {
        CountSymConcat(before, more, t, s);
      }
      ok := stats.TestOneBlock(scan.dcTbl[ci], scan.acTbl[ci], block, lastDcVal[ci]);
      if ok {
        BlockItemsSane(scan.dcTbl[ci], scan.acTbl[ci], z, lastDcVal[ci]);
        lastDcVal[ci] := block[0];
      }
    }

    /** The blocks of an MCU; false if one is out of range. */
    method TestBlocks(members: seq<nat>, blocks: seq<Block>, ghost closed: seq<seq<Visit>>, ghost cur: seq<Visit>) returns (ok: bool)
      requires Behind(closed, cur) && GoodMcu(scan, members, blocks)
      modifies lastDcVal, stats.dcCounts, stats.acCounts
      ensures !ok ==> var all := cur + VisitsOf(stats.order, members, blocks); AreMembers(scan, all) && !SegInRange(scan, all)
      ensures ok ==> Behind(closed, cur + VisitsOf(stats.order, members, blocks))
    {
      hide Behind, InRange;
      BehindShape(closed, cur);
      ghost var vs := VisitsOf(stats.order, members, blocks);
      assert cur + vs[..0] == cur;
      for blkn := 0 to |blocks|
        invariant Behind(closed, cur + vs[..blkn])
      {
        BehindShape(closed, cur + vs[..blkn]);
        ok := TestBlock(members[blkn], blocks[blkn], closed, cur + vs[..blkn]);
        if !ok {
          OutOfRange(cur, vs, blkn);
          return;
        }
        assert cur + vs[..blkn + 1] == (cur + vs[..blkn]) + [vs[blkn]];
      }
      assert vs[..|blocks|] == vs;
      ok := true;
    }

    /** A block out of range spoils the segment. */
    lemma OutOfRange(cur: seq<Visit>, vs: seq<Visit>, n: nat)
      requires n < |vs| && AreMembers(scan, cur + vs[..n]) && (forall i :: 0 <= i < |vs| ==> vs[i].ci < |scan.dcTbl|)
      requires !InRange(vs[n].z, LastDc(cur + vs[..n], vs[n].ci))
      ensures AreMembers(scan, cur + vs) && !SegInRange(scan, cur + vs)
    {
      hide InRange, LastDc;
      var all := cur + vs;
      assert all[|cur| + n] == vs[n] && all[..|cur| + n] == cur + vs[..n];
      forall i | 0 <= i < |all| ensures all[i].ci < |scan.dcTbl| {
        if i < |cur| {
          assert all[i] == (cur + vs[..n])[i];
        }
      }
    }

    lemma BehindShape(closed: seq<seq<Visit>>, cur: seq<Visit>)
      requires Behind(closed, cur)
      ensures stats.Shape() && HScanOk(scan) && AreMembers(scan, cur)
    {
    }

    /** Trial-encode one MCU; false stands for the error exit on a value out of range. */
    method EncodeMcuGather(members: seq<nat>, blocks: seq<Block>) returns (ok: bool)
      requires Valid() && stats.Shape() && GoodMcu(scan, members, blocks)
      modifies this`restartsToGo, this`given, lastDcVal, stats.dcCounts, stats.acCounts
      ensures !ok ==> !NextInRange(scan, restartInterval, old(given), VisitsOf(stats.order, members, blocks))
      ensures ok ==> Valid() && given == old(given) + [VisitsOf(stats.order, members, blocks)]
    {
      hide Behind, Segments, ToGo;
      ghost var segs, n, m := Segs(), |given|, VisitsOf(stats.order, members, blocks);
      ghost var closed, cur := segs[..|segs| - 1], segs[|segs| - 1];
      assert [] + m == m && segs == closed + [cur];
      SegmentsSnoc(restartInterval, given, m);
      if restartInterval != 0 {
        ToGoCounts(restartInterval, n);
        if restartsToGo == 0 {
          Restart(closed, cur);
          closed, cur := segs, [];
          restartsToGo := restartInterval;
        }
        restartsToGo := restartsToGo - 1;
      }
      ok := TestBlocks(members, blocks, closed, cur);
      if ok {
        given := given + [m];
        assert Segs() == closed + [cur + m];
        assert Segs()[..|Segs()| - 1] == closed;
      }
    }
  }
}
