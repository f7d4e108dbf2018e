/**
 * Blocks in natural order and in zigzag order. jpeg_natural_order is taken to be any permutation
 * of the 64 positions that fixes the DC term.
 */
module NaturalOrder {
  import opened Blocks

  /** `order[i]` is the natural-order position of the i'th element of zigzag order. */
  ghost predicate IsNaturalOrder(order: seq<int>) {
    && |order| == DCTSIZE2 && order[0] == 0
    && (forall k :: 0 <= k < DCTSIZE2 ==> 0 <= order[k] < DCTSIZE2)
    && (forall j, k :: 0 <= j < k < DCTSIZE2 ==> order[j] != order[k])
    && (forall p :: 0 <= p < DCTSIZE2 ==> p in order)
  }

  /** The coefficients of a block (in natural order) listed in zigzag order. */
  ghost function Zz(order: seq<int>, block: seq<int>): Zigzag
    requires IsNaturalOrder(order) && |block| == DCTSIZE2
  {
    seq(DCTSIZE2, k requires 0 <= k < DCTSIZE2 => block[order[k]])
  }

  /** Storing at `jpeg_natural_order[k]` is storing zigzag coefficient k. */
  lemma ZzUpdate(order: seq<int>, block: seq<int>, k: nat, v: int)
    requires IsNaturalOrder(order) && |block| == DCTSIZE2 && k < DCTSIZE2
    ensures Zz(order, block[order[k] := v]) == Zz(order, block)[k := v]
  {
  }

  /** A block is determined by its zigzag listing. */
  lemma ZzInjective(order: seq<int>, a: seq<int>, b: seq<int>)
    requires IsNaturalOrder(order) && |a| == |b| == DCTSIZE2
    requires Zz(order, a) == Zz(order, b)
    ensures a == b
  {
    forall p | 0 <= p < DCTSIZE2 ensures a[p] == b[p] {
      assert p in order;
      var k: nat :| k < |order| && order[k] == p;
      assert Zz(order, a)[k] == Zz(order, b)[k];
    }
  }

  ghost function PositionOf(order: seq<int>, p: nat): (k: nat)
    requires IsNaturalOrder(order) && p < DCTSIZE2
    ensures k < DCTSIZE2 && order[k] == p
  {
    assert p in order;
    var k: nat :| k < |order| && order[k] == p;
    k
  }

  /** The block with a given zigzag listing. */
  ghost function Unzigzag(order: seq<int>, z: Zigzag): Block
    requires IsNaturalOrder(order)
  {
    seq(DCTSIZE2, p requires 0 <= p < DCTSIZE2 => z[PositionOf(order, p)])
  }

  lemma ZzUnzigzag(order: seq<int>, z: Zigzag)
    requires IsNaturalOrder(order)
    ensures Zz(order, Unzigzag(order, z)) == z
  {
    forall k | 0 <= k < DCTSIZE2 ensures Zz(order, Unzigzag(order, z))[k] == z[k] {
      var j := PositionOf(order, order[k]);
      assert order[j] == order[k];
      assert j == k;
    }
  }

  /** An MCU as it is handed over: the component of each block, and the block. */
  ghost function VisitsOf(order: seq<int>, members: seq<nat>, blocks: seq<Block>): (vs: Mcu)
    requires IsNaturalOrder(order) && |members| == |blocks|
    ensures |vs| == |blocks|
  {
    seq(|blocks|, i requires 0 <= i < |blocks| => Visit(members[i], Zz(order, blocks[i])))
  }

  /** An MCU as the coefficient controller delivers it. */
  datatype McuData = McuData(members: seq<nat>, blocks: seq<Block>)

  ghost function McusOf(order: seq<int>, data: seq<McuData>): (ms: seq<Mcu>)
    requires IsNaturalOrder(order) && forall i :: 0 <= i < |data| ==> |data[i].members| == |data[i].blocks|
    ensures |ms| == |data|
  {
    seq(|data|, i requires 0 <= i < |data| => VisitsOf(order, data[i].members, data[i].blocks))
  }
}
