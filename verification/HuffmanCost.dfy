/**
 * Why merging the two smallest counts is optimal: the cost that the merging procedure of
 * jpeg_gen_optimal_table (jchuff.c) accumulates is a lower bound for the weighted total of any
 * assignment of code lengths whose Kraft sum is at most one.
 */
module HuffmanCost {
  import opened Bits

  /** The start value of `v` in both searches. */
  const CUTOFF := 1_000_000_000

  function Sum(f: seq<nat>): nat {
    if f == [] then 0 else Sum(f[..|f| - 1]) + f[|f| - 1]
  }

  /** The number of entries that are not zero. */
  function Used(f: seq<nat>): nat {
    if f == [] then 0 else Used(f[..|f| - 1]) + if f[|f| - 1] > 0 then 1 else 0
  }

  /** The search for the smallest nonzero count other than number `skip`; in case of ties, the larger number. */
  function Pick(f: seq<nat>, skip: int): (c: int)
    ensures -1 <= c < |f|
    ensures c >= 0 ==> c != skip && 0 < f[c] <= CUTOFF
    ensures c >= 0 ==> forall i :: 0 <= i < |f| && i != skip && f[i] > 0 ==> f[c] <= f[i]
    ensures c < 0 ==> forall i :: 0 <= i < |f| && i != skip && f[i] > 0 ==> f[i] > CUTOFF
  {
    if f == [] then -1
    else
      var i := |f| - 1;
      var c := Pick(f[..i], skip);
      if f[i] > 0 && f[i] <= (if c < 0 then CUTOFF else f[c]) && i != skip then i else c
  }

  /** Of equal counts the one with the largest number is picked. */
  lemma {:induction false} PicksLast(f: seq<nat>, skip: int)
    ensures var c := Pick(f, skip); c >= 0 ==> forall i :: c < i < |f| && i != skip && f[i] > 0 ==> f[c] < f[i]
  {
    if f != [] {
      PicksLast(f[..|f| - 1], skip);
    }
  }

  lemma {:induction false} SumUpdate(f: seq<nat>, i: nat, x: nat)
    requires i < |f|
    ensures Sum(f[i := x]) == Sum(f) - f[i] + x
    ensures Sum(f) >= f[i]
    ensures Used(f[i := x]) == Used(f) - (if f[i] > 0 then 1 else 0) + (if x > 0 then 1 else 0)
    ensures f[i] > 0 ==> Used(f) > 0
  {
    var n := |f| - 1;
    if i < n {
      assert f[i := x][..n] == f[..n][i := x];
      SumUpdate(f[..n], i, x);
    } else {
      assert f[i := x][..n] == f[..n];
    }
  }

  /** `freq[c1] += freq[c2]; freq[c2] = 0;` */
  function Merged(f: seq<nat>, c1: nat, c2: nat): (r: seq<nat>)
    requires c1 < |f| && c2 < |f|
    ensures |r| == |f|
  {
    f[c1 := f[c1] + f[c2]][c2 := 0]
  }

  lemma MergedCounts(f: seq<nat>, c1: nat, c2: nat)
    requires c1 < |f| && c2 < |f| && c1 != c2 && f[c1] > 0 && f[c2] > 0
    ensures Sum(Merged(f, c1, c2)) == Sum(f) && Used(Merged(f, c1, c2)) == Used(f) - 1
  {
    SumUpdate(f, c1, f[c1] + f[c2]);
    SumUpdate(f[c1 := f[c1] + f[c2]], c2, 0);
  }

  /** The sum of all merged counts until one is left. */
  function MergeCost(f: seq<nat>): nat
    decreases Used(f)
  {
    var c1 := Pick(f, -1);
    var c2 := Pick(f, c1);
    if c1 < 0 || c2 < 0 then 0
    else
      MergedCounts(f, c1, c2);
      f[c1] + f[c2] + MergeCost(Merged(f, c1, c2))
  }

  // ----- Costs and Kraft sums of length assignments -----

  /** The weighted total of code lengths. */
  function Cost(f: seq<nat>, l: seq<nat>): nat
    requires |f| == |l|
  {
    if f == [] then 0 else Cost(f[..|f| - 1], l[..|f| - 1]) + f[|f| - 1] * l[|f| - 1]
  }

  predicate AtMost(l: seq<nat>, e: nat) {
    forall i :: 0 <= i < |l| ==> l[i] <= e
  }

  /** The Kraft sum over the used entries, in units of 2^-e. */
  function Kraft(f: seq<nat>, l: seq<nat>, e: nat): nat
    requires |f| == |l| && AtMost(l, e)
  {
    if f == [] then 0
    else Kraft(f[..|f| - 1], l[..|f| - 1], e) + if f[|f| - 1] > 0 then Pow2(e - l[|f| - 1]) else 0
  }

  /** A possible set of code lengths for a prefix code of the used entries. */
  predicate Feasible(f: seq<nat>, l: seq<nat>, e: nat) {
    |f| == |l| && AtMost(l, e) && Kraft(f, l, e) <= Pow2(e)
  }

  lemma {:induction false} CostUpdate(f: seq<nat>, l: seq<nat>, i: nat, x: nat)
    requires |f| == |l| && i < |l|
    ensures Cost(f, l[i := x]) == Cost(f, l) + f[i] * x - f[i] * l[i]
  {
    var n := |f| - 1;
    if i < n {
      assert l[i := x][..n] == l[..n][i := x];
      CostUpdate(f[..n], l[..n], i, x);
    } else {
      assert l[i := x][..n] == l[..n];
    }
  }

  lemma {:induction false} CostCountUpdate(f: seq<nat>, l: seq<nat>, i: nat, x: nat)
    requires |f| == |l| && i < |l|
    ensures Cost(f[i := x], l) == Cost(f, l) + x * l[i] - f[i] * l[i]
  {
    var n := |f| - 1;
    if i < n {
      assert f[i := x][..n] == f[..n][i := x];
      CostCountUpdate(f[..n], l[..n], i, x);
    } else {
      assert f[i := x][..n] == f[..n];
    }
  }

  lemma {:induction false} KraftUpdate(f: seq<nat>, l: seq<nat>, e: nat, i: nat, x: nat)
    requires |f| == |l| && AtMost(l, e) && i < |l| && x <= e && f[i] > 0
    ensures Kraft(f, l[i := x], e) == Kraft(f, l, e) - Pow2(e - l[i]) + Pow2(e - x)
    ensures Kraft(f, l, e) >= Pow2(e - l[i])
  {
    hide Pow2;
    var n := |f| - 1;
    if i < n {
      assert l[i := x][..n] == l[..n][i := x];
      KraftUpdate(f[..n], l[..n], e, i, x);
    } else {
      assert l[i := x][..n] == l[..n];
    }
  }

  lemma {:induction false} KraftCountUpdate(f: seq<nat>, l: seq<nat>, e: nat, i: nat, x: nat)
    requires |f| == |l| && AtMost(l, e) && i < |l| && f[i] > 0
    ensures Kraft(f[i := x], l, e) == Kraft(f, l, e) - if x > 0 then 0 else Pow2(e - l[i])
  {
    var n := |f| - 1;
    if i < n {
      assert f[i := x][..n] == f[..n][i := x];
      KraftCountUpdate(f[..n], l[..n], e, i, x);
    } else {
      assert f[i := x][..n] == f[..n];
    }
  }

  lemma {:induction false} KraftScale(f: seq<nat>, l: seq<nat>, e: nat)
    requires |f| == |l| && AtMost(l, e)
    ensures Kraft(f, l, e + 1) == 2 * Kraft(f, l, e)
  {
    if f != [] {
      KraftScale(f[..|f| - 1], l[..|f| - 1], e);
    }
  }

  /** Feasibility does not depend on the unit. */
  lemma {:induction false} FeasibleScale(f: seq<nat>, l: seq<nat>, e: nat, e': nat)
    requires |f| == |l| && AtMost(l, e) && AtMost(l, e')
    ensures Feasible(f, l, e) <==> Feasible(f, l, e')
    decreases if e < e' then e' - e else e - e'
  {
    if e < e' {
      KraftScale(f, l, e);
      FeasibleScale(f, l, e + 1, e');
    } else if e' < e {
      KraftScale(f, l, e - 1);
      FeasibleScale(f, l, e - 1, e');
    }
  }

  // ----- Bringing the two smallest counts to the deepest level -----

  /** A used entry other than `skip` with the greatest length. */
  lemma {:induction false} Deepest(f: seq<nat>, l: seq<nat>, skip: int, c: nat) returns (m: nat)
    requires |f| == |l| && c < |f| && f[c] > 0 && c != skip
    ensures m < |f| && f[m] > 0 && m != skip
    ensures forall i :: 0 <= i < |f| && f[i] > 0 && i != skip ==> l[i] <= l[m]
  {
    m := c;
    for i := 0 to |f|
      invariant m < |f| && f[m] > 0 && m != skip
      invariant forall j :: 0 <= j < i && f[j] > 0 && j != skip ==> l[j] <= l[m]
    {
      if f[i] > 0 && i != skip && l[i] > l[m] {
        m := i;
      }
    }
  }

  lemma ExchangeCost(a: nat, b: nat, x: nat, y: nat)
    requires a <= b && x <= y
    ensures a * y + b * x <= a * x + b * y
  {
    assert (b - a) * (y - x) >= 0;
    assert (b - a) * (y - x) == b * y - b * x - a * y + a * x;
  }

  /** Exchanging two lengths so that the smaller count gets the greater one. */
  lemma Exchange(f: seq<nat>, l: seq<nat>, e: nat, c: nat, m: nat)
    requires Feasible(f, l, e) && c < |f| && m < |f| && 0 < f[c] <= f[m] && l[c] <= l[m]
    ensures var l' := l[c := l[m]][m := l[c]]; Feasible(f, l', e) && Cost(f, l') <= Cost(f, l)
  {
    var l1 := l[c := l[m]];
    var l' := l1[m := l[c]];
    if c == m {
      assert l' == l;
    } else {
      CostUpdate(f, l, c, l[m]);
      CostUpdate(f, l1, m, l[c]);
      KraftUpdate(f, l, e, c, l[m]);
      KraftUpdate(f, l1, e, m, l[c]);
      ExchangeCost(f[c], f[m], l[c], l[m]);
    }
  }

  /** The two smallest counts at least as deep as all others. */
  predicate TwoDeepest(f: seq<nat>, l: seq<nat>, c1: nat, c2: nat) {
    && |f| == |l| && c1 < |f| && c2 < |f| && c1 != c2 && f[c1] > 0 && f[c2] > 0 && l[c1] >= l[c2]
    && forall i :: 0 <= i < |f| && f[i] > 0 && i != c1 ==> l[i] <= l[c2]
  }

  lemma Sink(f: seq<nat>, l: seq<nat>, e: nat, c1: nat, c2: nat) returns (l': seq<nat>)
    requires Feasible(f, l, e) && Sum(f) <= CUTOFF && c1 == Pick(f, -1) && c2 == Pick(f, c1)
    ensures Feasible(f, l', e) && Cost(f, l') <= Cost(f, l) && TwoDeepest(f, l', c1, c2)
  {
    var m := Deepest(f, l, -1, c1);
    Exchange(f, l, e, c1, m);
    var l1 := l[c1 := l[m]][m := l[c1]];
    var m2 := Deepest(f, l1, c1, c2);
    Exchange(f, l1, e, c2, m2);
    l' := l1[c2 := l1[m2]][m2 := l1[c2]];
  }

  // ----- Making the two deepest lengths equal -----

  /** A unique deepest entry contributes one unit, all others an even number. */
  lemma {:induction false} AllDeeperEven(f: seq<nat>, l: seq<nat>, e: nat)
    requires |f| == |l| && AtMost(l, e) && forall i :: 0 <= i < |f| && f[i] > 0 ==> l[i] < e
    ensures Kraft(f, l, e) % 2 == 0
  {
    if f != [] {
      AllDeeperEven(f[..|f| - 1], l[..|f| - 1], e);
      if f[|f| - 1] > 0 {
        assert Pow2(e - l[|f| - 1]) == 2 * Pow2(e - l[|f| - 1] - 1);
      }
    }
  }

  /** Lengths cut to at most e; only unused entries change. */
  function Capped(l: seq<nat>, e: nat): (r: seq<nat>)
    ensures |r| == |l| && AtMost(r, e)
  {
    seq(|l|, i requires 0 <= i < |l| => if l[i] <= e then l[i] else e)
  }

  lemma {:induction false} KraftIgnoresUnused(f: seq<nat>, l: seq<nat>, k: seq<nat>, e: nat)
    requires |f| == |l| == |k| && AtMost(l, e) && AtMost(k, e)
    requires forall i :: 0 <= i < |f| && f[i] > 0 ==> l[i] == k[i]
    ensures Kraft(f, l, e) == Kraft(f, k, e) && Cost(f, l) == Cost(f, k)
  {
    if f != [] {
      KraftIgnoresUnused(f[..|f| - 1], l[..|f| - 1], k[..|f| - 1], e);
    }
  }

  /** In units of its own depth, a unique deepest entry leaves the Kraft sum odd, so there is room for another unit. */
  lemma RoomForOne(f: seq<nat>, k: seq<nat>, t: nat, c1: nat)
    requires Feasible(f, k, t) && c1 < |f| && f[c1] > 0 && k[c1] == t > 0
    requires forall i :: 0 <= i < |f| && f[i] > 0 && i != c1 ==> k[i] < t
    ensures Feasible(f, k[c1 := t - 1], t)
  {
    hide Pow2, Kraft;
    KraftCountUpdate(f, k, t, c1, 0);
    AllDeeperEven(f[c1 := 0], k, t);
    FirstPowers(t);
    KraftUpdate(f, k, t, c1, t - 1);
  }

  lemma FirstPowers(t: nat)
    requires t > 0
    ensures Pow2(0) == 1 && Pow2(1) == 2 && Pow2(t) == 2 * Pow2(t - 1)
  {
  }

  /** A unique deepest entry can move up by one. */
  lemma MoveUp(f: seq<nat>, l: seq<nat>, e: nat, c1: nat, c2: nat)
    requires Feasible(f, l, e) && TwoDeepest(f, l, c1, c2) && l[c1] > l[c2]
    ensures Feasible(f, l[c1 := l[c1] - 1], e)
  {
    var t := l[c1];
    var k := Capped(l, t);
    KraftIgnoresUnused(f, l, k, e);
    FeasibleScale(f, k, e, t);
    RoomForOne(f, k, t, c1);
    var k' := k[c1 := t - 1];
    FeasibleScale(f, k', t, e);
    KraftIgnoresUnused(f, l[c1 := t - 1], k', e);
  }

  lemma {:induction false} Level(f: seq<nat>, l: seq<nat>, e: nat, c1: nat, c2: nat) returns (l': seq<nat>)
    requires Feasible(f, l, e) && TwoDeepest(f, l, c1, c2)
    ensures Feasible(f, l', e) && Cost(f, l') <= Cost(f, l) && TwoDeepest(f, l', c1, c2) && l'[c1] == l'[c2]
    decreases l[c1]
  {
    l' := l;
    if l[c1] > l[c2] {
      MoveUp(f, l, e, c1, c2);
      CostUpdate(f, l, c1, l[c1] - 1);
      OneLess(f[c1], l[c1]);
      l' := Level(f, l[c1 := l[c1] - 1], e, c1, c2);
    }
  }

  lemma OneLess(a: nat, x: nat)
    requires x > 0
    ensures a * (x - 1) == a * x - a
  {
  }

  lemma {:induction false} TwoTerms(f: seq<nat>, l: seq<nat>, e: nat, c1: nat, c2: nat)
    requires |f| == |l| && AtMost(l, e) && c1 < |f| && c2 < |f| && c1 != c2 && f[c1] > 0 && f[c2] > 0
    ensures Kraft(f, l, e) >= Pow2(e - l[c1]) + Pow2(e - l[c2])
  {
    KraftCountUpdate(f, l, e, c1, 0);
    KraftUpdate(f[c1 := 0], l, e, c2, l[c2]);
  }

  // ----- The bound -----

  /** The pair at equal depth becomes one entry, one level up. */
  lemma MergePair(f: seq<nat>, l: seq<nat>, e: nat, c1: nat, c2: nat) returns (l': seq<nat>)
    requires Feasible(f, l, e) && TwoDeepest(f, l, c1, c2) && l[c1] == l[c2]
    ensures Feasible(Merged(f, c1, c2), l', e)
    ensures Cost(f, l) == f[c1] + f[c2] + Cost(Merged(f, c1, c2), l')
  {
    TwoTerms(f, l, e, c1, c2);
    var t := l[c1];
    assert t > 0;
    var f1 := f[c1 := f[c1] + f[c2]];
    KraftCountUpdate(f, l, e, c1, f[c1] + f[c2]);
    KraftCountUpdate(f1, l, e, c2, 0);
    CostCountUpdate(f, l, c1, f[c1] + f[c2]);
    CostCountUpdate(f1, l, c2, 0);
    l' := l[c1 := t - 1];
    var m := Merged(f, c1, c2);
    KraftUpdate(m, l, e, c1, t - 1);
    CostUpdate(m, l, c1, t - 1);
    assert Pow2(e - t + 1) == 2 * Pow2(e - t);
    PairCost(f[c1], f[c2], t);
  }

  lemma PairCost(a: nat, b: nat, t: nat)
    requires t > 0
    ensures (a + b) * t - a * t - b * t == 0 && (a + b) * (t - 1) == (a + b) * t - (a + b)
  {
  }

  /**
   * Optimality: no assignment of lengths with Kraft sum at most one over the used entries has a smaller
   * weighted total than merging the two smallest counts until one is left.
   */
  lemma {:induction false} MergingIsOptimal(f: seq<nat>, l: seq<nat>, e: nat)
    requires Feasible(f, l, e) && Sum(f) <= CUTOFF
    ensures Cost(f, l) >= MergeCost(f)
    decreases Used(f)
  {
    var c1 := Pick(f, -1);
    var c2 := Pick(f, c1);
    if c1 >= 0 && c2 >= 0 {
      var l1 := Sink(f, l, e, c1, c2);
      var l2 := Level(f, l1, e, c1, c2);
      var l3 := MergePair(f, l2, e, c1, c2);
      MergedCounts(f, c1, c2);
      MergingIsOptimal(Merged(f, c1, c2), l3, e);
    }
  }
}
