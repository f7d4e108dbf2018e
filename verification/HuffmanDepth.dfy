/**
 * How long the codes of jpeg_gen_optimal_table (jchuff.c) become: the lengths by recursion on the merging of
 * counts, and that a code of n bits needs counts that add up to a Fibonacci number.
 */
module HuffmanDepth {
  import opened HuffmanCost

  /** The lengths that merging the two smallest counts until one is left gives. */
  function MergeLengths(f: seq<nat>): (l: seq<nat>)
    ensures |l| == |f|
    decreases Used(f)
  {
    var c1 := Pick(f, -1);
    var c2 := Pick(f, c1);
    if c1 < 0 || c2 < 0 then seq(|f|, _ => 0)
    else
      MergedCounts(f, c1, c2);
      var l := MergeLengths(Merged(f, c1, c2));
      l[c1 := l[c1] + 1][c2 := l[c1] + 1]
  }

  lemma {:induction false} UnusedHasNoLength(f: seq<nat>, s: nat)
    requires s < |f| && f[s] == 0
    ensures MergeLengths(f)[s] == 0
    decreases Used(f)
  {
    var c1 := Pick(f, -1);
    var c2 := Pick(f, c1);
    if c1 >= 0 && c2 >= 0 {
      MergedCounts(f, c1, c2);
      UnusedHasNoLength(Merged(f, c1, c2), s);
    }
  }

  // ----- Fibonacci numbers -----

  function Fib(n: nat): nat {
    if n < 2 then n else Fib(n - 1) + Fib(n - 2)
  }

  lemma {:induction false} FibMonotone(m: nat, n: nat)
    requires m <= n
    ensures Fib(m) <= Fib(n)
    decreases n
  {
    if m < n {
      FibMonotone(m, n - 1);
    }
  }

  lemma FirstFib()
    ensures Fib(1) == Fib(2) == 1
  {
  }

  /** d[c] is the length so far of the deepest code in the branch of count c. */
  predicate Grows(f: seq<nat>, d: seq<nat>) {
    |d| == |f| && forall c, c' :: 0 <= c < |f| && 0 <= c' < |f| && f[c] > 0 && f[c'] > 0 ==> Fib(d[c] + 2) <= f[c] && Fib(d[c] + 1) <= f[c']
  }

  /** The depths after a merge. */
  function Deepened(d: seq<nat>, c1: nat, c2: nat): (r: seq<nat>)
    requires c1 < |d| && c2 < |d|
    ensures |r| == |d|
  {
    d[c1 := 1 + if d[c1] < d[c2] then d[c2] else d[c1]]
  }

  lemma MergeGrows(f: seq<nat>, d: seq<nat>, c1: nat, c2: nat)
    requires Grows(f, d) && c1 < |f| && c2 < |f| && c1 != c2 && f[c1] > 0 && f[c2] > 0
    requires forall i :: 0 <= i < |f| && f[i] > 0 ==> f[c1] <= f[i] && (i != c1 ==> f[c2] <= f[i])
    ensures Grows(Merged(f, c1, c2), Deepened(d, c1, c2))
  {
    hide Fib;
    var f', d' := Merged(f, c1, c2), Deepened(d, c1, c2);
    var m := if d[c1] < d[c2] then d[c2] else d[c1];
    FibSum(m);
    forall c, c' | 0 <= c < |f| && 0 <= c' < |f| && f'[c] > 0 && f'[c'] > 0 ensures Fib(d'[c] + 2) <= f'[c] && Fib(d'[c] + 1) <= f'[c'] {
      assert f[c] > 0 && f[c'] > 0;
      assert Fib(d[c] + 1) <= f[c'] && Fib(d[c] + 2) <= f[c];
    }
  }

  lemma FibSum(m: nat)
    ensures Fib(m + 3) == Fib(m + 2) + Fib(m + 1)
  {
  }

  lemma LengthsMerged(f: seq<nat>, c1: nat, c2: nat, c: nat)
    requires c1 == Pick(f, -1) && c2 == Pick(f, c1) && c < |f|
    ensures var l := MergeLengths(Merged(f, c1, c2)); MergeLengths(f)[c] == if c == c1 || c == c2 then l[c1] + 1 else l[c]
  {
    hide Pick;
  }

  /** What is left to be merged can only make the codes longer, and the counts cover it. */
  lemma {:induction false} DeepCounts(f: seq<nat>, d: seq<nat>, c: nat)
    requires |d| == |f| && Grows(f, d) && c < |f| && f[c] > 0
    ensures Fib(d[c] + MergeLengths(f)[c] + 2) <= Sum(f)
    decreases Used(f)
  {
    hide Fib, MergeLengths, Pick, Grows, Merged, Deepened;
    var c1 := Pick(f, -1);
    var c2 := Pick(f, c1);
    if c1 >= 0 && c2 >= 0 {
      MergeGrows(f, d, c1, c2);
      MergedCounts(f, c1, c2);
      var k := Deeper(f, d, c1, c2, c);
      DeepCounts(Merged(f, c1, c2), Deepened(d, c1, c2), k);
      FibMonotone(d[c] + MergeLengths(f)[c] + 2, Deepened(d, c1, c2)[k] + MergeLengths(Merged(f, c1, c2))[k] + 2);
    } else {
      NothingMerged(f, c);
      OneCount(f, d, c);
    }
  }

  lemma OneCount(f: seq<nat>, d: seq<nat>, c: nat)
    requires Grows(f, d) && c < |f| && f[c] > 0
    ensures |d| == |f| && Fib(d[c] + 2) <= Sum(f)
  {
    hide Fib;
    SumUpdate(f, c, 0);
  }

  /** Where the code of count c is found after the merge; it has not become shorter. */
  lemma Deeper(f: seq<nat>, d: seq<nat>, c1: nat, c2: nat, c: nat) returns (k: nat)
    requires c1 == Pick(f, -1) && c2 == Pick(f, c1) && |d| == |f| && c < |f| && f[c] > 0
    ensures k < |f| && Merged(f, c1, c2)[k] > 0
    ensures d[c] + MergeLengths(f)[c] <= Deepened(d, c1, c2)[k] + MergeLengths(Merged(f, c1, c2))[k]
  {
    hide MergeLengths;
    LengthsMerged(f, c1, c2, c);
    k := if c == c2 then c1 else c;
  }

  lemma NothingMerged(f: seq<nat>, c: nat)
    requires c < |f| && (Pick(f, -1) < 0 || Pick(f, Pick(f, -1)) < 0)
    ensures MergeLengths(f)[c] == 0
  {
    hide Pick;
  }

  // ----- The pseudo-symbol -----

  /** Count a is found before count b in the search for the smallest. */
  predicate PickedBefore(f: seq<nat>, a: nat, b: nat)
    requires a < |f| && b < |f|
  {
    f[a] < f[b] || (f[a] == f[b] && a > b)
  }

  /**
   * No branch is deeper than branch g, those that are picked before it are less deep, and any two other
   * branches would make one that is picked after it.
   */
  predicate NoneDeeper(f: seq<nat>, d: seq<nat>, g: nat) {
    && |d| == |f| && g < |f| && f[g] > 0
    && (forall h: nat :: h < |f| && f[h] > 0 ==> d[h] <= d[g] && (h != g && PickedBefore(f, h, g) ==> d[h] < d[g]))
    && (forall h: nat, i: nat :: h < |f| && i < |f| && h != i && h != g && i != g && f[h] > 0 && f[i] > 0 ==>
          f[h] + f[i] > f[g] || (f[h] + f[i] == f[g] && h < g && i < g))
  }

  /** Where the branch g is after a merge. */
  function Moved(g: nat, c1: nat, c2: nat): nat {
    if g == c2 then c1 else g
  }

  lemma NoneDeeperStays(f: seq<nat>, d: seq<nat>, g: nat, c1: nat, c2: nat)
    requires NoneDeeper(f, d, g) && c1 == Pick(f, -1) && c2 == Pick(f, c1)
    ensures NoneDeeper(Merged(f, c1, c2), Deepened(d, c1, c2), Moved(g, c1, c2))
    ensures Deepened(d, c1, c2)[Moved(g, c1, c2)] == d[g] + if g == c1 || g == c2 then 1 else 0
  {
    hide Pick;
    PickedInOrder(f, c1, c2);
    if g != c1 && g != c2 {
      assert d[c1] < d[g] && d[c2] < d[g];
    }
  }

  lemma PickedInOrder(f: seq<nat>, c1: nat, c2: nat)
    requires c1 == Pick(f, -1) && c2 == Pick(f, c1)
    ensures c1 < |f| && c2 < |f| && c1 != c2 && f[c1] > 0 && f[c2] > 0
    ensures forall h: nat :: h < |f| && h != c1 && f[h] > 0 ==> PickedBefore(f, c1, h) && (h != c2 ==> PickedBefore(f, c2, h))
  {
    PicksLast(f, -1);
    PicksLast(f, c1);
    hide Pick;
  }

  lemma {:induction false} StaysDeepest(f: seq<nat>, d: seq<nat>, g: nat, c: nat)
    requires NoneDeeper(f, d, g) && Sum(f) <= CUTOFF && c < |f| && f[c] > 0
    ensures d[c] + MergeLengths(f)[c] <= d[g] + MergeLengths(f)[g]
    decreases Used(f)
  {
    hide MergeLengths, Pick, NoneDeeper, Merged, Deepened;
    DepthBound(f, d, g, c);
    var c1 := Pick(f, -1);
    var c2 := Pick(f, c1);
    if c1 >= 0 && c2 >= 0 {
      var g' := Moved(g, c1, c2);
      NoneDeeperStays(f, d, g, c1, c2);
      MergedCounts(f, c1, c2);
      var k := Deeper(f, d, c1, c2, c);
      StaysDeepest(Merged(f, c1, c2), Deepened(d, c1, c2), g', k);
      LengthsMerged(f, c1, c2, g);
    } else {
      NothingMerged(f, c);
      NothingMerged(f, g);
    }
  }

  lemma DepthBound(f: seq<nat>, d: seq<nat>, g: nat, c: nat)
    requires NoneDeeper(f, d, g) && c < |f| && f[c] > 0
    ensures |d| == |f| && g < |f| && d[c] <= d[g]
  {
  }

  /** A symbol that occurs once and comes last gets a code of the greatest length. */
  lemma LastGetsLongest(f: seq<nat>, c: nat)
    requires f != [] && f[|f| - 1] == 1 && Sum(f) <= CUTOFF && c < |f|
    ensures MergeLengths(f)[c] <= MergeLengths(f)[|f| - 1]
  {
    hide MergeLengths;
    var d := seq(|f|, _ => 0);
    if f[c] > 0 {
      assert NoneDeeper(f, d, |f| - 1);
      StaysDeepest(f, d, |f| - 1, c);
    } else {
      UnusedHasNoLength(f, c);
    }
  }

  /** A code of n bits needs counts that add up to Fibonacci number n + 2. */
  lemma LongCodesNeedCounts(f: seq<nat>, s: nat)
    requires s < |f| && f[s] > 0
    ensures Fib(MergeLengths(f)[s] + 2) <= Sum(f)
  {
    FirstFib();
    hide Fib, MergeLengths;
    DeepCounts(f, seq(|f|, _ => 0), s);
  }

  /** So no code is longer than 32 bits unless the counts add up to more than nine million. */
  lemma FewCountsShortCodes(f: seq<nat>)
    requires Sum(f) < 9_227_465
    ensures AtMost(MergeLengths(f), 32)
  {
    forall s | 0 <= s < |f| ensures MergeLengths(f)[s] <= 32 {
      if f[s] == 0 {
        UnusedHasNoLength(f, s);
      } else if MergeLengths(f)[s] > 32 {
        LongCodesNeedCounts(f, s);
        FibMonotone(35, MergeLengths(f)[s] + 2);
        FibValue();
      }
    }
  }

  lemma FibValue()
    ensures Fib(35) == 9_227_465
  {
    assert Fib(10) == 55 && Fib(11) == 89;
    FibTen(10);
    FibTen(20);
    assert Fib(30) == 832_040 && Fib(31) == 1_346_269;
    FibSteps(30);
  }

  lemma FibSteps(n: nat)
    ensures Fib(n + 5) == 5 * Fib(n + 1) + 3 * Fib(n)
  {
    assert Fib(n + 2) == Fib(n + 1) + Fib(n);
    assert Fib(n + 3) == Fib(n + 2) + Fib(n + 1);
    assert Fib(n + 4) == Fib(n + 3) + Fib(n + 2);
  }

  lemma FibTen(n: nat)
    ensures Fib(n + 10) == 55 * Fib(n + 1) + 34 * Fib(n)
    ensures Fib(n + 11) == 89 * Fib(n + 1) + 55 * Fib(n)
  {
    FibSteps(n);
    FibSteps(n + 1);
    FibSteps(n + 5);
    FibSteps(n + 6);
    assert Fib(n + 2) == Fib(n + 1) + Fib(n);
    assert Fib(n + 7) == Fib(n + 6) + Fib(n + 5);
  }

  // ----- Counts that reach the bound -----

  function FrontSum(f: seq<nat>, o: seq<nat>, n: nat): nat
    requires n <= |o| && forall j :: 0 <= j < |o| ==> o[j] < |f|
  {
    if n == 0 then 0 else FrontSum(f, o, n - 1) + f[o[n - 1]]
  }

  /** o lists the used entries, each greater than the one before it and than the sum of those before that. */
  predicate Steep(f: seq<nat>, o: seq<nat>) {
    && (forall j :: 0 <= j < |o| ==> o[j] < |f| && f[o[j]] > 0)
    && (forall i, j :: 0 <= i < j < |o| ==> o[i] != o[j])
    && (forall c :: 0 <= c < |f| && f[c] > 0 ==> c in o)
    && (forall j :: 2 <= j < |o| ==> f[o[j - 1]] < f[o[j]] && FrontSum(f, o, j - 1) < f[o[j]])
  }

  lemma {:induction false} Rising(f: seq<nat>, o: seq<nat>, j: nat)
    requires Steep(f, o) && 2 <= j < |o|
    ensures f[o[0]] < f[o[j]] && f[o[1]] < f[o[j]]
    decreases j
  {
    assert FrontSum(f, o, 0) == 0 && FrontSum(f, o, 1) == f[o[0]];
    if j > 2 {
      Rising(f, o, j - 1);
    }
  }

  lemma OthersGreater(f: seq<nat>, o: seq<nat>)
    requires Steep(f, o) && |o| >= 2
    ensures forall j :: 2 <= j < |o| ==> f[o[0]] < f[o[j]] && f[o[1]] < f[o[j]]
  {
    forall j | 2 <= j < |o| ensures f[o[0]] < f[o[j]] && f[o[1]] < f[o[j]] {
      Rising(f, o, j);
    }
  }

  /** The first two are merged. */
  lemma FirstTwo(f: seq<nat>, o: seq<nat>)
    requires Steep(f, o) && |o| >= 2 && Sum(f) <= CUTOFF
    ensures var c1 := Pick(f, -1); var c2 := Pick(f, c1); (c1 == o[0] && c2 == o[1]) || (c1 == o[1] && c2 == o[0])
  {
    var c1 := Pick(f, -1);
    var c2 := Pick(f, c1);
    SumUpdate(f, o[0], 0);
    SumUpdate(f, o[1], 0);
    OthersGreater(f, o);
    assert c1 >= 0 && c2 >= 0;
    assert c1 in o && c2 in o;
  }

  lemma {:induction false} FrontShifted(f: seq<nat>, o: seq<nat>, f': seq<nat>, o': seq<nat>, n: nat)
    requires (forall j :: 0 <= j < |o| ==> o[j] < |f|) && (forall j :: 0 <= j < |o'| ==> o'[j] < |f'|)
    requires 2 <= n <= |o| == |o'| + 1 && f'[o'[0]] == f[o[0]] + f[o[1]] && forall j :: 1 <= j < |o'| ==> f'[o'[j]] == f[o[j + 1]]
    ensures FrontSum(f', o', n - 1) == FrontSum(f, o, n)
    decreases n
  {
    if n == 2 {
      assert FrontSum(f, o, 0) == 0 && FrontSum(f, o, 1) == f[o[0]];
      assert FrontSum(f', o', 0) == 0;
    } else {
      FrontShifted(f, o, f', o', n - 1);
    }
  }

  lemma MergedEntries(f: seq<nat>, o: seq<nat>, c1: nat, c2: nat)
    requires Steep(f, o) && |o| >= 2 && ((c1 == o[0] && c2 == o[1]) || (c1 == o[1] && c2 == o[0]))
    ensures var f', o' := Merged(f, c1, c2), [c1] + o[2..];
            && (forall j :: 0 <= j < |o'| ==> o'[j] < |f'| && f'[o'[j]] > 0)
            && (forall i, j :: 0 <= i < j < |o'| ==> o'[i] != o'[j])
            && (forall j :: 1 <= j < |o'| ==> o'[j] == o[j + 1] && f'[o'[j]] == f[o[j + 1]])
            && f'[o'[0]] == f[o[0]] + f[o[1]]
  {
    hide FrontSum;
    var f', o' := Merged(f, c1, c2), [c1] + o[2..];
    forall j | 1 <= j < |o'| ensures o'[j] == o[j + 1] && f'[o'[j]] == f[o[j + 1]] {
    }
  }

  lemma MergedCovers(f: seq<nat>, o: seq<nat>, c1: nat, c2: nat, c: nat)
    requires Steep(f, o) && |o| >= 2 && ((c1 == o[0] && c2 == o[1]) || (c1 == o[1] && c2 == o[0]))
    requires c < |f| && Merged(f, c1, c2)[c] > 0
    ensures c in [c1] + o[2..]
  {
    hide FrontSum;
    var o' := [c1] + o[2..];
    if c != c1 {
      assert c in o;
      var j :| 0 <= j < |o| && o[j] == c;
      assert o'[j - 1] == o[j];
    }
  }

  lemma MergedSteep(f: seq<nat>, o: seq<nat>, c1: nat, c2: nat)
    requires Steep(f, o) && |o| >= 2 && ((c1 == o[0] && c2 == o[1]) || (c1 == o[1] && c2 == o[0]))
    ensures Steep(Merged(f, c1, c2), [c1] + o[2..])
  {
    hide FrontSum, Merged;
    var f', o' := Merged(f, c1, c2), [c1] + o[2..];
    MergedEntries(f, o, c1, c2);
    forall c | 0 <= c < |f'| && f'[c] > 0 ensures c in o' {
      MergedCovers(f, o, c1, c2, c);
    }
    forall j | 2 <= j < |o'| ensures f'[o'[j - 1]] < f'[o'[j]] && FrontSum(f', o', j - 1) < f'[o'[j]] {
      FrontShifted(f, o, f', o', j);
    }
  }

  /** Every merge makes the first code one bit longer. */
  lemma {:induction false} SteepLengths(f: seq<nat>, o: seq<nat>)
    requires Steep(f, o) && o != [] && Sum(f) <= CUTOFF
    ensures MergeLengths(f)[o[0]] == |o| - 1
    decreases |o|
  {
    hide Steep, Pick, MergeLengths, Merged;
    SteepEntry(f, o);
    if |o| == 1 {
      OneEntry(f, o);
      NothingMerged(f, o[0]);
    } else {
      var c1 := Pick(f, -1);
      var c2 := Pick(f, c1);
      FirstTwo(f, o);
      SteepPair(f, o);
      MergedSteep(f, o, c1, c2);
      MergedCounts(f, c1, c2);
      LengthsMerged(f, c1, c2, o[0]);
      SteepLengths(Merged(f, c1, c2), [c1] + o[2..]);
    }
  }

  lemma SteepEntry(f: seq<nat>, o: seq<nat>)
    requires Steep(f, o)
    ensures forall j :: 0 <= j < |o| ==> o[j] < |f| && f[o[j]] > 0
  {
  }

  lemma SteepPair(f: seq<nat>, o: seq<nat>)
    requires Steep(f, o) && |o| >= 2
    ensures o[0] != o[1]
  {
  }

  lemma OneEntry(f: seq<nat>, o: seq<nat>)
    requires Steep(f, o) && |o| == 1
    ensures Pick(f, -1) < 0 || Pick(f, Pick(f, -1)) < 0
  {
    assert forall c :: 0 <= c < |f| && f[c] > 0 ==> c in o;
    assert forall c :: c in o ==> c == o[0];
  }

  /** Fibonacci numbers as the counts of the first n of k symbols. */
  function FibCounts(k: nat, n: nat): (f: seq<nat>)
    ensures |f| == k
  {
    seq(k, s requires 0 <= s < k => if s < n then Fib(s + 2) else 0)
  }

  lemma {:induction false} FibTotal(k: nat, n: nat)
    ensures Sum(FibCounts(k, n)) == Fib((if k < n then k else n) + 3) - 2
    decreases k
  {
    if k == 0 {
      assert Fib(3) == 2;
    } else {
      FibTotal(k - 1, n);
      assert FibCounts(k, n)[..k - 1] == FibCounts(k - 1, n);
    }
  }

  lemma {:induction false} FibUsed(k: nat, n: nat)
    ensures Used(FibCounts(k, n)) == if k < n then k else n
    decreases k
  {
    if k > 0 {
      FibUsed(k - 1, n);
      assert FibCounts(k, n)[..k - 1] == FibCounts(k - 1, n);
      FibMonotone(1, k + 1);
    }
  }

  /** The order of merging: the pseudo-symbol at 256, then the symbols. */
  function FibOrder(n: nat): (o: seq<nat>)
    ensures |o| == n + 1
  {
    [256] + seq(n, s requires 0 <= s < n => s)
  }

  lemma {:induction false} FibFront(f: seq<nat>, n: nat, m: nat)
    requires n <= 256 && |f| == 257 && m <= n + 1 && f == FibCounts(257, n)[256 := 1]
    ensures (forall j :: 0 <= j < n + 1 ==> FibOrder(n)[j] < 257) && FrontSum(f, FibOrder(n), m) == Fib(m + 2) - 1
    decreases m
  {
    assert forall j :: 0 <= j < n + 1 ==> FibOrder(n)[j] == if j == 0 then 256 else j - 1;
    if m == 0 {
      assert Fib(2) == 1;
    } else {
      FibFront(f, n, m - 1);
      assert Fib(1) == 1;
    }
  }

  lemma FibEntries(f: seq<nat>, n: nat)
    requires n <= 256 && f == FibCounts(257, n)[256 := 1]
    ensures forall j :: 0 <= j < n + 1 ==> FibOrder(n)[j] == (if j == 0 then 256 else j - 1) && f[FibOrder(n)[j]] == Fib(j + 1) > 0
    ensures forall c :: 0 <= c < 257 && f[c] > 0 ==> c == 256 || c < n
  {
    hide Fib;
    FirstFib();
    forall j: nat | j < n + 1 ensures FibOrder(n)[j] == (if j == 0 then 256 else j - 1) && f[FibOrder(n)[j]] == Fib(j + 1) > 0 {
      FibMonotone(1, j + 1);
    }
  }

  lemma FibSteep(f: seq<nat>, n: nat)
    requires n <= 256 && f == FibCounts(257, n)[256 := 1]
    ensures Steep(f, FibOrder(n))
  {
    FibEntries(f, n);
    hide Fib, FibCounts, FibOrder, FrontSum;
    var o := FibOrder(n);
    FibCovers(f, n);
    forall j | 2 <= j < |o| ensures f[o[j - 1]] < f[o[j]] && FrontSum(f, o, j - 1) < f[o[j]] {
      FibFront(f, n, j - 1);
      FibRises(j);
    }
  }

  lemma FibCovers(f: seq<nat>, n: nat)
    requires n <= 256 && f == FibCounts(257, n)[256 := 1]
    ensures forall c :: 0 <= c < |f| && f[c] > 0 ==> c in FibOrder(n)
  {
    FibEntries(f, n);
    hide Fib, FibCounts, FibOrder;
    forall c | 0 <= c < |f| && f[c] > 0 ensures c in FibOrder(n) {
      assert c == FibOrder(n)[if c == 256 then 0 else c + 1];
    }
  }

  lemma FibRises(j: nat)
    requires j >= 2
    ensures Fib(j) < Fib(j + 1)
  {
    FibMonotone(1, j - 1);
  }

  /**
   * The error exit on a code above 32 bits is not unreachable: 33 symbols that occur as often as the
   * Fibonacci numbers from the second on say, fewer than 15 million times in all, get a code of 33 bits.
   */
  lemma LongCodeReached()
    ensures var row := FibCounts(257, 33);
            && Used(row[..256]) == 33 && Sum(row[..256]) < 15_000_000
            && !AtMost(MergeLengths(row[256 := 1]), 32)
  {
    hide Fib, MergeLengths, Steep;
    var row := FibCounts(257, 33);
    assert row[..256] == FibCounts(256, 33);
    FibUsed(256, 33);
    FibTotal(256, 33);
    FibTotal(257, 33);
    FibValues36();
    SumUpdate(row, 256, 1);
    FibSteep(row[256 := 1], 33);
    SteepLengths(row[256 := 1], FibOrder(33));
    assert MergeLengths(row[256 := 1])[256] == 33;
  }

  lemma FibValues36()
    ensures Fib(36) == 14_930_352
  {
    assert Fib(10) == 55 && Fib(11) == 89;
    FibTen(10);
    FibTen(20);
    FibSteps(31);
    FibSteps(30);
    assert Fib(32) == Fib(31) + Fib(30);
  }
}
