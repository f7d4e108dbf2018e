/**
 * The first half of jpeg_gen_optimal_table (jchuff.c): Huffman's algorithm on branches kept as linked
 * chains in `others`. Every chain keeps a Kraft sum of exactly one, and the resulting lengths are
 * optimal.
 */
module HuffmanTree {
  import opened Bits
  import opened HuffmanCost
  import opened HuffmanDepth

  // ----- Chains -----

  /** A branch: its symbols in the order of the links. */
  type Chain = seq<nat>

  predicate Linked(chain: Chain, others: seq<int>) {
    && chain != []
    && (forall k :: 0 <= k < |chain| ==> chain[k] < |others|)
    && (forall k :: 0 <= k < |chain| - 1 ==> others[chain[k]] == chain[k + 1])
    && others[chain[|chain| - 1]] == -1
  }

  predicate Distinct(chain: Chain) {
    forall i, j :: 0 <= i < j < |chain| ==> chain[i] != chain[j]
  }

  /** The code sizes after one more bit for every symbol of the chain. */
  function Grown(l: seq<nat>, chain: Chain): (r: seq<nat>)
    ensures |r| == |l|
    ensures forall s :: 0 <= s < |l| ==> r[s] == l[s] + if s in chain then 1 else 0
  {
    seq(|l|, s requires 0 <= s < |l| => l[s] + if s in chain then 1 else 0)
  }

  /** The sum of the counts of a chain's symbols. */
  function ChainSum(chain: Chain, f: seq<nat>): nat
    requires forall k :: 0 <= k < |chain| ==> chain[k] < |f|
  {
    if chain == [] then 0 else ChainSum(chain[..|chain| - 1], f) + f[chain[|chain| - 1]]
  }

  /** The Kraft sum of a chain's symbols, in units of 2^-e. */
  function ChainKraft(chain: Chain, l: seq<nat>, e: nat): nat
    requires AtMost(l, e) && forall k :: 0 <= k < |chain| ==> chain[k] < |l|
  {
    if chain == [] then 0 else ChainKraft(chain[..|chain| - 1], l, e) + Pow2(e - l[chain[|chain| - 1]])
  }

  lemma {:induction false} ChainSumConcat(a: Chain, b: Chain, f: seq<nat>)
    requires forall k :: 0 <= k < |a| ==> a[k] < |f|
    requires forall k :: 0 <= k < |b| ==> b[k] < |f|
    ensures ChainSum(a + b, f) == ChainSum(a, f) + ChainSum(b, f)
  {
    if b == [] {
      assert a + b == a;
    } else {
      assert (a + b)[..|a + b| - 1] == a + b[..|b| - 1];
      ChainSumConcat(a, b[..|b| - 1], f);
    }
  }

  lemma {:induction false} ChainKraftConcat(a: Chain, b: Chain, l: seq<nat>, e: nat)
    requires AtMost(l, e)
    requires forall k :: 0 <= k < |a| ==> a[k] < |l|
    requires forall k :: 0 <= k < |b| ==> b[k] < |l|
    ensures ChainKraft(a + b, l, e) == ChainKraft(a, l, e) + ChainKraft(b, l, e)
  {
    if b == [] {
      assert a + b == a;
    } else {
      assert (a + b)[..|a + b| - 1] == a + b[..|b| - 1];
      ChainKraftConcat(a, b[..|b| - 1], l, e);
    }
  }

  /** One more bit for all symbols of a chain halves its Kraft sum. */
  lemma {:induction false} ChainKraftGrown(chain: Chain, l: seq<nat>, l': seq<nat>, e: nat)
    requires AtMost(l, e) && AtMost(l', e) && |l| == |l'| && forall k :: 0 <= k < |chain| ==> chain[k] < |l|
    requires forall k :: 0 <= k < |chain| ==> l'[chain[k]] == l[chain[k]] + 1
    ensures ChainKraft(chain, l, e) == 2 * ChainKraft(chain, l', e)
  {
    if chain != [] {
      ChainKraftGrown(chain[..|chain| - 1], l, l', e);
    }
  }

  lemma {:induction false} ChainKraftSame(chain: Chain, l: seq<nat>, l': seq<nat>, e: nat)
    requires AtMost(l, e) && AtMost(l', e) && |l| == |l'| && forall k :: 0 <= k < |chain| ==> chain[k] < |l|
    requires forall k :: 0 <= k < |chain| ==> l'[chain[k]] == l[chain[k]]
    ensures ChainKraft(chain, l, e) == ChainKraft(chain, l', e)
  {
    if chain != [] {
      ChainKraftSame(chain[..|chain| - 1], l, l', e);
    }
  }

  /** The weighted total grows by the counts of the chain's symbols. */
  lemma {:induction false} CostGrown(f: seq<nat>, l: seq<nat>, chain: Chain)
    requires |f| == |l| && Distinct(chain) && forall k :: 0 <= k < |chain| ==> chain[k] < |f|
    ensures Cost(f, Grown(l, chain)) == Cost(f, l) + ChainSum(chain, f)
  {
    if chain == [] {
      assert Grown(l, chain) == l;
    } else {
      var m := |chain| - 1;
      var s, most := chain[m], chain[..m];
      CostGrown(f, l, most);
      assert Grown(l, chain) == Grown(l, most)[s := l[s] + 1] by {
        assert chain == most + [s];
      }
      CostUpdate(f, Grown(l, most), s, l[s] + 1);
      OneMore(f[s], l[s]);
    }
  }

  lemma OneMore(a: nat, x: nat)
    ensures a * (x + 1) - a * x == a
  {
  }

  lemma WithoutLast(chain: Chain, t: nat)
    requires chain != [] && Distinct(chain)
    ensures t in chain[..|chain| - 1] <==> t in chain && t != chain[|chain| - 1]
  {
    var m := |chain| - 1;
    if t in chain[..m] {
      var k :| 0 <= k < m && chain[k] == t;
    }
  }

  /** A chain of all used symbols has the whole Kraft sum. */
  lemma {:induction false} WholeKraft(f: seq<nat>, l: seq<nat>, chain: Chain, e: nat)
    requires |f| == |l| && AtMost(l, e) && Distinct(chain)
    requires forall k :: 0 <= k < |chain| ==> chain[k] < |f|
    requires forall s :: 0 <= s < |f| ==> (f[s] > 0 <==> s in chain)
    ensures Kraft(f, l, e) == ChainKraft(chain, l, e)
    decreases |chain|
  {
    hide Kraft, AtMost;
    if chain == [] {
      NoneUsed(f, l, e);
    } else {
      var m := |chain| - 1;
      var s, most := chain[m], chain[..m];
      assert s in chain;
      var f' := f[s := 0];
      forall t | 0 <= t < |f| ensures f'[t] > 0 <==> t in most {
        WithoutLast(chain, t);
      }
      WholeKraft(f', l, most, e);
      KraftCountUpdate(f, l, e, s, 0);
    }
  }

  lemma {:induction false} NoneUsed(f: seq<nat>, l: seq<nat>, e: nat)
    requires |f| == |l| && AtMost(l, e) && forall s :: 0 <= s < |f| ==> f[s] == 0
    ensures Kraft(f, l, e) == 0
  {
    if f != [] {
      NoneUsed(f[..|f| - 1], l[..|f| - 1], e);
    }
  }

  lemma {:induction false} UsedAtMost(f: seq<nat>)
    ensures Used(f) <= |f|
  {
    if f != [] {
      UsedAtMost(f[..|f| - 1]);
    }
  }

  // ----- The forest -----

  datatype Forest = Forest(orig: seq<nat>, freq: seq<nat>, codesize: seq<nat>, others: seq<int>, chains: seq<Chain>, owner: seq<nat>)
  {
    predicate Shaped() {
      |orig| == |freq| == |codesize| == |others| == |chains| == |owner|
    }

    /** Root r heads a linked chain of used symbols that it owns. */
    predicate Branch(r: nat)
      requires Shaped() && r < |freq|
    {
      && Linked(chains[r], others) && Distinct(chains[r]) && chains[r][0] == r
      && (forall k :: 0 <= k < |chains[r]| ==> orig[chains[r][k]] > 0 && owner[chains[r][k]] == r)
      && (forall k :: 0 <= k < |chains[r]| ==> (codesize[chains[r][k]] == 0 <==> |chains[r]| == 1))
    }

    /** Used symbols lie in the branch of their owner; the others have no code. */
    predicate Placed(s: nat)
      requires Shaped() && s < |orig|
    {
      if orig[s] > 0 then owner[s] < |freq| && freq[owner[s]] > 0 && s in chains[owner[s]] else codesize[s] == 0 && freq[s] == 0
    }

    predicate Structured() {
      && Shaped()
      && (forall r :: 0 <= r < |freq| && freq[r] > 0 ==> Branch(r))
      && (forall s :: 0 <= s < |orig| ==> Placed(s))
    }

    /** A branch stands for the total of its counts, and its lengths leave no gap. */
    predicate Balanced(r: nat, e: nat)
      requires Shaped() && r < |freq| && Branch(r) && AtMost(codesize, e)
    {
      freq[r] == ChainSum(chains[r], orig) && ChainKraft(chains[r], codesize, e) == Pow2(e)
    }

    /** No code is longer than the number of rounds so far. */
    predicate Sized()
      requires Shaped()
    {
      && Used(freq) <= Used(orig) && Sum(freq) == Sum(orig)
      && AtMost(codesize, Used(orig) - Used(freq)) && AtMost(codesize, |orig|)
    }

    predicate AllBalanced()
      requires Shaped() && AtMost(codesize, |orig|)
    {
      forall r :: 0 <= r < |freq| && freq[r] > 0 ==> Branch(r) && Balanced(r, |orig|)
    }

    /** What has been paid and what is still to be paid. */
    predicate Accounted()
      requires Shaped()
    {
      Cost(orig, codesize) + MergeCost(freq) == MergeCost(orig)
    }

    /** The bits so far and those that merging the branches will add. */
    predicate Tracked(s: nat)
      requires Shaped() && s < |orig|
    {
      orig[s] > 0 ==> owner[s] < |freq| && codesize[s] + MergeLengths(freq)[owner[s]] == MergeLengths(orig)[s]
    }

    predicate AllTracked()
      requires Shaped()
    {
      forall s :: 0 <= s < |orig| ==> Tracked(s)
    }

    predicate Sound() {
      Structured() && Sized() && AllBalanced() && Accounted() && AllTracked()
    }

    /** Merging branch c2 into branch c1. */
    function Joined(c1: nat, c2: nat): Forest
      requires Shaped() && c1 < |freq| && c2 < |freq| && Branch(c1)
    {
      var whole := chains[c1] + chains[c2];
      Forest(orig, Merged(freq, c1, c2), Grown(codesize, whole),
             others[chains[c1][|chains[c1]| - 1] := c2], chains[c1 := whole],
             seq(|owner|, s requires 0 <= s < |owner| => if s in chains[c2] then c1 else owner[s]))
    }
  }

  /** Linking the end of one chain to the head of another. */
  lemma LinkChains(a: Chain, b: Chain, others: seq<int>)
    requires Linked(a, others) && Linked(b, others) && Distinct(a) && Distinct(b)
    requires forall k :: 0 <= k < |b| ==> b[k] !in a
    ensures Linked(a + b, others[a[|a| - 1] := b[0]]) && Distinct(a + b) && |a| >= 1 && |b| >= 1
    ensures forall k :: 0 <= k < |a + b| ==> (a + b)[k] < |others|
  {
    var last := a[|a| - 1];
    assert last in a;
    var o := others[last := b[0]];
    forall k | 0 <= k < |a + b| - 1 ensures o[(a + b)[k]] == (a + b)[k + 1] {
      if k < |a| {
        assert (a + b)[k] == a[k];
      } else {
        assert (a + b)[k] == b[k - |a|] && b[k - |a|] !in a;
      }
    }
    assert b[|b| - 1] !in a;
    forall i, j | 0 <= i < j < |a + b| ensures (a + b)[i] != (a + b)[j] {
      if i < |a| <= j {
        assert a[i] in a && b[j - |a|] !in a;
      }
    }
  }

  lemma Apart(t: Forest, r: nat, q: nat)
    requires t.Structured() && r < |t.freq| && q < |t.freq| && r != q && t.freq[r] > 0 && t.freq[q] > 0
    ensures t.Branch(r) && t.Branch(q)
    ensures forall k :: 0 <= k < |t.chains[q]| ==> t.chains[q][k] !in t.chains[r]
  {
    assert t.Branch(r) && t.Branch(q);
    forall k | 0 <= k < |t.chains[q]| ensures t.chains[q][k] !in t.chains[r] {
      assert t.owner[t.chains[q][k]] == q;
    }
  }

  /** The merged branch. */
  lemma JoinedBranch(t: Forest, c1: nat, c2: nat)
    requires t.Structured() && c1 < |t.freq| && c2 < |t.freq| && c1 != c2 && t.freq[c1] > 0 && t.freq[c2] > 0
    ensures t.Branch(c1) && t.Branch(c2) && t.Joined(c1, c2).Branch(c1)
  {
    hide Linked, Distinct;
    Apart(t, c1, c2);
    LinkChains(t.chains[c1], t.chains[c2], t.others);
    var j := t.Joined(c1, c2);
    var a, b := t.chains[c1], t.chains[c2];
    forall k | 0 <= k < |a + b|
      ensures j.orig[(a + b)[k]] > 0 && j.owner[(a + b)[k]] == c1 && j.codesize[(a + b)[k]] > 0
    {
      assert (a + b)[k] in a + b;
      if k < |a| {
        assert (a + b)[k] == a[k];
      } else {
        assert (a + b)[k] == b[k - |a|];
      }
    }
  }

  /** The branches that are not merged keep their chains and sizes. */
  lemma KeptBranch(t: Forest, c1: nat, c2: nat, r: nat)
    requires t.Structured() && c1 < |t.freq| && c2 < |t.freq| && c1 != c2 && t.freq[c1] > 0 && t.freq[c2] > 0
    requires r < |t.freq| && r != c1 && r != c2 && t.freq[r] > 0
    ensures t.Branch(c1) && t.Branch(r) && t.Joined(c1, c2).Branch(r) && t.Joined(c1, c2).chains[r] == t.chains[r]
    ensures forall k :: 0 <= k < |t.chains[r]| ==> t.Joined(c1, c2).codesize[t.chains[r][k]] == t.codesize[t.chains[r][k]]
  {
    hide Distinct;
    Apart(t, c1, r);
    Apart(t, c2, r);
    var j := t.Joined(c1, c2);
    var last := t.chains[c1][|t.chains[c1]| - 1];
    assert last in t.chains[c1];
    assert t.chains[r][|t.chains[r]| - 1] != last;
    forall k | 0 <= k < |t.chains[r]| ensures j.codesize[t.chains[r][k]] == t.codesize[t.chains[r][k]] && j.owner[t.chains[r][k]] == r {
      assert t.chains[r][k] !in t.chains[c1] + t.chains[c2];
    }
  }

  lemma JoinedPlaced(t: Forest, c1: nat, c2: nat, s: nat)
    requires t.Structured() && c1 < |t.freq| && c2 < |t.freq| && c1 != c2 && t.freq[c1] > 0 && t.freq[c2] > 0 && s < |t.orig|
    ensures t.Branch(c1) && t.Joined(c1, c2).Placed(s)
  {
    hide Linked, Distinct;
    assert t.Branch(c1) && t.Branch(c2) && t.Placed(s);
    Heads(t, c1);
    Heads(t, c2);
    var whole := t.chains[c1] + t.chains[c2];
    if t.orig[s] == 0 {
      Apart(t, c1, c2);
      assert s !in t.chains[c1] && s !in t.chains[c2];
      assert s !in whole;
    } else if s in t.chains[c2] {
      assert s in whole;
    } else if t.owner[s] == c1 {
      assert s in whole;
    }
  }

  lemma Heads(t: Forest, r: nat)
    requires t.Shaped() && r < |t.freq| && t.Branch(r)
    ensures r in t.chains[r] && t.orig[r] > 0
    ensures forall s :: s in t.chains[r] ==> s < |t.orig| && t.orig[s] > 0 && t.owner[s] == r
  {
  }

  lemma JoinedStructured(t: Forest, c1: nat, c2: nat)
    requires t.Structured() && c1 < |t.freq| && c2 < |t.freq| && c1 != c2 && t.freq[c1] > 0 && t.freq[c2] > 0
    ensures t.Branch(c1) && t.Joined(c1, c2).Structured()
  {
    JoinedBranch(t, c1, c2);
    var j := t.Joined(c1, c2);
    hide Forest.Branch, Forest.Placed, Linked, Distinct;
    forall r | 0 <= r < |j.freq| && j.freq[r] > 0 ensures j.Branch(r) {
      if r != c1 {
        KeptBranch(t, c1, c2, r);
      }
    }
    forall s | 0 <= s < |j.orig| ensures j.Placed(s) {
      JoinedPlaced(t, c1, c2, s);
    }
  }

  lemma GrownAtMost(l: seq<nat>, chain: Chain, e: nat)
    requires AtMost(l, e)
    ensures AtMost(Grown(l, chain), e + 1)
  {
  }

  lemma AtMostMonotone(l: seq<nat>, e: nat, e': nat)
    requires AtMost(l, e) && e <= e'
    ensures AtMost(l, e')
  {
  }

  /** Two chains with Kraft sum one, each a bit longer, make one chain with Kraft sum one. */
  lemma JoinedKraft(a: Chain, b: Chain, l: seq<nat>, e: nat)
    requires forall k :: 0 <= k < |a| ==> a[k] < |l|
    requires forall k :: 0 <= k < |b| ==> b[k] < |l|
    requires AtMost(l, e) && AtMost(Grown(l, a + b), e)
    requires ChainKraft(a, l, e) == ChainKraft(b, l, e) == Pow2(e)
    ensures ChainKraft(a + b, Grown(l, a + b), e) == Pow2(e)
  {
    hide AtMost, Pow2;
    var l' := Grown(l, a + b);
    forall k | 0 <= k < |a| ensures a[k] in a + b {
      assert (a + b)[k] == a[k];
    }
    forall k | 0 <= k < |b| ensures b[k] in a + b {
      assert (a + b)[|a| + k] == b[k];
    }
    ChainKraftConcat(a, b, l', e);
    ChainKraftGrown(a, l, l', e);
    ChainKraftGrown(b, l, l', e);
  }

  lemma InRange(t: Forest, r: nat)
    requires t.Shaped() && r < |t.freq| && t.Branch(r)
    ensures forall k :: 0 <= k < |t.chains[r]| ==> t.chains[r][k] < |t.orig|
  {
  }

  /** The merged branch stands for both totals and again has Kraft sum one. */
  lemma JoinedBalanced(t: Forest, c1: nat, c2: nat, e: nat)
    requires t.Structured() && c1 < |t.freq| && c2 < |t.freq| && c1 != c2 && t.freq[c1] > 0 && t.freq[c2] > 0
    requires t.Branch(c1) && t.Branch(c2) && AtMost(t.codesize, e) && t.Balanced(c1, e) && t.Balanced(c2, e)
    requires AtMost(t.Joined(c1, c2).codesize, e) && t.Joined(c1, c2).Branch(c1)
    ensures t.Joined(c1, c2).Balanced(c1, e)
  {
    InRange(t, c1);
    InRange(t, c2);
    hide AtMost, Distinct, Linked, Forest.Branch, Forest.Structured, ChainKraft, ChainSum, Pow2;
    ChainSumConcat(t.chains[c1], t.chains[c2], t.orig);
    JoinedKraft(t.chains[c1], t.chains[c2], t.codesize, e);
  }

  lemma KeptBalanced(t: Forest, c1: nat, c2: nat, r: nat, e: nat)
    requires t.Structured() && c1 < |t.freq| && c2 < |t.freq| && c1 != c2 && t.freq[c1] > 0 && t.freq[c2] > 0
    requires r < |t.freq| && r != c1 && r != c2 && t.freq[r] > 0
    requires t.Branch(c1) && t.Branch(r) && AtMost(t.codesize, e) && t.Balanced(r, e)
    requires AtMost(t.Joined(c1, c2).codesize, e) && t.Joined(c1, c2).Branch(r)
    ensures t.Joined(c1, c2).Balanced(r, e)
  {
    hide AtMost, Distinct;
    KeptBranch(t, c1, c2, r);
    ChainKraftSame(t.chains[r], t.codesize, t.Joined(c1, c2).codesize, e);
  }

  lemma JoinedAllBalanced(t: Forest, c1: nat, c2: nat)
    requires t.Sound() && c1 < |t.freq| && c2 < |t.freq| && c1 != c2 && t.freq[c1] > 0 && t.freq[c2] > 0
    requires t.Branch(c1) && t.Joined(c1, c2).Structured() && AtMost(t.Joined(c1, c2).codesize, |t.orig|)
    ensures t.Joined(c1, c2).AllBalanced()
  {
    hide Forest.Branch, Forest.Balanced, Forest.Placed, AtMost, Linked, Distinct;
    var j := t.Joined(c1, c2);
    forall r | 0 <= r < |j.freq| && j.freq[r] > 0 ensures j.Branch(r) && j.Balanced(r, |j.orig|) {
      if r == c1 {
        JoinedBalanced(t, c1, c2, |t.orig|);
      } else {
        KeptBalanced(t, c1, c2, r, |t.orig|);
      }
    }
  }

  lemma JoinedSized(t: Forest, c1: nat, c2: nat)
    requires t.Shaped() && t.Sized() && c1 < |t.freq| && c2 < |t.freq| && c1 != c2 && t.freq[c1] > 0 && t.freq[c2] > 0 && t.Branch(c1)
    ensures t.Joined(c1, c2).Sized() && Used(t.Joined(c1, c2).freq) == Used(t.freq) - 1
  {
    hide AtMost, Linked, Distinct;
    MergedCounts(t.freq, c1, c2);
    UsedAtMost(t.orig);
    var l := Grown(t.codesize, t.chains[c1] + t.chains[c2]);
    GrownAtMost(t.codesize, t.chains[c1] + t.chains[c2], Used(t.orig) - Used(t.freq));
    AtMostMonotone(l, Used(t.orig) - Used(t.freq) + 1, |t.orig|);
  }

  lemma JoinedAccounted(t: Forest, c1: nat, c2: nat)
    requires t.Sound() && c1 == Pick(t.freq, -1) && c2 == Pick(t.freq, c1) && t.Branch(c1)
    ensures t.Joined(c1, c2).Accounted()
  {
    BranchFacts(t, c1, c2);
    hide Forest.Balanced, Forest.Placed, AtMost, Linked, Distinct, Forest.Branch;
    CostGrown(t.orig, t.codesize, t.chains[c1] + t.chains[c2]);
  }

  lemma JoinedTracked(t: Forest, c1: nat, c2: nat, s: nat)
    requires t.Sound() && c1 == Pick(t.freq, -1) && c2 == Pick(t.freq, c1) && t.Branch(c1) && s < |t.orig|
    ensures t.Joined(c1, c2).Tracked(s)
  {
    hide Linked, Distinct, MergeLengths, Pick, Forest.Sized, Forest.AllBalanced, Forest.Accounted, Merged;
    assert t.Placed(s) && t.Tracked(s);
    Heads(t, c1);
    assert t.Branch(c2);
    Heads(t, c2);
    if t.orig[s] > 0 {
      LengthsMerged(t.freq, c1, c2, t.owner[s]);
      assert s in t.chains[c1] + t.chains[c2] <==> t.owner[s] == c1 || t.owner[s] == c2;
    }
  }

  /** One round of the algorithm. */
  lemma JoinedSound(t: Forest, c1: nat, c2: nat)
    requires t.Sound() && c1 == Pick(t.freq, -1) && c2 == Pick(t.freq, c1)
    ensures t.Branch(c1) && t.Joined(c1, c2).Sound() && Used(t.Joined(c1, c2).freq) == Used(t.freq) - 1
  {
    JoinedStructured(t, c1, c2);
    hide Forest.Branch, Forest.Structured, Forest.AllBalanced, Forest.Accounted, Forest.Tracked, AtMost, Linked, Distinct, MergeCost, Cost;
    forall s: nat | s < |t.orig| ensures t.Joined(c1, c2).Tracked(s) {
      JoinedTracked(t, c1, c2, s);
    }
    JoinedSized(t, c1, c2);
    JoinedAllBalanced(t, c1, c2);
    JoinedAccounted(t, c1, c2);
  }

  lemma BranchFacts(t: Forest, c1: nat, c2: nat)
    requires t.Sound() && c1 < |t.freq| && c2 < |t.freq| && c1 != c2 && t.freq[c1] > 0 && t.freq[c2] > 0
    ensures t.Branch(c1) && t.Branch(c2)
    ensures var whole := t.chains[c1] + t.chains[c2];
            && Distinct(whole) && (forall k :: 0 <= k < |whole| ==> whole[k] < |t.orig|)
            && ChainSum(whole, t.orig) == t.freq[c1] + t.freq[c2]
  {
    assert t.Balanced(c1, |t.orig|) && t.Balanced(c2, |t.orig|);
    Apart(t, c1, c2);
    LinkChains(t.chains[c1], t.chains[c2], t.others);
    ChainSumConcat(t.chains[c1], t.chains[c2], t.orig);
  }

  // ----- The start and the end -----

  function Start(f: seq<nat>): Forest {
    Forest(f, f, seq(|f|, _ => 0), seq(|f|, _ => -1), seq(|f|, r => [r]), seq(|f|, s => s))
  }

  lemma {:induction false} NoCost(f: seq<nat>, l: seq<nat>)
    requires |f| == |l| && forall s :: 0 <= s < |l| ==> l[s] == 0
    ensures Cost(f, l) == 0
  {
    if f != [] {
      NoCost(f[..|f| - 1], l[..|f| - 1]);
    }
  }

  lemma StartSound(f: seq<nat>)
    ensures Start(f).Sound()
  {
    var t := Start(f);
    NoCost(f, t.codesize);
    forall r | 0 <= r < |f| && f[r] > 0 ensures t.Branch(r) && t.Balanced(r, |f|) {
      OneLink(r, t.others);
      OneChain(r, f, t.codesize);
    }
  }

  lemma OneLink(r: nat, others: seq<int>)
    requires r < |others| && others[r] == -1
    ensures Linked([r], others) && Distinct([r])
  {
  }

  lemma OneChain(r: nat, f: seq<nat>, l: seq<nat>)
    requires r < |f| == |l| && forall s :: 0 <= s < |l| ==> l[s] == 0
    ensures ChainSum([r], f) == f[r] && ChainKraft([r], l, |f|) == Pow2(|f|)
  {
    assert [r][..0] == [];
    assert ChainSum([], f) == 0 && ChainKraft([], l, |f|) == 0;
  }

  lemma LastBranch(t: Forest) returns (chain: Chain)
    requires t.Sound() && Sum(t.orig) <= CUTOFF && Pick(t.freq, Pick(t.freq, -1)) < 0 && Used(t.orig) > 0
    ensures Distinct(chain) && forall k :: 0 <= k < |chain| ==> chain[k] < |t.orig|
    ensures forall s :: 0 <= s < |t.orig| ==> (t.orig[s] > 0 <==> s in chain)
    ensures ChainKraft(chain, t.codesize, |t.orig|) == Pow2(|t.orig|)
    ensures forall s :: 0 <= s < |t.orig| ==> (t.codesize[s] > 0 <==> t.orig[s] > 0 && |chain| != 1)
  {
    var c1 := Pick(t.freq, -1);
    OneLeft(t);
    assert t.Branch(c1) && t.Balanced(c1, |t.orig|);
    chain := t.chains[c1];
    hide Distinct, Linked, AtMost, Pick;
    forall s | 0 <= s < |t.orig|
      ensures t.orig[s] > 0 <==> s in chain
      ensures t.codesize[s] > 0 <==> t.orig[s] > 0 && |chain| != 1
    {
      assert t.Placed(s);
    }
    InRange(t, c1);
  }

  /** When one count is left, its branch holds all used symbols. */
  lemma Finished(t: Forest)
    requires t.Sound() && Sum(t.orig) <= CUTOFF && Pick(t.freq, Pick(t.freq, -1)) < 0 && Used(t.orig) > 0
    ensures AtMost(t.codesize, |t.orig|) && Kraft(t.orig, t.codesize, |t.orig|) == Pow2(|t.orig|)
    ensures Cost(t.orig, t.codesize) == MergeCost(t.orig)
    ensures Used(t.orig) >= 2 ==> forall s :: 0 <= s < |t.orig| ==> (t.codesize[s] > 0 <==> t.orig[s] > 0)
  {
    var chain := LastBranch(t);
    OneLeft(t);
    hide Forest.Structured, Forest.Balanced, AtMost, Distinct;
    WholeKraft(t.orig, t.codesize, chain, |t.orig|);
    if Used(t.orig) >= 2 {
      ManyInChain(t.orig, chain);
    }
  }

  /** When one count is left, the code sizes are the lengths. */
  lemma FinishedLengths(t: Forest)
    requires t.Sound() && (Pick(t.freq, -1) < 0 || Pick(t.freq, Pick(t.freq, -1)) < 0)
    ensures t.codesize == MergeLengths(t.orig)
  {
    hide Forest.Branch, Forest.Sized, Forest.AllBalanced, Forest.Accounted, MergeLengths, Pick;
    forall s | 0 <= s < |t.orig| ensures t.codesize[s] == MergeLengths(t.orig)[s] {
      assert t.Placed(s) && t.Tracked(s);
      if t.orig[s] > 0 {
        NothingMerged(t.freq, t.owner[s]);
      } else {
        UnusedHasNoLength(t.orig, s);
      }
    }
  }

  lemma {:induction false} SomeUsed(f: seq<nat>)
    requires Used(f) > 0
    ensures exists i :: 0 <= i < |f| && f[i] > 0
  {
    if f[|f| - 1] == 0 {
      SomeUsed(f[..|f| - 1]);
    }
  }

  lemma OneLeft(t: Forest)
    requires t.Sound() && Sum(t.orig) <= CUTOFF && Pick(t.freq, Pick(t.freq, -1)) < 0 && Used(t.orig) > 0
    ensures var c1 := Pick(t.freq, -1); c1 >= 0 && forall r :: 0 <= r < |t.freq| && t.freq[r] > 0 ==> r == c1
    ensures MergeCost(t.freq) == 0
  {
    forall i | 0 <= i < |t.freq| ensures t.freq[i] <= CUTOFF {
      SumUpdate(t.freq, i, 0);
    }
    SomeUsed(t.orig);
    var s :| 0 <= s < |t.orig| && t.orig[s] > 0;
    assert t.Placed(s);
  }

  lemma {:induction false} TwoUsed(f: seq<nat>) returns (i: nat, j: nat)
    requires Used(f) >= 2
    ensures i < j < |f| && f[i] > 0 && f[j] > 0
  {
    var n := |f| - 1;
    if f[n] == 0 {
      i, j := TwoUsed(f[..n]);
    } else {
      SomeUsed(f[..n]);
      i :| 0 <= i < n && f[..n][i] > 0;
      j := n;
    }
  }

  lemma ManyInChain(f: seq<nat>, chain: Chain)
    requires Used(f) >= 2 && forall s :: 0 <= s < |f| ==> (f[s] > 0 <==> s in chain)
    ensures |chain| != 1
  {
    var i, j := TwoUsed(f);
    assert i in chain && j in chain;
  }

  // ----- The algorithm on arrays -----

  /** `c = -1; v = 1000000000L; for (i ...) if (freq[i] && freq[i] <= v && i != skip) { v = freq[i]; c = i; }` */
  method FindSmallest(freq: array<nat>, skip: int) returns (c: int)
    ensures c == Pick(freq[..], skip)
  {
    c := -1;
    var v := CUTOFF;
    for i := 0 to freq.Length
      invariant c == Pick(freq[..i], skip) && v == if c < 0 then CUTOFF else freq[c]
    {
      assert freq[..i + 1][..i] == freq[..i];
      if freq[i] != 0 && freq[i] <= v && i != skip {
        v := freq[i];
        c := i;
      }
    }
    assert freq[..freq.Length] == freq[..];
  }

  lemma NextLink(chain: Chain, others: seq<int>, k: nat)
    requires Linked(chain, others) && k < |chain|
    ensures k < |chain| - 1 ==> others[chain[k]] == chain[k + 1] && chain[k + 1] < |others|
    ensures k == |chain| - 1 ==> others[chain[k]] == -1
  {
  }

  /** Increment the code size of everything in the branch that starts at c0; `last` is where it ends. */
  method GrowBranch(c0: nat, codesize: array<nat>, others: array<int>, ghost chain: Chain) returns (last: nat)
    requires codesize.Length == others.Length && Linked(chain, others[..]) && Distinct(chain) && chain[0] == c0
    requires codesize as object != others
    modifies codesize
    ensures last == chain[|chain| - 1] && codesize[..] == Grown(old(codesize[..]), chain)
  {
    last := c0;
    codesize[last] := codesize[last] + 1;
    ghost var k := 0;
    while others[last] >= 0
      invariant k < |chain| && last == chain[k] && Linked(chain, others[..])
      invariant forall s :: 0 <= s < codesize.Length ==> codesize[s] == old(codesize[s]) + if s in chain[..k + 1] then 1 else 0
      decreases |chain| - k
    {
      NextLink(chain, others[..], k);
      last := others[last];
      codesize[last] := codesize[last] + 1;
      k := k + 1;
      assert chain[..k + 1] == chain[..k] + [chain[k]];
      assert chain[k] !in chain[..k];
    }
    NextLink(chain, others[..], k);
    assert chain[..k + 1] == chain;
  }

  lemma GrownTwice(l: seq<nat>, a: Chain, b: Chain)
    requires forall k :: 0 <= k < |b| ==> b[k] !in a
    ensures Grown(Grown(l, a), b) == Grown(l, a + b)
  {
  }

  /** Merge the counts c1 and c2 and their branches. */
  method MergeBranches(freq: array<nat>, codesize: array<nat>, others: array<int>, c1: nat, c2: nat, ghost t: Forest)
    requires freq.Length == codesize.Length == others.Length && freq != codesize && freq as object != others && codesize as object != others
    requires t.Structured() && freq[..] == t.freq && codesize[..] == t.codesize && others[..] == t.others
    requires c1 < freq.Length && c2 < freq.Length && c1 != c2 && freq[c1] > 0 && freq[c2] > 0
    modifies freq, codesize, others
    ensures t.Branch(c1) && var j := t.Joined(c1, c2); freq[..] == j.freq && codesize[..] == j.codesize && others[..] == j.others
  {
    Apart(t, c1, c2);
    LinkChains(t.chains[c1], t.chains[c2], t.others);
    GrownTwice(t.codesize, t.chains[c1], t.chains[c2]);
    freq[c1] := freq[c1] + freq[c2];
    freq[c2] := 0;
    var end := GrowBranch(c1, codesize, others, t.chains[c1]);
    others[end] := c2;
    UnlinkedElsewhere(t.chains[c1], t.chains[c2], t.others);
    end := GrowBranch(c2, codesize, others, t.chains[c2]);
  }

  /** Linking a onto b does not disturb b. */
  lemma UnlinkedElsewhere(a: Chain, b: Chain, others: seq<int>)
    requires Linked(a, others) && Linked(b, others) && forall k :: 0 <= k < |b| ==> b[k] !in a
    ensures Linked(b, others[a[|a| - 1] := b[0]])
  {
    assert a[|a| - 1] in a;
  }

  lemma SoundShape(t: Forest)
    requires t.Sound()
    ensures t.Structured()
    ensures Pick(t.freq, Pick(t.freq, -1)) >= 0 ==> Pick(t.freq, -1) >= 0
  {
  }

  /** A Kraft sum of exactly one. */
  predicate Complete(f: seq<nat>, l: seq<nat>) {
    |f| == |l| && AtMost(l, |f|) && Kraft(f, l, |f|) == Pow2(|f|)
  }

  /**
   * Huffman's basic algorithm to assign optimal code lengths to symbols: the lengths are complete, and
   * no feasible lengths have a smaller count-weighted total.
   */
  method AssignLengths(freq: array<nat>, codesize: array<nat>)
    requires freq.Length == codesize.Length && freq != codesize
    requires Sum(freq[..]) <= CUTOFF && Used(freq[..]) >= 2
    modifies freq, codesize
    ensures Complete(old(freq[..]), codesize[..])
    ensures forall s :: 0 <= s < codesize.Length ==> (codesize[s] > 0 <==> old(freq[s]) > 0)
    ensures forall l, e :: Feasible(old(freq[..]), l, e) ==> Cost(old(freq[..]), codesize[..]) <= Cost(old(freq[..]), l)
    ensures codesize[..] == MergeLengths(old(freq[..]))
  {
    hide Forest.Sound, Forest.Structured, Forest.Branch, Cost, MergeCost, Pick, Kraft, AtMost, MergeLengths;
    ghost var orig := freq[..];
    forall i | 0 <= i < codesize.Length {
      codesize[i] := 0;
    }
    var others := new int[freq.Length](_ => -1);
    ghost var t := Start(orig);
    StartSound(orig);
    var c1 := FindSmallest(freq, -1);
    var c2 := FindSmallest(freq, c1);
    while c2 >= 0
      invariant t.Sound() && t.orig == orig && freq[..] == t.freq && codesize[..] == t.codesize && others[..] == t.others
      invariant c1 == Pick(t.freq, -1) && c2 == Pick(t.freq, c1) && |t.freq| == freq.Length
      decreases Used(t.freq)
    {
      SoundShape(t);
      JoinedSound(t, c1, c2);
      MergeBranches(freq, codesize, others, c1, c2, t);
      t := t.Joined(c1, c2);
      c1 := FindSmallest(freq, -1);
      c2 := FindSmallest(freq, c1);
    }
    Finished(t);
    FinishedLengths(t);
    NothingBetter(orig, codesize[..]);
  }

  lemma NothingBetter(f: seq<nat>, c: seq<nat>)
    requires |f| == |c| && Sum(f) <= CUTOFF && Cost(f, c) == MergeCost(f)
    ensures forall l, e :: Feasible(f, l, e) ==> Cost(f, c) <= Cost(f, l)
  {
    forall l, e | Feasible(f, l, e) ensures Cost(f, c) <= Cost(f, l) {
      MergingIsOptimal(f, l, e);
    }
  }
}
