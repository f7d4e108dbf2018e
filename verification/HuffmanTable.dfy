/**
 * The second half of jpeg_gen_optimal_table (jchuff.c): counting the code lengths, limiting them to
 * 16 bits, removing the pseudo-symbol, and listing the symbols by length.
 */
module HuffmanTable {
  import opened Bits
  import opened HuffmanCost
  import opened HuffmanDepth
  import opened HuffmanTree

  const MAX_CLEN := 32
  const NUM_SYMBOLS := 257           // with the pseudo-symbol 256

  /** The Kraft sum of the counts b[0..m], in units of 2^-m. */
  function KraftBits(b: seq<nat>, m: nat): nat
    requires m < |b|
  {
    if m == 0 then b[0] else 2 * KraftBits(b, m - 1) + b[m]
  }

  lemma {:induction false} KraftBitsUpdate(b: seq<nat>, m: nat, j: nat, x: nat)
    requires j <= m < |b|
    ensures KraftBits(b[j := x], m) == KraftBits(b, m) + (x - b[j]) * Pow2(m - j)
    decreases m
  {
    hide Pow2;
    if j == m {
      KraftBitsSame(b, b[j := x], m);
      FirstShares(x - b[j], 0);
    } else {
      KraftBitsUpdate(b, m - 1, j, x);
      FirstShares(x - b[j], m - 1 - j);
    }
  }

  lemma FirstShares(d: int, k: nat)
    ensures d * Pow2(0) == d
    ensures d * Pow2(k + 1) == 2 * (d * Pow2(k))
  {
    var p: int := Pow2(k);
    assert Pow2(k + 1) == 2 * p;
    assert 2 * (d * p) == d * (2 * p);
  }

  /** Only the counts below m matter for the recursive part. */
  lemma {:induction false} KraftBitsSame(b: seq<nat>, c: seq<nat>, m: nat)
    requires m < |b| == |c| && forall k :: 0 <= k < m ==> b[k] == c[k]
    ensures KraftBits(b, m) - b[m] == KraftBits(c, m) - c[m]
  {
    if m > 0 {
      KraftBitsSame(b, c, m - 1);
    }
  }

  lemma {:induction false} KraftBitsZero(b: seq<nat>, m: nat)
    requires m < |b| && forall k :: 0 <= k <= m ==> b[k] == 0
    ensures KraftBits(b, m) == 0
  {
    if m > 0 {
      KraftBitsZero(b, m - 1);
    }
  }

  // ----- Counting -----

  /** How many symbols have code length k. */
  function HowMany(l: seq<nat>, k: nat): nat {
    if l == [] then 0 else HowMany(l[..|l| - 1], k) + if l[|l| - 1] == k then 1 else 0
  }

  /** b counts the nonzero code lengths of l. */
  predicate Counts(b: seq<nat>, l: seq<nat>) {
    |b| == MAX_CLEN + 1 && b[0] == 0 && forall k :: 1 <= k <= MAX_CLEN ==> b[k] == HowMany(l, k)
  }

  /** One symbol more. */
  lemma CountedOne(b: seq<nat>, k: nat)
    requires |b| == MAX_CLEN + 1 && 1 <= k <= MAX_CLEN
    ensures KraftBits(b[k := b[k] + 1], MAX_CLEN) == KraftBits(b, MAX_CLEN) + Pow2(MAX_CLEN - k)
    ensures Sum(b[k := b[k] + 1]) == Sum(b) + 1
  {
    hide KraftBits, Pow2, Sum;
    KraftBitsUpdate(b, MAX_CLEN, k, b[k] + 1);
    Single(b[k], Pow2(MAX_CLEN - k));
    SumChange(b, k, b[k] + 1);
  }

  lemma Single(x: int, p: int)
    ensures (x + 1 - x) * p == p
  {
  }

  lemma SumChange(b: seq<nat>, i: nat, x: nat)
    requires i < |b|
    ensures Sum(b[i := x]) == Sum(b) - b[i] + x
  {
    SumUpdate(b, i, x);
  }

  /** Without its last symbol. */
  function Uncounted(b: seq<nat>, l: seq<nat>): (r: seq<nat>)
    requires l != [] && Counts(b, l) && l[|l| - 1] <= MAX_CLEN
    ensures Counts(r, l[..|l| - 1])
    ensures b == if l[|l| - 1] > 0 then r[l[|l| - 1] := r[l[|l| - 1]] + 1] else r
  {
    if l[|l| - 1] > 0 then b[l[|l| - 1] := b[l[|l| - 1]] - 1] else b
  }

  /** Counted by length or by symbol, the Kraft sum is the same. */
  lemma {:induction false} CountedKraft(f: seq<nat>, l: seq<nat>, b: seq<nat>)
    requires |f| == |l| && AtMost(l, MAX_CLEN) && Counts(b, l)
    requires forall s :: 0 <= s < |l| ==> (l[s] > 0 <==> f[s] > 0)
    ensures KraftBits(b, MAX_CLEN) == Kraft(f, l, MAX_CLEN)
    ensures Sum(b) == Used(f)
  {
    hide KraftBits, Sum, Pow2;
    if l == [] {
      KraftBitsZero(b, MAX_CLEN);
      SumZero(b);
    } else {
      var n := |l| - 1;
      var b' := Uncounted(b, l);
      CountedKraft(f[..n], l[..n], b');
      if l[n] > 0 {
        CountedOne(b', l[n]);
      }
    }
  }

  lemma {:induction false} SumZero(b: seq<nat>)
    requires forall k :: 0 <= k < |b| ==> b[k] == 0
    ensures Sum(b) == 0
  {
    if b != [] {
      SumZero(b[..|b| - 1]);
    }
  }

  /** A complete set of lengths is complete in any unit that can express it. */
  lemma {:induction false} CompleteScale(f: seq<nat>, l: seq<nat>, e: nat, e': nat)
    requires |f| == |l| && AtMost(l, e) && e <= e'
    requires AtMost(l, e') && Kraft(f, l, e') == Pow2(e')
    ensures Kraft(f, l, e) == Pow2(e)
    decreases e' - e
  {
    if e < e' {
      KraftScale(f, l, e' - 1);
      CompleteScale(f, l, e, e' - 1);
    }
  }

  /** `if (codesize[i]) { if (codesize[i] > MAX_CLEN) ERREXIT; bits[codesize[i]]++; }` for all symbols. */
  method CountLengths(codesize: array<nat>, bits: array<Byte>, ghost f: seq<nat>) returns (ok: bool)
    requires bits.Length == MAX_CLEN + 1 && |f| == codesize.Length && Used(f) <= 255
    requires forall s :: 0 <= s < |f| ==> (codesize[s] > 0 <==> f[s] > 0)
    requires forall k :: 0 <= k <= MAX_CLEN ==> bits[k] == 0
    requires codesize as object != bits
    modifies bits
    ensures ok <==> AtMost(codesize[..], MAX_CLEN)
    ensures ok ==> Counts(bits[..], codesize[..])
  {
    hide Used, Sum;
    for i := 0 to codesize.Length
      invariant AtMost(codesize[..i], MAX_CLEN) && Counts(bits[..], codesize[..i])
    {
      assert codesize[..i + 1][..i] == codesize[..i];
      if codesize[i] != 0 {
        if codesize[i] > MAX_CLEN {
          assert codesize[..][i] > MAX_CLEN;
          return false;
        }
        RoomForAnother(f, codesize[..], i, bits[..]);
        bits[codesize[i]] := bits[codesize[i]] + 1;
      }
    }
    assert codesize[..codesize.Length] == codesize[..];
    ok := true;
  }

  /** At most 255 used symbols: a count of one length fits into a byte. */
  lemma RoomForAnother(f: seq<nat>, l: seq<nat>, i: nat, b: seq<nat>)
    requires |f| == |l| && i < |l| && 0 < l[i] <= MAX_CLEN && Used(f) <= 255 && AtMost(l[..i], MAX_CLEN) && Counts(b, l[..i])
    requires forall s :: 0 <= s < |f| ==> (l[s] > 0 <==> f[s] > 0)
    ensures b[l[i]] < 255
  {
    CountedKraft(f[..i], l[..i], b);
    SumUpdate(b, l[i], 0);
    UsedGrows(f, i);
  }

  lemma {:induction false} UsedGrows(f: seq<nat>, i: nat)
    requires i < |f| && f[i] > 0
    ensures Used(f[..i]) < Used(f)
  {
    var n := |f| - 1;
    if i < n {
      UsedGrows(f[..n], i);
      assert f[..n][..i] == f[..i];
    }
  }

  // ----- Limiting -----

  /** The lengths in use fill the code space, and there are no more than 255 symbols. */
  predicate Full(b: seq<nat>, i: nat) {
    && |b| == MAX_CLEN + 1 && 1 <= i <= MAX_CLEN && b[0] == 0
    && KraftBits(b, i) == Pow2(i) && (forall k :: i < k <= MAX_CLEN ==> b[k] == 0) && Sum(b) <= 255
  }

  lemma SixteenBits(i: nat)
    requires i >= 17
    ensures Pow2(i) >= 0x2_0000
  {
    Pow2Values();
    Pow2Monotone(17, i);
    assert Pow2(17) == 2 * Pow2(16);
  }

  /** The symbols of the longest code come in pairs, and a code at least two bits shorter exists. */
  lemma ShorterExists(b: seq<nat>, i: nat)
    requires Full(b, i) && i > 16 && b[i] > 0
    ensures b[i] >= 2
    ensures exists j :: 1 <= j <= i - 2 && b[j] > 0
  {
    assert Pow2(i) == 2 * Pow2(i - 1);
    assert KraftBits(b, i) == 2 * KraftBits(b, i - 1) + b[i];
    if forall j :: 1 <= j <= i - 2 ==> b[j] == 0 {
      KraftBitsZero(b, i - 2);
      SixteenBits(i);
      SumUpdate(b, i, 0);
      SumUpdate(b[i := 0], i - 1, 0);
      assert false;
    }
  }

  /** Two symbols leave length k + 1; their common prefix is given to one of them. */
  function MovedUp(b: seq<nat>, k: nat): (r: seq<nat>)
    requires k + 1 < |b| && b[k + 1] >= 2
    ensures |r| == |b|
  {
    b[k + 1 := b[k + 1] - 2][k := b[k] + 1]
  }

  /** A code of length j becomes the prefix of two codes one bit longer. */
  function Forked(b: seq<nat>, j: nat): (r: seq<nat>)
    requires j + 1 < |b| && b[j] > 0
    ensures |r| == |b|
  {
    b[j + 1 := b[j + 1] + 2][j := b[j] - 1]
  }

  lemma MovedUpKraft(b: seq<nat>, k: nat)
    requires k + 1 < |b| && b[k + 1] >= 2
    ensures KraftBits(MovedUp(b, k), k + 1) == KraftBits(b, k + 1)
  {
    hide KraftBits;
    KraftBitsUpdate(b, k + 1, k + 1, b[k + 1] - 2);
    KraftBitsUpdate(b[k + 1 := b[k + 1] - 2], k + 1, k, b[k] + 1);
    assert Pow2(0) == 1 && Pow2(1) == 2;
  }

  lemma SumTwo(b: seq<nat>, i: nat, x: nat, j: nat, y: nat)
    requires i < |b| && j < |b| && i != j
    ensures Sum(b[i := x][j := y]) == Sum(b) - b[i] + x - b[j] + y
  {
    hide Sum;
    SumChange(b, i, x);
    SumChange(b[i := x], j, y);
  }

  lemma MovedUpSum(b: seq<nat>, k: nat)
    requires k + 1 < |b| && b[k + 1] >= 2
    ensures Sum(MovedUp(b, k)) == Sum(b) - 1
  {
    hide Sum;
    SumTwo(b, k + 1, b[k + 1] - 2, k, b[k] + 1);
  }

  lemma ForkedKraft(b: seq<nat>, i: nat, j: nat)
    requires j + 1 <= i < |b| && b[j] > 0
    ensures KraftBits(Forked(b, j), i) == KraftBits(b, i)
  {
    hide KraftBits;
    KraftBitsUpdate(b, i, j + 1, b[j + 1] + 2);
    KraftBitsUpdate(b[j + 1 := b[j + 1] + 2], i, j, b[j] - 1);
    assert Pow2(i - j) == 2 * Pow2(i - j - 1);
  }

  lemma ForkedSum(b: seq<nat>, j: nat)
    requires j + 1 < |b| && b[j] > 0
    ensures Sum(Forked(b, j)) == Sum(b) + 1
  {
    hide Sum;
    SumTwo(b, j + 1, b[j + 1] + 2, j, b[j] - 1);
  }

  lemma SplitKeeps(b: seq<nat>, i: nat, j: nat)
    requires Full(b, i) && 1 <= j <= i - 2 && b[i] >= 2 && b[j] > 0
    ensures var r := Forked(MovedUp(b, i - 1), j); Full(r, i) && Sum(r) == Sum(b) && r[i] == b[i] - 2
  {
    hide KraftBits, Sum;
    MovedUpKraft(b, i - 1);
    MovedUpSum(b, i - 1);
    ForkedKraft(MovedUp(b, i - 1), i, j);
    ForkedSum(MovedUp(b, i - 1), j);
  }

  // ----- Which counts the limiting ends with -----

  /** u and v agree on the lengths below k, and u has fewer codes of length k. */
  predicate Below(u: seq<nat>, v: seq<nat>, k: nat) {
    k < |u| == |v| && u[..k] == v[..k] && u[k] < v[k]
  }

  /** u comes before v, compared from the shortest length on. */
  ghost predicate LexLess(u: seq<nat>, v: seq<nat>) {
    exists k :: Below(u, v, k)
  }

  /**
   * r is b with its lengths limited to 16 bits: of all counts of complete codes for as many symbols with
   * no length above 16 bits and not above b, compared from the shortest length on, r is the greatest.
   */
  ghost predicate Limited(b: seq<nat>, r: seq<nat>) {
    && Full(r, 16) && Sum(r) == Sum(b) && (r == b || LexLess(r, b))
    && forall v :: Full(v, 16) && Sum(v) == Sum(b) && LexLess(r, v) ==> LexLess(b, v)
  }

  lemma {:induction false} FirstDifference(u: seq<nat>, v: seq<nat>, n: nat)
    requires n <= |u| == |v| && u[..n] == v[..n]
    ensures u == v || LexLess(u, v) || LexLess(v, u)
    decreases |u| - n
  {
    if n < |u| {
      if u[n] == v[n] {
        FirstDifference(u, v, n + 1);
      } else {
        assert Below(u, v, n) || Below(v, u, n);
      }
    }
  }

  lemma LexAsymmetric(u: seq<nat>, v: seq<nat>)
    requires LexLess(u, v)
    ensures !LexLess(v, u) && u != v
  {
    var k: nat :| Below(u, v, k);
    forall m: nat ensures !Below(v, u, m) {
      assert m < k < |u| ==> u[m] == u[..k][m] == v[..k][m] == v[m];
      assert k < m < |u| ==> u[k] == u[..m][k] && v[k] == v[..m][k];
    }
  }

  /** The limited counts are unique, and counts already within 16 bits are their own. */
  lemma LimitedUnique(b: seq<nat>, r: seq<nat>, v: seq<nat>)
    requires |b| == MAX_CLEN + 1 && Limited(b, r)
    ensures Limited(b, v) ==> v == r
    ensures Full(b, 16) ==> r == b
  {
    hide Full, Sum;
    if Full(b, 16) && LexLess(r, b) {
      LexAsymmetric(r, b);
    }
    if Limited(b, v) {
      SameSize(r, v);
      FirstDifference(r, v, 0);
      if LexLess(r, v) {
        LexAsymmetric(b, v);
      } else if LexLess(v, r) {
        LexAsymmetric(b, r);
      }
    }
  }

  lemma SameSize(r: seq<nat>, v: seq<nat>)
    requires Full(r, 16) && Full(v, 16)
    ensures |r| == |v|
  {
  }

  /**
   * Where the limiting stands, up to length e: unchanged, or some length low lost a code, all shorter
   * ones are as before, and the counts between low and e are at most 1, or 2 with no code behind them.
   */
  predicate Reshaped(b: seq<nat>, r: seq<nat>, low: nat, e: nat) {
    && e < |r| && Below(r, b, low)
    && forall k :: low < k < e ==> r[k] <= 1 || (r[k] == 2 && forall j :: k < j < e ==> r[j] == 0)
  }

  ghost predicate Limiting(b: seq<nat>, r: seq<nat>, e: nat) {
    r == b || exists low :: Reshaped(b, r, low, e)
  }

  lemma LimitingLess(b: seq<nat>, r: seq<nat>, e: nat, e': nat)
    requires Limiting(b, r, e) && e' <= e
    ensures Limiting(b, r, e')
  {
    if r != b {
      var low: nat :| Reshaped(b, r, low, e);
      assert Reshaped(b, r, low, e');
    }
  }

  /** One round takes the prefix from the longest code that is at least two bits shorter than i. */
  predicate Round(r: seq<nat>, i: nat, j: nat, r': seq<nat>) {
    && 1 <= j <= i - 2 && i < |r| && r[i] >= 2 && r[j] > 0
    && (forall k :: j < k <= i - 2 ==> r[k] == 0)
    && r' == Forked(MovedUp(r, i - 1), j)
  }

  lemma RoundLimits(b: seq<nat>, r: seq<nat>, i: nat, j: nat, r': seq<nat>)
    requires |b| == |r| && Round(r, i, j, r') && Limiting(b, r, i - 1)
    ensures Limiting(b, r', i - 1)
  {
    var low: nat;
    if r == b {
      low := j;
    } else {
      low :| Reshaped(b, r, low, i - 1);
      low := if j < low then j else low;
    }
    assert r'[..low] == r[..low];
    assert low == j ==> r[..low] == b[..low];
    assert Reshaped(b, r', low, i - 1);
  }

  /** How much the codes of length k and more take beyond what the same number of 16-bit codes would. */
  function Excess(r: seq<nat>, k: nat): nat
    requires |r| > 16
    decreases 16 - k
  {
    if k > 16 then 0
    else
      NotNegative(r[k], Pow2(16 - k) - 1);
      r[k] * (Pow2(16 - k) - 1) + Excess(r, k + 1)
  }

  lemma NotNegative(n: nat, x: nat)
    ensures n * x >= 0
  {
  }

  /** Horner's step, with the codes counted. */
  lemma ExcessStep(kraft: int, n: int, p: int)
    ensures kraft * (2 * p) + n * (p - 1) == (2 * kraft + n) * p - n
  {
    assert kraft * (2 * p) == (2 * kraft) * p;
  }

  /** Up to length k and beyond it: Kraft sum less number of codes. */
  lemma {:induction false} ExcessSplit(r: seq<nat>, k: nat)
    requires |r| > 16 && k <= 16
    ensures KraftBits(r, k) * Pow2(16 - k) - Sum(r[..k + 1]) + Excess(r, k + 1) == KraftBits(r, 16) - Sum(r[..17])
    decreases 16 - k
  {
    if k < 16 {
      ExcessSplit(r, k + 1);
      ExcessStep(KraftBits(r, k), r[k + 1], Pow2(15 - k));
      assert r[..k + 2][..k + 1] == r[..k + 1];
    }
  }

  /** Complete codes for as many symbols that agree below length p have the same excess from p on. */
  lemma SameExcess(u: seq<nat>, v: seq<nat>, p: nat)
    requires Full(u, 16) && Full(v, 16) && Sum(u) == Sum(v) && p <= 16 && u[..p] == v[..p]
    ensures Excess(u, p) == Excess(v, p)
    decreases 17 - p
  {
    hide KraftBits, Sum, Excess;
    if p > 0 {
      SumCut(u, 16);
      SumCut(v, 16);
      ExcessSplit(u, p - 1);
      ExcessSplit(v, p - 1);
      KraftBitsCut(u, p - 1, p);
      KraftBitsCut(v, p - 1, p);
    } else {
      assert u[..1] == [u[0]] && v[..1] == [v[0]];
      SameExcess(u, v, 1);
      ExcessHead(u, 0);
      ExcessHead(v, 0);
    }
  }

  lemma {:induction false} NoExcess(r: seq<nat>, k: nat)
    requires |r| > 16 && forall j :: k <= j < 16 ==> r[j] == 0
    ensures Excess(r, k) == 0
    decreases 16 - k
  {
    if k <= 16 {
      NoExcess(r, k + 1);
    }
  }

  /** Counts reshaped as far as 16 bits: beyond length low there is hardly any excess. */
  lemma {:induction false} LittleExcess(b: seq<nat>, r: seq<nat>, low: nat, k: nat)
    requires Reshaped(b, r, low, 16) && low < k <= 16
    ensures Excess(r, k) <= 2 * Pow2(16 - k) - 2
    decreases 16 - k
  {
    if k == 16 {
      NoExcess(r, 16);
    } else {
      LittleExcess(b, r, low, k + 1);
      assert Pow2(16 - k) == 2 * Pow2(15 - k);
      if r[k] == 2 {
        NoExcess(r, k + 1);
      } else {
        AtMostOnce(r[k], Pow2(16 - k) - 1);
      }
    }
  }

  lemma AtMostOnce(n: nat, x: nat)
    requires n <= 1
    ensures n * x <= x
  {
  }

  lemma MoreOfOne(n: nat, m: nat, x: nat)
    requires n < m
    ensures n * x + x <= m * x
  {
    assert m * x == n * x + x + (m - n - 1) * x;
  }

  /** Nothing lies between the reshaped counts and the original ones. */
  lemma NothingBetween(b: seq<nat>, r: seq<nat>, low: nat, v: seq<nat>, p: nat)
    requires Reshaped(b, r, low, 16) && Full(r, 16) && Full(v, 16) && Sum(v) == Sum(r) && Below(r, v, p)
    ensures p < low
  {
    hide Full, KraftBits, Sum, Excess, Pow2;
    if p >= low {
      BeyondSixteen(r, v, p);
      SameExcess(r, v, p);
      ExcessHead(r, p);
      ExcessHead(v, p);
      LittleExcess(b, r, low, p + 1);
      MoreOfOne(r[p], v[p], Pow2(16 - p) - 1);
    }
  }

  lemma BeyondSixteen(r: seq<nat>, v: seq<nat>, p: nat)
    requires Full(r, 16) && Full(v, 16) && Sum(v) == Sum(r) && Below(r, v, p)
    ensures p < 16
  {
    if p >= 16 {
      assert forall k :: 0 <= k < p ==> r[..p][k] == v[..p][k];
      assert v == r[p := v[p]];
      SumUpdate(r, p, v[p]);
    }
  }

  lemma ExcessHead(r: seq<nat>, k: nat)
    requires |r| > 16 && k < 16
    ensures Excess(r, k) == r[k] * (Pow2(16 - k) - 1) + Excess(r, k + 1)
    ensures Pow2(16 - k) == 2 * Pow2(15 - k)
  {
  }

  lemma LimitedBest(b: seq<nat>, r: seq<nat>)
    requires |b| == MAX_CLEN + 1 && Limiting(b, r, 16) && Full(r, 16) && Sum(r) == Sum(b)
    ensures Limited(b, r)
  {
    hide Full, Sum;
    if r != b {
      var low: nat :| Reshaped(b, r, low, 16);
      forall v | Full(v, 16) && Sum(v) == Sum(b) && LexLess(r, v) ensures LexLess(b, v) {
        var p: nat :| Below(r, v, p);
        NothingBetween(b, r, low, v, p);
        assert r[..p] == r[..low][..p] == b[..low][..p] == b[..p];
        assert r[..low][p] == b[..low][p];
        assert Below(b, v, p);
      }
    }
  }

  /** One round: two symbols leave length i. */
  method Shorten(bits: array<Byte>, i: nat)
    requires bits.Length == MAX_CLEN + 1 && Full(bits[..], i) && i > 16 && bits[i] > 0
    modifies bits
    ensures Full(bits[..], i) && Sum(bits[..]) == Sum(old(bits[..])) && bits[i] == old(bits[i]) - 2
    ensures exists j :: Round(old(bits[..]), i, j, bits[..])
  {
    ghost var b := bits[..];
    ShorterExists(b, i);
    hide Full, KraftBits, Sum;
    var j := i - 2;
    while bits[j] == 0
      invariant 1 <= j <= i - 2 && exists k :: 1 <= k <= j && bits[k] > 0
      invariant forall k :: j < k <= i - 2 ==> bits[k] == 0
      decreases j
    {
      j := j - 1;
    }
    SplitKeeps(b, i, j);
    FitsSplit(b, i, j);
    bits[i] := bits[i] - 2;
    bits[i - 1] := bits[i - 1] + 1;
    bits[j + 1] := bits[j + 1] + 2;
    bits[j] := bits[j] - 1;
    assert bits[..] == Forked(MovedUp(b, i - 1), j);
    assert Round(b, i, j, bits[..]);
  }

  lemma FitsSplit(b: seq<nat>, i: nat, j: nat)
    requires Full(b, i) && 1 <= j <= i - 2 && b[i] >= 2 && b[j] > 0
    ensures b[i - 1] <= 252 && b[j + 1] + (if j + 1 == i - 1 then 1 else 0) + 2 <= 255
  {
    SumUpdate(b, i, 0);
    SumUpdate(b[i := 0], j, 0);
    SumUpdate(b[i := 0][j := 0], i - 1, 0);
    SumUpdate(b[i := 0][j := 0], j + 1, 0);
  }

  /** `for (i = MAX_CLEN; i > 16; i--) while (bits[i] > 0) { ... }` */
  method LimitLengths(bits: array<Byte>)
    requires bits.Length == MAX_CLEN + 1 && Full(bits[..], MAX_CLEN)
    modifies bits
    ensures Limited(old(bits[..]), bits[..])
    ensures Full(old(bits[..]), 16) ==> bits[..] == old(bits[..])
  {
    hide Sum, Limiting, Limited, Full, Round;
    ghost var b := bits[..];
    NotLimited(b, MAX_CLEN);
    var i := MAX_CLEN;
    while i > 16
      invariant 16 <= i <= MAX_CLEN && Full(bits[..], i) && Sum(bits[..]) == Sum(b) && Limiting(b, bits[..], i)
    {
      LimitingLess(b, bits[..], i, i - 1);
      while bits[i] > 0
        invariant Full(bits[..], i) && Sum(bits[..]) == Sum(b) && Limiting(b, bits[..], i - 1)
      {
        ghost var r := bits[..];
        Shorten(bits, i);
        ghost var j: nat :| Round(r, i, j, bits[..]);
        RoundLimits(b, r, i, j, bits[..]);
      }
      FullLess(bits[..], i);
      i := i - 1;
    }
    LimitedBest(b, bits[..]);
    LimitedUnique(b, bits[..], bits[..]);
  }

  lemma NotLimited(b: seq<nat>, e: nat)
    ensures Limiting(b, b, e)
  {
  }

  /** Without codes of length i, the shorter ones fill the code space. */
  lemma FullLess(b: seq<nat>, i: nat)
    requires Full(b, i) && i > 1 && b[i] == 0
    ensures Full(b, i - 1)
  {
  }

  lemma SomeLength(b: seq<nat>)
    requires Full(b, 16)
    ensures exists k :: 1 <= k <= 16 && b[k] > 0
  {
    if forall k :: 1 <= k <= 16 ==> b[k] == 0 {
      KraftBitsZero(b, 16);
    }
  }

  lemma RemoveOne(b: seq<nat>, i: nat)
    requires Full(b, 16) && 1 <= i <= 16 && b[i] > 0
    ensures KraftBits(b[i := b[i] - 1], 16) < Pow2(16) && Sum(b[i := b[i] - 1]) == Sum(b) - 1
  {
    hide KraftBits, Pow2;
    KraftBitsUpdate(b, 16, i, b[i] - 1);
    Negated(b[i], Pow2(16 - i));
    SumChange(b, i, b[i] - 1);
  }

  lemma Negated(x: int, p: int)
    ensures (x - 1 - x) * p == -p
  {
  }

  /** One code less of length i, the greatest length in use. */
  predicate LongestDropped(b: seq<nat>, i: nat, r: seq<nat>) {
    && i < |b| && b[i] > 0 && (forall k :: i < k < |b| ==> b[k] == 0)
    && |r| == |b| && r[i] == b[i] - 1 && forall k :: 0 <= k < |b| && k != i ==> r[k] == b[k]
  }

  /** Remove the count for the pseudo-symbol 256 from the largest code length. */
  method RemovePseudo(bits: array<Byte>)
    requires bits.Length == MAX_CLEN + 1 && Full(bits[..], 16)
    modifies bits
    ensures KraftBits(bits[..], 16) < Pow2(16) && bits[0] == 0
    ensures forall k :: 16 < k <= MAX_CLEN ==> bits[k] == 0
    ensures Sum(bits[..]) == Sum(old(bits[..])) - 1
    ensures exists i :: LongestDropped(old(bits[..]), i, bits[..])
  {
    ghost var b := bits[..];
    SomeLength(b);
    hide KraftBits, Sum, Pow2;
    var i := 16;
    while bits[i] == 0
      invariant 1 <= i <= 16 && exists k :: 1 <= k <= i && bits[k] > 0
      invariant forall k :: i < k <= 16 ==> bits[k] == 0
      decreases i
    {
      i := i - 1;
    }
    RemoveOne(b, i);
    bits[i] := bits[i] - 1;
    assert bits[..] == b[i := b[i] - 1];
    assert LongestDropped(b, i, bits[..]);
  }

  // ----- Listing the symbols -----

  /** The entries before round (i, j): shorter codes, and codes of length i with smaller symbols. */
  predicate ListedBefore(codesize: seq<nat>, s: nat, i: nat, j: nat)
    requires s < |codesize|
  {
    0 < codesize[s] && (codesize[s] < i || (codesize[s] == i && s < j))
  }

  predicate Listed(codesize: seq<nat>, list: seq<Byte>, i: nat, j: nat)
    requires |codesize| == NUM_SYMBOLS
  {
    && (forall s: nat :: s < 256 ==> (s in list <==> ListedBefore(codesize, s, i, j)))
    && (forall a, b :: 0 <= a < b < |list| ==> list[a] != list[b] && codesize[list[a]] <= codesize[list[b]])
    && (forall a, b :: 0 <= a < b < |list| && codesize[list[a]] == codesize[list[b]] ==> list[a] < list[b])
  }

  lemma {:induction false} DistinctBytes(list: seq<Byte>, n: nat)
    requires forall a, b :: 0 <= a < b < |list| ==> list[a] != list[b]
    requires n <= 256 && forall k :: 0 <= k < |list| ==> list[k] < n
    ensures |list| <= n
    decreases n
  {
    if list != [] {
      assert list[0] < n;
      if exists k :: 0 <= k < |list| && list[k] == n - 1 {
        var k :| 0 <= k < |list| && list[k] == n - 1;
        DistinctBytes(list[..k] + list[k + 1..], n - 1);
      } else {
        DistinctBytes(list, n - 1);
      }
    }
  }

  lemma RoomForSymbol(list: seq<Byte>, j: Byte)
    requires forall a, b :: 0 <= a < b < |list| ==> list[a] != list[b]
    requires j !in list
    ensures |list| < 256
  {
    var more := list + [j];
    assert forall a, b :: 0 <= a < b < |more| ==> more[a] != more[b];
    DistinctBytes(more, 256);
  }

  lemma NextListed(codesize: seq<nat>, list: seq<Byte>, i: nat, j: Byte)
    requires |codesize| == NUM_SYMBOLS && Listed(codesize, list, i, j) && i > 0
    ensures codesize[j] != i ==> Listed(codesize, list, i, j + 1)
    ensures codesize[j] == i ==> |list| < 256 && Listed(codesize, list + [j], i, j + 1)
  {
    if codesize[j] == i {
      assert !ListedBefore(codesize, j, i, j);
      RoomForSymbol(list, j);
      forall a | 0 <= a < |list| ensures codesize[list[a]] <= i && (codesize[list[a]] == i ==> list[a] < j) {
        assert list[a] in list;
        assert ListedBefore(codesize, list[a], i, j);
      }
    }
  }

  lemma NextLength(codesize: seq<nat>, list: seq<Byte>, i: nat)
    requires |codesize| == NUM_SYMBOLS && Listed(codesize, list, i, 256)
    ensures Listed(codesize, list, i + 1, 0)
  {
    forall s: nat | s < 256 ensures s in list <==> ListedBefore(codesize, s, i + 1, 0) {
      assert s in list <==> ListedBefore(codesize, s, i, 256);
    }
  }

  /** Return a list of the symbols sorted by code length. */
  method ListSymbols(codesize: array<nat>, huffval: array<Byte>) returns (p: nat)
    requires codesize.Length == NUM_SYMBOLS && huffval.Length == 256 && AtMost(codesize[..], MAX_CLEN)
    requires codesize as object != huffval
    modifies huffval
    ensures p <= 256 && Listed(codesize[..], huffval[..p], MAX_CLEN + 1, 0)
  {
    hide Listed;
    p := 0;
    NothingListed(codesize[..]);
    for i := 1 to MAX_CLEN + 1
      invariant p <= 256 && Listed(codesize[..], huffval[..p], i, 0)
    {
      for j := 0 to 256
        invariant p <= 256 && Listed(codesize[..], huffval[..p], i, j)
      {
        NextListed(codesize[..], huffval[..p], i, j);
        if codesize[j] == i {
          ghost var before := huffval[..p];
          huffval[p] := j;
          p := p + 1;
          assert huffval[..p] == before + [j];
        }
      }
      NextLength(codesize[..], huffval[..p], i);
    }
  }

  lemma NothingListed(codesize: seq<nat>)
    requires |codesize| == NUM_SYMBOLS
    ensures Listed(codesize, [], 1, 0)
  {
  }

  /** A list without its entry number k. */
  function Without(list: seq<Byte>, k: nat): (rest: seq<Byte>)
    requires k < |list|
    ensures |rest| == |list| - 1 && forall i :: 0 <= i < |rest| ==> rest[i] == list[if i < k then i else i + 1]
  {
    list[..k] + list[k + 1..]
  }

  lemma WithoutAt(list: seq<Byte>, k: nat, s: int)
    requires k < |list| && s != list[k]
    ensures s in Without(list, k) <==> s in list
  {
    var rest := Without(list, k);
    if s in list {
      var i :| 0 <= i < |list| && list[i] == s;
      assert s == if i < k then rest[i] else rest[i - 1];
    }
  }

  /** The list names each used symbol once. */
  predicate Lists(f: seq<nat>, list: seq<Byte>) {
    && (forall a, b :: 0 <= a < b < |list| ==> list[a] != list[b])
    && (forall k :: 0 <= k < |list| ==> list[k] < |f| && f[list[k]] > 0)
    && (forall s: nat :: s < |f| && s < 256 && f[s] > 0 ==> s in list)
  }

  lemma ListsWithout(f: seq<nat>, list: seq<Byte>, k: nat)
    requires f != [] && |f| <= 256 && Lists(f, list) && k < |list| && list[k] == |f| - 1
    ensures Lists(f[..|f| - 1], Without(list, k))
  {
    var n, rest := |f| - 1, Without(list, k);
    forall i | 0 <= i < |rest| ensures rest[i] < n && f[rest[i]] > 0 {
      var j := if i < k then i else i + 1;
      assert list[j] != list[k];
    }
    forall s: nat | s < n && f[s] > 0 ensures s in rest {
      WithoutAt(list, k, s);
    }
  }

  lemma ListsLess(f: seq<nat>, list: seq<Byte>) returns (rest: seq<Byte>)
    requires f != [] && |f| <= 256 && Lists(f, list)
    ensures Lists(f[..|f| - 1], rest) && |list| == |rest| + if f[|f| - 1] > 0 then 1 else 0
  {
    var n := |f| - 1;
    if f[n] > 0 {
      assert n in list;
      var k :| 0 <= k < |list| && list[k] == n;
      rest := Without(list, k);
      ListsWithout(f, list, k);
    } else {
      rest := list;
    }
  }

  /** The list has one entry for each used real symbol. */
  lemma {:induction false} ListLength(f: seq<nat>, list: seq<Byte>)
    requires |f| <= 256 && Lists(f, list)
    ensures |list| == Used(f)
  {
    assert list != [] ==> list[0] < |f|;
    if f != [] {
      var rest := ListsLess(f, list);
      ListLength(f[..|f| - 1], rest);
    }
  }

  // ----- The whole procedure -----

  /** JHUFF_TBL: the counts of the code lengths 0..16, and the symbols in order of code length. */
  datatype HuffTable = HuffTable(bits: seq<Byte>, huffval: seq<Byte>)

  datatype Outcome = Table(tbl: HuffTable) | ClenOverflow

  /** The counts of the symbols that the search works on. */
  function WithPseudo(f: seq<nat>): seq<nat>
    requires |f| == NUM_SYMBOLS
  {
    f[256 := 1]
  }

  /**
   * The table has one code for each used symbol, its codes leave a gap, and no length is above 16; the
   * symbols are in order of optimal length, those of one length ascending, and the counts are those of
   * the optimal lengths, limited, less one at the greatest.
   */
  ghost predicate TableFor(f: seq<nat>, lengths: seq<nat>, tbl: HuffTable)
    requires |f| == NUM_SYMBOLS == |lengths|
  {
    && |tbl.bits| == 17 && tbl.bits[0] == 0
    && KraftBits(tbl.bits, 16) < Pow2(16) && Sum(tbl.bits) == |tbl.huffval| == Used(f[..256])
    && (forall s: nat :: s < 256 ==> (s in tbl.huffval <==> f[s] > 0))
    && (forall a, b :: 0 <= a < b < |tbl.huffval| ==> tbl.huffval[a] != tbl.huffval[b])
    && (forall a, b :: 0 <= a < b < |tbl.huffval| ==> lengths[tbl.huffval[a]] <= lengths[tbl.huffval[b]])
    && (forall a, b :: 0 <= a < b < |tbl.huffval| && lengths[tbl.huffval[a]] == lengths[tbl.huffval[b]] ==>
          tbl.huffval[a] < tbl.huffval[b])
    && BitsFor(lengths, tbl.bits)
  }

  lemma ListedAll(f: seq<nat>, codesize: seq<nat>, list: seq<Byte>)
    requires |f| == |codesize| == NUM_SYMBOLS && AtMost(codesize, MAX_CLEN) && Listed(codesize, list, MAX_CLEN + 1, 0)
    requires forall s :: 0 <= s < NUM_SYMBOLS ==> (codesize[s] > 0 <==> f[s] > 0)
    ensures forall s: nat :: s < 256 ==> (s in list <==> f[s] > 0)
    ensures |list| == Used(f[..256])
  {
    forall s: nat | s < 256 ensures s in list <==> f[s] > 0 {
      assert s in list <==> ListedBefore(codesize, s, MAX_CLEN + 1, 0);
    }
    forall k | 0 <= k < |list| ensures f[..256][list[k]] > 0 {
      assert list[k] in list;
    }
    ListLength(f[..256], list);
  }

  /** Cutting off unused lengths changes nothing. */
  lemma {:induction false} SumCut(b: seq<nat>, m: nat)
    requires m < |b| && forall k :: m < k < |b| ==> b[k] == 0
    ensures Sum(b[..m + 1]) == Sum(b)
  {
    if |b| > m + 1 {
      var n := |b| - 1;
      SumCut(b[..n], m);
      assert b[..n][..m + 1] == b[..m + 1];
    } else {
      assert b[..m + 1] == b;
    }
  }

  lemma {:induction false} KraftBitsCut(b: seq<nat>, m: nat, n: nat)
    requires m < n <= |b|
    ensures KraftBits(b[..n], m) == KraftBits(b, m)
  {
    if m > 0 {
      KraftBitsCut(b, m - 1, n);
    }
  }

  /** The number of codes of each length from 1 to m. */
  function Histogram(l: seq<nat>, m: nat): (b: seq<nat>)
    ensures |b| == m + 1
  {
    seq(m + 1, k requires 0 <= k <= m => if k == 0 then 0 else HowMany(l, k))
  }

  /** The counts for these lengths: limited to 16 bits, then less one at the greatest length. */
  ghost predicate BitsFor(lengths: seq<nat>, bits: seq<nat>) {
    Full(Histogram(lengths, MAX_CLEN), MAX_CLEN) && exists r, i :: Limited(Histogram(lengths, MAX_CLEN), r) && LongestDropped(r[..17], i, bits)
  }

  lemma BitsForCounts(l: seq<nat>, b: seq<nat>, r: seq<nat>, i: nat, d: seq<nat>)
    requires Counts(b, l) && Full(b, MAX_CLEN) && Limited(b, r) && LongestDropped(r, i, d)
    ensures BitsFor(l, d[..17])
  {
    hide Full, Sum, HowMany;
    assert b == Histogram(l, MAX_CLEN);
    SameSize(r, r);
    NoneAbove(r);
    assert LongestDropped(r[..17], i, d[..17]);
  }

  lemma NoneAbove(r: seq<nat>)
    requires Full(r, 16)
    ensures |r| == MAX_CLEN + 1 && forall k :: 16 < k <= MAX_CLEN ==> r[k] == 0
  {
  }

  lemma {:induction false} NoneThatLong(l: seq<nat>, k: nat)
    requires forall s :: 0 <= s < |l| ==> l[s] < k
    ensures HowMany(l, k) == 0
  {
    if l != [] {
      NoneThatLong(l[..|l| - 1], k);
    }
  }

  lemma {:induction false} FullBelow(b: seq<nat>, i: nat, j: nat)
    requires Full(b, i) && 1 <= j <= i && forall k :: j < k <= i ==> b[k] == 0
    ensures Full(b, j)
    decreases i
  {
    hide KraftBits, Sum;
    if j < i {
      FullLess(b, i);
      FullBelow(b, i - 1, j);
    }
  }

  /** No code above 16 bits: the counts are those of the lengths, less one at the greatest. */
  lemma WithinSixteen(l: seq<nat>, bits: seq<nat>)
    requires BitsFor(l, bits) && AtMost(l, 16)
    ensures exists i :: LongestDropped(Histogram(l, 16), i, bits)
  {
    hide Sum, KraftBits, HowMany;
    var b := Histogram(l, MAX_CLEN);
    var r, i :| Limited(b, r) && LongestDropped(r[..17], i, bits);
    forall k | 16 < k <= MAX_CLEN ensures b[k] == 0 {
      NoneThatLong(l, k);
    }
    FullBelow(b, MAX_CLEN, 16);
    LimitedUnique(b, r, r);
    assert b[..17] == Histogram(l, 16);
  }

  /** From code sizes to counts: limited to 16 bits, without the pseudo-symbol. */
  method LimitedCounts(codesize: array<nat>, ghost f: seq<nat>) returns (ok: bool, bits: seq<Byte>)
    requires codesize.Length == |f| && Complete(f, codesize[..]) && Used(f) <= 255 && MAX_CLEN <= |f|
    requires forall s :: 0 <= s < |f| ==> (codesize[s] > 0 <==> f[s] > 0)
    ensures ok <==> AtMost(codesize[..], MAX_CLEN)
    ensures ok ==> |bits| == 17 && bits[0] == 0 && KraftBits(bits, 16) < Pow2(16) && Sum(bits) == Used(f) - 1
    ensures ok ==> BitsFor(codesize[..], bits)
  {
    hide KraftBits, Sum, Used, Kraft, AtMost, Counts, Pow2, BitsFor, Limited, LongestDropped, Full;
    var counts := new Byte[MAX_CLEN + 1](_ => 0);
    ok := CountLengths(codesize, counts, f);
    bits := [];
    if ok {
      CompleteScale(f, codesize[..], MAX_CLEN, |f|);
      CountedKraft(f, codesize[..], counts[..]);
      CountedFull(f, codesize[..], counts[..]);
      ghost var b := counts[..];
      LimitLengths(counts);
      ghost var r := counts[..];
      LimitedFull(b, r);
      RemovePseudo(counts);
      ghost var i :| LongestDropped(r, i, counts[..]);
      BitsForCounts(codesize[..], b, r, i, counts[..]);
      SumCut(counts[..], 16);
      KraftBitsCut(counts[..], 16, 17);
      bits := counts[..17];
      assert counts[..][..17] == bits;
    }
  }

  lemma CountedFull(f: seq<nat>, l: seq<nat>, b: seq<nat>)
    requires Counts(b, l) && Sum(b) == Used(f) <= 255 && KraftBits(b, MAX_CLEN) == Pow2(MAX_CLEN)
    ensures Full(b, MAX_CLEN) && b == Histogram(l, MAX_CLEN)
  {
  }

  lemma LimitedFull(b: seq<nat>, r: seq<nat>)
    requires Limited(b, r)
    ensures Full(r, 16) && Sum(r) == Sum(b)
  {
  }

  /**
   * Generate the best Huffman code table for the counts: an error if the unlimited code has a code of
   * more than 32 bits, else a table whose symbols are exactly those with a nonzero count.
   */
  method GenOptimalTable(freq: array<nat>) returns (r: Outcome, ghost lengths: seq<nat>)
    requires freq.Length == NUM_SYMBOLS && 1 <= Used(freq[..256]) <= 254 && Sum(freq[..256]) < CUTOFF
    modifies freq
    ensures var f := WithPseudo(old(freq[..]));
            && Complete(f, lengths) && (forall l, e :: Feasible(f, l, e) ==> Cost(f, lengths) <= Cost(f, l))
            && lengths == MergeLengths(f) && (forall s :: 0 <= s < NUM_SYMBOLS ==> (lengths[s] > 0 <==> f[s] > 0)) && (r.Table? <==> AtMost(lengths, MAX_CLEN))
            && (r.Table? ==> TableFor(f, lengths, r.tbl))
            && (r.Table? && AtMost(lengths, 16) ==> exists i :: LongestDropped(Histogram(lengths, 16), i, r.tbl.bits))
  {
    hide Kraft, Cost, Counts, Pow2, KraftBits, Listed, MergeLengths, BitsFor, Full, LongestDropped, Histogram;
    ghost var f := WithPseudo(freq[..]);
    PseudoCounts(freq[..]);
    freq[256] := 1;
    assert freq[..] == f;
    var codesize := new nat[NUM_SYMBOLS];
    AssignLengths(freq, codesize);
    lengths := codesize[..];
    var ok, bits := LimitedCounts(codesize, f);
    if !ok {
      return ClenOverflow, lengths;
    }
    var huffval := new Byte[256];
    var p := ListSymbols(codesize, huffval);
    ListedAll(f, codesize[..], huffval[..p]);
    ListedOrder(codesize[..], huffval[..p]);
    r := Table(HuffTable(bits, huffval[..p]));
    if AtMost(lengths, 16) {
      WithinSixteen(lengths, bits);
    }
  }

  lemma ListedOrder(codesize: seq<nat>, list: seq<Byte>)
    requires |codesize| == NUM_SYMBOLS && Listed(codesize, list, MAX_CLEN + 1, 0)
    ensures forall a, b :: 0 <= a < b < |list| ==> list[a] != list[b] && codesize[list[a]] <= codesize[list[b]]
    ensures forall a, b :: 0 <= a < b < |list| && codesize[list[a]] == codesize[list[b]] ==> list[a] < list[b]
  {
  }

  lemma PseudoCounts(f: seq<nat>)
    requires |f| == NUM_SYMBOLS
    ensures WithPseudo(f)[..256] == f[..256]
    ensures Used(WithPseudo(f)) == Used(f[..256]) + 1 && Sum(WithPseudo(f)) == Sum(f[..256]) + 1
  {
  }
}
