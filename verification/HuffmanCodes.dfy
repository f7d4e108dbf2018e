/**
 * jpeg_make_c_derived_tbl of jchuff.c: it accepts exactly the tables whose codes leave a gap and whose
 * symbols are distinct and in range; what it then derives is a prefix code without an all-ones code.
 */
module HuffmanCodes {
  import opened Arithmetic
  import opened Bits
  import opened HuffmanCost
  import opened HuffmanDepth
  import opened HuffmanTree
  import opened HuffmanTable

  // ----- Code lengths and code points -----

  /** The code lengths 1..m in order, bits[l] times each (figure C.1 of ITU-T T.81). */
  function Sizes(bits: seq<nat>, m: nat): seq<nat>
    requires m < |bits|
  {
    if m == 0 then [] else Sizes(bits, m - 1) + seq(bits[m], _ => m)
  }

  /** Lengths of at most 16 bits in ascending order. */
  predicate Ascending(sizes: seq<nat>) {
    && (forall p :: 0 <= p < |sizes| ==> 1 <= sizes[p] <= 16)
    && (forall p, q :: 0 <= p < q < |sizes| ==> sizes[p] <= sizes[q])
  }

  /** The part of the code space, in units of 2^-16, that lies below code number p. */
  function Offset(sizes: seq<nat>, p: nat): nat
    requires Ascending(sizes) && p <= |sizes|
  {
    if p == 0 then 0 else Offset(sizes, p - 1) + Pow2(16 - sizes[p - 1])
  }

  lemma {:induction false} SizesAscending(bits: seq<nat>, m: nat)
    requires m < |bits| && m <= 16
    ensures Ascending(Sizes(bits, m)) && forall p :: 0 <= p < |Sizes(bits, m)| ==> Sizes(bits, m)[p] <= m
  {
    if m > 0 {
      SizesAscending(bits, m - 1);
    }
  }

  lemma {:induction false} SizesCount(bits: seq<nat>, m: nat)
    requires m < |bits| && bits[0] == 0
    ensures |Sizes(bits, m)| == Sum(bits[..m + 1])
  {
    assert bits[..m + 1][..m] == bits[..m];
    if m > 0 {
      SizesCount(bits, m - 1);
    }
  }

  /** A run of equal lengths takes up its share of the code space. */
  lemma {:induction false} OffsetRun(sizes: seq<nat>, p: nat, n: nat, k: nat)
    requires Ascending(sizes) && p + n <= |sizes| && k <= 16 && forall q :: p <= q < p + n ==> sizes[q] == k
    ensures Offset(sizes, p + n) == Offset(sizes, p) + n * Pow2(16 - k)
    decreases n
  {
    if n > 0 {
      OffsetRun(sizes, p, n - 1, k);
      var w: int := Pow2(16 - k);
      assert (n - 1) * w + w == n * w;
    }
  }

  lemma {:induction false} OffsetPrefix(sizes: seq<nat>, t: seq<nat>, p: nat)
    requires Ascending(sizes) && Ascending(t) && p <= |sizes| <= |t| && t[..|sizes|] == sizes
    ensures Offset(t, p) == Offset(sizes, p)
  {
    if p > 0 {
      OffsetPrefix(sizes, t, p - 1);
      assert t[..|sizes|][p - 1] == t[p - 1];
    }
  }

  /** One length more: Horner's step. */
  lemma KraftStep(k: int, n: int, m: nat)
    requires 0 < m <= 16
    ensures k * Pow2(16 - (m - 1)) + n * Pow2(16 - m) == (2 * k + n) * Pow2(16 - m)
  {
    var w: int := Pow2(16 - m);
    assert Pow2(16 - (m - 1)) == 2 * w;
    Distribute(2 * k, n, w);
  }

  /** The whole code space in use is the Kraft sum of the counts. */
  lemma {:induction false} OffsetIsKraft(bits: seq<nat>, m: nat)
    requires m < |bits| && m <= 16 && bits[0] == 0
    ensures Ascending(Sizes(bits, m))
    ensures Offset(Sizes(bits, m), |Sizes(bits, m)|) == KraftBits(bits, m) * Pow2(16 - m)
  {
    SizesAscending(bits, m);
    if m > 0 {
      var s, t := Sizes(bits, m - 1), Sizes(bits, m);
      OffsetIsKraft(bits, m - 1);
      KraftStep(KraftBits(bits, m - 1), bits[m], m);
      hide Pow2, Offset;
      OffsetPrefix(s, t, |s|);
      OffsetRun(t, |s|, bits[m], m);
    }
  }

  lemma {:induction false} OffsetMonotone(sizes: seq<nat>, p: nat, q: nat)
    requires Ascending(sizes) && p <= q <= |sizes|
    ensures Offset(sizes, p) <= Offset(sizes, q)
    ensures p < q ==> Offset(sizes, p) + Pow2(16 - sizes[p]) <= Offset(sizes, q)
    decreases q
  {
    if p < q {
      OffsetMonotone(sizes, p, q - 1);
    }
  }

  // ----- What the derived codes are -----

  /** Code number p, left-aligned to 16 bits, starts where the codes before it end (figure C.2). */
  predicate IsCode(sizes: seq<nat>, p: nat, code: nat)
    requires Ascending(sizes) && p < |sizes|
  {
    code * Pow2(16 - sizes[p]) == Offset(sizes, p)
  }

  /** 2^(16 - k) and 2^k make up the whole code space. */
  lemma Share(k: nat)
    requires k <= 16
    ensures Pow2(k) * Pow2(16 - k) == Pow2(16)
  {
    Pow2Add(k, 16 - k);
  }

  lemma Rescale(a: int, k: nat, m: nat)
    requires k <= m <= 16
    ensures a * Pow2(m - k) * Pow2(16 - m) == a * Pow2(16 - k)
  {
    hide Pow2;
    Pow2Add(m - k, 16 - m);
    MulAssociative(a, Pow2(m - k), Pow2(16 - m));
  }

  /** Two codes: the second, cut to the length of the first, is greater than the first. */
  lemma LaterCode(sizes: seq<nat>, p: nat, q: nat, a: nat, b: nat)
    requires Ascending(sizes) && p < q < |sizes| && IsCode(sizes, p, a) && IsCode(sizes, q, b)
    ensures b / Pow2(sizes[q] - sizes[p]) >= a + 1
  {
    hide Pow2, Offset;
    OffsetMonotone(sizes, p, q);
    var k, m := sizes[p], sizes[q];
    Distribute(a, 1, Pow2(16 - k));
    Rescale(a + 1, k, m);
    MulCancel((a + 1) * Pow2(m - k), b, Pow2(16 - m));
    QuotientBound(b, Pow2(m - k), a + 1);
  }

  /** With room left in the code space no code consists of ones only. */
  lemma NotAllOnes(sizes: seq<nat>, p: nat, code: nat)
    requires Ascending(sizes) && p < |sizes| && IsCode(sizes, p, code) && Offset(sizes, |sizes|) < Pow2(16)
    ensures code + 1 < Pow2(sizes[p])
  {
    hide Pow2, Offset;
    OffsetMonotone(sizes, p, |sizes|);
    Distribute(code, 1, Pow2(16 - sizes[p]));
    Share(sizes[p]);
    MulCancel(Pow2(sizes[p]), code + 1, Pow2(16 - sizes[p]));
  }

  // ----- Which tables are accepted -----

  /** `maxsymbol`. */
  function MaxSymbol(isDC: bool): nat {
    if isDC then 15 else 255
  }

  /** The counts as the code reads them: bits[0] is never looked at. */
  function Counts1(bits: seq<Byte>): (b: seq<nat>)
    requires |bits| == 17
    ensures |b| == 17 && b[0] == 0
  {
    bits[0 := 0]
  }

  /** What a table must satisfy: it fits, its codes leave a gap, its symbols are distinct and in range. */
  predicate Acceptable(isDC: bool, tbl: HuffTable) {
    && |tbl.bits| == 17
    && var n := Sum(Counts1(tbl.bits));
       && n <= 256 && KraftBits(Counts1(tbl.bits), 16) < Pow2(16)
       && n <= |tbl.huffval|
       && (forall p :: 0 <= p < n ==> tbl.huffval[p] <= MaxSymbol(isDC))
       && (forall p, q :: 0 <= p < q < n ==> tbl.huffval[p] != tbl.huffval[q])
  }

  /** A table is good for DC differences if it is good for AC coefficients and names categories up to 15 only. */
  lemma DcTables(tbl: HuffTable)
    ensures Acceptable(true, tbl) <==>
            Acceptable(false, tbl) && forall p :: 0 <= p < Sum(Counts1(tbl.bits)) ==> tbl.huffval[p] <= 15
  {
    hide Sum, KraftBits;
  }

  // ----- The code -----

  /** Figure C.1: make the table of code lengths, ended by a zero. */
  method FillSizes(bits: seq<Byte>, huffsize: array<nat>) returns (ok: bool, lastp: nat)
    requires |bits| == 17 && huffsize.Length == 257
    modifies huffsize
    ensures var sizes := Sizes(Counts1(bits), 16);
            && (ok <==> |sizes| <= 256)
            && (ok ==> lastp == |sizes| && huffsize[..lastp] == sizes && huffsize[lastp] == 0)
  {
    ghost var b := Counts1(bits);
    lastp := 0;
    for l := 1 to 17
      invariant lastp <= 256 && huffsize[..lastp] == Sizes(b, l - 1)
    {
      var i := bits[l];
      if lastp + i > 256 {
        SizesGrow(b, l, 16);
        return false, lastp;
      }
      ghost var before := huffsize[..lastp];
      ghost var p0 := lastp;
      while i > 0
        invariant 0 <= i <= bits[l] && lastp == p0 + (bits[l] - i) && lastp <= 256
        invariant huffsize[..lastp] == before + seq(bits[l] - i, _ => l)
      {
        huffsize[lastp] := l;
        lastp := lastp + 1;
        i := i - 1;
      }
    }
    huffsize[lastp] := 0;
    ok := true;
  }

  lemma {:induction false} SizesGrow(b: seq<nat>, l: nat, m: nat)
    requires l <= m < |b|
    ensures |Sizes(b, l)| <= |Sizes(b, m)|
    decreases m
  {
    if l < m {
      SizesGrow(b, l, m - 1);
    }
  }

  /** `code` is one more than the last code so far, counted in units of length si (at most 17). */
  predicate NextCode(sizes: seq<nat>, p: nat, si: nat, code: nat)
    requires Ascending(sizes) && p <= |sizes| && si <= 17
  {
    code * Pow2(17 - si) == 2 * Offset(sizes, p)
  }

  lemma OneCode(sizes: seq<nat>, p: nat, code: nat)
    requires Ascending(sizes) && p < |sizes| && NextCode(sizes, p, sizes[p], code)
    ensures IsCode(sizes, p, code) && NextCode(sizes, p + 1, sizes[p], code + 1)
  {
    var k := sizes[p];
    var w: int := Pow2(16 - k);
    assert Pow2(17 - k) == 2 * w;
    hide Pow2;
    Distribute(code, 1, 2 * w);
    MoveTwo(code, w);
  }

  lemma MoveTwo(a: int, w: int)
    ensures a * (2 * w) == 2 * (a * w) == (2 * a) * w
  {
  }

  lemma LongerCode(sizes: seq<nat>, p: nat, si: nat, code: nat)
    requires Ascending(sizes) && p <= |sizes| && si <= 16 && NextCode(sizes, p, si, code)
    ensures NextCode(sizes, p, si + 1, 2 * code)
    ensures code >= Pow2(si) <==> Offset(sizes, p) >= Pow2(16)
  {
    var w: int := Pow2(16 - si);
    assert Pow2(17 - si) == 2 * w;
    Share(si);
    hide Pow2, Offset;
    MoveTwo(code, w);
    MulCancel(Pow2(si), code, w);
  }

  /** Figure C.2: generate the codes themselves, and validate that they leave a gap. */
  method GenerateCodes(huffsize: array<nat>, lastp: nat, huffcode: array<nat>, ghost sizes: seq<nat>) returns (ok: bool)
    requires huffsize.Length == huffcode.Length == 257 && huffsize != huffcode && lastp <= 256
    requires Ascending(sizes) && |sizes| == lastp && huffsize[..lastp] == sizes && huffsize[lastp] == 0
    modifies huffcode
    ensures ok <==> Offset(sizes, lastp) < Pow2(16)
    ensures ok ==> forall p :: 0 <= p < lastp ==> IsCode(sizes, p, huffcode[p])
  {
    hide Pow2, Offset, NextCode, IsCode;
    var code: nat, si: nat, p: nat := 0, huffsize[0], 0;
    FirstCode(sizes, si);
    while huffsize[p] != 0
      invariant p <= lastp && si <= 17 && NextCode(sizes, p, si, code)
      invariant p < lastp ==> 1 <= si <= huffsize[p]
      invariant Offset(sizes, p) < Pow2(16)
      invariant forall q :: 0 <= q < p ==> IsCode(sizes, q, huffcode[q])
      decreases lastp - p, 18 - si
    {
      ghost var p0 := p;
      while huffsize[p] == si
        invariant p0 <= p <= lastp && 1 <= si <= 16 && NextCode(sizes, p, si, code)
        invariant p < lastp ==> si <= huffsize[p]
        invariant forall q :: 0 <= q < p ==> IsCode(sizes, q, huffcode[q])
        decreases lastp - p
      {
        assert huffsize[..lastp][p] == huffsize[p];
        OneCode(sizes, p, code);
        huffcode[p] := code;
        p := p + 1;
        code := code + 1;
        assert p < lastp ==> huffsize[..lastp][p] == huffsize[p];
      }
      LongerCode(sizes, p, si, code);
      if code >= Pow2(si) {
        OffsetMonotone(sizes, p, lastp);
        return false;
      }
      code := 2 * code;
      si := si + 1;
    }
    ok := true;
  }

  lemma FirstCode(sizes: seq<nat>, si: nat)
    requires Ascending(sizes) && si <= 17
    ensures NextCode(sizes, 0, si, 0) && Offset(sizes, 0) < Pow2(16)
  {
  }

  /** Every listed symbol has its code and length; all other symbols have length 0. */
  predicate Derives(sizes: seq<nat>, list: seq<Byte>, ehufco: seq<nat>, ehufsi: seq<nat>)
    requires Ascending(sizes) && |ehufco| == |ehufsi| == 256 && |list| <= |sizes|
  {
    && (forall p :: 0 <= p < |list| ==> ehufsi[list[p]] == sizes[p] && IsCode(sizes, p, ehufco[list[p]]))
    && (forall s: Byte :: s !in list ==> ehufsi[s] == 0)
  }

  lemma DerivesOne(sizes: seq<nat>, list: seq<Byte>, ehufco: seq<nat>, ehufsi: seq<nat>, i: Byte, code: nat)
    requires Ascending(sizes) && |ehufco| == |ehufsi| == 256 && |list| < |sizes|
    requires Derives(sizes, list, ehufco, ehufsi) && IsCode(sizes, |list|, code)
    ensures ehufsi[i] == 0 <==> i !in list
    ensures i !in list ==> Derives(sizes, list + [i], ehufco[i := code], ehufsi[i := sizes[|list|]])
  {
    hide IsCode;
    if i !in list {
      var more, co, si := list + [i], ehufco[i := code], ehufsi[i := sizes[|list|]];
      forall p | 0 <= p < |more| ensures si[more[p]] == sizes[p] && IsCode(sizes, p, co[more[p]]) {
        if p < |list| {
          assert more[p] == list[p] && list[p] in list;
        }
      }
      forall s: Byte | s !in more ensures si[s] == 0 {
        assert more[|list|] == i;
      }
    }
  }

  /** Figure C.3: generate the encoding tables, code and size indexed by symbol value. */
  method AssignCodes(isDC: bool, huffval: seq<Byte>, huffsize: array<nat>, huffcode: array<nat>, lastp: nat,
                     ehufco: array<nat>, ehufsi: array<nat>, ghost sizes: seq<nat>) returns (ok: bool)
    requires huffsize.Length == huffcode.Length == 257 && ehufco.Length == ehufsi.Length == 256 && lastp <= 256 && lastp <= |huffval|
    requires ehufco != ehufsi && ehufco != huffsize && ehufco != huffcode && ehufsi != huffsize && ehufsi != huffcode
    requires Ascending(sizes) && |sizes| == lastp && huffsize[..lastp] == sizes
    requires forall p :: 0 <= p < lastp ==> IsCode(sizes, p, huffcode[p])
    modifies ehufco, ehufsi
    ensures ok <==> (forall p :: 0 <= p < lastp ==> huffval[p] <= MaxSymbol(isDC))
                    && (forall p, q :: 0 <= p < q < lastp ==> huffval[p] != huffval[q])
    ensures ok ==> Derives(sizes, huffval[..lastp], ehufco[..], ehufsi[..])
  {
    hide IsCode;
    forall i | 0 <= i < 256 {
      ehufsi[i] := 0;
    }
    var maxsymbol := MaxSymbol(isDC);
    for p := 0 to lastp
      invariant forall k :: 0 <= k < p ==> huffval[k] <= maxsymbol
      invariant forall j, k :: 0 <= j < k < p ==> huffval[j] != huffval[k]
      invariant Derives(sizes, huffval[..p], ehufco[..], ehufsi[..])
    {
      var i := huffval[p];
      DerivesOne(sizes, huffval[..p], ehufco[..], ehufsi[..], i, huffcode[p]);
      if i > maxsymbol || ehufsi[i] != 0 {
        return false;
      }
      assert huffsize[..lastp][p] == huffsize[p];
      assert huffval[..p + 1] == huffval[..p] + [i];
      ghost var co, si := ehufco[..], ehufsi[..];
      ehufco[i] := huffcode[p];
      ehufsi[i] := huffsize[p];
      assert ehufco[..] == co[i := huffcode[p]] && ehufsi[..] == si[i := huffsize[p]];
    }
    ok := true;
  }

  lemma AcceptableSizes(bits: seq<Byte>)
    requires |bits| == 17
    ensures var b := Counts1(bits); var sizes := Sizes(b, 16);
            Ascending(sizes) && |sizes| == Sum(b) && Offset(sizes, |sizes|) == KraftBits(b, 16)
  {
    var b := Counts1(bits);
    SizesAscending(b, 16);
    SizesCount(b, 16);
    OffsetIsKraft(b, 16);
    assert b[..17] == b;
    assert Pow2(16 - 16) == 1;
  }

  /**
   * Compute the derived values for a Huffman table: accepted exactly if the table is acceptable. The
   * huffval list is at least as long as the counts demand.
   */
  method MakeDerivedTbl(isDC: bool, tbl: HuffTable, ehufco: array<nat>, ehufsi: array<nat>) returns (ok: bool)
    requires |tbl.bits| == 17 && (Sum(Counts1(tbl.bits)) <= 256 ==> Sum(Counts1(tbl.bits)) <= |tbl.huffval|)
    requires ehufco.Length == ehufsi.Length == 256 && ehufco != ehufsi
    modifies ehufco, ehufsi
    ensures ok <==> Acceptable(isDC, tbl)
    ensures ok ==> var sizes := Sizes(Counts1(tbl.bits), 16);
                   Ascending(sizes) && |sizes| <= |tbl.huffval| && Offset(sizes, |sizes|) < Pow2(16)
                   && Derives(sizes, tbl.huffval[..|sizes|], ehufco[..], ehufsi[..])
  {
    hide Pow2, Offset, IsCode, Sizes, Sum, KraftBits, Derives;
    AcceptableSizes(tbl.bits);
    ghost var sizes := Sizes(Counts1(tbl.bits), 16);
    var huffsize, huffcode := new nat[257], new nat[257];
    var lastp;
    ok, lastp := FillSizes(tbl.bits, huffsize);
    if ok {
      ok := GenerateCodes(huffsize, lastp, huffcode, sizes);
      if ok {
        ok := AssignCodes(isDC, tbl.huffval, huffsize, huffcode, lastp, ehufco, ehufsi, sizes);
      }
    }
  }

  // ----- What follows for every accepted table -----

  /** No code is a prefix of another, none is all ones, and exactly the listed symbols have one. */
  predicate PrefixCode(ehufco: seq<nat>, ehufsi: seq<nat>) {
    && |ehufco| == |ehufsi| == 256
    && (forall s :: 0 <= s < 256 && ehufsi[s] > 0 ==> ehufsi[s] <= 16 && ehufco[s] + 1 < Pow2(ehufsi[s]))
    && (forall s, t :: 0 <= s < 256 && 0 <= t < 256 && s != t && 0 < ehufsi[s] <= ehufsi[t] ==>
          ehufco[t] / Pow2(ehufsi[t] - ehufsi[s]) != ehufco[s])
  }

  /** Any table that is accepted gives distinct symbols a prefix code without an all-ones code. */
  lemma DerivedIsPrefixCode(sizes: seq<nat>, list: seq<Byte>, ehufco: seq<nat>, ehufsi: seq<nat>)
    requires Ascending(sizes) && |list| == |sizes| && |ehufco| == |ehufsi| == 256 && Offset(sizes, |sizes|) < Pow2(16)
    requires Derives(sizes, list, ehufco, ehufsi) && forall p, q :: 0 <= p < q < |list| ==> list[p] != list[q]
    ensures PrefixCode(ehufco, ehufsi)
    ensures forall s: Byte :: ehufsi[s] > 0 <==> s in list
  {
    hide Pow2, Offset, IsCode;
    forall s: Byte | ehufsi[s] > 0 ensures s in list && ehufsi[s] <= 16 && ehufco[s] + 1 < Pow2(ehufsi[s]) {
      assert s in list;
      var p :| 0 <= p < |list| && list[p] == s;
      NotAllOnes(sizes, p, ehufco[s]);
    }
    forall s: Byte, t: Byte | s != t && 0 < ehufsi[s] <= ehufsi[t]
      ensures ehufco[t] / Pow2(ehufsi[t] - ehufsi[s]) != ehufco[s]
    {
      assert s in list && t in list;
      var p, q :| 0 <= p < |list| && list[p] == s && 0 <= q < |list| && list[q] == t;
      if p < q {
        LaterCode(sizes, p, q, ehufco[s], ehufco[t]);
      } else {
        EarlierCode(sizes, q, p, ehufco[t], ehufco[s]);
      }
    }
  }

  /** Codes of equal length: the earlier one is smaller. */
  lemma EarlierCode(sizes: seq<nat>, p: nat, q: nat, a: nat, b: nat)
    requires Ascending(sizes) && p < q < |sizes| && IsCode(sizes, p, a) && IsCode(sizes, q, b) && sizes[q] <= sizes[p]
    ensures a / Pow2(sizes[p] - sizes[q]) != b
  {
    LaterCode(sizes, p, q, a, b);
    assert sizes[p] == sizes[q] && Pow2(0) == 1;
  }

  /** The table that jpeg_gen_optimal_table makes is always accepted; for DC if the symbols are at most 15. */
  lemma OptimalTableAccepted(isDC: bool, f: seq<nat>, lengths: seq<nat>, tbl: HuffTable)
    requires |f| == NUM_SYMBOLS == |lengths| && TableFor(f, lengths, tbl)
    requires isDC ==> forall s :: 15 < s < 256 ==> f[s] == 0
    ensures Acceptable(isDC, tbl)
  {
    assert Counts1(tbl.bits) == tbl.bits;
    UsedAtMost(f[..256]);
    forall p | 0 <= p < |tbl.huffval| ensures tbl.huffval[p] <= MaxSymbol(isDC) {
      assert tbl.huffval[p] in tbl.huffval;
    }
  }

  // ----- The order of the codes, and how long they are -----

  /**
   * Annex C of ITU-T T.81: the first code is zero, and each code is the one before it plus one, with
   * zeros appended up to its own length.
   */
  lemma CodesAreConsecutive(sizes: seq<nat>, list: seq<Byte>, ehufco: seq<nat>, ehufsi: seq<nat>, p: nat)
    requires Ascending(sizes) && |list| == |sizes| && |ehufco| == |ehufsi| == 256 && p < |list|
    requires Derives(sizes, list, ehufco, ehufsi)
    ensures p == 0 ==> ehufco[list[p]] == 0
    ensures p > 0 ==> ehufsi[list[p - 1]] <= ehufsi[list[p]]
                      && ehufco[list[p]] == (ehufco[list[p - 1]] + 1) * Pow2(ehufsi[list[p]] - ehufsi[list[p - 1]])
  {
    hide Pow2, IsCode, Offset;
    if p == 0 {
      CodeZero(sizes, ehufco[list[p]]);
    } else {
      CodeAfter(sizes, p, ehufco[list[p - 1]], ehufco[list[p]]);
    }
  }

  lemma CodeZero(sizes: seq<nat>, code: nat)
    requires Ascending(sizes) && sizes != [] && IsCode(sizes, 0, code)
    ensures code == 0
  {
    MulCancel(code, 0, Pow2(16 - sizes[0]));
  }

  lemma CodeAfter(sizes: seq<nat>, p: nat, before: nat, code: nat)
    requires Ascending(sizes) && 0 < p < |sizes| && IsCode(sizes, p - 1, before) && IsCode(sizes, p, code)
    ensures code == (before + 1) * Pow2(sizes[p] - sizes[p - 1])
  {
    hide Pow2;
    var k, m := sizes[p - 1], sizes[p];
    Distribute(before, 1, Pow2(16 - k));
    Rescale(before + 1, k, m);
    MulCancel(code, (before + 1) * Pow2(m - k), Pow2(16 - m));
  }

  /** A list of different symbols that are all counted. */
  lemma {:induction false} DistinctUsed(g: seq<nat>, list: seq<Byte>)
    requires forall a, b :: 0 <= a < b < |list| ==> list[a] != list[b]
    requires forall a :: 0 <= a < |list| ==> list[a] < |g| && g[list[a]] > 0
    ensures |list| <= Used(g)
    decreases |list|
  {
    if list != [] {
      var n := |list| - 1;
      var s := list[n];
      SumUpdate(g, s, 0);
      DistinctUsed(g[s := 0], list[..n]);
    }
  }

  /** The lengths up to k; longer ones are taken for unused. */
  function UpTo(l: seq<nat>, k: nat): (r: seq<nat>)
    ensures |r| == |l| && forall s :: 0 <= s < |l| ==> r[s] == if l[s] <= k then l[s] else 0
  {
    seq(|l|, s requires 0 <= s < |l| => if l[s] <= k then l[s] else 0)
  }

  lemma {:induction false} UpToHistogram(l: seq<nat>, k: nat, j: nat)
    requires j > 0
    ensures HowMany(UpTo(l, k), j) == if j <= k then HowMany(l, j) else 0
  {
    if l != [] {
      var n := |l| - 1;
      assert UpTo(l, k)[..n] == UpTo(l[..n], k);
      UpToHistogram(l[..n], k, j);
    }
  }

  /** There are at least as many codes of length at most k as symbols of the list. */
  lemma EnoughCodes(l: seq<nat>, list: seq<Byte>, k: nat)
    requires k <= 16 && forall a, b :: 0 <= a < b < |list| ==> list[a] != list[b]
    requires forall a :: 0 <= a < |list| ==> list[a] < |l| && 0 < l[list[a]] <= k
    ensures |list| <= Sum(Histogram(l, 16)[..k + 1])
  {
    hide Sum, HowMany, Used;
    var l' := UpTo(l, k);
    DistinctUsed(l', list);
    HistogramUpTo(l, k);
    CountedKraft(l', l', Histogram(l', MAX_CLEN));
  }

  /** Entry p of the sizes is at most k as soon as more than p codes are that short. */
  lemma {:induction false} SizeAt(bits: seq<nat>, m: nat, k: nat, p: nat)
    requires k <= m < |bits| && m <= 16 && bits[0] == 0 && p < Sum(bits[..k + 1])
    ensures p < |Sizes(bits, m)| && Sizes(bits, m)[p] <= k
    decreases m
  {
    if k < m {
      SizeAt(bits, m - 1, k, p);
    } else {
      SizesCount(bits, k);
      SizesAscending(bits, k);
    }
  }

  /** One code less of length i: the sums up to shorter lengths are the same. */
  lemma DroppedSum(b: seq<nat>, i: nat, r: seq<nat>, k: nat)
    requires LongestDropped(b, i, r) && k < |b|
    ensures k < i ==> Sum(r[..k + 1]) == Sum(b[..k + 1])
    ensures k >= i ==> Sum(r[..k + 1]) == Sum(r)
  {
    if k < i {
      assert r[..k + 1] == b[..k + 1];
    } else {
      SumCut(r, k);
    }
  }

  /** No fewer than the symbols of at most that length, if the list has them all. */
  lemma {:induction false} AllListed(g: seq<nat>, list: seq<Byte>)
    requires |g| <= 256 && forall s: nat :: s < |g| && g[s] > 0 ==> s in list
    ensures Used(g) <= |list|
    decreases |g|
  {
    if g != [] {
      var n := |g| - 1;
      if g[n] > 0 {
        var k :| 0 <= k < |list| && list[k] == n;
        forall s: nat | s < n && g[s] > 0 ensures s in Without(list, k) {
          WithoutAt(list, k, s);
        }
        AllListed(g[..n], Without(list, k));
      } else {
        AllListed(g[..n], list);
      }
    }
  }

  /** Symbols that are all in the list have no more codes of length at most k. */
  lemma NotTooManyCodes(l: seq<nat>, list: seq<Byte>, k: nat)
    requires |l| == NUM_SYMBOLS && k <= 16 && l[256] > k
    requires forall s: nat :: s < 256 && 0 < l[s] <= k ==> s in list
    ensures Sum(Histogram(l, 16)[..k + 1]) <= |list|
  {
    hide Sum, HowMany, Used;
    var l' := UpTo(l, k);
    HistogramUpTo(l, k);
    CountedKraft(l', l', Histogram(l', MAX_CLEN));
    UsedFront(l');
    AllListed(l'[..256], list);
  }

  lemma UsedFront(g: seq<nat>)
    requires |g| == NUM_SYMBOLS && g[256] == 0
    ensures Used(g) == Used(g[..256])
  {
  }

  lemma HistogramUpTo(l: seq<nat>, k: nat)
    requires k <= 16
    ensures var b := Histogram(UpTo(l, k), MAX_CLEN);
            Counts(b, UpTo(l, k)) && Sum(b) == Sum(Histogram(l, 16)[..k + 1])
  {
    hide Sum, HowMany;
    var b := Histogram(UpTo(l, k), MAX_CLEN);
    forall j | 0 < j <= MAX_CLEN ensures b[j] == if j <= k then HowMany(l, j) else 0 {
      UpToHistogram(l, k, j);
    }
    SumCut(b, k);
    assert b[..k + 1] == Histogram(l, 16)[..k + 1];
  }

  /** Entry p of the sizes is above k if there are no more than p codes that short. */
  lemma {:induction false} SizeAbove(bits: seq<nat>, m: nat, k: nat, p: nat)
    requires k <= m < |bits| && m <= 16 && bits[0] == 0 && Sum(bits[..k + 1]) <= p < |Sizes(bits, m)|
    ensures Sizes(bits, m)[p] > k
    decreases m
  {
    SizesCount(bits, k);
    SizesAscending(bits, m);
    if k < m && p < |Sizes(bits, m - 1)| {
      SizeAbove(bits, m - 1, k, p);
    }
  }

  /** If the optimal code has no length above 16, the table gives no symbol a longer code than that does. */
  lemma NoLongerCodes(f: seq<nat>, lengths: seq<nat>, tbl: HuffTable, p: nat)
    requires |f| == NUM_SYMBOLS == |lengths| && TableFor(f, lengths, tbl) && AtMost(lengths, 16)
    requires forall s :: 0 <= s < NUM_SYMBOLS ==> (lengths[s] > 0 <==> f[s] > 0)
    requires p < |tbl.huffval|
    ensures var sizes := Sizes(Counts1(tbl.bits), 16); p < |sizes| && sizes[p] <= lengths[tbl.huffval[p]]
  {
    hide Sum, Sizes, Full, Histogram, KraftBits, BitsFor, Used;
    assert Counts1(tbl.bits) == tbl.bits;
    WithinSixteen(lengths, tbl.bits);
    var i: nat :| LongestDropped(Histogram(lengths, 16), i, tbl.bits);
    var k, list := lengths[tbl.huffval[p]], tbl.huffval[..p + 1];
    forall a | 0 <= a < |list| ensures 0 < lengths[list[a]] <= k {
      assert list[a] == tbl.huffval[a] && tbl.huffval[a] in tbl.huffval;
    }
    EnoughCodes(lengths, list, k);
    DroppedSum(Histogram(lengths, 16), i, tbl.bits, k);
    SizeAt(tbl.bits, 16, k, p);
  }

  /** Nor does it give one a shorter code, as long as the pseudo-symbol has a code of the greatest length. */
  lemma NoShorterCodes(f: seq<nat>, lengths: seq<nat>, tbl: HuffTable, p: nat)
    requires |f| == NUM_SYMBOLS == |lengths| && TableFor(f, lengths, tbl) && AtMost(lengths, 16)
    requires forall s :: 0 <= s < NUM_SYMBOLS ==> (lengths[s] > 0 <==> f[s] > 0)
    requires forall s :: 0 <= s < NUM_SYMBOLS ==> lengths[s] <= lengths[256]
    requires p < |tbl.huffval|
    ensures var sizes := Sizes(Counts1(tbl.bits), 16); p < |sizes| && sizes[p] >= lengths[tbl.huffval[p]]
  {
    hide Sum, Sizes, Full, Histogram, KraftBits, BitsFor, Used;
    NoLongerCodes(f, lengths, tbl, p);
    assert Counts1(tbl.bits) == tbl.bits;
    WithinSixteen(lengths, tbl.bits);
    var i: nat :| LongestDropped(Histogram(lengths, 16), i, tbl.bits);
    assert tbl.huffval[p] in tbl.huffval;
    var k, list := lengths[tbl.huffval[p]] - 1, tbl.huffval[..p];
    ShorterComeFirst(f, lengths, tbl, p);
    NotTooManyCodes(lengths, list, k);
    LongestInUse(lengths, i);
    DroppedSum(Histogram(lengths, 16), i, tbl.bits, k);
    SizeAbove(tbl.bits, 16, k, p);
  }

  /** What has a shorter code than entry p is listed before it. */
  lemma ShorterComeFirst(f: seq<nat>, lengths: seq<nat>, tbl: HuffTable, p: nat)
    requires |f| == NUM_SYMBOLS == |lengths| && TableFor(f, lengths, tbl) && p < |tbl.huffval|
    requires forall s :: 0 <= s < NUM_SYMBOLS ==> (lengths[s] > 0 <==> f[s] > 0)
    ensures forall s: nat :: s < 256 && 0 < lengths[s] < lengths[tbl.huffval[p]] ==> s in tbl.huffval[..p]
  {
    hide Sum, Sizes, KraftBits, BitsFor, Used;
    forall s: nat | s < 256 && 0 < lengths[s] < lengths[tbl.huffval[p]] ensures s in tbl.huffval[..p] {
      assert s in tbl.huffval;
      var q :| 0 <= q < |tbl.huffval| && tbl.huffval[q] == s;
      assert q < p;
    }
  }

  /** The length that loses a code is that of the pseudo-symbol at most. */
  lemma LongestInUse(lengths: seq<nat>, i: nat)
    requires |lengths| == NUM_SYMBOLS && 0 < lengths[256] <= 16 && i <= 16
    requires forall k :: i < k <= 16 ==> Histogram(lengths, 16)[k] == 0
    ensures lengths[256] <= i
  {
    var k := lengths[256];
    if k > i {
      assert Histogram(lengths, 16)[k] == HowMany(lengths, k);
    }
  }

  /** If the optimal code has no length above 16, the table gives every symbol a code of exactly that length. */
  lemma OptimalLengths(f: seq<nat>, lengths: seq<nat>, tbl: HuffTable, p: nat)
    requires |f| == NUM_SYMBOLS && f[256] == 1 && Sum(f) <= CUTOFF && lengths == MergeLengths(f)
    requires TableFor(f, lengths, tbl) && AtMost(lengths, 16) && p < |tbl.huffval|
    requires forall s :: 0 <= s < NUM_SYMBOLS ==> (lengths[s] > 0 <==> f[s] > 0)
    ensures var sizes := Sizes(Counts1(tbl.bits), 16); p < |sizes| && sizes[p] == lengths[tbl.huffval[p]]
  {
    hide MergeLengths, Sum, Sizes, TableFor;
    forall s | 0 <= s < NUM_SYMBOLS ensures lengths[s] <= lengths[256] {
      LastGetsLongest(f, s);
    }
    NoLongerCodes(f, lengths, tbl, p);
    NoShorterCodes(f, lengths, tbl, p);
  }
}
