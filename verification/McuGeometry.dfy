/**
 * Image dimensions in blocks and MCUs: initial_setup and per_scan_setup of jcmaster.c, and the fact that
 * MCUs tile the padded block grid of every component (section A.2 of ITU-T T.81).
 */
module McuGeometry {
  import opened Arithmetic
  import opened Blocks

  const DCTSIZE := 8
  const MAX_SAMP_FACTOR := 4
  const C_MAX_BLOCKS_IN_MCU := 10
  const JPEG_MAX_DIMENSION := 65500
  const BITS_IN_JSAMPLE := 8

  // ----- Ceilings -----

  function DivRoundUp(a: nat, b: nat): (q: nat)
    requires b > 0
  {
    QuotientBound(a + b - 1, b, 0);
    (a + b - 1) / b
  }

  /** The ceiling is the least number of b's that cover a. */
  lemma CeilingBound(a: nat, b: nat, q: int)
    requires b > 0
    ensures DivRoundUp(a, b) <= q <==> a <= q * b
  {
    QuotientBound(a + b - 1, b, q + 1);
    Distribute(q, 1, b);
  }

  lemma CeilingIs(a: nat, b: nat, q: nat)
    requires b > 0 && a <= q * b && (q - 1) * b < a
    ensures DivRoundUp(a, b) == q
  {
    CeilingBound(a, b, q);
    CeilingBound(a, b, q - 1);
  }

  lemma NestedBound(w: nat, h: nat, m: nat, blocks: nat, q: int)
    requires h > 0 && m > 0 && blocks == DivRoundUp(w * h, m)
    ensures DivRoundUp(blocks, h) <= q <==> DivRoundUp(w, m) <= q
  {
    hide DivRoundUp;
    CeilingBound(blocks, h, q);
    CeilingBound(w * h, m, q * h);
    CeilingBound(w, m, q);
    Reorder(q, h, m);
    MulCancel(w, q * m, h);
  }

  lemma Reorder(q: int, h: int, m: int)
    ensures q * h * m == q * m * h
  {
  }

  /** Rounding up the number of blocks and then that of MCUs is rounding up once. */
  lemma NestedCeiling(w: nat, h: nat, m: nat)
    requires h > 0 && m > 0
    ensures DivRoundUp(DivRoundUp(w * h, m), h) == DivRoundUp(w, m)
  {
    hide DivRoundUp;
    var blocks := DivRoundUp(w * h, m);
    NestedBound(w, h, m, blocks, DivRoundUp(blocks, h));
    NestedBound(w, h, m, blocks, DivRoundUp(w, m));
  }

  // ----- Frames -----

  /** Sampling factors, and the size in blocks. */
  datatype Component = Component(h: nat, v: nat, widthInBlocks: nat, heightInBlocks: nat)

  datatype Frame = Frame(width: nat, height: nat, maxH: nat, maxV: nat, comps: seq<Component>, iMcuRows: nat)

  predicate ComponentOk(f: Frame, c: Component)
    requires f.maxH > 0 && f.maxV > 0
  {
    && 1 <= c.h <= f.maxH && 1 <= c.v <= f.maxV
    && c.widthInBlocks == DivRoundUp(f.width * c.h, f.maxH * DCTSIZE)
    && c.heightInBlocks == DivRoundUp(f.height * c.v, f.maxV * DCTSIZE)
  }

  predicate FrameOk(f: Frame) {
    && f.width > 0 && f.height > 0 && 1 <= f.maxH <= MAX_SAMP_FACTOR && 1 <= f.maxV <= MAX_SAMP_FACTOR
    && f.iMcuRows == DivRoundUp(f.height, f.maxV * DCTSIZE)
    && 1 <= |f.comps| <= MAX_COMPONENTS
    && forall ci :: 0 <= ci < |f.comps| ==> ComponentOk(f, f.comps[ci])
  }

  /** The number of fully interleaved MCUs across. */
  function McusAcross(f: Frame): nat
    requires f.maxH > 0
  {
    DivRoundUp(f.width, f.maxH * DCTSIZE)
  }

  /** The part of n blocks that lies in the last group of size u. */
  function LastPart(n: nat, u: nat): nat
    requires u > 0
  {
    if n % u == 0 then u else n % u
  }

  lemma LastPartIs(n: nat, u: nat, k: nat)
    requires u > 0 && n > 0 && k == DivRoundUp(n, u)
    ensures 1 <= LastPart(n, u) <= u && k >= 1 && n == (k - 1) * u + LastPart(n, u)
  {
    var q, r := n / u, n % u;
    DivMod(n, u);
    QuotientBound(n, u, 0);
    Distribute(q, 1, u);
    Distribute(q - 1, 1, u);
    if r == 0 {
      CeilingIs(n, u, q);
    } else {
      CeilingIs(n, u, q + 1);
    }
  }

  lemma CeilingPositive(a: nat, b: nat)
    requires a > 0 && b > 0
    ensures DivRoundUp(a, b) > 0
  {
    CeilingBound(a, b, 0);
  }

  /** MCUs tile the padded grid of every component; only the last column and the last row have padding. */
  lemma McusTile(f: Frame, c: Component)
    requires FrameOk(f) && ComponentOk(f, c)
    ensures c.widthInBlocks > 0 && c.heightInBlocks > 0 && McusAcross(f) > 0 && f.iMcuRows > 0
    ensures c.widthInBlocks == (McusAcross(f) - 1) * c.h + LastPart(c.widthInBlocks, c.h) && 1 <= LastPart(c.widthInBlocks, c.h) <= c.h
    ensures c.heightInBlocks == (f.iMcuRows - 1) * c.v + LastPart(c.heightInBlocks, c.v) && 1 <= LastPart(c.heightInBlocks, c.v) <= c.v
  {
    MulAtLeast(f.width, c.h);
    MulAtLeast(f.height, c.v);
    CeilingPositive(f.width * c.h, f.maxH * DCTSIZE);
    CeilingPositive(f.height * c.v, f.maxV * DCTSIZE);
    NestedCeiling(f.width, c.h, f.maxH * DCTSIZE);
    NestedCeiling(f.height, c.v, f.maxV * DCTSIZE);
    LastPartIs(c.widthInBlocks, c.h, McusAcross(f));
    LastPartIs(c.heightInBlocks, c.v, f.iMcuRows);
  }

  /** initial_setup, from the dimensions and the sampling factors. */
  datatype Sampling = Sampling(h: int, v: int)

  datatype FrameResult = GoodFrame(f: Frame) | EmptyImage | ImageTooBig | WidthOverflow | BadPrecision | BadComponentCount | BadSampling

  predicate SamplingOk(s: Sampling) {
    1 <= s.h <= MAX_SAMP_FACTOR && 1 <= s.v <= MAX_SAMP_FACTOR
  }

  predicate AllSamplingOk(ss: seq<Sampling>) {
    forall i :: 0 <= i < |ss| ==> SamplingOk(ss[i])
  }

  method MaxFactors(ss: seq<Sampling>) returns (ok: bool, maxH: nat, maxV: nat)
    ensures ok <==> AllSamplingOk(ss)
    ensures 1 <= maxH <= MAX_SAMP_FACTOR && 1 <= maxV <= MAX_SAMP_FACTOR
    ensures ok ==> forall i :: 0 <= i < |ss| ==> ss[i].h <= maxH && ss[i].v <= maxV
    ensures ok ==> (maxH == 1 || exists i :: 0 <= i < |ss| && ss[i].h == maxH) && (maxV == 1 || exists i :: 0 <= i < |ss| && ss[i].v == maxV)
  {
    maxH, maxV := 1, 1;
    for ci := 0 to |ss|
      invariant 1 <= maxH <= MAX_SAMP_FACTOR && 1 <= maxV <= MAX_SAMP_FACTOR
      invariant forall i :: 0 <= i < ci ==> SamplingOk(ss[i]) && ss[i].h <= maxH && ss[i].v <= maxV
      invariant (maxH == 1 || exists i :: 0 <= i < ci && ss[i].h == maxH) && (maxV == 1 || exists i :: 0 <= i < ci && ss[i].v == maxV)
    {
      if ss[ci].h <= 0 || ss[ci].h > MAX_SAMP_FACTOR || ss[ci].v <= 0 || ss[ci].v > MAX_SAMP_FACTOR {
        return false, maxH, maxV;
      }
      maxH := if ss[ci].h > maxH then ss[ci].h else maxH;
      maxV := if ss[ci].v > maxV then ss[ci].v else maxV;
    }
    ok := true;
  }

  /** The first check that fails; `long` is taken to hold the product. */
  ghost function SetupError(width: nat, height: nat, inputComponents: int, precision: int, ss: seq<Sampling>): FrameResult {
    if height == 0 || width == 0 || |ss| == 0 || inputComponents <= 0 then EmptyImage
    else if height > JPEG_MAX_DIMENSION || width > JPEG_MAX_DIMENSION then ImageTooBig
    else if width * inputComponents >= 0x1_0000_0000 then WidthOverflow
    else if precision != BITS_IN_JSAMPLE then BadPrecision
    else if |ss| > MAX_COMPONENTS then BadComponentCount
    else BadSampling
  }

  method InitialSetup(width: nat, height: nat, inputComponents: int, precision: int, ss: seq<Sampling>) returns (r: FrameResult)
    ensures r.GoodFrame? <==> && 0 < width <= JPEG_MAX_DIMENSION && 0 < height <= JPEG_MAX_DIMENSION && 1 <= |ss| <= MAX_COMPONENTS && AllSamplingOk(ss)
                              && 0 < inputComponents && width * inputComponents < 0x1_0000_0000 && precision == BITS_IN_JSAMPLE
    ensures !r.GoodFrame? ==> r == SetupError(width, height, inputComponents, precision, ss)
    ensures r.GoodFrame? ==> FrameOk(r.f) && r.f.width == width && r.f.height == height && |r.f.comps| == |ss|
    ensures r.GoodFrame? ==> forall i :: 0 <= i < |ss| ==> r.f.comps[i].h == ss[i].h && r.f.comps[i].v == ss[i].v
    ensures r.GoodFrame? ==> (exists i :: 0 <= i < |ss| && ss[i].h == r.f.maxH) && (exists i :: 0 <= i < |ss| && ss[i].v == r.f.maxV)
  {
    if height == 0 || width == 0 || |ss| == 0 || inputComponents <= 0 {
      return EmptyImage;
    }
    if height > JPEG_MAX_DIMENSION || width > JPEG_MAX_DIMENSION {
      return ImageTooBig;
    }
    var samplesPerRow := width * inputComponents;
    assert samplesPerRow >= 0;
    if samplesPerRow % 0x1_0000_0000 != samplesPerRow {
      return WidthOverflow;
    }
    if precision != BITS_IN_JSAMPLE {
      return BadPrecision;
    }
    if |ss| > MAX_COMPONENTS {
      return BadComponentCount;
    }
    var ok, maxH, maxV := MaxFactors(ss);
    if !ok {
      return BadSampling;
    }
    assert SamplingOk(ss[0]) && ss[0].h <= maxH && ss[0].v <= maxV;
    hide DivRoundUp;
    ghost var f := Frame(width, height, maxH, maxV, [], DivRoundUp(height, maxV * DCTSIZE));
    var comps: seq<Component> := [];
    for ci := 0 to |ss|
      invariant |comps| == ci
      invariant forall i :: 0 <= i < ci ==> comps[i].h == ss[i].h && comps[i].v == ss[i].v && ComponentOk(f, comps[i])
    {
      var h: nat, v: nat := ss[ci].h, ss[ci].v;
      comps := comps + [Component(h, v, DivRoundUp(width * h, maxH * DCTSIZE), DivRoundUp(height * v, maxV * DCTSIZE))];
    }
    r := GoodFrame(Frame(width, height, maxH, maxV, comps, DivRoundUp(height, maxV * DCTSIZE)));
  }

  // ----- Scans -----

  /** A component as it is laid out in the MCUs of a scan. */
  datatype Placed = Placed(index: nat, c: Component, mcuWidth: nat, mcuHeight: nat, lastColWidth: nat, lastRowHeight: nat)

  datatype Layout = Layout(comps: seq<Placed>, mcusPerRow: nat, mcuRows: nat, blocksInMcu: nat, membership: seq<nat>)

  /** Components exist, and appear in frame order (section B.2.3 of ITU-T T.81; jcmaster.c:203-220). */
  predicate ScanInFrame(f: Frame, scan: seq<nat>) {
    && 1 <= |scan| <= MAX_COMPS_IN_SCAN
    && (forall i :: 0 <= i < |scan| ==> scan[i] < |f.comps|)
    && (forall i, j :: 0 <= i < j < |scan| ==> scan[i] < scan[j])
  }

  /** How a component is placed: one block per MCU if it is alone, a full rectangle otherwise. */
  function PlacedAs(f: Frame, scan: seq<nat>, i: nat): Placed
    requires FrameOk(f) && ScanInFrame(f, scan) && i < |scan|
  {
    var c := f.comps[scan[i]];
    if |scan| == 1 then Placed(scan[i], c, 1, 1, 1, LastPart(c.heightInBlocks, c.v))
    else Placed(scan[i], c, c.h, c.v, LastPart(c.widthInBlocks, c.h), LastPart(c.heightInBlocks, c.v))
  }

  /** The number of blocks of the first n components in an MCU. */
  function BlocksOf(comps: seq<Placed>): nat {
    if comps == [] then 0 else BlocksOf(comps[..|comps| - 1]) + comps[|comps| - 1].mcuWidth * comps[|comps| - 1].mcuHeight
  }

  predicate LayoutOk(f: Frame, scan: seq<nat>, l: Layout)
    requires FrameOk(f) && ScanInFrame(f, scan)
  {
    && |l.comps| == |scan| && (forall i :: 0 <= i < |scan| ==> l.comps[i] == PlacedAs(f, scan, i))
    && l.blocksInMcu == BlocksOf(l.comps) <= C_MAX_BLOCKS_IN_MCU
    && l.mcusPerRow == (if |scan| == 1 then f.comps[scan[0]].widthInBlocks else McusAcross(f))
    && l.mcuRows == (if |scan| == 1 then f.comps[scan[0]].heightInBlocks else f.iMcuRows)
  }

  /** The component of each block of an MCU. */
  function Membership(comps: seq<Placed>): (m: seq<nat>)
    ensures |m| == BlocksOf(comps)
  {
    if comps == [] then []
    else
      var n := |comps| - 1;
      Membership(comps[..n]) + seq(comps[n].mcuWidth * comps[n].mcuHeight, _ => n)
  }

  /** per_scan_setup; false stands for the error exit on an MCU of too many blocks. */
  method PerScanSetup(f: Frame, scan: seq<nat>) returns (ok: bool, l: Layout)
    requires FrameOk(f) && ScanInFrame(f, scan)
    ensures ok <==> |scan| == 1 || BlocksOf(seq(|scan|, i requires 0 <= i < |scan| => PlacedAs(f, scan, i))) <= C_MAX_BLOCKS_IN_MCU
    ensures ok ==> LayoutOk(f, scan, l) && l.membership == Membership(l.comps)
  {
    ghost var all := seq(|scan|, i requires 0 <= i < |scan| => PlacedAs(f, scan, i));
    if |scan| == 1 {
      var c := f.comps[scan[0]];
      var tmp := c.heightInBlocks % c.v;
      if tmp == 0 {
        tmp := c.v;
      }
      l := Layout([Placed(scan[0], c, 1, 1, 1, tmp)], c.widthInBlocks, c.heightInBlocks, 1, [0]);
      ok := true;
      OneBlock(l.comps);
    } else {
      ok, l := InterleavedSetup(f, scan, all);
    }
  }

  lemma OneBlock(comps: seq<Placed>)
    requires |comps| == 1 && comps[0].mcuWidth == comps[0].mcuHeight == 1
    ensures BlocksOf(comps) == 1 && Membership(comps) == [0]
  {
    assert comps[..0] == [] && BlocksOf([]) == 0 && Membership([]) == [];
  }

  method InterleavedSetup(f: Frame, scan: seq<nat>, ghost all: seq<Placed>) returns (ok: bool, l: Layout)
    requires FrameOk(f) && ScanInFrame(f, scan) && |scan| > 1
    requires |all| == |scan| && forall i :: 0 <= i < |scan| ==> all[i] == PlacedAs(f, scan, i)
    ensures ok <==> BlocksOf(all) <= C_MAX_BLOCKS_IN_MCU
    ensures ok ==> LayoutOk(f, scan, l) && l.membership == Membership(l.comps)
  {
    hide DivRoundUp, BlocksOf, Membership, LayoutOk, McusAcross;
    l := Layout([], McusAcross(f), f.iMcuRows, 0, []);
    var comps: seq<Placed> := [];
    var blocksInMcu := 0;
    var membership := [];
    NoneYet();
    assert all[..0] == [];
    for ci := 0 to |scan|
      invariant comps == all[..ci] && blocksInMcu == BlocksOf(comps) <= C_MAX_BLOCKS_IN_MCU && membership == Membership(comps)
    {
      var p := PlaceInterleaved(f, scan, ci);
      OneMoreComponent(comps, p);
      comps := comps + [p];
      assert all[..ci + 1] == all[..ci] + [all[ci]];
      var mcublks := p.mcuWidth * p.mcuHeight;
      if blocksInMcu + mcublks > C_MAX_BLOCKS_IN_MCU {
        MoreBlocks(all, ci + 1);
        return false, l;
      }
      membership := AddMembers(membership, ci, mcublks);
      blocksInMcu := blocksInMcu + mcublks;
    }
    assert all[..|scan|] == all;
    l := Layout(comps, McusAcross(f), f.iMcuRows, blocksInMcu, membership);
    LaidOut(f, scan, l);
    ok := true;
  }

  lemma NoneYet()
    ensures BlocksOf([]) == 0 && Membership([]) == []
  {
  }

  lemma LaidOut(f: Frame, scan: seq<nat>, l: Layout)
    requires FrameOk(f) && ScanInFrame(f, scan) && |scan| > 1
    requires |l.comps| == |scan| && forall i :: 0 <= i < |scan| ==> l.comps[i] == PlacedAs(f, scan, i)
    requires l.blocksInMcu == BlocksOf(l.comps) <= C_MAX_BLOCKS_IN_MCU && l.mcusPerRow == McusAcross(f) && l.mcuRows == f.iMcuRows
    ensures LayoutOk(f, scan, l)
  {
  }

  /** A component of an interleaved scan, with the number of non-dummy blocks in the last MCU column and row. */
  method PlaceInterleaved(f: Frame, scan: seq<nat>, ci: nat) returns (p: Placed)
    requires FrameOk(f) && ScanInFrame(f, scan) && |scan| > 1 && ci < |scan|
    ensures p == PlacedAs(f, scan, ci)
  {
    hide DivRoundUp;
    var c := f.comps[scan[ci]];
    var lastCol := c.widthInBlocks % c.h;
    if lastCol == 0 {
      lastCol := c.h;
    }
    var lastRow := c.heightInBlocks % c.v;
    if lastRow == 0 {
      lastRow := c.v;
    }
    p := Placed(scan[ci], c, c.h, c.v, lastCol, lastRow);
  }

  /** One component more. */
  lemma OneMoreComponent(comps: seq<Placed>, p: Placed)
    ensures BlocksOf(comps + [p]) == BlocksOf(comps) + p.mcuWidth * p.mcuHeight
    ensures Membership(comps + [p]) == Membership(comps) + seq(p.mcuWidth * p.mcuHeight, _ => |comps|)
  {
    assert (comps + [p])[..|comps|] == comps;
  }

  lemma {:induction false} MoreBlocks(all: seq<Placed>, n: nat)
    requires n <= |all|
    ensures BlocksOf(all[..n]) <= BlocksOf(all)
    decreases |all|
  {
    if n == |all| {
      assert all[..n] == all;
    } else {
      MoreBlocks(all[..|all| - 1], n);
      assert all[..|all| - 1][..n] == all[..n];
    }
  }

  /** `while (mcublks-- > 0) MCU_membership[blocks_in_MCU++] = ci;` */
  method AddMembers(members: seq<nat>, ci: nat, mcublks: nat) returns (m: seq<nat>)
    ensures m == members + seq(mcublks, _ => ci)
  {
    m := members;
    for k := 0 to mcublks
      invariant m == members + seq(k, _ => ci)
    {
      m := m + [ci];
      assert seq(k + 1, _ => ci) == seq(k, _ => ci) + [ci];
    }
  }
}
