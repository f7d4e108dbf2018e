/**
 * Coefficient blocks, MCUs, and how the restart interval groups the MCUs of a scan into segments. Both
 * entropy coders and both directions share these notions.
 */
module Blocks {
  import opened Arithmetic
  import opened Bits

  const DCTSIZE2 := 64
  const MAX_COMPONENTS := 10
  const MAX_COMPS_IN_SCAN := 4

  /** The 64 coefficients of a block in natural order. */
  type Block = b: seq<int> | |b| == DCTSIZE2 witness seq(DCTSIZE2, _ => 0)

  /** The 64 coefficients of a block in zigzag order. */
  type Zigzag = z: seq<int> | |z| == DCTSIZE2 witness seq(DCTSIZE2, _ => 0)

  function Abs(v: int): nat {
    if v < 0 then -v else v
  }

  /** A coefficient that fits into a JCOEF. */
  predicate IsCoef(x: int) {
    -0x8000 <= x < 0x8000
  }

  /** `for (ke = k; ke > 0; ke--) if (z[ke]) break;` */
  function LastNonzero(z: Zigzag, k: nat): (ke: nat)
    requires k < DCTSIZE2
    ensures ke <= k && (ke > 0 ==> z[ke] != 0)
    ensures forall j :: ke < j <= k ==> z[j] == 0
  {
    if k == 0 then 0 else if z[k] != 0 then k else LastNonzero(z, k - 1)
  }

  /** Arithmetic right shift. */
  function Shift(x: int, al: nat): int {
    x / Pow2(al)
  }

  /** Division by a power of two, rounding toward zero. */
  function TruncCoef(x: int, al: nat): int {
    if x >= 0 then x / Pow2(al) else -(-x / Pow2(al))
  }

  function Trunc(z: Zigzag, al: nat): Zigzag {
    seq(DCTSIZE2, j requires 0 <= j < DCTSIZE2 => TruncCoef(z[j], al))
  }

  predicate IsBlock(z: Zigzag) {
    forall k :: 0 <= k < DCTSIZE2 ==> IsCoef(z[k])
  }

  /** A block as the coefficient controller hands it over: its component within the scan, its coefficients. */
  datatype Visit = Visit(ci: nat, z: Zigzag)

  /** The blocks of an MCU. */
  type Mcu = seq<Visit>

  /** Whether a restart marker comes before MCU number n: every `interval` MCUs, never if it is zero. */
  predicate RestartBefore(interval: nat, n: nat) {
    interval > 0 && n > 0 && n % interval == 0
  }

  /** The blocks of a scan, segment by segment. */
  function Segments(interval: nat, ms: seq<Mcu>): (segs: seq<seq<Visit>>)
    ensures |segs| >= 1
  {
    if ms == [] then [[]]
    else
      var n := |ms| - 1;
      var segs := Segments(interval, ms[..n]);
      if RestartBefore(interval, n) then segs + [ms[n]]
      else segs[..|segs| - 1] + [segs[|segs| - 1] + ms[n]]
  }

  lemma SegmentsSnoc(interval: nat, ms: seq<Mcu>, m: Mcu)
    ensures var segs := Segments(interval, ms);
            Segments(interval, ms + [m])
            == if RestartBefore(interval, |ms|) then segs + [m] else segs[..|segs| - 1] + [segs[|segs| - 1] + m]
  {
    assert (ms + [m])[..|ms|] == ms;
  }

  /** How many MCUs are left before the next restart marker: the counter `restarts_to_go`. */
  function ToGo(interval: nat, n: nat): (k: nat)
    requires interval > 0
    ensures k <= interval
  {
    if n == 0 then interval else interval - 1 - (n - 1) % interval
  }

  lemma NextRemainder(n: nat, r: nat)
    requires r > 0
    ensures (n + 1) % r == if n % r == r - 1 then 0 else n % r + 1
  {
    var q, k := n / r, n % r;
    assert n == q * r + k;
    if k == r - 1 {
      Distribute(q, 1, r);
      RemainderUnique(n + 1, r, q + 1, 0);
    } else {
      RemainderUnique(n + 1, r, q, k + 1);
    }
  }

  lemma ToGoCounts(interval: nat, n: nat)
    requires interval > 0
    ensures ToGo(interval, n) == 0 <==> RestartBefore(interval, n)
    ensures ToGo(interval, n + 1) == (if ToGo(interval, n) == 0 then interval else ToGo(interval, n)) - 1
  {
    if n > 0 {
      NextRemainder(n - 1, interval);
    }
  }

  predicate AreBlocks(vs: seq<Visit>) {
    forall j :: 0 <= j < |vs| ==> IsBlock(vs[j].z)
  }

  predicate AllBlocks(ms: seq<Mcu>) {
    forall i :: 0 <= i < |ms| ==> AreBlocks(ms[i])
  }

  lemma {:induction false} SegmentsBlocks(interval: nat, ms: seq<Mcu>)
    requires AllBlocks(ms)
    ensures forall i :: 0 <= i < |Segments(interval, ms)| ==> AreBlocks(Segments(interval, ms)[i])
  {
    if ms != [] {
      SegmentsBlocks(interval, ms[..|ms| - 1]);
    }
  }

  // ----- Where the segments begin -----

  /** The blocks of these MCUs, one after the other. */
  function Together(ms: seq<Mcu>): seq<Visit> {
    if ms == [] then [] else Together(ms[..|ms| - 1]) + ms[|ms| - 1]
  }

  /** The number of segments for n MCUs: one for each group of `interval` MCUs begun, and at least one. */
  predicate SegmentCount(interval: nat, n: nat, k: nat) {
    if interval == 0 || n == 0 then k == 1 else (k - 1) * interval < n <= k * interval
  }

  lemma CountGrows(interval: nat, n: nat, k: nat)
    requires SegmentCount(interval, n, k)
    ensures SegmentCount(interval, n + 1, if RestartBefore(interval, n) then k + 1 else k)
    ensures RestartBefore(interval, n) ==> n == k * interval
  {
    if interval > 0 {
      Distribute(k, 1, interval);
      Distribute(k - 1, 1, interval);
      if n > 0 {
        if n == k * interval {
          RemainderUnique(n, interval, k, 0);
        } else {
          RemainderUnique(n, interval, k - 1, n - (k - 1) * interval);
        }
      }
    }
  }

  lemma {:induction false} CountSegments(interval: nat, ms: seq<Mcu>)
    ensures SegmentCount(interval, |ms|, |Segments(interval, ms)|)
  {
    if ms != [] {
      var n := |ms| - 1;
      CountSegments(interval, ms[..n]);
      CountGrows(interval, n, |Segments(interval, ms[..n])|);
    }
  }

  /** The blocks of the MCUs from number b on, `interval` of them or what is left. */
  function Part(interval: nat, ms: seq<Mcu>, b: nat): seq<Visit>
    requires b <= |ms|
  {
    Together(if b + interval < |ms| then ms[b..b + interval] else ms[b..])
  }

  lemma PartGrows(interval: nat, ms: seq<Mcu>, b: nat)
    requires ms != [] && b < |ms|
    ensures b + interval < |ms| ==> Part(interval, ms, b) == Part(interval, ms[..|ms| - 1], b)
    ensures b + interval >= |ms| ==> Part(interval, ms, b) == Part(interval, ms[..|ms| - 1], b) + ms[|ms| - 1]
  {
    var n := |ms| - 1;
    if b + interval < |ms| {
      assert ms[b..b + interval] == if b + interval < n then ms[..n][b..b + interval] else ms[..n][b..];
    } else {
      assert ms[b..][..n - b] == ms[..n][b..];
    }
  }

  lemma PartStarts(interval: nat, i: nat, k: nat)
    requires i < k
    ensures i * interval + interval <= k * interval
  {
    Distribute(i, 1, interval);
    MulMonotone(i + 1, k, interval);
  }

  /**
   * Without a restart interval there is a single segment of all blocks; otherwise segment number i has the
   * blocks of the `interval` MCUs from i times the interval on, the last one what is left.
   */
  lemma {:induction false} SegmentIs(interval: nat, ms: seq<Mcu>, i: nat)
    requires i < |Segments(interval, ms)|
    ensures SegmentCount(interval, |ms|, |Segments(interval, ms)|)
    ensures interval == 0 ==> Segments(interval, ms) == [Together(ms)]
    ensures interval > 0 ==> i * interval <= |ms| && Segments(interval, ms)[i] == Part(interval, ms, i * interval)
    decreases |ms|
  {
    hide Part, SegmentCount;
    CountSegments(interval, ms);
    if ms == [] {
      EmptyPart(interval, i);
    } else {
      var n := |ms| - 1;
      var k := |Segments(interval, ms[..n])|;
      SegmentIs(interval, ms[..n], if i < k then i else k - 1);
      if interval > 0 {
        SegmentGrows(interval, ms, i, k);
      }
    }
  }

  lemma EmptyPart(interval: nat, i: nat)
    requires i < |Segments(interval, [])|
    ensures i * interval == 0 && Segments(interval, []) == [Together([])] && Part(interval, [], 0) == []
  {
  }

  /** What one MCU more does to segment number i. */
  lemma SegmentsEntry(interval: nat, ms: seq<Mcu>, i: nat)
    requires ms != [] && i < |Segments(interval, ms)|
    ensures var n := |ms| - 1;
            var before := Segments(interval, ms[..n]);
            && (i < |before| && (RestartBefore(interval, n) || i < |before| - 1) ==> Segments(interval, ms)[i] == before[i])
            && (!RestartBefore(interval, n) && i == |before| - 1 ==> Segments(interval, ms)[i] == before[i] + ms[n])
            && (i >= |before| ==> i == |before| && RestartBefore(interval, n) && Segments(interval, ms)[i] == ms[n])
  {
    hide RestartBefore;
  }

  lemma SegmentGrows(interval: nat, ms: seq<Mcu>, i: nat, k: nat)
    requires interval > 0 && ms != [] && k == |Segments(interval, ms[..|ms| - 1])| && i < |Segments(interval, ms)|
    requires var j := if i < k then i else k - 1;
             j * interval <= |ms| - 1 && Segments(interval, ms[..|ms| - 1])[j] == Part(interval, ms[..|ms| - 1], j * interval)
    ensures i * interval <= |ms| && Segments(interval, ms)[i] == Part(interval, ms, i * interval)
  {
    hide Part, Segments, SegmentCount, RestartBefore;
    var n := |ms| - 1;
    CountSegments(interval, ms[..n]);
    CountGrows(interval, n, k);
    SegmentsEntry(interval, ms, i);
    if i < k {
      SegmentEnds(interval, n, k, i);
      PartGrows(interval, ms, i * interval);
    } else {
      LastAlone(interval, ms);
    }
  }

  lemma SegmentEnds(interval: nat, n: nat, k: nat, i: nat)
    requires interval > 0 && SegmentCount(interval, n, k) && i < k
    ensures !RestartBefore(interval, n) && i == k - 1 ==> i * interval + interval >= n + 1
    ensures RestartBefore(interval, n) || i < k - 1 ==> i * interval + interval <= n
  {
    CountGrows(interval, n, k);
    Distribute(k - 1, 1, interval);
    PartStarts(interval, i, k);
    if i < k - 1 {
      PartStarts(interval, i, k - 1);
    }
  }

  lemma LastAlone(interval: nat, ms: seq<Mcu>)
    requires interval > 0 && ms != []
    ensures Part(interval, ms, |ms| - 1) == ms[|ms| - 1]
  {
    var n := |ms| - 1;
    assert ms[n..] == [ms[n]] && [ms[n]][..0] == [];
    assert Together([]) == [];
  }
}
