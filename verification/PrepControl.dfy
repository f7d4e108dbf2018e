/**
 * The preprocessing controller of jcprepct.c for one component: it collects image rows into row groups for
 * the downsampler, either on their own or with the row groups above and below them as context. Rows are
 * taken after color conversion; the downsampler is any function of the rows it is given.
 */
module PrepControl {
  import opened Arithmetic
  import opened McuGeometry

  type Row = seq<int>

  /** The nearest row of an image of the given height. */
  function Clamp(j: int, height: nat): nat
    requires height > 0
  {
    if j < 0 then 0 else if j >= height then height - 1 else j
  }

  /** n rows from row j on, with the first and the last row of the image repeated beyond it. */
  function Rows(image: seq<Row>, j: int, n: nat): (s: seq<Row>)
    requires image != []
    ensures |s| == n
  {
    seq(n, i requires 0 <= i < n => image[Clamp(j + i, |image|)])
  }

  /** What never changes: max_v_samp_factor, the component's own factor, and the downsampler. */
  datatype Setting = Setting(maxV: nat, v: nat, context: bool, down: seq<Row> -> seq<Row>)
  {
    ghost predicate Ok() {
      maxV > 0 && v > 0 && forall rows :: |down(rows)| == v
    }
  }

  /** Row group g as it is to be: of the image, or at the bottom. */
  ghost function Group(s: Setting, image: seq<Row>, g: nat): (r: seq<Row>)
    requires s.Ok() && image != []
    ensures |r| == s.v
  {
    if s.context then s.down(Rows(image, g * s.maxV - s.maxV, 3 * s.maxV))
    else if g * s.maxV < |image| then s.down(Rows(image, g * s.maxV, s.maxV))
    else Flat(s.down(Rows(image, (DivRoundUp(|image|, s.maxV) - 1) * s.maxV, s.maxV)))
  }

  /** The last row repeated. */
  function Flat(r: seq<Row>): (t: seq<Row>)
    requires r != []
    ensures |t| == |r|
  {
    seq(|r|, _ => r[|r| - 1])
  }

  /**
   * What the downsampler is given for a group: the image rows from the group's first one on, or from one
   * group above it to one below it, where beyond the image the nearest row counts.
   */
  lemma GroupFromRows(s: Setting, image: seq<Row>, g: nat, rows: seq<Row>)
    requires s.Ok() && image != [] && (s.context || g * s.maxV < |image|)
    requires |rows| == if s.context then 3 * s.maxV else s.maxV
    requires var first := if s.context then g * s.maxV - s.maxV else g * s.maxV;
             forall i :: 0 <= i < |rows| ==>
               rows[i] == if first + i < 0 then image[0] else if first + i < |image| then image[first + i] else image[|image| - 1]
    ensures Group(s, image, g) == s.down(rows)
  {
    var first := if s.context then g * s.maxV - s.maxV else g * s.maxV;
    forall i | 0 <= i < |rows| ensures rows[i] == Rows(image, first, |rows|)[i] {
      assert Rows(image, first, |rows|)[i] == image[Clamp(first + i, |image|)];
    }
    assert rows == Rows(image, first, |rows|);
  }

  /** Without context, a group with no image row repeats the very last row of the last group that has one. */
  lemma GroupBelowImage(s: Setting, image: seq<Row>, g: nat, last: nat, i: nat)
    requires s.Ok() && image != [] && !s.context && i < s.v
    requires last * s.maxV < |image| <= last * s.maxV + s.maxV && |image| <= g * s.maxV
    ensures Group(s, image, g)[i] == Group(s, image, last)[s.v - 1]
  {
    Distribute(last, 1, s.maxV);
    CeilingIs(|image|, s.maxV, last + 1);
  }

  /** The number of iMCU rows. */
  function TotalRows(s: Setting, height: nat): nat
    requires s.maxV > 0
  {
    DivRoundUp(height, s.maxV * DCTSIZE)
  }

  /** Five row groups of pointers to three row groups of rows: the middle ones, and wraparound above and below. */
  method CreateContextBuffer(s: Setting) returns (a: array<nat>)
    ensures fresh(a) && (s.context ==> a.Length == 5 * s.maxV && forall i :: 0 <= i < a.Length ==> a[i] == Wrapped(s.maxV, i - s.maxV))
  {
    var v := s.maxV;
    if !s.context {
      a := new nat[0];
      return;
    }
    a := new nat[5 * v];
    for i := 0 to 3 * v
      invariant forall j :: v <= j < v + i ==> a[j] == j - v
    {
      a[v + i] := i;
    }
    for i := 0 to v
      invariant forall j :: v <= j < 4 * v ==> a[j] == j - v
      invariant forall j :: 0 <= j < i ==> a[j] == 2 * v + j
      invariant forall j :: 4 * v <= j < 4 * v + i ==> a[j] == j - 4 * v
    {
      a[i] := 2 * v + i;
      a[4 * v + i] := i;
    }
  }

  /** The row of the true buffer that stands for row x, -v <= x < 4v. */
  function Wrapped(v: int, x: int): int {
    if x < 0 then x + 3 * v else if x >= 3 * v then x - 3 * v else x
  }

  /** A row group of the output buffer. */
  function GroupAt(output: array2<Row>, c: nat): (r: seq<Row>)
    requires c < output.Length0
    reads output
    ensures |r| == output.Length1
  {
    seq(output.Length1, i requires 0 <= i < output.Length1 reads output => output[c, i])
  }

  /** The first n row groups of iMCU row k are in the buffer. */
  ghost predicate Delivered(s: Setting, image: seq<Row>, output: array2<Row>, k: nat, n: nat)
    requires s.Ok() && image != [] && n <= output.Length0
    reads output
  {
    forall c: nat :: c < n ==> GroupAt(output, c) == Group(s, image, k * DCTSIZE + c)
  }

  /** A row group of the output buffer is filled; the others stay as they are. */
  method StoreGroup(output: array2<Row>, c: nat, rows: seq<Row>)
    requires c < output.Length0 && |rows| == output.Length1
    modifies output
    ensures GroupAt(output, c) == rows
    ensures forall d: nat :: d < output.Length0 && d != c ==> GroupAt(output, d) == old(GroupAt(output, d))
  {
    for i := 0 to output.Length1
      invariant forall j :: 0 <= j < i ==> output[c, j] == rows[j]
      invariant forall d: nat, j: nat :: d < output.Length0 && j < output.Length1 && d != c ==> output[d, j] == old(output[d, j])
    {
      output[c, i] := rows[i];
    }
  }

  /** One group of expand_bottom_edge on the output: all its rows are the last row of group `from`. */
  method RepeatRow(output: array2<Row>, c: nat, from: nat)
    requires from < c < output.Length0 && output.Length1 > 0
    modifies output
    ensures GroupAt(output, c) == Flat(GroupAt(output, from))
    ensures forall d: nat :: d < output.Length0 && d != c ==> GroupAt(output, d) == old(GroupAt(output, d))
  {
    var last := output[from, output.Length1 - 1];
    StoreGroup(output, c, seq(output.Length1, _ => last));
  }

  /** Row i of the input is row i + offset of the image. */
  predicate RowGiven(image: seq<Row>, input: seq<Row>, i: nat, offset: int)
    requires i < |input|
  {
    0 <= i + offset < |image| && input[i] == image[i + offset]
  }

  /** The rows that are offered. */
  predicate Continues(image: seq<Row>, input: seq<Row>, from: nat, avail: nat, offset: int) {
    avail <= |input| && forall i: nat :: from <= i < avail ==> RowGiven(image, input, i, offset)
  }

  // ----- The ring of three row groups -----

  /** Where row d, counted from the row group at t, is in the true buffer. */
  function SlotOf(v: int, t: nat, d: int): int {
    Wrapped(v, t + d)
  }

  function ClampAt(base: nat, d: int, height: nat): nat
    requires height > 0
  {
    Clamp(base + d, height)
  }

  /** The rows lo..hi-1 around the row group at t are the image's around row `base`. */
  predicate Held(buf: seq<Row>, image: seq<Row>, v: int, t: nat, base: nat, lo: int, hi: int)
    requires image != [] && v > 0 && |buf| == 3 * v && t <= 2 * v
  {
    -v <= lo <= hi <= 2 * v && forall d: int :: lo <= d < hi ==> buf[SlotOf(v, t, d)] == image[ClampAt(base, d, |image|)]
  }

  lemma HeldAbove(buf: seq<Row>, image: seq<Row>, v: int, t: nat, base: nat, lo: int, hi: int, r: Row)
    requires image != [] && v > 0 && |buf| == 3 * v && t <= 2 * v && hi < 2 * v && hi - lo < 3 * v
    requires Held(buf, image, v, t, base, lo, hi) && r == image[ClampAt(base, hi, |image|)]
    ensures 0 <= SlotOf(v, t, hi) < 3 * v && Held(buf[SlotOf(v, t, hi) := r], image, v, t, base, lo, hi + 1)
  {
  }

  lemma HeldBelow(buf: seq<Row>, image: seq<Row>, v: int, t: nat, base: nat, lo: int, hi: int, r: Row)
    requires image != [] && v > 0 && |buf| == 3 * v && t <= 2 * v && -v < lo && hi - lo < 3 * v
    requires Held(buf, image, v, t, base, lo, hi) && r == image[ClampAt(base, lo - 1, |image|)]
    ensures 0 <= SlotOf(v, t, lo - 1) < 3 * v && Held(buf[SlotOf(v, t, lo - 1) := r], image, v, t, base, lo - 1, hi)
  {
  }

  /** Advancing by a row group: what was below is now here. */
  lemma HeldAdvance(buf: seq<Row>, image: seq<Row>, v: int, t: nat, t': nat, base: nat)
    requires image != [] && v > 0 && |buf| == 3 * v && (t == 0 || t == v || t == 2 * v) && t' == if t + v >= 3 * v then 0 else t + v
    requires Held(buf, image, v, t, base, -v, 2 * v)
    ensures Held(buf, image, v, t', base + v, -v, v)
  {
    forall d: int | -v <= d < v ensures buf[SlotOf(v, t', d)] == image[ClampAt(base + v, d, |image|)] {
      assert SlotOf(v, t', d) == SlotOf(v, t, d + v) && ClampAt(base + v, d, |image|) == ClampAt(base, d + v, |image|);
    }
  }

  class PrepController {
    const s: Setting
    const height: nat
    const trueBuffer: array<Row>
    const colorBuf: array<nat>       // with context, row pointers: color_buf[i] is colorBuf[maxV + i]
    var rowsToGo: nat                // counts rows remaining in source image
    var nextBufRow: nat              // index of next row to store in color_buf
    var thisRowGroup: nat            // starting row index of group to process
    var nextBufStop: nat             // downsample when we reach this index

    ghost const image: seq<Row>
    ghost var groups: nat            // row groups delivered so far
    ghost var base: nat              // the first row of the next one
    ghost var loaded: nat            // rows in the conversion buffer so far, bottom padding included

    /** jinit_c_prep_controller and start_pass_prep. */
    constructor (s: Setting, height: nat, ghost image: seq<Row>)
      requires s.Ok() && height == |image| > 0
      ensures this.s == s && this.image == image && this.height == height && Valid() && groups == 0 && rowsToGo == height
      ensures fresh(trueBuffer) && fresh(colorBuf)
    {
      this.s, this.height, this.image := s, height, image;
      trueBuffer := new Row[if s.context then 3 * s.maxV else s.maxV](_ => []);
      var fakeBuffer := CreateContextBuffer(s);
      colorBuf := fakeBuffer;
      rowsToGo, nextBufRow, thisRowGroup, nextBufStop := height, 0, 0, 2 * s.maxV;
      groups, base, loaded := 0, 0, 0;
    }

    ghost predicate Shape()
      reads colorBuf
    {
      && s.Ok() && height == |image| > 0
      && if s.context then
           && trueBuffer.Length == 3 * s.maxV && colorBuf.Length == 5 * s.maxV
           && forall i :: 0 <= i < colorBuf.Length ==> colorBuf[i] == Wrapped(s.maxV, i - s.maxV)
         else
           trueBuffer.Length == s.maxV
    }

    /** The rows of the image that have been read. */
    function Read(): int
      reads this
    {
      height - rowsToGo
    }

    ghost predicate Counts()
      reads this
    {
      rowsToGo <= height && base == groups * s.maxV && (if Read() < height then loaded == Read() else loaded >= height)
    }

    // ----- No context -----

    ghost predicate SimpleValid()
      reads this, trueBuffer, colorBuf
    {
      && Shape() && !s.context && Counts()
      && if Read() < height then
           && loaded == base + nextBufRow && nextBufRow < s.maxV
           && forall i :: 0 <= i < nextBufRow ==> trueBuffer[i] == image[base + i]
         else
           groups == TotalRows(s, height) * DCTSIZE
    }

    ghost predicate Valid()
      reads this, trueBuffer, colorBuf
    {
      if s.context then ContextValid() else SimpleValid()
    }

    /** The number of rows loaded from the start of the next row group on. */
    ghost function Ahead(): int
      reads this
    {
      loaded - base
    }

    /** The positions fit the rows loaded so far. */
    ghost predicate Positions()
      reads this
    {
      var v := s.maxV;
      && (thisRowGroup == 0 || thisRowGroup == v || thisRowGroup == 2 * v)
      && (if groups == 0 then thisRowGroup == 0 && Ahead() >= 0 else Ahead() >= v) && Ahead() <= 2 * v
      && nextBufRow == (if thisRowGroup == 2 * v then Ahead() - v else thisRowGroup + Ahead())
      && nextBufStop == nextBufRow + (2 * v - Ahead())
    }

    ghost predicate InRing()
      reads this, trueBuffer, colorBuf
    {
      && Shape() && s.context && Counts() && Positions()
      && Held(trueBuffer[..], image, s.maxV, thisRowGroup, base, if loaded > 0 then 0 - s.maxV else 0, Ahead())
    }

    ghost predicate ContextValid()
      reads this, trueBuffer, colorBuf
    {
      InRing() && Ahead() < 2 * s.maxV
    }

    // ----- pre_process_data -----

    /** Color conversion of the next rows into the conversion buffer. */
    method ConvertSimple(input: seq<Row>, inRowCtr: nat, numrows: nat, ghost avail: nat)
      requires SimpleValid() && Read() < height && inRowCtr + numrows <= avail && nextBufRow + numrows <= s.maxV
      requires Continues(image, input, inRowCtr, avail, Read() - inRowCtr)
      modifies this`nextBufRow, this`rowsToGo, this`loaded, trueBuffer
      ensures Shape() && Read() == old(Read()) + numrows <= height && nextBufRow == old(nextBufRow) + numrows && loaded == Read()
      ensures forall i :: 0 <= i < nextBufRow ==> trueBuffer[i] == image[base + i]
    {
      for i := 0 to numrows
        modifies trueBuffer
        invariant forall j :: 0 <= j < nextBufRow + i ==> base + j < |image| && trueBuffer[j] == image[base + j]
      {
        assert RowGiven(image, input, inRowCtr + i, Read() - inRowCtr);
        trueBuffer[nextBufRow + i] := input[inRowCtr + i];
      }
      if numrows > 0 {
        assert RowGiven(image, input, inRowCtr + (numrows - 1), Read() - inRowCtr);
      }
      nextBufRow := nextBufRow + numrows;
      rowsToGo := rowsToGo - numrows;
      loaded := loaded + numrows;
    }

    /** expand_bottom_edge of the conversion buffer. */
    method ExpandSimple()
      requires Shape() && !s.context && Read() == height == base + nextBufRow && 0 < nextBufRow <= s.maxV
      requires forall i :: 0 <= i < nextBufRow ==> trueBuffer[i] == image[base + i]
      modifies this`nextBufRow, trueBuffer
      ensures nextBufRow == s.maxV && trueBuffer[..] == Rows(image, base, s.maxV)
    {
      var inputRows := nextBufRow;
      for row := inputRows to s.maxV
        invariant forall i :: 0 <= i < row ==> trueBuffer[i] == image[Clamp(base + i, height)]
      {
        trueBuffer[row] := trueBuffer[inputRows - 1];
      }
      nextBufRow := s.maxV;
    }

    /** At the bottom of the image, pad the output to a full iMCU height. */
    method PadOutput(output: array2<Row>, outCtr: nat, ghost k: nat)
      requires Shape() && !s.context && Counts() && Read() == height && 0 < outCtr <= DCTSIZE == output.Length0 && output.Length1 == s.v && groups == k * DCTSIZE + outCtr
      requires groups == DivRoundUp(height, s.maxV) && Delivered(s, image, output, k, outCtr)
      modifies output
      ensures Delivered(s, image, output, k, DCTSIZE)
    {
      hide DivRoundUp;
      for c := outCtr to DCTSIZE
        invariant Delivered(s, image, output, k, c)
      {
        assert GroupAt(output, outCtr - 1) == Group(s, image, k * DCTSIZE + (outCtr - 1));
        BottomGroup(k * DCTSIZE + c);
        RepeatRow(output, c, outCtr - 1);
      }
    }

    /** Groups below the image repeat the last row of the last real group. */
    lemma BottomGroup(g: nat)
      requires Shape() && !s.context && g >= DivRoundUp(height, s.maxV)
      ensures DivRoundUp(height, s.maxV) > 0 && Group(s, image, g) == Flat(Group(s, image, DivRoundUp(height, s.maxV) - 1))
    {
      var n := DivRoundUp(height, s.maxV);
      CeilingPositive(height, s.maxV);
      CeilingBound(height, s.maxV, g);
      CeilingBound(height, s.maxV, n - 1);
      hide DivRoundUp;
    }

    /** If the conversion buffer is full, empty it. */
    method DownsampleSimple(output: array2<Row>, outCtr: nat, ghost k: nat)
      requires Shape() && !s.context && Counts() && outCtr < DCTSIZE == output.Length0 && output.Length1 == s.v && groups == k * DCTSIZE + outCtr
      requires nextBufRow == s.maxV && base < height && trueBuffer[..] == Rows(image, base, s.maxV)
      requires Delivered(s, image, output, k, outCtr)
      modifies output, this`nextBufRow, this`groups, this`base
      ensures nextBufRow == 0 && groups == old(groups) + 1 && base == old(base) + s.maxV && Counts()
      ensures Delivered(s, image, output, k, outCtr + 1)
    {
      hide DivRoundUp;
      Distribute(groups, 1, s.maxV);
      StoreGroup(output, outCtr, s.down(trueBuffer[..]));
      assert GroupAt(output, outCtr) == Group(s, image, groups);
      nextBufRow := 0;
      groups, base := groups + 1, base + s.maxV;
    }

    /** The last real group of the image is in the last iMCU row. */
    lemma LastGroup(k: nat, outCtr: nat)
      requires Shape() && Counts() && groups == k * DCTSIZE + outCtr && 0 < outCtr <= DCTSIZE
      requires base >= height && base - s.maxV < height
      ensures groups == DivRoundUp(height, s.maxV) && TotalRows(s, height) == k + 1
    {
      Distribute(groups, 1, s.maxV);
      CeilingIs(height, s.maxV, groups);
      var m := s.maxV * DCTSIZE;
      LastTotal(k, outCtr, s.maxV, m, base, groups);
      CeilingIs(height, m, k + 1);
    }

    lemma LastTotal(k: nat, c: nat, v: nat, m: nat, b: nat, g: nat)
      requires m == v * DCTSIZE && g == k * DCTSIZE + c && b == g * v && 0 < c <= DCTSIZE
      ensures k * m <= b - v && b <= (k + 1) * m
    {
      assert k * m == k * DCTSIZE * v;
      assert (k + 1) * m == (k + 1) * DCTSIZE * v;
      MulMonotone(k * DCTSIZE, g - 1, v);
      MulMonotone(g, (k + 1) * DCTSIZE, v);
      Distribute(g, 1, v);
    }

    /** What pre_process_data and pre_process_context are called with. */
    ghost predicate Called(input: seq<Row>, inRowCtr: nat, avail: nat, output: array2<Row>, outCtr: nat, k: nat)
      reads this, output
    {
      && s.Ok() && height == |image| > 0 && rowsToGo <= height && output.Length0 == DCTSIZE && output.Length1 == s.v && outCtr <= DCTSIZE
      && groups == k * DCTSIZE + outCtr && k < TotalRows(s, height)
      && Continues(image, input, inRowCtr, avail, Read() - inRowCtr) && Delivered(s, image, output, k, outCtr)
    }

    /** The loop body of pre_process_data. */
    method FillOnce(input: seq<Row>, inRowCtr0: nat, avail: nat, output: array2<Row>, outCtr0: nat, ghost k: nat) returns (inRowCtr: nat, outCtr: nat)
      requires SimpleValid() && Called(input, inRowCtr0, avail, output, outCtr0, k)
      requires inRowCtr0 < avail && outCtr0 < DCTSIZE
      modifies this`nextBufRow, this`rowsToGo, this`groups, this`base, this`loaded, trueBuffer, output
      ensures SimpleValid() && Called(input, inRowCtr, avail, output, outCtr, k) && outCtr >= outCtr0
      ensures inRowCtr0 < inRowCtr <= avail && Read() == old(Read()) + (inRowCtr - inRowCtr0)
    {
      hide DivRoundUp, Group, TotalRows;
      inRowCtr, outCtr := inRowCtr0, outCtr0;
      assert RowGiven(image, input, inRowCtr, Read() - inRowCtr);
      var inrows := avail - inRowCtr;
      var numrows: nat := s.maxV - nextBufRow;
      numrows := if numrows < inrows then numrows else inrows;
      ConvertSimple(input, inRowCtr, numrows, avail);
      inRowCtr := inRowCtr + numrows;
      // if at bottom of image, pad to fill the conversion buffer
      if rowsToGo == 0 && nextBufRow < s.maxV {
        ExpandSimple();
      }
      // if we've filled the conversion buffer, empty it
      if nextBufRow == s.maxV {
        FullBuffer();
        DownsampleSimple(output, outCtr, k);
        outCtr := outCtr + 1;
        if rowsToGo == 0 {
          LastGroup(k, outCtr);
        }
      }
      // if at bottom of image, pad the output to a full iMCU height
      if rowsToGo == 0 && outCtr < DCTSIZE {
        PadOutput(output, outCtr, k);
        groups := groups + (DCTSIZE - outCtr);
        base := groups * s.maxV;
        outCtr := DCTSIZE;
      }
    }

    lemma FullBuffer()
      requires Shape() && !s.context && nextBufRow == s.maxV && base < height && trueBuffer.Length == s.maxV
      requires (base + s.maxV <= height && forall i :: 0 <= i < s.maxV ==> trueBuffer[i] == image[base + i]) || trueBuffer[..] == Rows(image, base, s.maxV)
      ensures trueBuffer[..] == Rows(image, base, s.maxV)
    {
      if base + s.maxV <= height && forall i :: 0 <= i < s.maxV ==> trueBuffer[i] == image[base + i] {
        forall i | 0 <= i < s.maxV ensures trueBuffer[..][i] == Rows(image, base, s.maxV)[i] {
          assert Clamp(base + i, height) == base + i;
        }
      }
    }

    method PreProcessData(input: seq<Row>, inRowCtr0: nat, avail: nat, output: array2<Row>, outCtr0: nat, ghost k: nat) returns (inRowCtr: nat, outCtr: nat)
      requires SimpleValid() && Called(input, inRowCtr0, avail, output, outCtr0, k)
      modifies this`nextBufRow, this`rowsToGo, this`groups, this`base, this`loaded, trueBuffer, output
      ensures SimpleValid() && Called(input, inRowCtr, avail, output, outCtr, k)
      ensures inRowCtr >= inRowCtr0 && Read() == old(Read()) + (inRowCtr - inRowCtr0)
      ensures outCtr == DCTSIZE || (inRowCtr >= avail && outCtr >= outCtr0 && Read() < height)
      ensures inRowCtr == inRowCtr0 && old(Read()) < height ==> outCtr == outCtr0
    {
      hide DivRoundUp, Group, TotalRows;
      inRowCtr, outCtr := inRowCtr0, outCtr0;
      while inRowCtr < avail && outCtr < DCTSIZE
        invariant SimpleValid() && Called(input, inRowCtr, avail, output, outCtr, k)
        invariant inRowCtr >= inRowCtr0 && outCtr >= outCtr0 && Read() == old(Read()) + (inRowCtr - inRowCtr0)
        invariant inRowCtr == inRowCtr0 ==> outCtr == outCtr0
        decreases avail - inRowCtr
      {
        inRowCtr, outCtr := FillOnce(input, inRowCtr, avail, output, outCtr, k);
      }
    }

    // ----- pre_process_context -----

    /** color_buf[x], through the row pointers. */
    function RowAt(x: int): Row
      requires Shape() && s.context && 0 - s.maxV <= x < 4 * s.maxV
      reads this, trueBuffer, colorBuf
    {
      trueBuffer[colorBuf[s.maxV + x]]
    }

    method SetRow(x: int, r: Row)
      requires Shape() && s.context && 0 - s.maxV <= x < 4 * s.maxV
      modifies trueBuffer
      ensures trueBuffer[..] == old(trueBuffer[..])[Wrapped(s.maxV, x) := r]
    {
      trueBuffer[colorBuf[s.maxV + x]] := r;
    }

    /** Color conversion into the conversion buffer. */
    method ConvertRows(input: seq<Row>, inRowCtr: nat, numrows: nat, ghost avail: nat, ghost lo: int)
      requires ContextValid() && inRowCtr + numrows <= avail && numrows <= nextBufStop - nextBufRow
      requires Continues(image, input, inRowCtr, avail, Read() - inRowCtr) && Read() < height
      requires lo == if loaded > 0 then 0 - s.maxV else 0
      modifies trueBuffer
      ensures Held(trueBuffer[..], image, s.maxV, thisRowGroup, base, lo, Ahead() + numrows)
    {
      ghost var w := Ahead();
      for i := 0 to numrows
        invariant Held(trueBuffer[..], image, s.maxV, thisRowGroup, base, lo, w + i)
      {
        assert RowGiven(image, input, inRowCtr + i, Read() - inRowCtr);
        ghost var before := trueBuffer[..];
        StoredAt(i);
        hide Held, Wrapped, SlotOf, PrepController.Positions;
        HeldAbove(before, image, s.maxV, thisRowGroup, base, lo, w + i, input[inRowCtr + i]);
        SetRow(nextBufRow + i, input[inRowCtr + i]);
      }
    }

    /** Rows are stored where the ring expects them. */
    lemma StoredAt(i: nat)
      requires Positions() && i < nextBufStop - nextBufRow && s.maxV > 0
      ensures 0 <= nextBufRow + i < 3 * s.maxV && Wrapped(s.maxV, nextBufRow + i) == SlotOf(s.maxV, thisRowGroup, Ahead() + i)
    {
    }

    /** Color conversion of the next rows; at the top of the image, padding above. */
    method ConvertContext(input: seq<Row>, inRowCtr: nat, numrows: nat, ghost avail: nat)
      requires ContextValid() && inRowCtr + numrows <= avail && 0 < numrows <= nextBufStop - nextBufRow
      requires Continues(image, input, inRowCtr, avail, Read() - inRowCtr)
      modifies this`nextBufRow, this`rowsToGo, this`loaded, trueBuffer
      ensures InRing() && Read() == old(Read()) + numrows <= height && Ahead() == old(Ahead()) + numrows
    {
      ghost var lo: int := if loaded > 0 then 0 - s.maxV else 0;
      assert RowGiven(image, input, inRowCtr, Read() - inRowCtr);
      assert RowGiven(image, input, inRowCtr + (numrows - 1), Read() - inRowCtr);
      hide Held, Continues, RowGiven;
      ConvertRows(input, inRowCtr, numrows, avail, lo);
      if rowsToGo == height {
        PadTop(numrows);
      }
      nextBufRow := nextBufRow + numrows;
      rowsToGo := rowsToGo - numrows;
      loaded := loaded + numrows;
    }

    /** The rows above the image repeat its first row. */
    method PadTop(numrows: nat)
      requires Shape() && s.context && thisRowGroup == base == 0 && 0 < numrows <= 2 * s.maxV
      requires Held(trueBuffer[..], image, s.maxV, 0, 0, 0, numrows)
      modifies trueBuffer
      ensures Held(trueBuffer[..], image, s.maxV, 0, 0, 0 - s.maxV, numrows)
    {
      for row := 1 to s.maxV + 1
        invariant Held(trueBuffer[..], image, s.maxV, 0, 0, 1 - row, numrows)
      {
        assert trueBuffer[..][SlotOf(s.maxV, 0, 0)] == image[ClampAt(0, 0, height)];
        HeldBelow(trueBuffer[..], image, s.maxV, 0, 0, 1 - row, numrows, RowAt(0));
        SetRow(-row, RowAt(0));
      }
    }

    /** expand_bottom_edge of the conversion buffer, through the row pointers. */
    method ExpandRows()
      requires ContextValid() && Read() == height
      modifies trueBuffer
      ensures Held(trueBuffer[..], image, s.maxV, thisRowGroup, base, 0 - s.maxV, 2 * s.maxV)
    {
      ghost var lo, w := 0 - s.maxV, Ahead();
      var inputRows := nextBufRow;
      for row := inputRows to nextBufStop
        invariant Held(trueBuffer[..], image, s.maxV, thisRowGroup, base, lo, w + (row - inputRows))
      {
        ghost var d := w + (row - inputRows);
        ghost var before := trueBuffer[..];
        BottomRow(d);
        StoredAt(row - inputRows);
        hide Held, Wrapped, SlotOf, ClampAt, PrepController.Positions;
        HeldAbove(before, image, s.maxV, thisRowGroup, base, lo, d, RowAt(inputRows - 1));
        SetRow(row, RowAt(inputRows - 1));
      }
    }

    /** The row before the next one to store is the last row of the image. */
    lemma BottomRow(hi: int)
      requires Shape() && s.context && Counts() && Positions() && Read() == height && Ahead() <= hi
      requires Held(trueBuffer[..], image, s.maxV, thisRowGroup, base, 0 - s.maxV, hi)
      ensures RowAt(nextBufRow - 1) == image[ClampAt(base, hi, height)]
    {
      var w := Ahead();
      assert trueBuffer[..][SlotOf(s.maxV, thisRowGroup, w - 1)] == image[ClampAt(base, w - 1, height)];
    }

    /** When at the bottom of the image, pad to fill the conversion buffer. */
    method ExpandContext()
      requires ContextValid() && Read() == height
      modifies this`nextBufRow, this`loaded, trueBuffer
      ensures InRing() && Ahead() == 2 * s.maxV
    {
      hide Held;
      ExpandRows();
      nextBufRow := nextBufStop;
      loaded := base + 2 * s.maxV;
    }

    /** If we've gotten enough data, downsample a row group, and advance with wraparound as necessary. */
    method DownsampleContext(output: array2<Row>, outCtr: nat, ghost k: nat)
      requires InRing() && Ahead() == 2 * s.maxV && outCtr < DCTSIZE == output.Length0 && output.Length1 == s.v
      requires groups == k * DCTSIZE + outCtr && Delivered(s, image, output, k, outCtr)
      modifies output, this`nextBufRow, this`nextBufStop, this`thisRowGroup, this`groups, this`base
      ensures ContextValid() && groups == old(groups) + 1 && Delivered(s, image, output, k, outCtr + 1)
    {
      hide DivRoundUp, Held, Wrapped, PrepController.InRing, PrepController.Positions, PrepController.ContextValid;
      DownsampleGroup(output, outCtr, k);
      Advance();
    }

    /** Advance pointers with wraparound as necessary. */
    method Advance()
      requires InRing() && Ahead() == 2 * s.maxV
      modifies this`nextBufRow, this`nextBufStop, this`thisRowGroup, this`groups, this`base
      ensures ContextValid() && groups == old(groups) + 1
    {
      hide DivRoundUp, Held, Wrapped;
      ghost var t := thisRowGroup;
      thisRowGroup := thisRowGroup + s.maxV;
      if thisRowGroup >= 3 * s.maxV {
        thisRowGroup := 0;
      }
      HeldAdvance(trueBuffer[..], image, s.maxV, t, thisRowGroup, base);
      if nextBufRow >= 3 * s.maxV {
        nextBufRow := 0;
      }
      nextBufStop := nextBufRow + s.maxV;
      Distribute(groups, 1, s.maxV);
      groups, base := groups + 1, base + s.maxV;
    }

    method DownsampleGroup(output: array2<Row>, outCtr: nat, ghost k: nat)
      requires InRing() && Ahead() == 2 * s.maxV && outCtr < DCTSIZE == output.Length0 && output.Length1 == s.v
      requires groups == k * DCTSIZE + outCtr && Delivered(s, image, output, k, outCtr)
      modifies output
      ensures Delivered(s, image, output, k, outCtr + 1)
    {
      hide DivRoundUp, Held, Wrapped, PrepController.Positions;
      var rows := ContextRows();
      hide PrepController.InRing;
      StoreGroup(output, outCtr, s.down(rows));
      assert GroupAt(output, outCtr) == Group(s, image, groups);
    }

    /** What the downsampler sees: the aliased rows from one group above to one group below. */
    method ContextRows() returns (rows: seq<Row>)
      requires InRing() && Ahead() == 2 * s.maxV
      ensures rows == Rows(image, base - s.maxV, 3 * s.maxV)
    {
      var v, t := s.maxV, thisRowGroup;
      var buf, ptr := trueBuffer, colorBuf;
      rows := seq(3 * v, i requires 0 <= i < 3 * v && t + i < ptr.Length && ptr[t + i] < buf.Length reads buf, ptr => buf[ptr[t + i]]);
      forall i | 0 <= i < 3 * v ensures rows[i] == Rows(image, base - v, 3 * v)[i] {
        assert trueBuffer[..][SlotOf(v, t, i - v)] == image[ClampAt(base, i - v, height)];
      }
    }

    method PreProcessContext(input: seq<Row>, inRowCtr0: nat, avail: nat, output: array2<Row>, outCtr0: nat, ghost k: nat) returns (inRowCtr: nat, outCtr: nat)
      requires ContextValid() && Called(input, inRowCtr0, avail, output, outCtr0, k)
      modifies this`nextBufRow, this`rowsToGo, this`groups, this`base, this`loaded, this`thisRowGroup, this`nextBufStop, trueBuffer, output
      ensures ContextValid() && Called(input, inRowCtr, avail, output, outCtr, k)
      ensures inRowCtr >= inRowCtr0 && Read() == old(Read()) + (inRowCtr - inRowCtr0)
      ensures outCtr == DCTSIZE || (inRowCtr >= avail && outCtr >= outCtr0 && Read() < height)
      ensures inRowCtr == inRowCtr0 && old(Read()) < height ==> outCtr == outCtr0
    {
      hide DivRoundUp, Group, TotalRows, Held;
      inRowCtr, outCtr := inRowCtr0, outCtr0;
      while outCtr < DCTSIZE
        invariant ContextValid() && Called(input, inRowCtr, avail, output, outCtr, k)
        invariant inRowCtr >= inRowCtr0 && outCtr >= outCtr0 && Read() == old(Read()) + (inRowCtr - inRowCtr0)
        invariant inRowCtr == inRowCtr0 && old(Read()) < height ==> outCtr == outCtr0
        decreases DCTSIZE - outCtr, if inRowCtr < avail then avail - inRowCtr else 0
      {
        if inRowCtr < avail {
          inRowCtr := TakeRows(input, inRowCtr, avail);
        } else {
          // return for more data, unless we are at the bottom of the image
          if rowsToGo != 0 {
            break;
          }
          if nextBufRow < nextBufStop {
            ExpandContext();
          }
        }
        if nextBufRow == nextBufStop {
          DownsampleContext(output, outCtr, k);
          outCtr := outCtr + 1;
        }
      }
    }

    /** As many rows as are there and fit. */
    method TakeRows(input: seq<Row>, inRowCtr0: nat, avail: nat) returns (inRowCtr: nat)
      requires ContextValid() && inRowCtr0 < avail && Continues(image, input, inRowCtr0, avail, Read() - inRowCtr0)
      modifies this`nextBufRow, this`rowsToGo, this`loaded, trueBuffer
      ensures InRing() && inRowCtr0 < inRowCtr <= avail && Read() == old(Read()) + (inRowCtr - inRowCtr0) <= height
    {
      hide Held, Continues;
      var inrows := avail - inRowCtr0;
      var numrows: nat := nextBufStop - nextBufRow;
      numrows := if numrows < inrows then numrows else inrows;
      ConvertContext(input, inRowCtr0, numrows, avail);
      inRowCtr := inRowCtr0 + numrows;
    }

    /** pre_process_data of the controller, whichever it is. */
    method PreProcess(input: seq<Row>, inRowCtr0: nat, avail: nat, output: array2<Row>, outCtr0: nat, ghost k: nat) returns (inRowCtr: nat, outCtr: nat)
      requires Valid() && Called(input, inRowCtr0, avail, output, outCtr0, k)
      modifies this, trueBuffer, output
      ensures Valid() && Called(input, inRowCtr, avail, output, outCtr, k)
      ensures inRowCtr >= inRowCtr0 && Read() == old(Read()) + (inRowCtr - inRowCtr0)
      ensures outCtr == DCTSIZE || (inRowCtr >= avail && outCtr >= outCtr0 && Read() < height)
      ensures inRowCtr == inRowCtr0 && old(Read()) < height ==> outCtr == outCtr0
    {
      if s.context {
        inRowCtr, outCtr := PreProcessContext(input, inRowCtr0, avail, output, outCtr0, k);
      } else {
        inRowCtr, outCtr := PreProcessData(input, inRowCtr0, avail, output, outCtr0, k);
      }
    }
  }
}
