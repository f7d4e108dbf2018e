/**
 * From scanlines to iMCU rows: jpeg_write_scanlines of jcapistd.c and process_data_simple_main of
 * jcmainct.c. However the application cuts the image into calls and however often the compressor
 * suspends, the compressor gets the same iMCU rows, and every image row is read once.
 */
module MainControl {
  import opened McuGeometry
  import opened PrepControl

  /** iMCU row k: the row groups that compress_data is to be given. */
  ghost function IMcuRow(s: Setting, image: seq<Row>, k: nat): seq<seq<Row>>
    requires s.Ok() && image != []
  {
    seq(DCTSIZE, c requires 0 <= c < DCTSIZE => Group(s, image, k * DCTSIZE + c))
  }

  /** The first n of them. */
  ghost function IMcuRows(s: Setting, image: seq<Row>, n: nat): seq<seq<seq<Row>>>
    requires s.Ok() && image != []
  {
    seq(n, k requires 0 <= k < n => IMcuRow(s, image, k))
  }

  /** compress_data, seen from here: it takes the iMCU row or suspends. Any finite pattern of refusals. */
  class RowSink {
    const s: Setting
    const answers: seq<bool>
    ghost const image: seq<Row>
    var used: nat
    var received: seq<seq<seq<Row>>>

    constructor (s: Setting, answers: seq<bool>, ghost image: seq<Row>)
      ensures this.s == s && this.answers == answers && this.image == image && used == 0 && received == []
    {
      this.s, this.answers, this.image, used, received := s, answers, image, 0, [];
    }

    function Refusals(): nat
      reads this
    {
      if used < |answers| then |answers| - used else 0
    }

    /** Every time it is called, also after a refusal, the buffer holds exactly the next iMCU row. */
    method CompressData(buffer: array2<Row>) returns (ok: bool)
      requires s.Ok() && image != [] && buffer.Length0 == DCTSIZE && Delivered(s, image, buffer, |received|, DCTSIZE)
      modifies this
      ensures received == if ok then old(received) + [IMcuRow(s, image, |old(received)|)] else old(received)
      ensures Refusals() <= old(Refusals()) && (!ok ==> Refusals() < old(Refusals()))
    {
      hide Group;
      ok := used >= |answers| || answers[used];
      used := used + 1;
      if ok {
        var groups := seq(DCTSIZE, c requires 0 <= c < DCTSIZE reads buffer => GroupAt(buffer, c));
        assert groups == IMcuRow(s, image, |received|);
        received := received + [groups];
      }
    }
  }

  class MainController {
    const prep: PrepController
    const sink: RowSink
    const buffer: array2<Row>
    const total: nat                 // total_iMCU_rows
    var curIMcuRow: nat              // number of current iMCU row
    var rowgroupCtr: nat             // counts row groups received in iMCU row
    var suspended: bool              // remember if we suspended output

    constructor (prep: PrepController, sink: RowSink)
      requires prep.Valid() && prep.groups == 0 && prep.rowsToGo == prep.height && sink.received == []
      requires sink.s == prep.s && sink.image == prep.image
      ensures this.prep == prep && this.sink == sink && Valid() && fresh(buffer) && curIMcuRow == 0 && !suspended
    {
      this.prep, this.sink := prep, sink;
      buffer := new Row[DCTSIZE, prep.s.v]((i, j) => []);
      total := DivRoundUp(prep.height, prep.s.maxV * DCTSIZE);
      curIMcuRow, rowgroupCtr, suspended := 0, 0, false;
      new;
      CeilingPositive(prep.height, prep.s.maxV * DCTSIZE);
      hide DivRoundUp, Group;
    }

    ghost predicate Shape()
      reads prep.colorBuf
    {
      && prep.Shape() && sink.s == prep.s && sink.image == prep.image && buffer.Length0 == DCTSIZE && buffer.Length1 == prep.s.v
      && total == TotalRows(prep.s, prep.height)
    }

    /** What has been sent, what is in the buffer, and what has been read. */
    ghost predicate Consistent()
      reads this, prep, prep.trueBuffer, prep.colorBuf, sink, buffer
    {
      && Shape() && prep.Valid() && curIMcuRow <= total && rowgroupCtr <= DCTSIZE && prep.rowsToGo <= prep.height
      && prep.groups == curIMcuRow * DCTSIZE + rowgroupCtr
      && Delivered(prep.s, prep.image, buffer, curIMcuRow, rowgroupCtr)
      && sink.received == IMcuRows(prep.s, prep.image, curIMcuRow)
    }

    /** Between calls: a suspended iMCU row is complete; otherwise rows are missing, or all is done. */
    ghost predicate Valid()
      reads this, prep, prep.trueBuffer, prep.colorBuf, sink, buffer
    {
      && Consistent()
      && if suspended then rowgroupCtr == DCTSIZE && curIMcuRow < total
         else if curIMcuRow < total then rowgroupCtr < DCTSIZE && prep.rowsToGo > 0
         else rowgroupCtr == 0 && prep.rowsToGo == 0
    }

    /** When all row groups have been delivered, all rows have been read. */
    lemma AllRead()
      requires prep.Valid() && prep.groups == TotalRows(prep.s, prep.height) * DCTSIZE && prep.rowsToGo <= prep.height
      ensures prep.rowsToGo == 0
    {
      var v, t := prep.s.maxV, TotalRows(prep.s, prep.height);
      CeilingPositive(prep.height, v * DCTSIZE);
      CeilingBound(prep.height, v * DCTSIZE, t);
      assert t * (v * DCTSIZE) == t * DCTSIZE * v;
      hide DivRoundUp;
    }

    lemma NextReceived(k: nat)
      requires prep.s.Ok() && prep.image != []
      ensures IMcuRows(prep.s, prep.image, k) + [IMcuRow(prep.s, prep.image, k)] == IMcuRows(prep.s, prep.image, k + 1)
      ensures |IMcuRows(prep.s, prep.image, k)| == k
    {
      hide IMcuRow;
    }

    /** The application's `at` is one less while the last row read is pretended not to be. */
    ghost predicate InStep(at: nat, inRowCtr: nat)
      reads this, prep
    {
      prep.Read() == at + inRowCtr + if suspended then 1 else 0
    }

    /** The loop body: false to return to the application. */
    method Step(input: seq<Row>, inRowCtr0: nat, avail: nat, ghost at: nat) returns (more: bool, inRowCtr: nat)
      requires Consistent() && curIMcuRow < total && InStep(at, inRowCtr0) && Continues(prep.image, input, 0, avail, at)
      requires suspended ==> rowgroupCtr == DCTSIZE
      requires !suspended ==> rowgroupCtr < DCTSIZE && (inRowCtr0 > 0 || prep.rowsToGo > 0)
      modifies this, prep, prep.trueBuffer, sink, buffer
      ensures InStep(at, inRowCtr) && sink.Refusals() <= old(sink.Refusals())
      ensures more ==> Consistent() && !suspended && rowgroupCtr == 0 && inRowCtr > 0 && curIMcuRow == old(curIMcuRow) + 1
      ensures !more ==> Valid() && (suspended || inRowCtr >= avail) && (suspended ==> sink.Refusals() < old(sink.Refusals()))
      ensures !more && !suspended ==> inRowCtr >= inRowCtr0 && !old(suspended)
    {
      hide DivRoundUp, TotalRows, Group, PrepController.Valid, PrepController.Shape, IMcuRow, IMcuRows, RowSink.Refusals;
      inRowCtr := inRowCtr0;
      // read input data if we haven't filled the main buffer yet
      if rowgroupCtr < DCTSIZE {
        assert prep.s.Ok() && prep.height == |prep.image| > 0 by { PrepShape(); }
        inRowCtr, rowgroupCtr := prep.PreProcess(input, inRowCtr, avail, buffer, rowgroupCtr, curIMcuRow);
      }
      if rowgroupCtr != DCTSIZE {
        return false, inRowCtr;
      }
      more, inRowCtr := Send(inRowCtr, at);
    }

    lemma PrepShape()
      requires Shape()
      ensures prep.s.Ok() && prep.height == |prep.image| > 0
    {
    }

    /** Send the completed row to the compressor. */
    method Send(inRowCtr0: nat, ghost at: nat) returns (more: bool, inRowCtr: nat)
      requires Consistent() && curIMcuRow < total && rowgroupCtr == DCTSIZE && InStep(at, inRowCtr0) && (!suspended ==> inRowCtr0 > 0)
      modifies this, sink
      ensures InStep(at, inRowCtr) && sink.Refusals() <= old(sink.Refusals())
      ensures more ==> Consistent() && !suspended && rowgroupCtr == 0 && inRowCtr > 0 && curIMcuRow == old(curIMcuRow) + 1
      ensures !more ==> Valid() && suspended && sink.Refusals() < old(sink.Refusals())
    {
      hide DivRoundUp, TotalRows, Group, PrepController.Valid, PrepController.Shape, IMcuRow, IMcuRows, RowSink.Refusals;
      inRowCtr := inRowCtr0;
      assert prep.s.Ok() && prep.height == |prep.image| > 0 by { PrepShape(); }
      NextReceived(curIMcuRow);
      more := sink.CompressData(buffer);
      if !more {
        // pretend we didn't yet consume the last input row
        if !suspended {
          inRowCtr := inRowCtr - 1;
          suspended := true;
        }
        return;
      }
      // undo our little suspension hack if a previous call suspended
      if suspended {
        inRowCtr := inRowCtr + 1;
        suspended := false;
      }
      rowgroupCtr := 0;
      curIMcuRow := curIMcuRow + 1;
    }

    /** process_data_simple_main; `at` is the application's next scanline. */
    method ProcessData(input: seq<Row>, avail: nat, ghost at: nat) returns (inRowCtr: nat)
      requires Valid() && InStep(at, 0) && Continues(prep.image, input, 0, avail, at)
      modifies this, prep, prep.trueBuffer, sink, buffer
      ensures Valid() && InStep(at, inRowCtr) && sink.Refusals() <= old(sink.Refusals())
      ensures sink.Refusals() == old(sink.Refusals()) ==> !suspended && (inRowCtr >= avail || curIMcuRow == total)
      ensures sink.Refusals() == old(sink.Refusals()) && old(suspended) ==> inRowCtr > 0
    {
      hide DivRoundUp, TotalRows, Group, PrepController.Valid, PrepController.Shape, IMcuRow, IMcuRows, RowSink.Refusals, Delivered, Continues;
      inRowCtr := 0;
      while curIMcuRow < total
        invariant Consistent() && InStep(at, inRowCtr) && sink.Refusals() <= old(sink.Refusals())
        invariant suspended ==> rowgroupCtr == DCTSIZE && curIMcuRow < total
        invariant !suspended && curIMcuRow < total ==> rowgroupCtr < DCTSIZE && (inRowCtr > 0 || prep.rowsToGo > 0)
        invariant curIMcuRow == total ==> Valid()
        invariant old(suspended) && !suspended ==> inRowCtr > 0
        decreases total - curIMcuRow
      {
        var more;
        more, inRowCtr := Step(input, inRowCtr, avail, at);
        if !more {
          return;
        }
        if curIMcuRow == total {
          AllRead();
        }
      }
    }
  }

  class Compressor {
    const main: MainController
    var nextScanline: nat

    constructor (main: MainController)
      requires main.Valid() && main.prep.rowsToGo == main.prep.height && !main.suspended
      ensures this.main == main && nextScanline == 0 && main.InStep(nextScanline, 0)
    {
      this.main, nextScanline := main, 0;
    }

    /** jpeg_write_scanlines: rows from the next scanline on; extra rows at the bottom are ignored. */
    method WriteScanlines(scanlines: seq<Row>, numLines: nat) returns (rowCtr: nat)
      requires main.Valid() && main.InStep(nextScanline, 0) && nextScanline <= main.prep.height
      requires Continues(main.prep.image, scanlines, 0, if numLines > main.prep.height - nextScanline then main.prep.height - nextScanline else numLines, nextScanline)
      modifies this, main, main.prep, main.prep.trueBuffer, main.sink, main.buffer
      ensures main.Valid() && nextScanline == old(nextScanline) + rowCtr <= main.prep.height
      ensures main.prep.Read() == nextScanline + if main.suspended then 1 else 0
      ensures main.sink.Refusals() <= old(main.sink.Refusals())
      ensures numLines > 0 && old(nextScanline) < main.prep.height && main.sink.Refusals() == old(main.sink.Refusals()) ==> rowCtr > 0
    {
      hide PrepController.Valid, PrepController.Shape, IMcuRows, Delivered, Continues, RowSink.Refusals;
      var rowsLeft := main.prep.height - nextScanline;
      var n := if numLines > rowsLeft then rowsLeft else numLines;
      rowCtr := main.ProcessData(scanlines, n, nextScanline);
      nextScanline := nextScanline + rowCtr;
    }

    /** The application: calls with any numbers of rows until the image has been taken. */
    method WriteImage(image: seq<Row>, chunks: seq<nat>)
      requires main.Valid() && main.InStep(nextScanline, 0) && nextScanline == 0 && image == main.prep.image
      requires forall i :: 0 <= i < |chunks| ==> chunks[i] > 0
      modifies this, main, main.prep, main.prep.trueBuffer, main.sink, main.buffer
      ensures nextScanline == main.prep.height == |image| && main.prep.Read() == |image|
      ensures main.prep.s.Ok() && image != [] && main.sink.received == IMcuRows(main.prep.s, image, TotalRows(main.prep.s, |image|))
    {
      hide PrepController.Valid, IMcuRows, Delivered, RowSink.Refusals, TotalRows;
      assert main.prep.height == |image| > 0 by { main.PrepShape(); }
      var calls := 0;
      while nextScanline < |image|
        invariant main.Valid() && main.InStep(nextScanline, 0) && nextScanline <= |image| == main.prep.height && calls >= 0
        decreases main.sink.Refusals(), |image| - nextScanline
      {
        var n := if calls < |chunks| then chunks[calls] else 1;
        var rowCtr := WriteScanlines(image[nextScanline..], n);
        calls := calls + 1;
      }
      main.PrepShape();
    }
  }
}
