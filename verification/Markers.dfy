/**
 * Markers in entropy-coded data: where a reader finds the next one, and the restart markers between
 * the segments of a scan.
 */
module Markers {
  import opened Bits

  const JPEG_EOI := 0xD9
  const RST0 := 0xD0

  /** A marker code, and the bytes after it. */
  datatype Found = Found(code: Byte, rest: seq<Byte>)

  /** The marker that ends the data bytes of s; a source that ends supplies EOI. */
  function Marker(s: seq<Byte>): (f: Found)
    ensures f.code != 0
    decreases |s|
  {
    if s == [] then Found(JPEG_EOI, [])
    else if s[0] != 0xFF then Marker(s[1..])
    else
      var j := SkipFills(s, 1);
      if j == |s| then Found(JPEG_EOI, [])
      else if s[j] == 0x00 then Marker(s[j + 1..])
      else Found(s[j], s[j + 1..])
  }

  /** What stands behind a stuffed segment is found when its data bytes are used up. */
  lemma {:induction false} MarkerStuff(s: seq<Byte>, tail: seq<Byte>)
    ensures Marker(Stuff(s) + tail) == Marker(tail)
  {
    if s == [] {
      assert Stuff(s) + tail == tail;
    } else {
      MarkerStuff(s[1..], tail);
      assert s == [s[0]] + s[1..];
      StuffCons(s[0], s[1..]);
      var whole, rest := Stuff(s) + tail, Stuff(s[1..]) + tail;
      if s[0] == 0xFF {
        assert whole == [0xFF, 0x00] + rest;
        assert SkipFills(whole, 1) == 1;
        assert whole[2..] == rest;
      } else {
        assert whole == [s[0]] + rest;
        assert whole[1..] == rest;
      }
    }
  }

  /** RSTn behind segment number n. */
  function Rst(n: nat): seq<Byte> {
    [0xFF, RST0 + n % 8]
  }

  lemma MarkerRst(n: nat, rest: seq<Byte>)
    ensures Unstuff(Rst(n) + rest) == [] && Marker(Rst(n) + rest) == Found(RST0 + n % 8, rest)
  {
    var t := Rst(n) + rest;
    assert t[0] == 0xFF && t[1] == RST0 + n % 8;
    assert SkipFills(t, 1) == 1;
    assert t[2..] == rest;
  }

  /** Segments, each closed by its restart marker. */
  function Closed(ws: seq<seq<Byte>>): seq<Byte>
    decreases |ws|
  {
    if ws == [] then []
    else
      var k := |ws| - 1;
      Closed(ws[..k]) + (Stuff(ws[k]) + Rst(k))
  }

  lemma ClosedSnoc(ws: seq<seq<Byte>>, w: seq<Byte>)
    ensures Closed(ws + [w]) == Closed(ws) + (Stuff(w) + Rst(|ws|))
  {
    assert (ws + [w])[..|ws|] == ws;
  }

  /** The entropy-coded data of a scan: all segments but the last are closed. */
  function ScanData(ws: seq<seq<Byte>>): seq<Byte>
    requires ws != []
  {
    Closed(ws[..|ws| - 1]) + Stuff(ws[|ws| - 1])
  }

  /**
   * Section B.2.1: a scan of one segment has no marker; another segment comes behind the marker 0xFF,
   * 0xD0 + m, m counting the markers modulo 8 from zero.
   */
  lemma RestartMarkers(ws: seq<seq<Byte>>, w: seq<Byte>)
    ensures ScanData([w]) == Stuff(w)
    ensures ws != [] ==> ScanData(ws + [w]) == ScanData(ws) + [0xFF, 0xD0 + (|ws| - 1) % 8] + Stuff(w)
  {
    hide Stuff;
    assert [w][..0] == [] && Closed([]) == [];
    if ws != [] {
      var n := |ws| - 1;
      assert ws == ws[..n] + [ws[n]];
      ClosedSnoc(ws[..n], ws[n]);
      assert (ws + [w])[..n + 1] == ws;
    }
  }
}
