/**
 * The arithmetic encoder of jcarith.c. The ghost fields `coder` (exact interval and statistics)
 * and `w` (data bytes of the current segment already sent, before stuffing) say what the
 * registers and the output mean.
 */
module ArithEncoder {
  import opened Bits
  import opened Aritab
  import opened ArithSpec
  import opened ArithFinish
  import opened ArithRegisters
  import opened ArithStats

  type Int32 = x: int | -0x8000_0000 <= x < 0x8000_0000

  class Encoder {
    var c: Int32                     // C register, base of coding interval
    var a: Int32                     // A register, normalized size of coding interval
    var sc: int                      // counter for stacked 0xFF values which might overflow
    var zc: int                      // counter for pending 0x00 values which might be discarded
    var ct: int                      // bit shift counter
    var buffer: int                  // most recent output byte != 0xFF, -1 if none
    var out: seq<Byte>               // the data destination
    const stats: Statistics          // the statistics areas

    ghost var coder: Coder           // the exact state the registers stand for
    ghost var prior: seq<Byte>       // output before the current segment
    ghost var w: seq<Byte>           // data bytes of the segment already in `out`

    /** jinit_arith_encoder. */
    constructor ()
      ensures fresh(stats) && fresh(stats.Repr()) && stats.Agrees(map[]) && coder == START && out == []
    {
      stats := new Statistics();
      c, a, sc, zc, ct, buffer := 0, 0, 0, 0, 0, 0;
      out, prior, w, coder := [], [], [], START;
    }

    /** Initialize the arithmetic encoding variables. */
    method InitRegisters()
      requires stats.Agrees(map[])
      modifies this`c, this`a, this`sc, this`zc, this`ct, this`buffer, this`w, this`prior, this`coder
      ensures Valid() && coder == START && prior == out && w == []
    {
      hide Represents, Statistics.Agrees, RowOf, Stuff;
      c := 0;
      a := 0x10000;
      sc := 0;
      zc := 0;
      ct := 11;
      buffer := -1;
      w, prior, coder := [], out, START;
      NothingSent(out);
      StartRepresents();
    }

    ghost predicate Registers(iv: Interval)
      reads this
    {
      && Represents(iv, w, Regs(c, a, sc, zc, ct, buffer))
      && out == prior + Stuff(w)
    }

    method EmitByte(val: Byte)
      modifies this`out
      ensures out == old(out) + [val]
    {
      out := out + [val];
    }

    /** `if (zc) do emit_byte(0x00) while (--zc)`. */
    method EmitZeros()
      requires zc >= 0 && out == prior + Stuff(w)
      modifies this`out, this`zc, this`w
      ensures zc == 0 && w == old(w) + Repeat(0, old(zc)) && out == prior + Stuff(w)
    {
      hide Stuff, Repeat;
      NoneRepeated(w, 0);
      while zc > 0
        invariant 0 <= zc <= old(zc) && w == old(w) + Repeat(0, old(zc) - zc) && out == prior + Stuff(w)
      {
        StuffSnoc(w, 0x00);
        OneMoreRepeated(old(w), 0, old(zc) - zc);
        EmitByte(0x00);
        w := w + [0x00];
        zc := zc - 1;
      }
    }

    /** `emit_byte(val)` followed by the stuffed zero when val is 0xFF. */
    method EmitStuffed(val: Byte)
      requires out == prior + Stuff(w)
      modifies this`out, this`w
      ensures w == old(w) + [val] && out == prior + Stuff(w)
    {
      StuffSnoc(w, val);
      EmitByte(val);
      if val == 0xFF {
        EmitByte(0x00);
      }
      w := w + [val];
    }

    /** The buffered byte will not overflow any more; a zero joins the pending zeros. */
    method SettleBuffer()
      requires sc >= 0 && zc >= 0 && -1 <= buffer <= 0xFE && out == prior + Stuff(w)
      requires w != [] ==> w[|w| - 1] != 0
      modifies this`out, this`w, this`zc
      ensures zc >= 0 && out == prior + Stuff(w)
      ensures w != [] ==> w[|w| - 1] != 0
      ensures w + Repeat(0, zc) == old(Sent(w, zc, buffer, 0))
    {
      if buffer == 0 {
        zc := zc + 1;
        RepeatSnoc(0, old(zc));
      } else if buffer >= 0 {
        EmitZeros();
        EmitStuffed(buffer);
      }
    }

    /** `if (sc) { zeros; do { emit 0xFF, 0x00 } while (--sc) }`. */
    method EmitStacked()
      requires sc >= 0 && zc >= 0 && out == prior + Stuff(w)
      requires w != [] ==> w[|w| - 1] != 0
      modifies this`out, this`w, this`zc, this`sc
      ensures sc == 0 && zc >= 0 && out == prior + Stuff(w)
      ensures w != [] ==> w[|w| - 1] != 0
      ensures w + Repeat(0, zc) == old(w + Repeat(0, zc) + Repeat(0xFF, sc))
    {
      if sc > 0 {
        EmitZeros();
        ghost var w0 := w;
        while sc > 0
          invariant 0 <= sc <= old(sc) && zc == 0 && w == w0 + Repeat(0xFF, old(sc) - sc)
          invariant out == prior + Stuff(w)
        {
          EmitStuffed(0xFF);
          RepeatSnoc(0xFF, old(sc) - sc);
          sc := sc - 1;
        }
      }
    }

    /** The buffered byte and the stacked 0xFF bytes will not overflow any more. */
    method Settle()
      requires sc >= 0 && zc >= 0 && -1 <= buffer <= 0xFE && out == prior + Stuff(w)
      requires w != [] ==> w[|w| - 1] != 0
      modifies this`out, this`w, this`zc, this`sc
      ensures sc == 0 && zc >= 0 && out == prior + Stuff(w)
      ensures w != [] ==> w[|w| - 1] != 0
      ensures w + Repeat(0, zc) == old(Sent(w, zc, buffer, sc))
    {
      assert Sent(w, zc, buffer, sc) == w + Delayed(zc, buffer, 0) + Repeat(0xFF, sc);
      SettleBuffer();
      EmitStacked();
    }

    ghost function R(): Regs
      reads this
    {
      Regs(c, a, sc, zc, ct, buffer)
    }

    /** Overflow over all stacked 0xFF bytes: they turn into pending zeros. */
    method Overflow()
      requires WellFormed(w, R()) && buffer >= 0 && out == prior + Stuff(w)
      modifies this`out, this`w, this`zc, this`sc
      ensures sc == 0 && zc == old(sc) && out == prior + Stuff(w)
      ensures w == old(w + Repeat(0, zc) + [buffer + 1])
    {
      EmitZeros();
      EmitStuffed(buffer + 1);
      zc := zc + sc;
      sc := 0;
    }

    method ByteOutCarry(temp: int)
      requires WellFormed(w, R()) && buffer >= 0 && out == prior + Stuff(w) && 0xFF < temp <= 0x11F
      modifies this`out, this`w, this`zc, this`sc, this`buffer
      ensures WellFormed(w, R()) && out == prior + Stuff(w)
      ensures Appended(old(Sent(w, zc, buffer, sc)), Sent(w, zc, buffer, sc), temp)
    {
      hide Sent, Appended;
      CarryStep(w, sc, zc, buffer, temp);
      Overflow();
      buffer := temp % 0x100;
    }

    /** Output all stacked 0xFF bytes, they will not overflow any more. */
    method ByteOutSettled(temp: Byte)
      requires WellFormed(w, R()) && out == prior + Stuff(w) && temp < 0xFF
      modifies this`out, this`w, this`zc, this`sc, this`buffer
      ensures WellFormed(w, R()) && out == prior + Stuff(w)
      ensures Appended(old(Sent(w, zc, buffer, sc)), Sent(w, zc, buffer, sc), temp)
    {
      ghost var w0, sc0, zc0, buffer0 := w, sc, zc, buffer;
      Settle();
      buffer := temp;
      SettleStep(w0, sc0, zc0, buffer0, w, zc, temp);
    }

    /** The body of `if (--ct == 0)` in the renormalization loop: another byte is ready for output. */
    method ByteOut(ghost iv: Interval)
      requires Registers(iv) && ct == 0 && iv.Sound()
      modifies this`c, this`sc, this`zc, this`ct, this`buffer, this`out, this`w
      ensures Registers(iv) && ct == 8
    {
      RepresentsBounds(iv, w, R());
      hide Represents, Sent, Appended;
      var temp := c / 0x80000;
      CarryIsAbsorbed(iv, w, c, a, sc, zc, buffer);
      ghost var w0, sc0, zc0, buffer0 := w, sc, zc, buffer;
      if temp > 0xFF {
        ByteOutCarry(temp);
      } else if temp == 0xFF {
        StackStep(w, sc, zc, buffer);
        sc := sc + 1;
      } else {
        ByteOutSettled(temp);
      }
      ByteOutRepresents(iv, w0, c, a, sc0, zc0, buffer0, w, sc, zc, buffer);
      c := c % 0x80000;
      ct := ct + 8;
    }

    ghost predicate Valid()
      reads this, stats, stats.dcStats, stats.acStats, stats.fixedBin
    {
      Registers(coder.iv) && ct >= 1 && stats.Agrees(coder.bins)
    }

    /** The renormalization loop `do { ... } while (a < 0x8000)`. */
    method Renormalize(ghost iv: Interval)
      requires Registers(iv) && iv.Sound() && a < 0x8000 && ct >= 1
      modifies this`c, this`a, this`sc, this`zc, this`ct, this`buffer, this`out, this`w
      ensures Registers(Renorm(iv)) && ct >= 1
    {
      hide Represents;
      ghost var cur := iv;
      RepresentsBounds(cur, w, R());
      while a < 0x8000
        invariant Registers(cur) && cur.Sound() && ct >= 1 && cur.a == a && Renorm(cur) == Renorm(iv)
        decreases 0x10000 - cur.a
      {
        RepresentsBounds(cur, w, R());
        DoubledRepresents(cur, w, R());
        a := 2 * a;
        c := 2 * c;
        ct := ct - 1;
        cur := Doubled(cur);
        if ct == 0 {
          ByteOut(cur);
        }
        RepresentsBounds(cur, w, R());
      }
    }

    /** Encode the less probable symbol. */
    method EncodeLps(st: BinId, sv: Stat, qe: int, nl: Byte)
      requires Valid() && stats.Usable(st) && sv == Get(coder.bins, st)
      requires qe == RowOf(sv).qe && Xor80(sv, nl) == AfterLps(sv)
      modifies this`c, this`a, this`sc, this`zc, this`ct, this`buffer, this`out, this`w, this`coder
      modifies stats.dcStats, stats.acStats, stats.fixedBin
      ensures Valid() && coder == Code(old(coder), Decision(st, 1 - Mps(sv)))
    {
      hide Represents, RowOf, Statistics.Agrees, Code, Narrow, NextStat, Renorm, Upper, Xor80, AfterLps, AfterMps, Get;
      RepresentsBounds(coder.iv, w, R());
      NarrowedRepresents(coder.iv, w, R(), sv, 1 - Mps(sv));
      CodeLps(coder, st);
      ghost var next, iv := Code(coder, Decision(st, 1 - Mps(sv))), Narrow(coder.iv, sv, 1 - Mps(sv));
      a := a - qe;
      if a >= qe {
        c := c + a;
        a := qe;
      }
      stats.Store(st, Xor80(sv, nl), coder.bins);
      Renormalize(iv);
      coder := next;
    }

    /** Encode the more probable symbol. */
    method EncodeMps(st: BinId, sv: Stat, qe: int, nm: Byte)
      requires Valid() && stats.Usable(st) && sv == Get(coder.bins, st)
      requires qe == RowOf(sv).qe && Xor80(sv, nm) == AfterMps(sv)
      modifies this`c, this`a, this`sc, this`zc, this`ct, this`buffer, this`out, this`w, this`coder
      modifies stats.dcStats, stats.acStats, stats.fixedBin
      ensures Valid() && coder == Code(old(coder), Decision(st, Mps(sv)))
    {
      hide Represents, RowOf, Statistics.Agrees, Code, Narrow, NextStat, Renorm, Upper, Xor80, AfterLps, AfterMps, Get;
      RepresentsBounds(coder.iv, w, R());
      NarrowedRepresents(coder.iv, w, R(), sv, Mps(sv));
      CodeMps(coder, st);
      stats.LoadAgrees(coder.bins, st);
      ghost var next, iv := Code(coder, Decision(st, Mps(sv))), Narrow(coder.iv, sv, Mps(sv));
      a := a - qe;
      if a >= 0x8000 {
        coder := next;
        return;
      }
      if a < qe {
        c := c + a;
        a := qe;
      }
      stats.Store(st, Xor80(sv, nm), coder.bins);
      Renormalize(iv);
      coder := next;
    }

    /** The core arithmetic encoding routine. */
    method ArithEncode(st: BinId, val: Bit)
      requires Valid() && stats.Usable(st)
      modifies this`c, this`a, this`sc, this`zc, this`ct, this`buffer, this`out, this`w, this`coder
      modifies stats.dcStats, stats.acStats, stats.fixedBin
      ensures Valid() && coder == Code(old(coder), Decision(st, val))
    {
      hide RowOf, Represents, Statistics.Agrees, Code, Xor80, AfterLps, AfterMps;
      stats.LoadAgrees(coder.bins, st);
      var sv := stats.Load(st);
      var qe, nl, nm := Fetch(sv);
      if val != Mps(sv) {
        EncodeLps(st, sv, qe, nl);
      } else {
        EncodeMps(st, sv, qe, nm);
      }
    }

    /** `if ((temp = (a - 1 + c) & 0xFFFF0000) < c) c = temp + 0x8000; else c = temp;` */
    method ChoosePoint()
      requires 0 <= c < 0x1000_0000 && 0x8000 <= a <= 0x10000
      modifies this`c
      ensures c == PickPoint(old(c), a)
    {
      hide BestPoint;
      var temp := (a - 1 + c) - (a - 1 + c) % 0x10000;
      if temp < c {
        c := temp + 0x8000;
      } else {
        c := temp;
      }
    }

    /** The first half of finish_pass: choose the final code value and settle the delayed bytes. */
    method FinishCarry()
      requires Registers(coder.iv) && 1 <= ct && a >= 0x8000
      modifies this`c, this`sc, this`zc, this`out, this`w
      ensures 0 <= c && c % 0x800 == 0 && zc >= 0 && out == prior + Stuff(w)
      ensures w != [] ==> w[|w| - 1] != 0
      ensures |w + Repeat(0, zc)| == |old(Sent(w, zc, buffer, sc))|
      ensures (Val(w + Repeat(0, zc)) - Val(old(Sent(w, zc, buffer, sc)))) * 0x800_0000 + c % 0x800_0000
           == Shl(PickPoint(old(c), a), ct)
    {
      hide Represents, Sent, Shl, BestPoint;
      RepresentsBounds(coder.iv, w, R());
      hide Val, Stuff, Repeat, PickPoint;
      ghost var y := PickPoint(c, a);
      ChosenFits(coder.iv, w, R(), y);
      ChoosePoint();
      c := Shl(c, ct);
      CarrySplit(c);
      if c >= 0x800_0000 {
        FinalOverflow();
      } else {
        Settle();
      }
    }

    /** One final overflow has to be handled. */
    method FinalOverflow()
      requires WellFormed(w, R()) && buffer >= 0 && out == prior + Stuff(w)
      modifies this`out, this`w, this`zc, this`sc
      ensures zc >= 0 && out == prior + Stuff(w)
      ensures w != [] ==> w[|w| - 1] != 0
      ensures |w + Repeat(0, zc)| == |old(Sent(w, zc, buffer, sc))|
      ensures Val(w + Repeat(0, zc)) == Val(old(Sent(w, zc, buffer, sc))) + 1
    {
      hide Sent, Val;
      FinalCarry(w, zc, buffer, sc);
      Overflow();
    }

    /** The second half of finish_pass: output the final bytes only if they are not 0x00. */
    method FinalBytesOut()
      requires 0 <= c && c % 0x800 == 0 && zc >= 0 && out == prior + Stuff(w)
      requires w != [] ==> w[|w| - 1] != 0
      modifies this`zc, this`out, this`w
      ensures out == prior + Stuff(w) && (w != [] ==> w[|w| - 1] != 0)
      ensures SameBytes(w, old(w + Repeat(0, zc)) + [c % 0x800_0000 / 0x8_0000, c % 0x8_0000 / 0x800])
    {
      FinalFields(c);
      ghost var s := w + Repeat(0, zc);
      NoBytesNeeded(w, zc);
      OneByteNeeded(s, c / 0x8_0000 % 0x100);
      TwoBytesNeeded(s, c / 0x8_0000 % 0x100, c / 0x800 % 0x100);
      hide SameBytes;
      if c % 0x800_0000 / 0x800 != 0 {
        EmitZeros();
        EmitStuffed(c / 0x8_0000 % 0x100);
        if c % 0x8_0000 / 0x800 != 0 {
          EmitStuffed(c / 0x800 % 0x100);
        }
      }
    }

    /** Finish up at the end of an arithmetic-compressed scan. */
    method FinishPass()
      requires Valid()
      modifies this`c, this`sc, this`zc, this`out, this`w
      ensures out == prior + Stuff(w)
      ensures In(w, coder.iv)
      ensures w != [] ==> w[|w| - 1] != 0
      ensures forall v :: In(v, coder.iv) ==> |w| <= |v|
    {
      hide Represents, Sent, Shl, In, SameBytes, Statistics.Agrees, Val, Repeat, Stuff;
      RepresentsBounds(coder.iv, w, R());
      ghost var r0, w0 := R(), w;
      FinishCarry();
      ghost var s := w + Repeat(0, zc);
      FinalFields(c);
      FinalBytesOut();
      FinishedPoint(coder.iv, w0, r0, s, c % 0x800_0000 / 0x8_0000, c % 0x8_0000 / 0x800, w);
    }
  }
}
