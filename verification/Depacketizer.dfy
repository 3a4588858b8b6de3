/** `H264Depacketizer`: the three rotating buffers and the fields that `Push` updates in place. */
module Depacketizer {
  import opened Common
  import opened DepackSpec

  const BUFFERS := 3

  /** What the caller gets for an access unit that ended; the bytes stay in buffer `buffer`. */
  datatype AuEvent = AuEvent(
    complete: bool, rtpTs: uint32, bytes: nat, packets: nat, lostPackets: nat, lostFragments: nat,
    isIdr: bool, damaged: bool, buffer: nat, firstArrival: int, lastArrival: int)

  /** The fields that belong to one access unit; each step updates some of them. */
  datatype Au = Au(
    ts: uint32, packets: nat, lost: nat, lostFrag: nat, idr: bool, damaged: bool,
    fuOpen: bool, fuStart: nat, orphan: bool, firstArrival: int, lastArrival: int)

  /** `bs` is at the start of `a`. */
  ghost predicate Holds(a: array<byte>, bs: Bytes)
    reads a
  {
    |bs| <= a.Length && a[..|bs|] == bs
  }

  class H264Depacketizer {
    const cap: nat
    const buf0: array<byte>
    const buf1: array<byte>
    const buf2: array<byte>
    const emittedLen: array<nat>
    var cur: nat
    var len: nat
    ghost var out: Bytes  // the first `len` bytes of buffer `cur`
    var au: Au
    var haveTs: bool
    var pendingGap: nat
    var haveSeq: bool
    var lastSeq: uint16
    var accepted: bool
    var lateOrDup: nat
    var seqResets: nat

    /** Three separate buffers of `cap` bytes; constant for the life of the object. */
    ghost predicate Shape() {
      && buf0.Length >= cap && buf1.Length >= cap && buf2.Length >= cap
      && buf0 != buf1 && buf1 != buf2 && buf0 != buf2
      && emittedLen.Length == BUFFERS
    }

    function Buf(k: nat): array<byte> {
      if k == 0 then buf0 else if k == 1 then buf1 else buf2
    }

    function Next(k: nat): nat {
      (k + 1) % BUFFERS
    }

    /** The index bounds and the assembled bytes; they hold also inside `Push`. */
    ghost predicate Sane()
      reads this, buf0, buf1, buf2
    {
      && Shape()
      && cur < BUFFERS
      && |out| == len <= cap
      && (au.fuOpen ==> au.fuStart <= len)
      && Holds(Buf(cur), out)
    }

    /** Holds between two calls of `Push`. */
    ghost predicate Valid()
      reads this, buf0, buf1, buf2
    {
      && Sane()
      && pendingGap == 0
      && (haveTs ==> haveSeq && au.packets > 0)
    }

    static ghost function BodyOf(au: Au, out: Bytes): Body
      requires au.fuOpen ==> au.fuStart <= |out|
    {
      if au.fuOpen then Body(out[..au.fuStart], Some(out[au.fuStart..]), au.damaged) else Body(out, None, au.damaged)
    }

    static ghost function Assembled(au: Au, out: Bytes): Assembly
      requires au.fuOpen ==> au.fuStart <= |out|
    {
      Assembly(au.ts, BodyOf(au, out), au.packets, au.lost, au.lostFrag, au.idr, au.orphan, au.firstArrival,
          au.lastArrival)
    }

    ghost function Asm(): Assembly
      requires au.fuOpen ==> au.fuStart <= |out|
      reads this`au, this`out
    {
      Assembled(au, out)
    }

    ghost function Value(): State
      requires au.fuOpen ==> au.fuStart <= |out|
      reads this
    {
      State(if haveTs then Some(Asm()) else None, if haveSeq then Some(lastSeq) else None, lateOrDup, seqResets)
    }

    /** `e` reports `ev`, and the bytes of `ev` are in the buffer that `e` names. */
    ghost predicate Shows(e: AuEvent, ev: Event)
      requires Shape()
      reads buf0, buf1, buf2, emittedLen
    {
      && e.buffer < BUFFERS
      && emittedLen[e.buffer] == e.bytes == |ev.data|
      && Holds(Buf(e.buffer), ev.data)
      && e == AuEvent(ev.complete, ev.ts, |ev.data|, ev.packets, ev.lost, ev.lostFragments, ev.idr, ev.damaged,
                      e.buffer, ev.firstArrival, ev.lastArrival)
    }

    ghost predicate ShowsAll(es: seq<AuEvent>, evs: seq<Event>)
      requires Shape()
      reads buf0, buf1, buf2, emittedLen
    {
      |es| == |evs| && forall i | 0 <= i < |es| :: Shows(es[i], evs[i])
    }

    /** The events use the buffers before `last`, in rotation order. */
    ghost predicate Trail(es: seq<AuEvent>, last: nat) {
      && |es| <= 2
      && (es != [] ==> Next(es[|es| - 1].buffer) == last && es[|es| - 1].buffer < BUFFERS)
      && (|es| == 2 ==> Next(es[0].buffer) == es[1].buffer && es[0].buffer < BUFFERS)
    }

    constructor (maxAuBytes: nat)
      ensures Valid() && cap == maxAuBytes && fresh({buf0, buf1, buf2}) && fresh(emittedLen)
      ensures Value() == INITIAL
    {
      cap := maxAuBytes;
      buf0 := new byte[maxAuBytes];
      buf1 := new byte[maxAuBytes];
      buf2 := new byte[maxAuBytes];
      emittedLen := new nat[BUFFERS](_ => 0);
      cur, len, out, au := 0, 0, [], Au(0, 0, 0, 0, false, false, false, 0, false, 0, 0);
      haveTs, haveSeq, accepted, pendingGap, lateOrDup, seqResets := false, false, true, 0, 0, 0;
    }

    /** Assembles into memory of the caller. */
    constructor FromBuffers(bufs: seq<array<byte>>, capacity: nat)
      requires |bufs| == BUFFERS && forall i | 0 <= i < BUFFERS :: bufs[i].Length >= capacity
      requires forall i, j | 0 <= i < j < BUFFERS :: bufs[i] != bufs[j]
      ensures Valid() && cap == capacity && [buf0, buf1, buf2] == bufs && fresh(emittedLen)
      ensures Value() == INITIAL
    {
      cap := capacity;
      buf0, buf1, buf2 := bufs[0], bufs[1], bufs[2];
      emittedLen := new nat[BUFFERS](_ => 0);
      cur, len, out, au := 0, 0, [], Au(0, 0, 0, 0, false, false, false, 0, false, 0, 0);
      haveTs, haveSeq, accepted, pendingGap, lateOrDup, seqResets := false, false, true, 0, 0, 0;
    }

    method Reset(ts: uint32)
      requires Sane()
      modifies this`haveTs, this`au, this`len, this`out
      ensures Sane() && haveTs
      ensures Asm() == Fresh(ts, au.firstArrival).(lastArrival := au.lastArrival)
    {
      haveTs := true;
      au := au.(ts := ts, packets := 0, lost := 0, lostFrag := 0, idr := false, damaged := false, fuOpen := false,
          orphan := false);
      len, out := 0, [];
    }

    method Append(p: Bytes)
      requires Sane()
      modifies this`len, this`out, this`au, Buf(cur)
      ensures Sane()
      ensures Asm() == old(Asm()).(body := old(Asm()).body.Append(cap, p))
    {
      if len + |p| <= cap {
        var b, at := Buf(cur), len;
        forall i | 0 <= i < |p| {
          b[at + i] := p[i];
        }
        len, out := len + |p|, out + p;
        assert b[..len] == out;
        assert au.fuOpen ==> out[au.fuStart..] == old(out)[au.fuStart..] + p;
      } else {
        au := au.(damaged := true);
      }
    }

    method AppendStartCode()
      requires Sane()
      modifies this`len, this`out, this`au, Buf(cur)
      ensures Sane()
      ensures Asm() == old(Asm()).(body := old(Asm()).body.Append(cap, START_CODE))
    {
      Append(START_CODE);
    }

    method AppendNal(p: Bytes)
      requires Sane() && |p| > 0
      modifies this`len, this`out, this`au, Buf(cur)
      ensures Sane()
      ensures Asm() == old(Asm()).AppendNal(cap, p)
    {
      AppendStartCode();
      Append(p);
      if p[0] % 32 == 5 {
        au := au.(idr := true);
      }
    }

    method DropOpenFu()
      requires Sane() && au.fuStart <= len
      modifies this`len, this`out
      ensures Sane() && out == old(out)[..au.fuStart]
    {
      len, out := au.fuStart, out[..au.fuStart];
    }

    /** A partial NAL unit is discarded, and counted. */
    method DiscardFu()
      requires Sane()
      modifies this`au, this`len, this`out
      ensures Sane() && !au.fuOpen
      ensures var a := old(Asm());
              Asm() == a.(body := a.body.DropFu(),
                          lostFragments := a.lostFragments + if a.body.partial.Some? then 1 else 0)
    {
      if au.fuOpen {
        DropOpenFu();
        au := au.(lostFrag := au.lostFrag + 1, fuOpen := false);
      }
    }

    method Emit(byMarker: bool) returns (ok: bool, e: AuEvent)
      requires Sane()
      modifies this`au, this`len, this`out, this`cur, emittedLen
      ensures Sane()
      ensures ok <==> !(old(Asm()).body.whole == [] && au.packets == 0 && au.lost == 0)
      ensures ok ==> Shows(e, old(Asm()).Close(byMarker)) && e.buffer == old(cur) && cur == Next(old(cur)) && out == []
      ensures forall i | 0 <= i < BUFFERS && i != old(cur) :: emittedLen[i] == old(emittedLen[i])
      ensures au.packets == old(au.packets) && au.ts == old(au.ts) && !au.fuOpen
    {
      DiscardFu();
      var complete := byMarker && au.lost == 0 && au.lostFrag == 0 && !au.damaged && len > 0;
      e := AuEvent(complete, au.ts, len, au.packets, au.lost, au.lostFrag, au.idr, au.damaged, cur,
                   au.firstArrival, au.lastArrival);
      if len == 0 && au.packets == 0 && au.lost == 0 {
        return false, e;
      }
      emittedLen[cur] := len;
      cur := Next(cur);
      len, out := 0, [];
      ok := true;
    }

    method StapA(p: Bytes)
      requires Sane() && |p| > 0
      modifies this`len, this`out, this`au, Buf(cur)
      ensures Sane()
      ensures Asm() == old(Asm()).StapFrom(cap, p, 1)
    {
      var off := 1;
      while off < |p|
        invariant 1 <= off <= |p|
        invariant Sane()
        invariant Asm().StapFrom(cap, p, off) == old(Asm()).StapFrom(cap, p, 1)
      {
        if off + 2 > |p| {
          au := au.(damaged := true);
          break;
        }
        var sz := Be16(p[off], p[off + 1]);
        off := off + 2;
        if sz <= 0 || off + sz > |p| {
          au := au.(damaged := true);
          break;
        }
        AppendNal(p[off..off + sz]);
        off := off + sz;
      }
    }

    /** Opens an FU-A at the end of the assembled bytes, after dropping one that is still open. */
    method OpenFu()
      requires Sane()
      modifies this`len, this`out, this`au
      ensures Sane()
      ensures var a := old(Asm());
              Asm() == a.(body := a.body.(partial := Some([])), orphan := false,
                          lostFragments := a.lostFragments + if a.body.partial.Some? then 1 else 0)
    {
      if au.fuOpen {
        DropOpenFu();
        au := au.(lostFrag := au.lostFrag + 1);
      }
      au := au.(fuStart := len, orphan := false, fuOpen := true);
      assert out[..len] == out && out[len..] == [];
    }

    method BeginFu(nalHeader: byte)
      requires Sane()
      modifies this`len, this`out, this`au, Buf(cur)
      ensures Sane()
      ensures Asm() == old(Asm()).BeginFu(cap, nalHeader)
    {
      OpenFu();
      AppendStartCode();
      Append([nalHeader]);
      if nalHeader % 32 == 5 {
        au := au.(idr := true);
      }
    }

    /** The bytes of a fragment go to the open FU-A; without one they are lost. */
    method ContinueFu(fragment: Bytes, e: bool)
      requires Sane()
      modifies this`len, this`out, this`au, Buf(cur)
      ensures Sane()
      ensures Asm() == old(Asm()).ContinueFu(cap, fragment, e)
    {
      if au.fuOpen {
        Append(fragment);
        if e {
          assert out[..au.fuStart] + out[au.fuStart..] == out;
          au := au.(fuOpen := false);
        }
      } else {
        if !au.orphan {
          au := au.(orphan := true, lostFrag := au.lostFrag + 1);
        }
        if e {
          au := au.(orphan := false);
        }
      }
    }

    method FuA(p: Bytes)
      requires Sane() && |p| >= 2
      modifies this`len, this`out, this`au, Buf(cur)
      ensures Sane()
      ensures Asm() == old(Asm()).FuA(cap, p)
    {
      var s, e := p[1] / 128 % 2 == 1, p[1] / 64 % 2 == 1;
      if s {
        BeginFu(p[0] - p[0] % 32 + p[1] % 32);
      }
      ContinueFu(p[2..], e);
    }

    method TakePayload(p: Bytes)
      requires Sane()
      modifies this`len, this`out, this`au, Buf(cur)
      ensures Sane() && au.packets == old(au.packets)
      ensures Asm() == old(Asm()).Payload(cap, p)
    {
      if |p| >= 1 {
        var naluType := p[0] % 32;
        if 1 <= naluType <= 23 {
          AppendNal(p);
          au := au.(orphan := false);
        } else if naluType == 24 {
          au := au.(orphan := false);
          StapA(p);
        } else if naluType == 28 && |p| >= 2 {
          FuA(p);
        } else {
          au := au.(damaged := true);
        }
      }
    }

    /** A gap inside the access unit ends an open FU-A. */
    method CountGap()
      requires Sane()
      modifies this`au, this`pendingGap, this`out, this`len
      ensures Sane() && pendingGap == 0
      ensures Asm() == old(Asm()).Gap(old(pendingGap))
    {
      if pendingGap > 0 {
        au := au.(lost := au.lost + pendingGap);
        pendingGap := 0;
        if au.fuOpen {
          DropOpenFu();
          au := au.(lostFrag := au.lostFrag + 1, fuOpen := false, orphan := true);
        }
      }
    }

    /** A timestamp change while an access unit is open. `out0` shows what a sequence reset ended. */
    method EndOnNewTimestamp(ts: uint32, out0: seq<AuEvent>, ghost ended: seq<Event>) returns (out: seq<AuEvent>)
      requires Sane() && (haveTs ==> au.packets > 0)
      requires ShowsAll(out0, ended) && Trail(out0, cur) && (haveTs ==> out0 == []) && |out0| <= 1
      modifies this`au, this`pendingGap, this`len, this`out, this`cur, emittedLen
      ensures Sane() && (haveTs ==> au.packets > 0) && Trail(out, cur) && |out| <= 1
      ensures ShowsAll(out, ended + EndedBefore(old(Value()).asm, ts, old(pendingGap)))
      ensures au.ts == old(au.ts)
      ensures if haveTs && ts != au.ts then pendingGap == 0 && cur == Next(old(cur))
              else Asm() == old(Asm()) && pendingGap == old(pendingGap) && cur == old(cur)
    {
      hide Assembly.Close, Holds;
      out := out0;
      if haveTs && ts != au.ts {
        if pendingGap > 0 {
          au := au.(lost := au.lost + pendingGap);
          pendingGap := 0;
        }
        var ok, e := Emit(false);
        assert ok;
        if ok {
          out := out + [e];
        }
      }
    }

    /** The packet joins the open access unit or opens a new one; a gap is counted. */
    method Join(h: Packet, arrival: int)
      requires Sane()
      requires haveTs && h.ts == au.ts ==> au.packets > 0
      modifies this`haveTs, this`au, this`len, this`out, this`pendingGap
      ensures Sane() && haveTs && au.packets > 0 && pendingGap == 0
      ensures var base := if old(haveTs) && h.ts == old(au.ts) then old(Asm()) else Fresh(h.ts, arrival);
              Asm() == base.Gap(old(pendingGap)).(packets := base.packets + 1, lastArrival := arrival)
    {
      if !haveTs || h.ts != au.ts {
        Reset(h.ts);
      }
      if au.packets == 0 {
        au := au.(firstArrival := arrival);
      }
      au := au.(lastArrival := arrival);
      CountGap();
      au := au.(packets := au.packets + 1);
    }

    /** The marker ends the access unit. `out0` shows what the packet already ended. */
    method EndOnMarker(marker: bool, out0: seq<AuEvent>, ghost ended: seq<Event>) returns (out: seq<AuEvent>)
      requires Sane() && haveTs && au.packets > 0
      requires ShowsAll(out0, ended) && Trail(out0, cur) && |out0| <= 1
      modifies this`au, this`haveTs, this`len, this`out, this`cur, emittedLen
      ensures Sane() && haveTs == !marker && Trail(out, cur)
      ensures ShowsAll(out, ended + if marker then [old(Asm()).Close(true)] else [])
      ensures !marker ==> Asm() == old(Asm()) && au.packets > 0
    {
      out := out0;
      if marker {
        var ok, e := Emit(true);
        assert ok;
        if ok {
          out := out + [e];
        }
        Reset(au.ts);
        haveTs := false;
      }
    }

    /** Late, progress or reset, by the thresholds of RFC 3550 A.1. */
    method Classify(seqNo: uint16) returns (late: bool, ended: seq<AuEvent>, ghost evs: seq<Event>)
      requires Valid()
      modifies this`lateOrDup, this`pendingGap, this`seqResets, this`haveTs, this`au, this`len, this`out, this`cur,
               emittedLen
      ensures Sane() && (haveTs ==> au.packets > 0)
      ensures Class(late, Value(), pendingGap, evs) == DepackSpec.Classify(old(Value()), seqNo)
      ensures late ==> evs == [] && cur == old(cur) && Valid()
      ensures ShowsAll(ended, evs) && Trail(ended, cur) && (haveTs ==> ended == []) && |ended| <= 1
    {
      hide Assembly.Close, BodyOf, Holds;
      ended, late, evs := [], false, [];
      if haveSeq {
        var step := SignedStep(seqNo, lastSeq);
        if step <= 0 && step >= -MAX_MISORDER {
          lateOrDup := lateOrDup + 1;
          late := true;
        } else if step > 0 && step <= MAX_DROPOUT {
          pendingGap := step - 1;
        } else {
          seqResets := seqResets + 1;
          pendingGap := 0;
          if haveTs {
            evs := [Asm().Close(false)];
            var ok, e := Emit(false);
            assert ok;
            if ok {
              ended := [e];
            }
          }
          haveTs := false;
        }
      }
    }

    /** The packet and its payload enter the access unit; the events so far are in other buffers. */
    method Enter(h: Packet, arrival: int, ghost es: seq<AuEvent>, ghost evs: seq<Event>)
      requires Sane() && (haveTs && h.ts == au.ts ==> au.packets > 0)
      requires ShowsAll(es, evs) && Trail(es, cur) && |es| <= 1
      modifies this`haveTs, this`au, this`len, this`out, this`pendingGap, Buf(cur)
      ensures Sane() && haveTs && au.packets > 0 && pendingGap == 0
      ensures Asm() == (if old(haveTs) && h.ts == old(au.ts) then old(Asm()) else Fresh(h.ts, arrival))
                       .Take(cap, old(pendingGap), h.payload, arrival)
      ensures ShowsAll(es, evs)
    {
      hide Assembly.Gap, Assembly.Payload;
      Join(h, arrival);
      TakePayload(h.payload);
    }

    /**
     An accepted packet up to its marker. `out0` shows what it already ended: at most the event of a sequence reset.
     */
    method Absorb(h: Packet, arrival: int, out0: seq<AuEvent>, ghost ended: seq<Event>) returns (out: seq<AuEvent>)
      requires Sane() && (haveTs ==> au.packets > 0)
      requires ShowsAll(out0, ended) && Trail(out0, cur) && (haveTs ==> out0 == []) && |out0| <= 1
      modifies this`haveTs, this`au, this`len, this`out, this`cur, this`pendingGap, emittedLen, Buf(cur), Buf(Next(cur))
      ensures Sane() && haveTs && au.packets > 0 && pendingGap == 0
      ensures Trail(out, cur) && |out| <= 1
      ensures ShowsAll(out, ended + EndedBefore(old(Value()).asm, h.ts, old(pendingGap)))
      ensures Asm() == Joined(cap, old(Value()).asm, h, arrival, old(pendingGap))
    {
      hide Assembly.Take, EndedBefore, Trail, ShowsAll;
      ghost var asm, gap := Value().asm, pendingGap;
      out := EndOnNewTimestamp(h.ts, out0, ended);
      Enter(h, arrival, out, ended + EndedBefore(asm, h.ts, gap));
    }

    /** An accepted packet; `out0` as above. */
    method Admit(h: Packet, arrival: int, out0: seq<AuEvent>, ghost ended: seq<Event>) returns (out: seq<AuEvent>)
      requires Sane() && (haveTs ==> au.packets > 0)
      requires ShowsAll(out0, ended) && Trail(out0, cur) && (haveTs ==> out0 == []) && |out0| <= 1
      modifies this`haveSeq, this`lastSeq, this`haveTs, this`au, this`len, this`out, this`cur, this`pendingGap,
               emittedLen, Buf(cur), Buf(Next(cur))
      ensures Valid() && Trail(out, cur)
      ensures var o := DepackSpec.Admit(cap, old(Value()), h, arrival, old(pendingGap), ended);
              Value() == o.st && o.accepted && ShowsAll(out, o.Events())
    {
      hide Joined, EndedBefore, Assembly.Close, ShowsAll, Trail;
      ghost var v, gap := Value().asm, pendingGap;
      haveSeq, lastSeq := true, h.seqNo;
      out := Absorb(h, arrival, out0, ended);
      assert ended + EndedBefore(v, h.ts, gap) + [] == ended + EndedBefore(v, h.ts, gap);
      out := EndOnMarker(h.marker, out, ended + EndedBefore(v, h.ts, gap));
    }

    /** One RTP packet; returns the access units that ended with it, oldest first. */
    method Push(h: Packet, arrival: int) returns (out: seq<AuEvent>)
      requires Valid()
      modifies this, emittedLen, buf0, buf1, buf2
      ensures Valid()
      ensures var o := DepackSpec.Push(cap, old(Value()), h, arrival);
              Value() == o.st && accepted == o.accepted && ShowsAll(out, o.Events())
      ensures |out| <= 2 && forall i | 0 <= i < |out| :: out[i].buffer != cur
      ensures |out| == 2 ==> out[0].buffer != out[1].buffer
      ensures !accepted ==> cur == old(cur)
      ensures !accepted ==> buf0[..] == old(buf0[..]) && buf1[..] == old(buf1[..]) && buf2[..] == old(buf2[..])
    {
      hide DepackSpec.Admit, DepackSpec.Classify, Assembly.Close, ShowsAll, Assembled, BodyOf, Holds, Ending;
      ghost var o := DepackSpec.Push(cap, Value(), h, arrival);
      accepted := true;
      var late, ended, evs := Classify(h.seqNo);
      if late {
        assert o.Events() == [];
        accepted, out := false, ended;
      } else {
        out := Admit(h, arrival, ended, evs);
      }
    }
  }
}
