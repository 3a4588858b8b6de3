/**
 The RFC 6184 depacketizer as a function on values: what one accepted packet does to
 the access unit being assembled, and which access units it ends. `Depacketizer.dfy`
 proves the class against `Push`; the modules built on this one prove what the
 depacketizer is for.
 */
module DepackSpec {
  import opened Common

  const MAX_DROPOUT := 3000
  const MAX_MISORDER := 100
  const START_CODE: Bytes := [0, 0, 0, 1]

  /** The header fields and the payload that `Push` looks at. */
  datatype Packet = Packet(seqNo: uint16, ts: uint32, marker: bool, payload: Bytes)

  /** One access unit that ended; `data` is the content of the buffer the event names. */
  datatype Event = Event(
    complete: bool, ts: uint32, data: Bytes, packets: nat, lost: nat, lostFragments: nat,
    idr: bool, damaged: bool, firstArrival: int, lastArrival: int)

  /**
   The bytes assembled so far: `whole` NAL units, then those of an open FU-A. `damaged` is sticky: a malformed
   STAP-A, a packet type the non-interleaved mode never sends, or more bytes than the buffer holds.
   */
  datatype Body = Body(whole: Bytes, partial: Option<Bytes>, damaged: bool) {
    function Size(): nat {
      |whole| + if partial.Some? then |partial.value| else 0
    }

    /** `bs` at the end. */
    function Plus(bs: Bytes): Body {
      if partial.Some? then this.(partial := Some(partial.value + bs)) else this.(whole := whole + bs)
    }

    function Append(cap: nat, bs: Bytes): (r: Body)
      ensures r.partial.Some? == partial.Some?
      ensures !r.damaged ==> !damaged && r == Plus(bs)
    {
      if Size() + |bs| > cap then this.(damaged := true) else Plus(bs)
    }

    function AppendNal(cap: nat, nal: Bytes): Body {
      Append(cap, START_CODE).Append(cap, nal)
    }

    function BeginFu(cap: nat, nalHeader: byte): Body {
      this.(partial := Some([])).Append(cap, START_CODE).Append(cap, [nalHeader])
    }

    function EndFu(): Body {
      if partial.Some? then Body(whole + partial.value, None, damaged) else this
    }

    function DropFu(): Body {
      this.(partial := None)
    }
  }

  /** The access unit being assembled. `orphan`: in a run of fragments whose NAL unit is already counted as lost. */
  datatype Assembly = Assembly(
    ts: uint32, body: Body, packets: nat, lost: nat, lostFragments: nat, idr: bool, orphan: bool,
    firstArrival: int, lastArrival: int)
  {
    function AppendNal(cap: nat, nal: Bytes): (r: Assembly)
      requires |nal| > 0
    {
      this.(body := body.AppendNal(cap, nal), idr := idr || nal[0] % 32 == 5)
    }

    function Damage(): Assembly {
      this.(body := body.(damaged := true))
    }

    /** The aggregation units of a STAP-A payload from offset `off` on. */
    function StapFrom(cap: nat, p: Bytes, off: nat): (r: Assembly)
      ensures r.packets == packets && r.ts == ts
      decreases |p| - off
    {
      if off >= |p| then this
      else if off + 2 > |p| then Damage()
      else
        var sz := Be16(p[off], p[off + 1]);
        if sz <= 0 || off + 2 + sz > |p| then Damage()
        else AppendNal(cap, p[off + 2..off + 2 + sz]).StapFrom(cap, p, off + 2 + sz)
    }

    function BeginFu(cap: nat, nalHeader: byte): Assembly {
      this.(body := body.BeginFu(cap, nalHeader), orphan := false, idr := idr || nalHeader % 32 == 5,
            lostFragments := lostFragments + if body.partial.Some? then 1 else 0)
    }

    function ContinueFu(cap: nat, fragment: Bytes, end: bool): Assembly {
      if body.partial.Some? then
        var b := body.Append(cap, fragment);
        this.(body := if end then b.EndFu() else b)
      else
        this.(lostFragments := lostFragments + if orphan then 0 else 1, orphan := !end)
    }

    function FuA(cap: nat, p: Bytes): Assembly
      requires |p| >= 2
    {
      var start, end := p[1] / 128 % 2 == 1, p[1] / 64 % 2 == 1;
      var a := if start then BeginFu(cap, p[0] - p[0] % 32 + p[1] % 32) else this;
      a.ContinueFu(cap, p[2..], end)
    }

    function Payload(cap: nat, p: Bytes): (r: Assembly)
      ensures r.packets == packets && r.ts == ts
    {
      if |p| == 0 then this
      else
        var naluType := p[0] % 32;
        if 1 <= naluType <= 23 then AppendNal(cap, p).(orphan := false)
        else if naluType == 24 then this.(orphan := false).StapFrom(cap, p, 1)
        else if naluType == 28 && |p| >= 2 then FuA(cap, p)
        else Damage()
    }

    /** A gap of `gap` packets before the next packet of this access unit. */
    function Gap(gap: nat): Assembly {
      if gap == 0 then this
      else if body.partial.Some? then
        this.(lost := lost + gap, lostFragments := lostFragments + 1, body := body.DropFu(), orphan := true)
      else this.(lost := lost + gap)
    }

    /** One accepted packet of this access unit. */
    function Take(cap: nat, gap: nat, payload: Bytes, at: int): (r: Assembly)
      ensures r.packets == packets + 1 && r.ts == ts
    {
      var a := Gap(gap);
      a.(packets := a.packets + 1, lastArrival := at).Payload(cap, payload)
    }

    /** The event of this access unit when it ends now: an open FU-A is discarded and counted. */
    function Close(byMarker: bool): Event {
      var lf := lostFragments + if body.partial.Some? then 1 else 0;
      Event(byMarker && lost == 0 && lf == 0 && !body.damaged && |body.whole| > 0,
            ts, body.whole, packets, lost, lf, idr, body.damaged, firstArrival, lastArrival)
    }
  }

  function Fresh(ts: uint32, at: int): Assembly {
    Assembly(ts, Body([], None, false), 0, 0, 0, false, false, at, at)
  }

  datatype State = State(asm: Option<Assembly>, last: Option<uint16>, late: nat, resets: nat)

  const INITIAL := State(None, None, 0, 0)

  /**
   What one packet does: the access units it ends before it is assembled, its own access unit if it has the marker,
   whether it was accepted, and whether it opened a new access unit.
   */
  datatype Outcome = Outcome(st: State, ended: seq<Event>, own: seq<Event>, accepted: bool, opens: bool) {
    function Events(): seq<Event> {
      ended + own
    }
  }

  /** The 16-bit two's complement difference of two sequence numbers. */
  function SignedStep(seqNo: uint16, last: uint16): (d: int)
    ensures -0x8000 <= d < 0x8000 && (d == seqNo - last || d == seqNo - last + 0x1_0000 || d == seqNo - last - 0x1_0000)
  {
    var u := (seqNo - last) % 0x1_0000;
    if u < 0x8000 then u else u - 0x1_0000
  }

  function Ending(asm: Option<Assembly>): seq<Event> {
    if asm.Some? then [asm.value.Close(false)] else []
  }

  /** What the sequence number alone decides: late, the gap before the packet, and what a sequence reset ends. */
  datatype Class = Class(late: bool, st: State, gap: nat, ended: seq<Event>)

  function Classify(st: State, seqNo: uint16): Class {
    if st.last.None? then Class(false, st, 0, [])
    else
      var d := SignedStep(seqNo, st.last.value);
      if -MAX_MISORDER <= d <= 0 then Class(true, st.(late := st.late + 1), 0, [])
      else if 0 < d <= MAX_DROPOUT then Class(false, st, d - 1, [])
      else Class(false, st.(asm := None, resets := st.resets + 1), 0, Ending(st.asm))
  }

  function Push(cap: nat, st: State, p: Packet, at: int): Outcome {
    var c := Classify(st, p.seqNo);
    if c.late then Outcome(c.st, [], [], false, false) else Admit(cap, c.st, p, at, c.gap, c.ended)
  }

  /** A timestamp change ends the open access unit; the gap before it is the lost tail of that one. */
  function EndedBefore(asm: Option<Assembly>, ts: uint32, gap: nat): seq<Event> {
    if asm.Some? && asm.value.ts != ts then [asm.value.(lost := asm.value.lost + gap).Close(false)] else []
  }

  /** The access unit that an accepted packet is in. */
  function Joined(cap: nat, asm: Option<Assembly>, p: Packet, at: int, gap: nat): Assembly {
    if asm.Some? && asm.value.ts == p.ts then asm.value.Take(cap, gap, p.payload, at)
    else Fresh(p.ts, at).Take(cap, if asm.Some? then 0 else gap, p.payload, at)
  }

  /** An accepted packet, `gap` packets after the previous one; `ended` ended before it. */
  function Admit(cap: nat, st: State, p: Packet, at: int, gap: nat, ended: seq<Event>): Outcome {
    var ended' := ended + EndedBefore(st.asm, p.ts, gap);
    var opens := !(st.asm.Some? && st.asm.value.ts == p.ts);
    var a := Joined(cap, st.asm, p, at, gap);
    if p.marker then Outcome(st.(asm := None, last := Some(p.seqNo)), ended', [a.Close(true)], true, opens)
    else Outcome(st.(asm := Some(a), last := Some(p.seqNo)), ended', [], true, opens)
  }

  // ----- one packet in terms of its step -----

  /** The step from the last accepted sequence number; a first packet counts as a step of one. */
  function StepOf(st: State, p: Packet): (d: int)
    ensures -0x8000 <= d < 0x8000
  {
    if st.last.None? then 1 else SignedStep(p.seqNo, st.last.value)
  }

  predicate Late(st: State, p: Packet) {
    -MAX_MISORDER <= StepOf(st, p) <= 0
  }

  predicate Progress(st: State, p: Packet) {
    0 < StepOf(st, p) <= MAX_DROPOUT
  }

  /** The access unit that is open when the packet is admitted. */
  function Base(st: State, p: Packet): Option<Assembly> {
    if Progress(st, p) then st.asm else None
  }

  function GapOf(st: State, p: Packet): nat {
    if Progress(st, p) then StepOf(st, p) - 1 else 0
  }

  /** Every outcome of `Push`: late packets change nothing but their counter; the others join or open an access unit. */
  lemma PushCases(cap: nat, st: State, p: Packet, at: int)
    ensures var o, asm, gap := Push(cap, st, p, at), Base(st, p), GapOf(st, p);
            var a := Joined(cap, asm, p, at, gap);
            if Late(st, p) then o == Outcome(st.(late := st.late + 1), [], [], false, false)
            else
              && o.accepted
              && o.st == State(if p.marker then None else Some(a), Some(p.seqNo),
                               st.late, st.resets + if Progress(st, p) then 0 else 1)
              && o.own == (if p.marker then [a.Close(true)] else [])
              && o.ended == (if Progress(st, p) then EndedBefore(asm, p.ts, gap) else Ending(st.asm))
              && (o.opens <==> !(asm.Some? && asm.value.ts == p.ts))
  {
    hide Joined;
  }
}
