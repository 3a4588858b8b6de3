/** What a buffer of limited size does to the bytes of an access unit, over every run of a conforming stream. */
module BufferUse {
  import opened Common
  import opened DepackSpec
  import opened Packetisation
  import opened Reception
  import opened Delivery
  import opened RoundTrip

  /** Puts pieces of bytes behind `out`, each one whole, and leaves out those for which there is no room. */
  function Fill(cap: nat, out: Bytes, pieces: seq<Bytes>): Bytes
    decreases |pieces|
  {
    if pieces == [] then out
    else Fill(cap, if |out| + |pieces[0]| <= cap then out + pieces[0] else out, pieces[1..])
  }

  lemma {:induction false} FillConcat(cap: nat, out: Bytes, a: seq<Bytes>, b: seq<Bytes>)
    ensures Fill(cap, out, a + b) == Fill(cap, Fill(cap, out, a), b)
    decreases |a|
  {
    if a == [] {
      assert a + b == b;
    } else {
      assert (a + b)[0] == a[0] && (a + b)[1..] == a[1..] + b;
      FillConcat(cap, if |out| + |a[0]| <= cap then out + a[0] else out, a[1..], b);
    }
  }

  lemma {:induction false} FillOne(cap: nat, out: Bytes, piece: Bytes)
    ensures Fill(cap, out, [piece]) == if |out| + |piece| <= cap then out + piece else out
  {
    assert [piece][1..] == [];
  }

  /** A start code and the NAL unit, for each. */
  function NalPieces(nals: seq<Bytes>): seq<Bytes> {
    if nals == [] then [] else [START_CODE, nals[0]] + NalPieces(nals[1..])
  }

  /** The pieces of a NAL unit whose fragments are gathered: start code, header byte and fragments. */
  ghost function FragmentPieces(s: seq<Sent>, from: seq<Rx>): seq<Bytes>
    requires Conforming(s) && InStream(s, from) && Gathered(s, from)
  {
    var n := |from| - 1;
    var u := s[from[n].k].unit;
    assert IsUnit(u);
    if u.first then [START_CODE, [u.nal[0]], u.nal[1..u.hi]]
    else FragmentPieces(s, from[..n]) + [u.nal[u.lo..u.hi]]
  }

  /** The pieces of the NAL units of which every packet was accepted, in order. */
  ghost function ReceivedPieces(s: seq<Sent>, from: seq<Rx>): seq<Bytes>
    requires Conforming(s) && InStream(s, from)
  {
    if from == [] then []
    else
      var n := |from| - 1;
      var u := s[from[n].k].unit;
      ReceivedPieces(s, from[..n]) +
      if !u.Frag? then NalPieces(Completes(u))
      else if u.last && Gathered(s, from) then FragmentPieces(s, from)
      else []
  }

  /** The bytes that the packets of an access unit bring, those of NAL units that are lost included. */
  ghost function TotalWeight(s: seq<Sent>, from: seq<Rx>): nat
    requires Conforming(s) && InStream(s, from)
  {
    if from == [] then 0
    else
      var u := s[from[|from| - 1].k].unit;
      assert IsUnit(u);
      TotalWeight(s, from[..|from| - 1]) + Weight(u)
  }

  // ----- one append -----

  /** All the bytes in the buffer. */
  function InBuffer(b: Body): Bytes {
    b.whole + if b.partial.Some? then b.partial.value else []
  }

  lemma {:induction false} AppendFills(b: Body, cap: nat, bs: Bytes)
    ensures var c := b.Append(cap, bs);
            && InBuffer(c) == Fill(cap, InBuffer(b), [bs])
            && (b.partial.Some? ==> c.partial.Some? && c.whole == b.whole)
            && (b.partial.None? ==> c.partial.None?)
  {
    FillOne(cap, InBuffer(b), bs);
    if b.partial.Some? {
      assert b.whole + b.partial.value + bs == b.whole + (b.partial.value + bs);
    }
  }

  lemma AppendUse(b: Body, cap: nat, bs: Bytes)
    ensures var c := b.Append(cap, bs);
            && c.Size() <= b.Size() + |bs|
            && (!b.damaged && b.Size() + |bs| <= cap ==> !c.damaged)
  {
  }

  lemma {:induction false} AppendNalFills(b: Body, cap: nat, nal: Bytes)
    requires b.partial.None?
    ensures var c := b.AppendNal(cap, nal);
            c.partial.None? && c.whole == Fill(cap, b.whole, [START_CODE, nal])
  {
    hide Body.Append, Fill;
    AppendFills(b, cap, START_CODE);
    AppendFills(b.Append(cap, START_CODE), cap, nal);
    FillConcat(cap, b.whole, [START_CODE], [nal]);
    assert [START_CODE] + [nal] == [START_CODE, nal];
    assert InBuffer(b) == b.whole;
  }

  lemma {:induction false} AppendNalsFills(a: Assembly, cap: nat, nals: seq<Bytes>)
    requires a.body.partial.None? && forall i | 0 <= i < |nals| :: |nals[i]| > 0
    ensures var b := AppendNals(a, cap, nals).body;
            b.partial.None? && b.whole == Fill(cap, a.body.whole, NalPieces(nals))
    decreases |nals|
  {
    hide Body.AppendNal, Fill;
    if nals == [] {
      FillNone(cap, a.body.whole);
    } else {
      AppendNalFills(a.body, cap, nals[0]);
      AppendNalsFills(a.AppendNal(cap, nals[0]), cap, nals[1..]);
      FillConcat(cap, a.body.whole, [START_CODE, nals[0]], NalPieces(nals[1..]));
    }
  }

  lemma {:induction false} FillNone(cap: nat, out: Bytes)
    ensures Fill(cap, out, []) == out
  {
  }

  lemma AppendNalUse(b: Body, cap: nat, nal: Bytes)
    ensures var c := b.AppendNal(cap, nal);
            && c.Size() <= b.Size() + 4 + |nal|
            && (!b.damaged && b.Size() + 4 + |nal| <= cap ==> !c.damaged)
  {
    hide Body.Append;
    AppendUse(b, cap, START_CODE);
    AppendUse(b.Append(cap, START_CODE), cap, nal);
  }

  lemma {:induction false} AppendNalsUse(a: Assembly, cap: nat, nals: seq<Bytes>)
    requires forall i | 0 <= i < |nals| :: |nals[i]| > 0
    ensures var b := AppendNals(a, cap, nals).body;
            && b.Size() <= a.body.Size() + |AnnexB(nals)|
            && (!a.body.damaged && a.body.Size() + |AnnexB(nals)| <= cap ==> !b.damaged)
    decreases |nals|
  {
    hide Body.AppendNal;
    if nals != [] {
      AppendNalUse(a.body, cap, nals[0]);
      AppendNalsUse(a.AppendNal(cap, nals[0]), cap, nals[1..]);
    }
  }

  /** A unit takes at most its weight, and does no damage when there is room for it. */
  lemma UnitUse(a: Assembly, cap: nat, u: Unit)
    requires IsUnit(u)
    ensures var b := TakeUnit(a, cap, u).body;
            && b.Size() <= a.body.Size() + Weight(u)
            && (!a.body.damaged && a.body.Size() + Weight(u) <= cap ==> !b.damaged)
  {
    hide AnnexB;
    match u
    case Single(nal) => AppendNalUse(a.body, cap, nal);
    case Stap(_, nals) => AppendNalsUse(a.(orphan := false), cap, nals);
    case Frag(nal, lo, hi, first, last) =>
      if first {
        BeginFuUse(a.body, cap, nal[0]);
        ContinueFuUse(a.BeginFu(cap, nal[0]), cap, nal[lo..hi], last);
      } else {
        ContinueFuUse(a, cap, nal[lo..hi], last);
      }
  }

  lemma BeginFuUse(b: Body, cap: nat, header: byte)
    ensures var c := b.BeginFu(cap, header);
            && c.Size() <= b.Size() + 5
            && (!b.damaged && b.Size() + 5 <= cap ==> !c.damaged)
  {
    hide Body.Append;
    var b0 := b.(partial := Some([]));
    AppendUse(b0, cap, START_CODE);
    AppendUse(b0.Append(cap, START_CODE), cap, [header]);
  }

  lemma ContinueFuUse(a: Assembly, cap: nat, fragment: Bytes, end: bool)
    ensures var b := a.ContinueFu(cap, fragment, end).body;
            && b.Size() <= a.body.Size() + |fragment|
            && (!a.body.damaged && a.body.Size() + |fragment| <= cap ==> !b.damaged)
  {
    hide Body.Append;
    AppendUse(a.body, cap, fragment);
  }

  // ----- one accepted packet -----

  /** The bytes are what the received NAL units, and the open one, leave in the buffer. */
  ghost predicate BytesFill(cap: nat, s: seq<Sent>, b: Body, from: seq<Rx>)
    requires Conforming(s) && InStream(s, from)
  {
    && (b.partial.Some? <==> Open(s, from))
    && b.whole == Fill(cap, [], ReceivedPieces(s, from))
    && (Open(s, from) ==> InBuffer(b) == Fill(cap, b.whole, FragmentPieces(s, from)))
  }

  /** The bytes in the buffer are those that fitted, and there is no damage if all of them do. */
  ghost predicate Filled(cap: nat, s: seq<Sent>, b: Body, from: seq<Rx>)
    requires Conforming(s) && InStream(s, from)
  {
    && BytesFill(cap, s, b, from)
    && b.Size() <= TotalWeight(s, from)
    && (TotalWeight(s, from) <= cap ==> !b.damaged)
  }

  lemma {:induction false} PiecesSnoc(s: seq<Sent>, from: seq<Rx>, r: Rx)
    requires Conforming(s) && InStream(s, from) && r.k < |s|
    ensures var from', u := from + [r], s[r.k].unit;
            && InStream(s, from') && IsUnit(u)
            && TotalWeight(s, from') == TotalWeight(s, from) + Weight(u)
            && ReceivedPieces(s, from') == ReceivedPieces(s, from) +
                 (if !u.Frag? then NalPieces(Completes(u))
                  else if u.last && Gathered(s, from') then FragmentPieces(s, from')
                  else [])
  {
    var from' := from + [r];
    UnitAt(s, r.k);
    assert from'[..|from|] == from && from'[|from|] == r;
  }

  /** The pieces of a gathered fragment: those of the fragments before it, and its own. */
  lemma {:induction false} FragmentSnoc(s: seq<Sent>, from: seq<Rx>, r: Rx)
    requires Conforming(s) && InStream(s, from) && r.k < |s| && InStream(s, from + [r]) && Gathered(s, from + [r])
    ensures var u := s[r.k].unit;
            && IsUnit(u)
            && (u.first ==> FragmentPieces(s, from + [r]) == [START_CODE, [u.nal[0]], u.nal[1..u.hi]])
            && (!u.first ==> Gathered(s, from) && Open(s, from)
                             && FragmentPieces(s, from + [r]) == FragmentPieces(s, from) + [u.nal[u.lo..u.hi]])
  {
    var from' := from + [r];
    UnitAt(s, r.k);
    assert from'[..|from|] == from && from'[|from|] == r;
    if !s[r.k].unit.first {
      assert from[|from| - 1] == from'[|from| - 1];
      Adjacent(s, r.k);
    }
  }

  /** The body before the packet: a gap has cost the open FU-A. */
  lemma {:induction false} GapFilled(cap: nat, s: seq<Sent>, a: Assembly, from: seq<Rx>, gap: nat, r: Rx)
    requires Conforming(s) && Assembles(s, a, from) && Filled(cap, s, a.body, from)
    requires r.k < |s| && GapFits(from, gap, r)
    ensures InStream(s, from + [r])
    ensures var b, u := a.Gap(gap).body, s[r.k].unit;
            && (b.partial.Some? <==> Continues(u) && Gathered(s, from + [r]))
            && b.whole == Fill(cap, [], ReceivedPieces(s, from))
            && (b.partial.Some? ==> b == a.body)
            && b.Size() <= TotalWeight(s, from)
            && (TotalWeight(s, from) <= cap ==> !b.damaged)
  {
    hide Fill, ReceivedPieces, FragmentPieces, TotalWeight;
    GapBody(s, a, from, gap, r);
    ExtendReceived(s, from, r);
  }

  /** The bytes after a packet that is no fragment. */
  lemma {:induction false} WholeUnitFills(cap: nat, s: seq<Sent>, from: seq<Rx>, r: Rx, g: Assembly)
    requires Conforming(s) && InStream(s, from) && r.k < |s| && !s[r.k].unit.Frag?
    requires g.body.partial.None? && g.body.whole == Fill(cap, [], ReceivedPieces(s, from)) && IsUnit(s[r.k].unit)
    ensures InStream(s, from + [r])
    ensures var b := TakeUnit(g, cap, s[r.k].unit).body;
            b.partial.None? && b.whole == Fill(cap, [], ReceivedPieces(s, from + [r]))
  {
    hide Fill, ReceivedPieces, Body.AppendNal, Conforming;
    PiecesSnoc(s, from, r);
    FillConcat(cap, [], ReceivedPieces(s, from), NalPieces(Completes(s[r.k].unit)));
    match s[r.k].unit
    case Single(nal) =>
      AppendNalFills(g.body, cap, nal);
      assert [nal][1..] == [] && [START_CODE, nal] + [] == [START_CODE, nal];
    case Stap(_, nals) => AppendNalsFills(g.(orphan := false), cap, nals);
  }

  /** The bytes after a first fragment. */
  lemma {:induction false} FirstFragmentFills(cap: nat, g: Assembly, u: Unit)
    requires IsUnit(u) && u.Frag? && u.first && g.body.partial.None?
    ensures var b := TakeUnit(g, cap, u).body;
            && b.partial.Some? && b.whole == g.body.whole
            && InBuffer(b) == Fill(cap, g.body.whole, [START_CODE, [u.nal[0]], u.nal[1..u.hi]])
  {
    hide Body.Append, Fill;
    var out := g.body.whole;
    var b0 := g.body.(partial := Some([]));
    var b1 := b0.Append(cap, START_CODE);
    var b2 := b1.Append(cap, [u.nal[0]]);
    assert InBuffer(b0) == out;
    AppendFills(b0, cap, START_CODE);
    AppendFills(b1, cap, [u.nal[0]]);
    AppendFills(b2, cap, u.nal[1..u.hi]);
    FillConcat(cap, out, [START_CODE], [[u.nal[0]]]);
    FillConcat(cap, out, [START_CODE] + [[u.nal[0]]], [u.nal[1..u.hi]]);
    assert [START_CODE] + [[u.nal[0]]] + [u.nal[1..u.hi]] == [START_CODE, [u.nal[0]], u.nal[1..u.hi]];
  }

  /** The bytes after a fragment that continues the open FU-A. */
  lemma {:induction false} NextFragmentFills(cap: nat, g: Assembly, u: Unit, pieces: seq<Bytes>)
    requires IsUnit(u) && Continues(u) && g.body.partial.Some?
    requires InBuffer(g.body) == Fill(cap, g.body.whole, pieces)
    ensures var b := TakeUnit(g, cap, u).body;
            var filled := Fill(cap, g.body.whole, pieces + [u.nal[u.lo..u.hi]]);
            && (!u.last ==> b.partial.Some? && b.whole == g.body.whole && InBuffer(b) == filled)
            && (u.last ==> b.partial.None? && b.whole == filled)
  {
    hide Body.Append, Fill;
    AppendFills(g.body, cap, u.nal[u.lo..u.hi]);
    FillConcat(cap, g.body.whole, pieces, [u.nal[u.lo..u.hi]]);
  }

  /** The bytes after a fragment. */
  lemma {:induction false} FragmentFills(cap: nat, s: seq<Sent>, from: seq<Rx>, r: Rx, g: Assembly)
    requires Conforming(s) && InStream(s, from) && r.k < |s| && s[r.k].unit.Frag? && IsUnit(s[r.k].unit)
    requires InStream(s, from + [r])
    requires g.body.partial.Some? <==> Continues(s[r.k].unit) && Gathered(s, from + [r])
    requires g.body.whole == Fill(cap, [], ReceivedPieces(s, from))
    requires g.body.partial.Some? ==> InBuffer(g.body) == Fill(cap, g.body.whole, FragmentPieces(s, from))
    ensures BytesFill(cap, s, TakeUnit(g, cap, s[r.k].unit).body, from + [r])
  {
    hide Fill, ReceivedPieces, FragmentPieces, TakeUnit, Conforming, Gathered, InBuffer;
    var u := s[r.k].unit;
    PiecesSnoc(s, from, r);
    ExtendReceived(s, from, r);
    assert ReceivedPieces(s, from) + [] == ReceivedPieces(s, from);
    if u.first {
      FragmentSnoc(s, from, r);
      FirstFragmentFills(cap, g, u);
    } else if Gathered(s, from + [r]) {
      FragmentSnoc(s, from, r);
      NextFragmentFills(cap, g, u, FragmentPieces(s, from));
      FillConcat(cap, [], ReceivedPieces(s, from), FragmentPieces(s, from + [r]));
    } else {
      OrphanFills(cap, g, u);
    }
  }

  lemma FilledExtend(cap: nat, s: seq<Sent>, a: Assembly, from: seq<Rx>, gap: nat, r: Rx)
    requires Conforming(s) && InStream(s, from) && Assembles(s, a, from) && Filled(cap, s, a.body, from)
    requires r.k < |s| && GapFits(from, gap, r)
    ensures InStream(s, from + [r]) && IsUnit(s[r.k].unit)
    ensures Filled(cap, s, a.Take(cap, gap, Encode(s[r.k].unit), r.at).body, from + [r])
  {
    hide Fill, ReceivedPieces, FragmentPieces, TotalWeight, TakeUnit, Assembly.Payload, Encode, Conforming, Assembles,
         Gathered, GapFits, InBuffer;
    var u, g := s[r.k].unit, a.Gap(gap);
    var c := g.(packets := g.packets + 1, lastArrival := r.at);
    UnitAt(s, r.k);
    GapFilled(cap, s, a, from, gap, r);
    ReadUnit(c, cap, u);
    UnitUse(c, cap, u);
    PiecesSnoc(s, from, r);
    ExtendReceived(s, from, r);
    if u.Frag? {
      FragmentFills(cap, s, from, r, c);
    } else {
      WholeUnitFills(cap, s, from, r, c);
    }
  }

  lemma OrphanFills(cap: nat, g: Assembly, u: Unit)
    requires IsUnit(u) && Continues(u) && g.body.partial.None?
    ensures TakeUnit(g, cap, u).body == g.body
  {
  }

  // ----- every run -----

  /** What an event says about the buffer. */
  ghost predicate BytesExact(cap: nat, s: seq<Sent>, t: Tagged)
    requires Conforming(s)
  {
    && InStream(s, t.from)
    && t.ev.data == Fill(cap, [], ReceivedPieces(s, t.from))
    && (TotalWeight(s, t.from) <= cap ==> !t.ev.damaged)
  }

  ghost predicate AllFilled(cap: nat, s: seq<Sent>, tr: Trace)
    requires Conforming(s)
  {
    && (tr.st.asm.Some? ==> InStream(s, tr.from) && Filled(cap, s, tr.st.asm.value.body, tr.from))
    && (forall i | 0 <= i < |tr.log| :: BytesExact(cap, s, tr.log[i]))
  }

  lemma CloseBytes(cap: nat, s: seq<Sent>, a: Assembly, from: seq<Rx>, byMarker: bool, tail: nat)
    requires Conforming(s) && InStream(s, from) && Filled(cap, s, a.body, from)
    ensures BytesExact(cap, s, Tagged(a.(lost := a.lost + tail).Close(byMarker), from))
  {
  }

  lemma FreshFilled(cap: nat, s: seq<Sent>, ts: uint32, at: int)
    requires Conforming(s)
    ensures Assembles(s, Fresh(ts, at), []) && Filled(cap, s, Fresh(ts, at).body, [])
  {
  }

  lemma {:induction false} AdmitFilled(cap: nat, s: seq<Sent>, s0: nat, tr: Trace, r: Rx)
    requires Conforming(s) && Distinct(s) && Consistent(s, s0, tr) && AllFilled(cap, s, tr) && r.k < |s|
    ensures IsUnit(s[r.k].unit)
    ensures var p := Wire(s, s0, r.k);
            var asm, gap := Base(tr.st, p), GapOf(tr.st, p);
            var a, from' := Joined(cap, asm, p, r.at, gap), JoinedFrom(asm, tr.from, p, r);
            && InStream(s, from') && Filled(cap, s, a.body, from')
            && BytesExact(cap, s, Tagged(a.Close(p.marker), from'))
  {
    hide Conforming, Distinct, Assembles, Truthful, Assembly.Close, Assembly.Take, IsUnit, Encode, Progress, Base,
         GapOf, Filled, BytesExact;
    UnitAt(s, r.k);
    var p, st := Wire(s, s0, r.k), tr.st;
    var asm, gap := Base(st, p), GapOf(st, p);
    BaseIsOpen(st, p);
    if asm.Some? && asm.value.ts == p.ts {
      GapOfProgress(s, s0, tr, r);
      FilledExtend(cap, s, asm.value, tr.from, gap, r);
    } else {
      FreshFilled(cap, s, p.ts, r.at);
      FilledExtend(cap, s, Fresh(p.ts, r.at), [], if asm.Some? then 0 else gap, r);
      assert [] + [r] == [r];
    }
    var a := Joined(cap, asm, p, r.at, gap);
    CloseBytes(cap, s, a, JoinedFrom(asm, tr.from, p, r), p.marker, 0);
    assert a.(lost := a.lost + 0) == a;
  }

  lemma {:induction false} EndedFilled(cap: nat, s: seq<Sent>, tr: Trace, p: Packet)
    requires Conforming(s) && AllFilled(cap, s, tr)
    ensures forall e | e in EndedBefore(Base(tr.st, p), p.ts, GapOf(tr.st, p)) || e in Ending(tr.st.asm) ::
              BytesExact(cap, s, Tagged(e, tr.from))
  {
    hide Conforming, Filled, BytesExact, Assembly.Close;
    if tr.st.asm.Some? {
      var a := tr.st.asm.value;
      CloseBytes(cap, s, a, tr.from, false, 0);
      CloseBytes(cap, s, a, tr.from, false, GapOf(tr.st, p));
      assert a.(lost := a.lost + 0) == a;
    }
  }

  lemma {:induction false} ObserveFilled(cap: nat, s: seq<Sent>, s0: nat, tr: Trace, r: Rx)
    requires Conforming(s) && Distinct(s) && Consistent(s, s0, tr) && AllFilled(cap, s, tr) && r.k < |s|
    ensures AllFilled(cap, s, Observe(cap, s, s0, tr, r))
  {
    hide Conforming, Distinct, Consistent, Push, Joined, Filled, BytesExact, Assembly.Close, EndedBefore, Ending,
         Wire, Base;
    AdmitFilled(cap, s, s0, tr, r);
    var p := Wire(s, s0, r.k);
    PushCases(cap, tr.st, p, r.at);
    EndedFilled(cap, s, tr, p);
  }

  lemma {:induction false} RunFilled(cap: nat, s: seq<Sent>, s0: nat, rx: seq<Rx>)
    requires Conforming(s) && Distinct(s) && InStream(s, rx)
    ensures AllFilled(cap, s, ObserveAll(cap, s, s0, rx))
  {
    hide Conforming, Distinct, Observe, Consistent;
    if rx != [] {
      var n := |rx| - 1;
      RunFilled(cap, s, s0, rx[..n]);
      RunConsistent(cap, s, s0, rx[..n]);
      ObserveFilled(cap, s, s0, ObserveAll(cap, s, s0, rx[..n]), rx[n]);
    }
  }

  /**
   The bytes of every event, damaged or not, over all losses, repetitions and reorderings: the pieces of the NAL units
   that were accepted whole, in order, each piece as long as there was room for it.
   */
  lemma {:induction false} BytesAreExact(cap: nat, s: seq<Sent>, s0: nat, rx: seq<Rx>)
    requires Conforming(s) && Distinct(s) && InStream(s, rx)
    ensures forall t | t in ObserveAll(cap, s, s0, rx).log ::
              InStream(s, t.from) && t.ev.data == Fill(cap, [], ReceivedPieces(s, t.from))
  {
    hide Conforming, Distinct, Fill, ReceivedPieces;
    RunFilled(cap, s, s0, rx);
  }

  /**
   Losses alone do no damage: an event whose packets bring no more bytes than the buffer holds is undamaged, so that it
   holds exactly the NAL units of which every packet was accepted, each sent under its timestamp.
   */
  lemma {:induction false} WhatFitsIsWhole(cap: nat, s: seq<Sent>, s0: nat, rx: seq<Rx>)
    requires Conforming(s) && Distinct(s) && InStream(s, rx)
    ensures forall t | t in ObserveAll(cap, s, s0, rx).log :: InStream(s, t.from)
    ensures forall t | t in ObserveAll(cap, s, s0, rx).log && TotalWeight(s, t.from) <= cap ::
              && !t.ev.damaged
              && t.ev.data == AnnexB(Received(s, t.from))
              && forall nal | nal in Received(s, t.from) ::
                   exists k | 0 <= k < |s| :: s[k].ts == t.ev.ts && nal in Completes(s[k].unit)
  {
    hide Conforming, Distinct, Fill, ReceivedPieces, Received, AnnexB, TotalWeight, Completes;
    RunFilled(cap, s, s0, rx);
    DeliversWholeNals(cap, s, s0, rx);
  }
}
