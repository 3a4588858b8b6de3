/**
 A conforming stream through a network that drops, repeats and reorders packets, and
 what the depacketizer then reports about it.
 */
module Reception {
  import opened Common
  import opened DepackSpec
  import opened Packetisation

  /** One delivery: which sent packet, and when it arrived. */
  datatype Rx = Rx(k: nat, at: int)

  /** An event together with the packets that were accepted into its access unit. */
  datatype Tagged = Tagged(ev: Event, from: seq<Rx>)

  datatype Trace = Trace(st: State, from: seq<Rx>, log: seq<Tagged>)

  const START := Trace(INITIAL, [], [])

  ghost predicate InStream(s: seq<Sent>, rx: seq<Rx>) {
    forall i | 0 <= i < |rx| :: rx[i].k < |s|
  }

  function Tag(evs: seq<Event>, from: seq<Rx>): seq<Tagged> {
    seq(|evs|, i requires 0 <= i < |evs| => Tagged(evs[i], from))
  }

  function Observe(cap: nat, s: seq<Sent>, s0: nat, tr: Trace, r: Rx): Trace
    requires r.k < |s| && IsUnit(s[r.k].unit)
  {
    var o := Push(cap, tr.st, Wire(s, s0, r.k), r.at);
    if !o.accepted then tr.(st := o.st)
    else
      var from := if o.opens then [r] else tr.from + [r];
      Trace(o.st, from, tr.log + Tag(o.ended, tr.from) + Tag(o.own, from))
  }

  /** Any deliveries: `rx` may repeat, omit and reorder the packets of `s`. */
  ghost function ObserveAll(cap: nat, s: seq<Sent>, s0: nat, rx: seq<Rx>): Trace
    requires Conforming(s) && InStream(s, rx)
  {
    if rx == [] then START
    else
      var n := |rx| - 1;
      Observe(cap, s, s0, ObserveAll(cap, s, s0, rx[..n]), rx[n])
  }

  lemma {:induction false} ObserveLast(cap: nat, s: seq<Sent>, s0: nat, rx: seq<Rx>, i: nat)
    requires Conforming(s) && InStream(s, rx) && i < |rx|
    ensures InStream(s, rx[..i]) && InStream(s, rx[..i + 1]) && rx[i].k < |s| && IsUnit(s[rx[i].k].unit)
    ensures ObserveAll(cap, s, s0, rx[..i + 1]) == Observe(cap, s, s0, ObserveAll(cap, s, s0, rx[..i]), rx[i])
  {
    hide Observe;
    assert rx[..i + 1][..i] == rx[..i];
  }

  /** No two sent packets have the same 16-bit sequence number and the same timestamp. */
  ghost predicate Distinct(s: seq<Sent>) {
    forall j, k | 0 <= j < k < |s| && s[j].ts == s[k].ts :: (k - j) % 0x1_0000 != 0
  }

  // ----- what a list of accepted packets stands for -----

  /** The last packet is a fragment and every earlier fragment of its NAL unit was accepted right before it. */
  ghost predicate Gathered(s: seq<Sent>, from: seq<Rx>)
    requires InStream(s, from)
  {
    && from != []
    && var n := |from| - 1;
    var u := s[from[n].k].unit;
    && u.Frag?
    && (u.first || (n > 0 && from[n - 1].k + 1 == from[n].k && Gathered(s, from[..n])))
  }

  ghost predicate Open(s: seq<Sent>, from: seq<Rx>)
    requires InStream(s, from)
  {
    Gathered(s, from) && LeavesOpen(s[from[|from| - 1].k].unit)
  }

  /** The NAL units of which every packet was accepted, in order. */
  ghost function Received(s: seq<Sent>, from: seq<Rx>): seq<Bytes>
    requires InStream(s, from)
  {
    if from == [] then []
    else
      var n := |from| - 1;
      var u := s[from[n].k].unit;
      Received(s, from[..n]) + if u.Frag? && !Gathered(s, from) then [] else Completes(u)
  }

  ghost predicate Consecutive(from: seq<Rx>) {
    forall i | 0 <= i < |from| :: from[i].k == from[0].k + i
  }

  ghost predicate HasIdr(s: seq<Sent>, from: seq<Rx>)
    requires Conforming(s) && InStream(s, from)
  {
    exists i | 0 <= i < |from| :: ShowsIdr(s[from[i].k].unit)
  }

  /** The bytes of an undamaged access unit assembled from `from`. */
  ghost function BodyOf(s: seq<Sent>, from: seq<Rx>): Body
    requires Conforming(s) && InStream(s, from)
  {
    Body(AnnexB(Received(s, from)),
         if Open(s, from) then
           var u := s[from[|from| - 1].k].unit;
           assert IsUnit(u);
           Some(START_CODE + u.nal[..u.hi])
         else None,
         false)
  }

  /** The assembly `a` is what the accepted packets `from` make of it. */
  ghost predicate Assembles(s: seq<Sent>, a: Assembly, from: seq<Rx>)
    requires Conforming(s)
  {
    && InStream(s, from)
    && (forall i | 0 <= i < |from| :: s[from[i].k].ts == a.ts && (s[from[i].k].marker ==> i == |from| - 1))
    && a.packets == |from|
    && (from != [] ==> a.firstArrival == from[0].at && a.lastArrival == from[|from| - 1].at)
    && (a.body.partial.Some? <==> Open(s, from))
    && (!a.body.damaged ==> a.body == BodyOf(s, from))
    && (a.idr <==> HasIdr(s, from))
    && (a.lost == 0 ==> Consecutive(from))
    && (a.orphan ==> a.lostFragments > 0)
    && (a.lostFragments == 0 && from != [] ==> !Continues(s[from[0].k].unit))
  }

  /** What an event says about the packets it was made from. */
  ghost predicate Truthful(s: seq<Sent>, t: Tagged)
    requires Conforming(s)
  {
    && t.from != [] && InStream(s, t.from)
    && (forall i | 0 <= i < |t.from| :: s[t.from[i].k].ts == t.ev.ts && (s[t.from[i].k].marker ==> i == |t.from| - 1))
    && t.ev.packets == |t.from|
    && t.ev.firstArrival == t.from[0].at && t.ev.lastArrival == t.from[|t.from| - 1].at
    && (!t.ev.damaged ==> t.ev.data == AnnexB(Received(s, t.from)))
    && (t.ev.idr <==> HasIdr(s, t.from))
    && (t.ev.complete ==> !t.ev.damaged && Consecutive(t.from) && s[t.from[|t.from| - 1].k].marker
                          && !Continues(s[t.from[0].k].unit))
  }

  ghost predicate Consistent(s: seq<Sent>, s0: nat, tr: Trace)
    requires Conforming(s)
  {
    && (tr.st.asm.Some? ==>
          && tr.from != [] && Assembles(s, tr.st.asm.value, tr.from)
          && !s[tr.from[|tr.from| - 1].k].marker
          && tr.st.last == Some((s0 + tr.from[|tr.from| - 1].k) % 0x1_0000))
    && (tr.st.last.None? ==> tr.st.asm.None?)
    && (forall i | 0 <= i < |tr.log| :: Truthful(s, tr.log[i]))
  }

  // ----- one accepted packet -----

  lemma {:induction false} AppendNalsBody(a: Assembly, cap: nat, nals: seq<Bytes>)
    requires forall i | 0 <= i < |nals| :: |nals[i]| > 0
    ensures var r := AppendNals(a, cap, nals);
            && r == a.(body := r.body, idr := r.idr)
            && r.body.partial.Some? == a.body.partial.Some?
            && (!r.body.damaged ==> !a.body.damaged && r.body == a.body.Plus(AnnexB(nals)))
            && (r.idr <==> a.idr || exists i | 0 <= i < |nals| :: nals[i][0] % 32 == 5)
    decreases |nals|
  {
    if nals == [] {
      assert a.body.whole + [] == a.body.whole;
      assert a.body.partial.Some? ==> a.body.partial.value + [] == a.body.partial.value;
    } else {
      var b := a.AppendNal(cap, nals[0]);
      AppendNalsBody(b, cap, nals[1..]);
      assert nals == [nals[0]] + nals[1..];
      if !b.body.damaged {
        PlusNal(a.body, cap, nals[0], AnnexB(nals[1..]));
      }
      var r := AppendNals(a, cap, nals);
      if exists i | 0 <= i < |nals| :: nals[i][0] % 32 == 5 {
        var i :| 0 <= i < |nals| && nals[i][0] % 32 == 5;
        assert i > 0 ==> nals[1..][i - 1] == nals[i];
      }
    }
  }

  lemma PlusNal(b: Body, cap: nat, nal: Bytes, rest: Bytes)
    requires !b.AppendNal(cap, nal).damaged
    ensures b.AppendNal(cap, nal).Plus(rest) == b.Plus(START_CODE + nal + rest)
  {
    if b.partial.Some? {
      assert b.partial.value + START_CODE + nal + rest == b.partial.value + (START_CODE + nal + rest);
    } else {
      assert b.whole + START_CODE + nal + rest == b.whole + (START_CODE + nal + rest);
    }
  }

  /** The new packet comes right after the last accepted one, or there is a gap, or it is the first. */
  ghost predicate GapFits(from: seq<Rx>, gap: nat, r: Rx) {
    from != [] ==> (gap == 0 <==> r.k == from[|from| - 1].k + 1)
  }

  lemma {:induction false} ExtendReceived(s: seq<Sent>, from: seq<Rx>, r: Rx)
    requires Conforming(s) && InStream(s, from) && r.k < |s|
    ensures var from', u := from + [r], s[r.k].unit;
            && InStream(s, from')
            && Received(s, from') == Received(s, from) + (if u.Frag? && !Gathered(s, from') then [] else Completes(u))
            && (Gathered(s, from') <==>
                  u.Frag? && (u.first || (from != [] && from[|from| - 1].k + 1 == r.k && Gathered(s, from))))
            && (HasIdr(s, from') <==> HasIdr(s, from) || ShowsIdr(u))
  {
    var from' := from + [r];
    assert from'[..|from|] == from && from'[|from|] == r;
    if HasIdr(s, from) {
      var i :| 0 <= i < |from| && ShowsIdr(s[from[i].k].unit);
      assert from'[i] == from[i];
    }
  }

  /** Before a packet that starts a NAL unit no FU-A is open; before a continuation it is open iff that continues it. */
  lemma {:induction false} GapBody(s: seq<Sent>, a: Assembly, from: seq<Rx>, gap: nat, r: Rx)
    requires Conforming(s) && Assembles(s, a, from) && r.k < |s| && GapFits(from, gap, r)
    ensures var b, u := a.Gap(gap).body, s[r.k].unit;
            && (b.partial.Some? <==> Continues(u) && Gathered(s, from + [r]))
            && (!b.damaged ==> !a.body.damaged && b.whole == AnnexB(Received(s, from)))
            && (!b.damaged && b.partial.Some? ==> b.partial == Some(START_CODE + u.nal[..u.lo]))
  {
    ExtendReceived(s, from, r);
    if from != [] {
      var j := from[|from| - 1].k;
      if r.k == j + 1 {
        assert Linked(s, r.k);
      }
    }
  }

  lemma ExtendSingle(cap: nat, s: seq<Sent>, a: Assembly, from: seq<Rx>, gap: nat, r: Rx, g: Assembly)
    requires Conforming(s) && Assembles(s, a, from) && r.k < |s| && GapFits(from, gap, r) && g.body == a.Gap(gap).body
    requires s[r.k].unit.Single?
    ensures var b := TakeUnit(g, cap, s[r.k].unit).body;
            && (b.partial.Some? <==> Open(s, from + [r])) && (!b.damaged ==> b == BodyOf(s, from + [r]))
  {
    hide AnnexB;
    GapBody(s, a, from, gap, r);
    ExtendReceived(s, from, r);
    AnnexBOne(Received(s, from), s[r.k].unit.nal);
    assert AnnexB(Received(s, from)) + START_CODE + s[r.k].unit.nal
           == AnnexB(Received(s, from)) + (START_CODE + s[r.k].unit.nal);
  }

  lemma ExtendStap(cap: nat, s: seq<Sent>, a: Assembly, from: seq<Rx>, gap: nat, r: Rx, g: Assembly)
    requires Conforming(s) && Assembles(s, a, from) && r.k < |s| && GapFits(from, gap, r) && g.body == a.Gap(gap).body
    requires s[r.k].unit.Stap?
    ensures var b := TakeUnit(g, cap, s[r.k].unit).body;
            && (b.partial.Some? <==> Open(s, from + [r])) && (!b.damaged ==> b == BodyOf(s, from + [r]))
  {
    var nals := s[r.k].unit.nals;
    assert IsUnit(s[r.k].unit);
    GapBody(s, a, from, gap, r);
    ExtendReceived(s, from, r);
    AppendNalsBody(g.(orphan := false), cap, nals);
    AnnexBConcat(Received(s, from), nals);
  }

  /** A first fragment, on bytes. */
  lemma FirstFragment(b: Body, cap: nat, nal: Bytes, hi: nat)
    requires b.partial.None? && 1 <= hi <= |nal|
    ensures var c := b.BeginFu(cap, nal[0]).Append(cap, nal[1..hi]);
            c.partial.Some? && (!c.damaged ==> !b.damaged && c == Body(b.whole, Some(START_CODE + nal[..hi]), false))
  {
    assert [] + START_CODE == START_CODE;
    assert START_CODE + [nal[0]] + nal[1..hi] == START_CODE + nal[..hi];
  }

  /** A later fragment of an open FU-A, on bytes. */
  lemma NextFragment(b: Body, cap: nat, nal: Bytes, lo: nat, hi: nat)
    requires lo <= hi <= |nal| && b.partial.Some? && (!b.damaged ==> b.partial.value == START_CODE + nal[..lo])
    ensures var c := b.Append(cap, nal[lo..hi]);
            && c.partial.Some?
            && (!c.damaged ==> !b.damaged && c == Body(b.whole, Some(START_CODE + nal[..hi]), false))
            && (!c.damaged && hi == |nal| ==> c.EndFu() == Body(b.whole + (START_CODE + nal), None, false))
  {
    assert START_CODE + nal[..lo] + nal[lo..hi] == START_CODE + nal[..hi];
    assert hi == |nal| ==> nal[..hi] == nal;
  }

  lemma ExtendFirst(cap: nat, s: seq<Sent>, a: Assembly, from: seq<Rx>, gap: nat, r: Rx, g: Assembly)
    requires Conforming(s) && Assembles(s, a, from) && r.k < |s| && GapFits(from, gap, r) && g.body == a.Gap(gap).body
    requires s[r.k].unit.Frag? && s[r.k].unit.first
    ensures var b := TakeUnit(g, cap, s[r.k].unit).body;
            && (b.partial.Some? <==> Open(s, from + [r])) && (!b.damaged ==> b == BodyOf(s, from + [r]))
  {
    hide AnnexB, Body.Append, Body.BeginFu;
    var u := s[r.k].unit;
    assert IsUnit(u);
    GapBody(s, a, from, gap, r);
    ExtendReceived(s, from, r);
    FirstFragment(g.body, cap, u.nal, u.hi);
    assert Received(s, from) + [] == Received(s, from);
  }

  lemma ExtendContinuation(cap: nat, s: seq<Sent>, a: Assembly, from: seq<Rx>, gap: nat, r: Rx, g: Assembly)
    requires Conforming(s) && Assembles(s, a, from) && r.k < |s| && GapFits(from, gap, r) && g.body == a.Gap(gap).body
    requires Continues(s[r.k].unit)
    ensures var b := TakeUnit(g, cap, s[r.k].unit).body;
            && (b.partial.Some? <==> Open(s, from + [r])) && (!b.damaged ==> b == BodyOf(s, from + [r]))
  {
    hide AnnexB, Body.Append;
    var u := s[r.k].unit;
    assert IsUnit(u);
    GapBody(s, a, from, gap, r);
    ExtendReceived(s, from, r);
    if g.body.partial.Some? {
      NextFragment(g.body, cap, u.nal, u.lo, u.hi);
    }
    AnnexBOne(Received(s, from), u.nal);
    assert Received(s, from) + [] == Received(s, from);
  }

  lemma ExtendBody(cap: nat, s: seq<Sent>, a: Assembly, from: seq<Rx>, gap: nat, r: Rx, g: Assembly)
    requires Conforming(s) && Assembles(s, a, from) && r.k < |s| && GapFits(from, gap, r) && g.body == a.Gap(gap).body
    ensures var b := TakeUnit(g, cap, s[r.k].unit).body;
            && (b.partial.Some? <==> Open(s, from + [r])) && (!b.damaged ==> b == BodyOf(s, from + [r]))
  {
    match s[r.k].unit
    case Single(_) => ExtendSingle(cap, s, a, from, gap, r, g);
    case Stap(_, _) => ExtendStap(cap, s, a, from, gap, r, g);
    case Frag(_, _, _, first, _) =>
      if first {
        ExtendFirst(cap, s, a, from, gap, r, g);
      } else {
        ExtendContinuation(cap, s, a, from, gap, r, g);
      }
  }

  /** The counters and flags after one unit. */
  lemma UnitCounters(cap: nat, s: seq<Sent>, a: Assembly, u: Unit)
    requires IsUnit(u)
    ensures var b := TakeUnit(a, cap, u);
            && b == a.(body := b.body, idr := b.idr, orphan := b.orphan, lostFragments := b.lostFragments)
            && (b.idr <==> a.idr || ShowsIdr(u))
            && b.lostFragments >= a.lostFragments
            && (b.orphan ==> (a.orphan && b.lostFragments == a.lostFragments) || b.lostFragments > 0)
            && (Continues(u) && a.body.partial.None? && !a.orphan ==> b.lostFragments > 0)
  {
    match u
    case Single(_) =>
    case Stap(_, nals) => AppendNalsBody(a.(orphan := false), cap, nals);
    case Frag(_, _, _, _, _) =>
  }

  lemma Extend(cap: nat, s: seq<Sent>, a: Assembly, from: seq<Rx>, gap: nat, r: Rx)
    requires Conforming(s) && Assembles(s, a, from) && r.k < |s| && GapFits(from, gap, r)
    requires s[r.k].ts == a.ts && (from == [] ==> a.firstArrival == r.at && a == Fresh(a.ts, r.at))
    requires from != [] ==> !s[from[|from| - 1].k].marker
    ensures Assembles(s, a.Take(cap, gap, Encode(s[r.k].unit), r.at), from + [r])
  {
    var u, g := s[r.k].unit, a.Gap(gap);
    var c := g.(packets := g.packets + 1, lastArrival := r.at);
    ReadUnit(c, cap, u);
    UnitCounters(cap, s, c, u);
    ExtendBody(cap, s, a, from, gap, r, c);
    ExtendReceived(s, from, r);
  }

  // ----- one delivery -----

  /** Closing an access unit, with `tail` more packets known to be lost. */
  lemma CloseTruthful(s: seq<Sent>, a: Assembly, from: seq<Rx>, byMarker: bool, tail: nat)
    requires Conforming(s) && Assembles(s, a, from) && from != []
    requires byMarker ==> s[from[|from| - 1].k].marker
    ensures Truthful(s, Tagged(a.(lost := a.lost + tail).Close(byMarker), from))
  {
  }

  /** The access unit that packet `r` is in, after `gap` missing packets. */
  lemma JoinedAssembles(cap: nat, s: seq<Sent>, s0: nat, asm: Option<Assembly>, from: seq<Rx>, r: Rx, gap: nat)
    requires Conforming(s) && r.k < |s|
    requires asm.Some? ==> from != [] && Assembles(s, asm.value, from) && !s[from[|from| - 1].k].marker
    requires asm.Some? && asm.value.ts == s[r.k].ts ==> GapFits(from, gap, r)
    ensures var from' := if asm.Some? && asm.value.ts == s[r.k].ts then from + [r] else [r];
            Assembles(s, Joined(cap, asm, Wire(s, s0, r.k), r.at, gap), from')
  {
    if asm.Some? && asm.value.ts == s[r.k].ts {
      Extend(cap, s, asm.value, from, gap, r);
    } else {
      assert [] + [r] == [r];
      Extend(cap, s, Fresh(s[r.k].ts, r.at), [], if asm.Some? then 0 else gap, r);
    }
  }

  /** Within one timestamp, a step of one in the 16-bit numbers is the next sent packet. */
  lemma NextInTimestamp(s: seq<Sent>, s0: nat, j: nat, k: nat)
    requires Conforming(s) && Distinct(s) && j < |s| && k < |s| && s[j].ts == s[k].ts && !s[j].marker
    ensures SignedStep((s0 + k) % 0x1_0000, (s0 + j) % 0x1_0000) == 1 <==> k == j + 1
  {
    assert j + 1 < |s| && Linked(s, j + 1);
    if SignedStep((s0 + k) % 0x1_0000, (s0 + j) % 0x1_0000) == 1 {
      assert (k - (j + 1)) % 0x1_0000 == 0 && (j + 1 - k) % 0x1_0000 == 0;
    }
  }

  lemma GapOfProgress(s: seq<Sent>, s0: nat, tr: Trace, r: Rx)
    requires Conforming(s) && Distinct(s) && Consistent(s, s0, tr) && r.k < |s| && tr.st.asm.Some?
    requires var p := Wire(s, s0, r.k); Progress(tr.st, p) && tr.st.asm.value.ts == p.ts
    ensures GapFits(tr.from, GapOf(tr.st, Wire(s, s0, r.k)), r)
  {
    NextInTimestamp(s, s0, tr.from[|tr.from| - 1].k, r.k);
  }

  /** The packets of the access unit that an accepted packet is in. */
  function JoinedFrom(asm: Option<Assembly>, from: seq<Rx>, p: Packet, r: Rx): seq<Rx> {
    if asm.Some? && asm.value.ts == p.ts then from + [r] else [r]
  }

  lemma BaseIsOpen(st: State, p: Packet)
    ensures Base(st, p).Some? ==> Base(st, p) == st.asm && Progress(st, p)
  {
  }

  lemma AdmitConsistent(cap: nat, s: seq<Sent>, s0: nat, tr: Trace, r: Rx)
    requires Conforming(s) && Distinct(s) && Consistent(s, s0, tr) && r.k < |s|
    ensures IsUnit(s[r.k].unit)
    ensures var p := Wire(s, s0, r.k);
            var asm, gap := Base(tr.st, p), GapOf(tr.st, p);
            var a, from' := Joined(cap, asm, p, r.at, gap), JoinedFrom(asm, tr.from, p, r);
            Assembles(s, a, from') && Truthful(s, Tagged(a.Close(p.marker), from'))
  {
    hide Conforming, Distinct, Joined, Assembles, Truthful, Assembly.Close, IsUnit, Encode, Progress, Base, GapOf;
    UnitAt(s, r.k);
    var p, st := Wire(s, s0, r.k), tr.st;
    var asm, gap := Base(st, p), GapOf(st, p);
    BaseIsOpen(st, p);
    if asm.Some? && asm.value.ts == p.ts {
      GapOfProgress(s, s0, tr, r);
    }
    JoinedAssembles(cap, s, s0, asm, tr.from, r, gap);
    var a := Joined(cap, asm, p, r.at, gap);
    CloseTruthful(s, a, JoinedFrom(asm, tr.from, p, r), p.marker, 0);
    assert a.(lost := a.lost + 0) == a;
  }

  /** The access unit that was open may end, with or without a lost tail. */
  lemma EndedConsistent(s: seq<Sent>, s0: nat, tr: Trace, p: Packet)
    requires Conforming(s) && Consistent(s, s0, tr)
    ensures forall e | e in EndedBefore(Base(tr.st, p), p.ts, GapOf(tr.st, p)) || e in Ending(tr.st.asm) ::
              Truthful(s, Tagged(e, tr.from))
  {
    hide Conforming, Assembles, Truthful, Assembly.Close;
    if tr.st.asm.Some? {
      var a := tr.st.asm.value;
      CloseTruthful(s, a, tr.from, false, 0);
      CloseTruthful(s, a, tr.from, false, GapOf(tr.st, p));
      assert a.(lost := a.lost + 0) == a;
    }
  }

  lemma ObserveConsistent(cap: nat, s: seq<Sent>, s0: nat, tr: Trace, r: Rx)
    requires Conforming(s) && Distinct(s) && Consistent(s, s0, tr) && r.k < |s|
    ensures Consistent(s, s0, Observe(cap, s, s0, tr, r))
  {
    hide Conforming, Distinct, Push, Joined, Assembles, Truthful, Assembly.Close, EndedBefore, Ending, Base;
    AdmitConsistent(cap, s, s0, tr, r);
    var p := Wire(s, s0, r.k);
    PushCases(cap, tr.st, p, r.at);
    EndedConsistent(s, s0, tr, p);
  }

  lemma {:induction false} RunConsistent(cap: nat, s: seq<Sent>, s0: nat, rx: seq<Rx>)
    requires Conforming(s) && Distinct(s) && InStream(s, rx)
    ensures Consistent(s, s0, ObserveAll(cap, s, s0, rx))
  {
    if rx != [] {
      var n := |rx| - 1;
      RunConsistent(cap, s, s0, rx[..n]);
      ObserveConsistent(cap, s, s0, ObserveAll(cap, s, s0, rx[..n]), rx[n]);
    }
  }
}
