/** A conforming stream that arrives complete and in order comes back unchanged. */
module RoundTrip {
  import opened Common
  import opened DepackSpec
  import opened Packetisation
  import opened Reception
  import opened Delivery

  /** Every packet once, in the order sent. */
  ghost predicate InOrder(s: seq<Sent>, rx: seq<Rx>) {
    |rx| == |s| && forall i | 0 <= i < |rx| :: rx[i].k == i
  }

  /** Every access unit fits the buffer. */
  ghost predicate Fits(cap: nat, s: seq<Sent>) {
    forall e | 0 <= e < |s| && s[e].marker :: |AnnexB(Nals(s, Head(s, e), e + 1))| <= cap
  }

  ghost predicate IdrAmong(nals: seq<Bytes>) {
    exists nal: Bytes | nal in nals :: nal != [] && nal[0] % 32 == 5
  }

  /** The event reports the whole access unit and no loss. */
  ghost predicate Intact(ev: Event, au: Au) {
    && ev.complete && ev.ts == au.ts && ev.data == AnnexB(au.nals) && ev.packets == au.packets
    && ev.lost == 0 && ev.lostFragments == 0 && !ev.damaged
    && (ev.idr <==> IdrAmong(au.nals))
  }

  /** Where the access unit of the next packet begins after `i` packets. */
  function Begin(s: seq<Sent>, i: nat): (h: nat)
    requires i <= |s|
    ensures h <= i
  {
    if i == 0 || s[i - 1].marker then i else Head(s, i - 1)
  }

  // ----- sizes -----

  /** Bytes of the NAL unit that a unit leaves open. */
  function OpenSize(u: Unit): nat {
    if LeavesOpen(u) then 4 + u.hi else 0
  }

  /** Bytes that a unit adds. */
  function Weight(u: Unit): nat
    requires IsUnit(u)
  {
    match u
    case Single(nal) => 4 + |nal|
    case Stap(_, nals) => |AnnexB(nals)|
    case Frag(_, lo, hi, first, _) => if first then 4 + hi else hi - lo
  }

  lemma {:induction false} AppendNalsFit(a: Assembly, cap: nat, nals: seq<Bytes>)
    requires forall i | 0 <= i < |nals| :: |nals[i]| > 0
    requires !a.body.damaged && a.body.Size() + |AnnexB(nals)| <= cap
    ensures !AppendNals(a, cap, nals).body.damaged
    decreases |nals|
  {
    if nals != [] {
      AppendNalsFit(a.AppendNal(cap, nals[0]), cap, nals[1..]);
    }
  }

  lemma UnitFits(a: Assembly, cap: nat, u: Unit)
    requires IsUnit(u) && !a.body.damaged && (a.body.partial.Some? <==> Continues(u))
    requires a.body.Size() + Weight(u) <= cap
    ensures !TakeUnit(a, cap, u).body.damaged
    ensures !a.orphan ==> TakeUnit(a, cap, u).lostFragments == a.lostFragments && !TakeUnit(a, cap, u).orphan
  {
    match u
    case Single(_) =>
    case Stap(_, nals) =>
      AppendNalsFit(a.(orphan := false), cap, nals);
      AppendNalsBody(a.(orphan := false), cap, nals);
    case Frag(_, _, _, _, _) =>
  }

  /** The bytes assembled after packet `i` are at most those of its access unit, which ends at `e`. */
  lemma {:induction false} SizeBound(s: seq<Sent>, h: nat, i: nat, e: nat)
    requires Conforming(s) && h <= i <= e < |s| && s[e].marker && forall j | h <= j < e :: !s[j].marker
    ensures |AnnexB(Nals(s, h, i + 1))| + OpenSize(s[i].unit) <= |AnnexB(Nals(s, h, e + 1))|
    decreases e - i
  {
    hide AnnexB, Nals;
    if i < e {
      SizeBound(s, h, i + 1, e);
      NextSize(s, h, i + 1);
    }
  }

  /** What packet `i` adds to the bytes of the packets before it in its access unit. */
  lemma NextSize(s: seq<Sent>, h: nat, i: nat)
    requires Conforming(s) && h <= i < |s| && (h < i || !Continues(s[h].unit))
    ensures |AnnexB(Nals(s, h, i + 1))| + OpenSize(s[i].unit)
         == |AnnexB(Nals(s, h, i))| + (if h < i then OpenSize(s[i - 1].unit) else 0) + Weight(s[i].unit)
  {
    var u := s[i].unit;
    assert IsUnit(u);
    AnnexBConcat(Nals(s, h, i), Completes(u));
    assert u.Single? || (u.Frag? && u.last) ==> AnnexB(Completes(u)) == START_CODE + u.nal;
    if h < i {
      assert Linked(s, i);
    }
  }

  /** The access unit of packet `i` ends with a marker. */
  lemma {:induction false} FindEnd(s: seq<Sent>, i: nat) returns (e: nat)
    requires Conforming(s) && i < |s|
    ensures i <= e < |s| && s[e].marker && forall j | i <= j < e :: !s[j].marker
    decreases |s| - i
  {
    if s[i].marker {
      e := i;
    } else {
      e := FindEnd(s, i + 1);
    }
  }

  // ----- the IDR flag -----

  lemma {:induction false} IdrSoFar(s: seq<Sent>, from: seq<Rx>)
    requires Conforming(s) && InStream(s, from) && from != [] && Consecutive(from) && !Continues(s[from[0].k].unit)
    ensures var u := s[from[|from| - 1].k].unit;
            && IsUnit(u)
            && (HasIdr(s, from)
                <==> IdrAmong(Nals(s, from[0].k, from[|from| - 1].k + 1)) || (LeavesOpen(u) && u.nal[0] % 32 == 5))
  {
    hide AnnexB, HasIdr, IdrAmong, Received, Gathered, Nals, Completes, ShowsIdr, Conforming, IsUnit;
    var n := |from| - 1;
    var k := from[n].k;
    var u := s[k].unit;
    UnitAt(s, k);
    assert from == from[..n] + [from[n]];
    ExtendReceived(s, from[..n], from[n]);
    IdrOfUnit(u);
    NalsSnoc(s, from[0].k, k);
    IdrConcat(Nals(s, from[0].k, k), Completes(u));
    if n > 0 {
      assert Consecutive(from[..n]) && from[..n][n - 1] == from[n - 1];
      IdrSoFar(s, from[..n]);
      Adjacent(s, k);
    } else {
      assert from[..n] == [];
      NoIdr(s, k);
    }
  }

  lemma NalsSnoc(s: seq<Sent>, lo: nat, k: nat)
    requires lo <= k < |s|
    ensures Nals(s, lo, k + 1) == Nals(s, lo, k) + Completes(s[k].unit)
  {
  }

  lemma {:induction false} NoIdr(s: seq<Sent>, k: nat)
    requires Conforming(s) && k <= |s|
    ensures !HasIdr(s, []) && !IdrAmong(Nals(s, k, k))
  {
  }

  lemma IdrConcat(a: seq<Bytes>, b: seq<Bytes>)
    ensures IdrAmong(a + b) <==> IdrAmong(a) || IdrAmong(b)
  {
    if IdrAmong(a) || IdrAmong(b) {
      var nal: Bytes :| nal != [] && nal[0] % 32 == 5 && (nal in a || nal in b);
      assert nal in a + b;
    }
  }

  lemma IdrOfUnit(u: Unit)
    requires IsUnit(u)
    ensures IdrAmong(Completes(u)) <==> if u.Frag? then u.last && u.nal[0] % 32 == 5 else ShowsIdr(u)
    ensures u.Frag? ==> |u.nal| > 0 && (ShowsIdr(u) <==> u.first && u.nal[0] % 32 == 5)
  {
    match u
    case Single(nal) => assert nal in Completes(u);
    case Stap(_, nals) =>
      if ShowsIdr(u) {
        var i :| 0 <= i < |nals| && nals[i][0] % 32 == 5;
        assert nals[i] in Completes(u);
      }
    case Frag(nal, _, _, _, last) => assert last ==> nal in Completes(u);
  }

  // ----- one packet in order -----

  /** The assembly of packets `h..i` of one access unit without loss or damage. */
  ghost predicate Unharmed(s: seq<Sent>, rx: seq<Rx>, h: nat, i: nat, a: Assembly)
    requires Conforming(s) && InOrder(s, rx)
  {
    && h < i <= |s| && (forall j | h <= j < i - 1 :: !s[j].marker) && !Continues(s[h].unit)
    && Assembles(s, a, rx[h..i])
    && a.ts == s[i - 1].ts && a.lost == 0 && a.lostFragments == 0 && !a.orphan && !a.body.damaged
  }

  lemma {:induction false} UnharmedBody(s: seq<Sent>, rx: seq<Rx>, h: nat, i: nat, a: Assembly)
    requires Conforming(s) && InOrder(s, rx) && Unharmed(s, rx, h, i, a)
    ensures a.body.whole == AnnexB(Nals(s, h, i))
    ensures a.body.partial.Some? <==> LeavesOpen(s[i - 1].unit)
    ensures a.body.Size() == |AnnexB(Nals(s, h, i))| + OpenSize(s[i - 1].unit)
  {
    hide AnnexB, Nals, Received;
    ReceivedConsecutive(s, rx[h..i]);
    assert IsUnit(s[i - 1].unit);
  }

  lemma FreshAssembles(s: seq<Sent>, ts: uint32, at: int)
    requires Conforming(s)
    ensures Assembles(s, Fresh(ts, at), [])
  {
  }

  /** Packet `i` continues the access unit `h..i`, or opens it when `h == i`. */
  ghost predicate Ready(s: seq<Sent>, rx: seq<Rx>, h: nat, i: nat, a: Assembly)
    requires Conforming(s) && InOrder(s, rx)
  {
    && i < |s| && h == Head(s, i)
    && if h < i then Unharmed(s, rx, h, i, a) && !s[i - 1].marker
       else h == i && !Continues(s[h].unit) && a == Fresh(s[h].ts, rx[h].at)
  }

  /** The payload of packet `i` fits, so that it neither damages the access unit nor loses a fragment. */
  lemma PayloadFits(cap: nat, s: seq<Sent>, rx: seq<Rx>, h: nat, i: nat, a: Assembly, c: Assembly)
    requires Conforming(s) && InOrder(s, rx) && Fits(cap, s) && Ready(s, rx, h, i, a)
    requires c.body == a.body && c.orphan == a.orphan
    ensures var b := TakeUnit(c, cap, s[i].unit);
            !b.body.damaged && b.lostFragments == c.lostFragments && !b.orphan
  {
    if h < i {
      UnharmedBody(s, rx, h, i, a);
      assert Linked(s, i);
    }
    var e := FindEnd(s, i);
    HeadSame(s, i, e);
    SizeBound(s, h, i, e);
    NextSize(s, h, i);
    UnitFits(c, cap, s[i].unit);
  }

  /** The next packet of an access unit that fits the buffer keeps it unharmed. */
  lemma TakeUnharmed(cap: nat, s: seq<Sent>, rx: seq<Rx>, h: nat, i: nat, a: Assembly)
    requires Conforming(s) && InOrder(s, rx) && Fits(cap, s) && Ready(s, rx, h, i, a)
    ensures a.ts == s[i].ts && Unharmed(s, rx, h, i + 1, a.Take(cap, 0, Encode(s[i].unit), rx[i].at))
  {
    hide Assembles, TakeUnit, Assembly.Payload, AnnexB, Conforming, Fits, Encode, Head, IsUnit;
    UnitAt(s, i);
    var u := s[i].unit;
    var c := a.(packets := a.packets + 1, lastArrival := rx[i].at);
    SliceSnoc(rx, h, i);
    if i > 0 {
      Adjacent(s, i);
    }
    FreshAssembles(s, s[i].ts, rx[i].at);
    Extend(cap, s, a, rx[h..i], 0, rx[i]);
    ReadUnit(c, cap, u);
    UnitCounters(cap, s, c, u);
    PayloadFits(cap, s, rx, h, i, a, c);
  }

  lemma {:induction false} HeadSame(s: seq<Sent>, i: nat, e: nat)
    requires i <= e < |s| && forall j | i <= j < e :: !s[j].marker
    ensures Head(s, i) == Head(s, e)
    decreases e
  {
    if i < e {
      HeadSame(s, i, e - 1);
    }
  }

  lemma {:induction false} CloseIntact(s: seq<Sent>, rx: seq<Rx>, h: nat, i: nat, a: Assembly)
    requires Conforming(s) && InOrder(s, rx) && Unharmed(s, rx, h, i, a) && s[i - 1].marker
    ensures Intact(a.Close(true), Au(s[i - 1].ts, Nals(s, h, i), i - h))
  {
    hide AnnexB, Nals, HasIdr, IdrAmong, Conforming;
    UnharmedBody(s, rx, h, i, a);
    IdrSoFar(s, rx[h..i]);
    EndsNal(s, h, i);
  }

  /** The packet with the marker ends a NAL unit. */
  lemma {:induction false} EndsNal(s: seq<Sent>, h: nat, i: nat)
    requires Conforming(s) && h < i <= |s| && s[i - 1].marker
    ensures !LeavesOpen(s[i - 1].unit) && |AnnexB(Nals(s, h, i))| > 0
  {
    var u := s[i - 1].unit;
    UnitAt(s, i - 1);
    assert Completes(u) != [];
    AnnexBConcat(Nals(s, h, i - 1), Completes(u));
  }

  lemma {:induction false} NalsOfPrefix(s: seq<Sent>, n: nat, lo: nat, hi: nat)
    requires lo <= hi <= n <= |s|
    ensures Nals(s[..n], lo, hi) == Nals(s, lo, hi)
  {
    if lo < hi {
      NalsOfPrefix(s, n, lo, hi - 1);
    }
  }

  lemma {:induction false} HeadOfPrefix(s: seq<Sent>, n: nat, k: nat)
    requires k < n <= |s|
    ensures Head(s[..n], k) == Head(s, k)
  {
    if k > 0 && !s[k - 1].marker {
      HeadOfPrefix(s, n, k - 1);
    }
  }

  lemma {:induction false} AusOfPrefix(s: seq<Sent>, i: nat)
    requires i < |s|
    ensures var h := Head(s, i);
            Aus(s[..i + 1]) == Aus(s[..h]) + [Au(s[i].ts, Nals(s, h, i + 1), i + 1 - h)]
  {
    var h := Head(s, i);
    HeadOfPrefix(s, i + 1, i);
    NalsOfPrefix(s, i + 1, h, i + 1);
    assert s[..i + 1][..h] == s[..h];
  }

  /** After the first `i` packets: one intact event per ended access unit, and the open one unharmed. */
  ghost predicate OnTrack(s: seq<Sent>, s0: nat, rx: seq<Rx>, i: nat, tr: Trace)
    requires Conforming(s) && InOrder(s, rx) && i <= |s|
  {
    var h := Begin(s, i);
    && tr.st.last == (if i == 0 then None else Some((s0 + i - 1) % 0x1_0000))
    && tr.st.late == tr.st.resets == 0
    && (if h == i then tr.st.asm == None
        else tr.st.asm.Some? && tr.from == rx[h..i] && Unharmed(s, rx, h, i, tr.st.asm.value))
    && |tr.log| == |Aus(s[..h])|
    && forall j | 0 <= j < |tr.log| :: Intact(tr.log[j].ev, Aus(s[..h])[j])
  }

  /** A packet in order joins or opens its access unit, and ends it if it has the marker. */
  lemma ObserveReady(cap: nat, s: seq<Sent>, s0: nat, rx: seq<Rx>, i: nat, tr: Trace, a: Assembly)
    requires Conforming(s) && InOrder(s, rx) && i < |s| && a.ts == s[i].ts
    requires tr.st.last == (if i == 0 then None else Some((s0 + i - 1) % 0x1_0000))
    requires tr.st.asm == Some(a) || (tr.st.asm == None && a == Fresh(s[i].ts, rx[i].at))
    ensures var a' := a.Take(cap, 0, Encode(s[i].unit), rx[i].at);
            var from := if tr.st.asm.Some? then tr.from + [rx[i]] else [rx[i]];
            var asm := if s[i].marker then None else Some(a');
            var st := State(asm, Some((s0 + i) % 0x1_0000), tr.st.late, tr.st.resets);
            var own := if s[i].marker then [Tagged(a'.Close(true), from)] else [];
            Observe(cap, s, s0, tr, rx[i]) == Trace(st, from, tr.log + own)
  {
    hide Push, Assembly.Take, Assembly.Close;
    var p := Wire(s, s0, i);
    assert StepOf(tr.st, p) == 1;
    PushCases(cap, tr.st, p, rx[i].at);
  }

  lemma ObserveOnTrack(cap: nat, s: seq<Sent>, s0: nat, rx: seq<Rx>, i: nat, tr: Trace)
    requires Conforming(s) && InOrder(s, rx) && Fits(cap, s) && i < |s| && OnTrack(s, s0, rx, i, tr)
    ensures OnTrack(s, s0, rx, i + 1, Observe(cap, s, s0, tr, rx[i]))
  {
    hide Observe, Assembly.Take, Assembly.Close, Intact, Assembles, Aus, Nals, Encode, Fits;
    var h := Begin(s, i);
    var a := if h < i then tr.st.asm.value else Fresh(s[i].ts, rx[i].at);
    assert Ready(s, rx, h, i, a) by {
      assert i > 0 ==> Linked(s, i);
    }
    TakeUnharmed(cap, s, rx, h, i, a);
    ObserveReady(cap, s, s0, rx, i, tr, a);
    SliceSnoc(rx, h, i);
    if s[i].marker {
      CloseIntact(s, rx, h, i + 1, a.Take(cap, 0, Encode(s[i].unit), rx[i].at));
      AusOfPrefix(s, i);
    }
  }

  lemma {:induction false} StartOnTrack(cap: nat, s: seq<Sent>, s0: nat, rx: seq<Rx>)
    requires Conforming(s) && InOrder(s, rx)
    ensures InStream(s, rx[..0]) && OnTrack(s, s0, rx, 0, ObserveAll(cap, s, s0, rx[..0]))
  {
    assert s[..0] == [] && rx[..0] == [];
  }

  lemma PrefixInStream(s: seq<Sent>, rx: seq<Rx>, i: nat)
    requires InStream(s, rx) && i <= |rx|
    ensures InStream(s, rx[..i])
  {
  }

  lemma {:induction false} RunOnTrack(cap: nat, s: seq<Sent>, s0: nat, rx: seq<Rx>, i: nat)
    requires Conforming(s) && InOrder(s, rx) && InStream(s, rx) && Fits(cap, s) && i <= |s|
    ensures InStream(s, rx[..i]) && OnTrack(s, s0, rx, i, ObserveAll(cap, s, s0, rx[..i]))
  {
    assert |rx| == |s|;
    PrefixInStream(s, rx, i);
    hide *;
    if i == 0 {
      StartOnTrack(cap, s, s0, rx);
    } else {
      RunOnTrack(cap, s, s0, rx, i - 1);
      ObserveLast(cap, s, s0, rx, i - 1);
      ObserveOnTrack(cap, s, s0, rx, i - 1, ObserveAll(cap, s, s0, rx[..i - 1]));
    }
  }

  /**
   Round trip: a conforming stream that arrives complete and in order, from any first sequence number and with any
   timestamps, gives exactly one event per access unit, in order, each complete and equal to what was sent.
   */
  lemma {:induction false} InOrderIsIntact(cap: nat, s: seq<Sent>, s0: nat, rx: seq<Rx>)
    requires Conforming(s) && InOrder(s, rx) && Fits(cap, s)
    ensures var tr := ObserveAll(cap, s, s0, rx);
            && |tr.log| == |Aus(s)|
            && (forall j | 0 <= j < |tr.log| :: Intact(tr.log[j].ev, Aus(s)[j]))
            && tr.st.asm == None && tr.st.late == tr.st.resets == 0
  {
    RunOnTrack(cap, s, s0, rx, |s|);
    assert rx[..|s|] == rx && s[..|s|] == s;
  }
}
