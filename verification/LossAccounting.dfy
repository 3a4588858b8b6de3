/** Loss conservation: nothing that was sent between the first and the newest accepted packet goes uncounted. */
module LossAccounting {
  import opened Common
  import opened DepackSpec

  datatype Arrival = Arrival(p: Packet, at: int)

  /** The state and all the events after some packets, of any origin. */
  datatype Run = Run(st: State, events: seq<Event>)

  function Receive(cap: nat, ps: seq<Arrival>): Run {
    if ps == [] then Run(INITIAL, [])
    else
      var n := |ps| - 1;
      var r := Receive(cap, ps[..n]);
      var o := Push(cap, r.st, ps[n].p, ps[n].at);
      Run(o.st, r.events + o.Events())
  }

  function Packets(evs: seq<Event>): nat {
    if evs == [] then 0 else Packets(evs[..|evs| - 1]) + evs[|evs| - 1].packets
  }

  function Lost(evs: seq<Event>): nat {
    if evs == [] then 0 else Lost(evs[..|evs| - 1]) + evs[|evs| - 1].lost
  }

  lemma {:induction false} SumsConcat(a: seq<Event>, b: seq<Event>)
    ensures Packets(a + b) == Packets(a) + Packets(b) && Lost(a + b) == Lost(a) + Lost(b)
  {
    if b == [] {
      assert a + b == a;
    } else {
      assert (a + b)[..|a| + |b| - 1] == a + b[..|b| - 1];
      SumsConcat(a, b[..|b| - 1]);
    }
  }

  function OpenPackets(st: State): nat {
    if st.asm.Some? then st.asm.value.packets else 0
  }

  function OpenLost(st: State): nat {
    if st.asm.Some? then st.asm.value.lost else 0
  }

  lemma SumsOne(e: Event)
    ensures Packets([e]) == e.packets && Lost([e]) == e.lost
  {
    assert [e][..0] == [];
  }

  lemma {:induction false} StapLost(a: Assembly, cap: nat, p: Bytes, off: nat)
    ensures a.StapFrom(cap, p, off).lost == a.lost
    decreases |p| - off
  {
    if off + 2 <= |p| {
      var sz := Be16(p[off], p[off + 1]);
      if 0 < sz <= |p| - off - 2 {
        StapLost(a.AppendNal(cap, p[off + 2..off + 2 + sz]), cap, p, off + 2 + sz);
      }
    }
  }

  lemma TakeLost(a: Assembly, cap: nat, gap: nat, p: Bytes, at: int)
    ensures a.Take(cap, gap, p, at).lost == a.lost + gap
  {
    hide Assembly.StapFrom;
    var c := a.Gap(gap).(packets := a.Gap(gap).packets + 1, lastArrival := at);
    StapLost(c.(orphan := false), cap, p, 1);
  }

  /** One packet moves the totals by its step: an accepted packet and the gap before it; a late packet moves nothing. */
  lemma PushSums(cap: nat, st: State, p: Packet, at: int)
    requires st.last.None? ==> st.asm.None?
    ensures var o := Push(cap, st, p, at);
            && (o.st.last.None? ==> o.st.asm.None?)
            && Packets(o.Events()) + OpenPackets(o.st) == OpenPackets(st) + (if Late(st, p) then 0 else 1)
            && Lost(o.Events()) + OpenLost(o.st) == OpenLost(st) + (if Late(st, p) then 0 else GapOf(st, p))
            && o.st.late == st.late + (if Late(st, p) then 1 else 0)
            && o.st.resets == st.resets + (if Late(st, p) || Progress(st, p) then 0 else 1)
            && o.st.last == (if Late(st, p) then st.last else Some(p.seqNo))
  {
    hide Push, Assembly.Take;
    var o, gap, asm := Push(cap, st, p, at), GapOf(st, p), Base(st, p);
    PushCases(cap, st, p, at);
    SumsConcat(o.ended, o.own);
    if asm.Some? {
      TakeLost(asm.value, cap, gap, p.payload, at);
    }
    TakeLost(Fresh(p.ts, at), cap, if asm.Some? then 0 else gap, p.payload, at);
    if o.own != [] {
      SumsOne(o.own[0]);
    }
    if o.ended != [] {
      SumsOne(o.ended[0]);
    }
  }

  /** The 16-bit difference of two true positions is their true difference when that fits 16 bits. */
  lemma StepIsExact(u: int, v: int)
    requires -0x8000 <= v - u < 0x8000
    ensures SignedStep(v % 0x1_0000, u % 0x1_0000) == v - u
  {
  }

  /** The newest of the first `n` positions. */
  function Newest(u: seq<int>, n: nat): int
    requires 0 < n <= |u|
  {
    if n == 1 then u[0] else if u[n - 1] > Newest(u, n - 1) then u[n - 1] else Newest(u, n - 1)
  }

  /** The true positions of some packets in the sender's stream. */
  ghost predicate Positions(ps: seq<Arrival>, u: seq<int>) {
    |ps| == |u| && forall i | 0 <= i < |ps| :: ps[i].p.seqNo == u[i] % 0x1_0000
  }

  /** Every packet is at most 100 behind or 3000 ahead of the newest one before it. */
  ghost predicate InWindow(u: seq<int>) {
    forall i | 0 < i < |u| :: -MAX_MISORDER <= u[i] - Newest(u, i) <= MAX_DROPOUT
  }

  /** How many of the first `n` packets repeat or precede the newest position before them. */
  function Stale(u: seq<int>, n: nat): nat
    requires n <= |u|
  {
    if n <= 1 then 0 else Stale(u, n - 1) + if u[n - 1] <= Newest(u, n - 1) then 1 else 0
  }

  lemma {:induction false} PrefixPositions(u: seq<int>, m: nat, n: nat)
    requires n <= m <= |u|
    ensures n > 0 ==> Newest(u[..m], n) == Newest(u, n)
    ensures Stale(u[..m], n) == Stale(u, n)
  {
    if n > 1 {
      PrefixPositions(u, m, n - 1);
    }
  }

  /** One packet in the window, in terms of the true positions. */
  lemma WindowStep(st: State, p: Packet, u: int, v: int)
    requires st.last == Some(u % 0x1_0000) && p.seqNo == v % 0x1_0000 && -MAX_MISORDER <= v - u <= MAX_DROPOUT
    ensures (Late(st, p) <==> v <= u) && (Progress(st, p) <==> v > u) && (v > u ==> GapOf(st, p) == v - u - 1)
  {
    hide SignedStep;
    StepIsExact(u, v);
  }

  lemma FirstStep(p: Packet)
    ensures !Late(INITIAL, p) && Progress(INITIAL, p) && GapOf(INITIAL, p) == 0
  {
  }

  lemma {:induction false} PrefixInWindow(ps: seq<Arrival>, u: seq<int>, n: nat)
    requires Positions(ps, u) && InWindow(u) && n <= |ps|
    ensures Positions(ps[..n], u[..n]) && InWindow(u[..n])
  {
    forall i | 0 < i < n
      ensures -MAX_MISORDER <= u[..n][i] - Newest(u[..n], i) <= MAX_DROPOUT
    {
      PrefixPositions(u, n, i);
    }
  }

  /** What the packets received so far add up to. */
  ghost predicate Conserved(r: Run, u: seq<int>, n: nat)
    requires 0 < n <= |u|
  {
    && r.st.resets == 0 && r.st.late == Stale(u, n) <= n && r.st.last == Some(Newest(u, n) % 0x1_0000)
    && Packets(r.events) + OpenPackets(r.st) == n - Stale(u, n)
    && Packets(r.events) + OpenPackets(r.st) + Lost(r.events) + OpenLost(r.st) == Newest(u, n) - u[0] + 1
  }

  lemma {:induction false} ConservedFirst(cap: nat, a: Arrival, u: seq<int>)
    requires |u| > 0 && a.p.seqNo == u[0] % 0x1_0000
    ensures var o := Push(cap, INITIAL, a.p, a.at); Conserved(Run(o.st, [] + o.Events()), u, 1)
  {
    hide Push, Late, Progress, GapOf, Outcome.Events;
    var o := Push(cap, INITIAL, a.p, a.at);
    FirstStep(a.p);
    PushSums(cap, INITIAL, a.p, a.at);
    assert [] + o.Events() == o.Events();
  }

  lemma {:induction false} ConservedNext(cap: nat, r: Run, a: Arrival, u: seq<int>, n: nat)
    requires 0 < n < |u| && Conserved(r, u, n) && a.p.seqNo == u[n] % 0x1_0000
    requires -MAX_MISORDER <= u[n] - Newest(u, n) <= MAX_DROPOUT
    ensures var o := Push(cap, r.st, a.p, a.at); Conserved(Run(o.st, r.events + o.Events()), u, n + 1)
  {
    hide Push, Late, Progress, GapOf, Packets, Lost, Outcome.Events;
    WindowStep(r.st, a.p, Newest(u, n), u[n]);
    PushSums(cap, r.st, a.p, a.at);
    SumsConcat(r.events, Push(cap, r.st, a.p, a.at).Events());
  }

  lemma {:induction false} ReceiveLast(cap: nat, ps: seq<Arrival>)
    requires ps != []
    ensures var n := |ps| - 1;
            var r := Receive(cap, ps[..n]);
            var o := Push(cap, r.st, ps[n].p, ps[n].at);
            Receive(cap, ps) == Run(o.st, r.events + o.Events())
  {
    hide Push;
  }

  lemma {:induction false} ReceiveNone(cap: nat, ps: seq<Arrival>)
    requires |ps| == 1
    ensures Receive(cap, ps[..0]) == Run(INITIAL, [])
  {
  }

  lemma {:induction false} PrefixConserved(r: Run, u: seq<int>, n: nat)
    requires 0 < n <= |u| && Conserved(r, u[..n], n)
    ensures Conserved(r, u, n)
  {
    hide Newest, Stale;
    PrefixPositions(u, n, n);
  }

  /**
   Loss conservation: while no packet is more than 100 behind or 3000 ahead of the newest one, there is no sequence
   reset, exactly the repeated and overtaken packets are dropped, and the packets reported as received or lost, in
   the events and in the open access unit, are exactly the positions from the first one to the newest.
   */
  lemma {:induction false} LossIsConserved(cap: nat, ps: seq<Arrival>, u: seq<int>)
    requires ps != [] && Positions(ps, u) && InWindow(u)
    ensures var r, n := Receive(cap, ps), |ps|;
            && r.st.resets == 0 && r.st.late == Stale(u, n) <= n && r.st.last == Some(Newest(u, n) % 0x1_0000)
            && Packets(r.events) + OpenPackets(r.st) == n - Stale(u, n)
            && Packets(r.events) + OpenPackets(r.st) + Lost(r.events) + OpenLost(r.st) == Newest(u, n) - u[0] + 1
  {
    hide Push, Receive, Newest, Stale, Packets, Lost, OpenPackets, OpenLost;
    var n := |ps| - 1;
    ReceiveLast(cap, ps);
    if n == 0 {
      ReceiveNone(cap, ps);
      ConservedFirst(cap, ps[0], u);
    } else {
      PrefixInWindow(ps, u, n);
      LossIsConserved(cap, ps[..n], u[..n]);
      PrefixConserved(Receive(cap, ps[..n]), u, n);
      ConservedNext(cap, Receive(cap, ps[..n]), ps[n], u, n);
    }
  }

  // ----- from runs to positions -----

  lemma {:induction false} ResetsOnlyGrow(cap: nat, ps: seq<Arrival>)
    requires ps != []
    ensures Receive(cap, ps[..|ps| - 1]).st.resets <= Receive(cap, ps).st.resets
    ensures Receive(cap, ps).st.last.Some?
  {
    hide Push, Late, Progress;
    var n := |ps| - 1;
    var r := Receive(cap, ps[..n]);
    NoLastNoUnit(cap, ps[..n]);
    ReceiveLast(cap, ps);
    PushSums(cap, r.st, ps[n].p, ps[n].at);
    if n > 0 {
      ResetsOnlyGrow(cap, ps[..n]);
    }
    LateHasLast(r.st, ps[n].p);
  }

  lemma LateHasLast(st: State, p: Packet)
    ensures Late(st, p) ==> st.last.Some?
  {
  }

  lemma {:induction false} NoLastNoUnit(cap: nat, ps: seq<Arrival>)
    ensures Receive(cap, ps).st.last.None? ==> Receive(cap, ps).st.asm.None?
  {
    hide Push;
    if ps != [] {
      var n := |ps| - 1;
      NoLastNoUnit(cap, ps[..n]);
      PushSums(cap, Receive(cap, ps[..n]).st, ps[n].p, ps[n].at);
    }
  }

  /** The true position of the next packet, when it makes no reset. */
  lemma NextPosition(st: State, p: Packet, newest: int) returns (v: int)
    requires st.last == Some(newest % 0x1_0000) && (Late(st, p) || Progress(st, p))
    ensures p.seqNo == v % 0x1_0000 && -MAX_MISORDER <= v - newest <= MAX_DROPOUT
  {
    hide SignedStep;
    var last := newest % 0x1_0000;
    v := newest + SignedStep(p.seqNo, last);
    SteppedTo(p.seqNo, newest);
  }

  lemma SteppedTo(seqNo: uint16, newest: int)
    ensures (newest + SignedStep(seqNo, newest % 0x1_0000)) % 0x1_0000 == seqNo
  {
    var d := SignedStep(seqNo, newest % 0x1_0000);
    var q := (newest + d - seqNo) / 0x1_0000;
    assert newest + d == q * 0x1_0000 + seqNo;
    RemainderIs(newest + d, 0x1_0000, q, seqNo);
  }

  lemma {:induction false} WindowSnoc(ps: seq<Arrival>, u: seq<int>, v: int)
    requires ps != [] && |u| == |ps| - 1 && Positions(ps[..|u|], u) && InWindow(u) && ps[|u|].p.seqNo == v % 0x1_0000
    requires u != [] ==> -MAX_MISORDER <= v - Newest(u, |u|) <= MAX_DROPOUT
    ensures Positions(ps, u + [v]) && InWindow(u + [v])
  {
    hide Newest;
    var w, n := u + [v], |u|;
    assert w[..n] == u;
    forall i | 0 <= i < |ps|
      ensures ps[i].p.seqNo == w[i] % 0x1_0000
    {
      assert i < n ==> ps[..n][i] == ps[i];
    }
    forall i | 0 < i < |w|
      ensures -MAX_MISORDER <= w[i] - Newest(w, i) <= MAX_DROPOUT
    {
      PrefixPositions(w, n, i);
    }
  }

  /** The packets of a run without a reset have true positions in the window. */
  lemma {:induction false} Unwraps(cap: nat, ps: seq<Arrival>) returns (u: seq<int>)
    requires ps != [] && Receive(cap, ps).st.resets == 0
    ensures Positions(ps, u) && InWindow(u)
  {
    hide Push, Receive, Late, Progress, Newest;
    var n := |ps| - 1;
    if n == 0 {
      u := [ps[0].p.seqNo];
    } else {
      var r := Receive(cap, ps[..n]);
      ResetsOnlyGrow(cap, ps);
      u := Unwraps(cap, ps[..n]);
      LossIsConserved(cap, ps[..n], u);
      ReceiveLast(cap, ps);
      PushSums(cap, r.st, ps[n].p, ps[n].at);
      var v := NextPosition(r.st, ps[n].p, Newest(u, n));
      WindowSnoc(ps, u, v);
      u := u + [v];
    }
  }

  /**
   Over every run: there was no sequence reset if and only if the packets have true positions in the window. These
   positions say what the totals are.
   */
  lemma {:induction false} NoResetIff(cap: nat, ps: seq<Arrival>)
    requires ps != []
    ensures var r := Receive(cap, ps);
            && (r.st.resets == 0 <==> exists u :: Positions(ps, u) && InWindow(u))
            && forall u | Positions(ps, u) && InWindow(u) ::
                 && r.st.late == Stale(u, |ps|) && Packets(r.events) + OpenPackets(r.st) == |ps| - r.st.late
                 && Packets(r.events) + OpenPackets(r.st) + Lost(r.events) + OpenLost(r.st)
                    == Newest(u, |ps|) - u[0] + 1
  {
    hide Receive, Newest, Stale, Packets, Lost, OpenPackets, OpenLost, InWindow;
    forall u | Positions(ps, u) && InWindow(u)
      ensures Receive(cap, ps).st.resets == 0
      ensures var r := Receive(cap, ps);
              && r.st.late == Stale(u, |ps|) && Packets(r.events) + OpenPackets(r.st) == |ps| - r.st.late
              && Packets(r.events) + OpenPackets(r.st) + Lost(r.events) + OpenLost(r.st) == Newest(u, |ps|) - u[0] + 1
    {
      LossIsConserved(cap, ps, u);
    }
    if Receive(cap, ps).st.resets == 0 {
      var u := Unwraps(cap, ps);
    }
  }

  /** A sequence reset happens exactly outside the window: more than 100 behind, or more than 3000 ahead. */
  lemma ResetIffOutsideWindow(cap: nat, st: State, p: Packet, at: int, u: int, v: int)
    requires st.last == Some(u % 0x1_0000) && p.seqNo == v % 0x1_0000 && -0x8000 <= v - u < 0x8000
    ensures var o := Push(cap, st, p, at);
            && (o.st.resets == st.resets + 1 <==> !(-MAX_MISORDER <= v - u <= MAX_DROPOUT))
            && (!o.accepted <==> -MAX_MISORDER <= v - u <= 0)
            && (!o.accepted ==> o.st == st.(late := st.late + 1) && o.Events() == [])
  {
    StepIsExact(u, v);
    PushCases(cap, st, p, at);
  }
}
