/**
 Exactly how long an access unit may be for the fragment accounting: one packet more, and its first packet can look
 newer than the last one before its marker.
 */
module OverlongAccessUnit {
  import opened Common
  import opened DepackSpec
  import opened Packetisation
  import opened Reception
  import opened FragmentAccounting

  const LENGTH := MAX_SPAN + 1

  /** Two fragments of one NAL unit, and then single NAL units. */
  function UnitOf(k: nat): Unit {
    if k < 2 then Frag([1, 0, 0], k + 1, k + 2, k == 0, k == 1) else Single([1])
  }

  function Overlong(): seq<Sent> {
    seq(LENGTH, k requires 0 <= k < LENGTH => Sent(5, k == LENGTH - 1, UnitOf(k)))
  }

  lemma OverlongPacket(k: nat)
    requires k < LENGTH
    ensures |Overlong()| == LENGTH && Overlong()[k] == Sent(5, k == LENGTH - 1, UnitOf(k)) && IsUnit(Overlong()[k].unit)
  {
  }

  lemma OverlongConforms()
    ensures Conforming(Overlong()) && Distinct(Overlong()) && Span(Overlong(), LENGTH)
  {
    hide Overlong, Follows, IsUnit;
    OverlongPacket(0);
    forall k: nat | k < LENGTH
      ensures Overlong()[k] == Sent(5, k == LENGTH - 1, UnitOf(k)) && IsUnit(Overlong()[k].unit)
    {
      OverlongPacket(k);
    }
    forall k: nat | 0 < k < LENGTH
      ensures Follows(Overlong()[k - 1], Overlong()[k])
    {
      OverlongFollows(k);
    }
  }

  lemma OverlongFollows(k: nat)
    requires 0 < k < LENGTH
    ensures |Overlong()| == LENGTH && Follows(Overlong()[k - 1], Overlong()[k])
  {
    hide Overlong;
    OverlongPacket(k - 1);
    OverlongPacket(k);
  }

  /**
   The packets that arrive: steps of at most 3000 up to the last but one, then the first again, and then the last one.
   */
  function Arriving(i: nat): nat {
    if i == 0 || i == 22 then 0 else if i < 22 then 3000 * i - 464 else LENGTH - 1
  }

  function Deliveries(): seq<Rx> {
    seq(24, i requires 0 <= i < 24 => Rx(Arriving(i), i))
  }

  lemma DeliveryAt(i: nat)
    requires i < 24
    ensures |Deliveries()| == 24 && Deliveries()[i] == Rx(Arriving(i), i) && Arriving(i) < LENGTH &&
            InStream(Overlong(), Deliveries())
  {
    hide Overlong;
    OverlongPacket(0);
    assert forall j: nat | j < 24 :: Deliveries()[j].k == Arriving(j) < LENGTH;
  }

  /** A packet after a gap in its access unit, without a marker. */
  lemma JoinsAfterGap(cap: nat, s: seq<Sent>, s0: nat, tr: Trace, r: Rx)
    requires r.k < |s| && IsUnit(s[r.k].unit) && !s[r.k].marker && tr.st.asm.Some? && tr.st.asm.value.ts == s[r.k].ts
    requires 1 < StepOf(tr.st, Wire(s, s0, r.k)) <= MAX_DROPOUT
    ensures var gap := StepOf(tr.st, Wire(s, s0, r.k)) - 1;
            var a := tr.st.asm.value.Take(cap, gap, Encode(s[r.k].unit), r.at);
            var st := tr.st.(asm := Some(a), last := Some((s0 + r.k) % 0x1_0000));
            Observe(cap, s, s0, tr, r) == Trace(st, tr.from + [r], tr.log)
  {
    hide Push, Assembly.Take, Encode;
    PushCases(cap, tr.st, Wire(s, s0, r.k), r.at);
  }

  /** The counter after such a packet. */
  lemma CountsAfterGap(cap: nat, a: Assembly, gap: nat, u: Unit, at: int)
    requires IsUnit(u) && gap > 0 && !Continues(u)
    ensures a.Take(cap, gap, Encode(u), at).lostFragments == a.lostFragments + if a.body.partial.Some? then 1 else 0
  {
    TakeFragments(cap, a, gap, u, at);
  }

  /** The state after the first `i` packets. */
  ghost predicate After(s0: nat, i: nat, tr: Trace)
    requires 0 < i <= 23
  {
    && tr.log == [] && |Deliveries()| == 24 && tr.from == Deliveries()[..i] && tr.st.asm.Some?
    && tr.st.last == Some((s0 + Arriving(i - 1)) % 0x1_0000)
    && tr.st.asm.value.ts == 5
    && tr.st.asm.value.lostFragments == (if i == 1 then 0 else 1)
  }

  lemma StepAt(s0: nat, i: nat)
    requires 0 < i < 23
    ensures 1 < SignedStep((s0 + Arriving(i)) % 0x1_0000, (s0 + Arriving(i - 1)) % 0x1_0000) <= MAX_DROPOUT
  {
    var from: int, to: int := Arriving(i - 1), Arriving(i);
    StepIs(s0 + to, s0 + from, if i == 22 then to - from + 0x1_0000 else to - from);
  }

  lemma {:induction false} Next(cap: nat, s0: nat, i: nat, tr: Trace)
    requires 0 < i < 23 && After(s0, i, tr) && Conforming(Overlong()) && Consistent(Overlong(), s0, tr)
    ensures |Deliveries()| == 24 && Deliveries()[i].k < |Overlong()| && IsUnit(Overlong()[Deliveries()[i].k].unit)
    ensures After(s0, i + 1, Observe(cap, Overlong(), s0, tr, Deliveries()[i]))
  {
    hide Overlong, Deliveries, Observe, Assembly.Take, Encode, Conforming, Truthful, Distinct, SignedStep;
    var r, k, j, a := Deliveries()[i], Arriving(i), Arriving(i - 1), tr.st.asm.value;
    DeliveryAt(i);
    DeliveryAt(i - 1);
    OverlongPacket(k);
    OverlongPacket(j);
    StepAt(s0, i);
    JoinsAfterGap(cap, Overlong(), s0, tr, r);
    assert Deliveries()[..i][i - 1] == Deliveries()[i - 1];
    assert i > 1 ==> a.body.partial.None?;
    CountsAfterGap(cap, a, SignedStep((s0 + k) % 0x1_0000, (s0 + j) % 0x1_0000) - 1, UnitOf(k), r.at);
    SliceSnoc(Deliveries(), 0, i);
  }

  /** The first packet opens the access unit and the NAL unit. */
  lemma First(cap: nat, s0: nat)
    ensures |Overlong()| == LENGTH && IsUnit(Overlong()[0].unit) && |Deliveries()| == 24
    ensures After(s0, 1, Observe(cap, Overlong(), s0, START, Rx(0, 0)))
  {
    hide Overlong, Deliveries, Assembly.Take, Encode, Push;
    OverlongPacket(0);
    DeliveryAt(0);
    var p := Wire(Overlong(), s0, 0);
    PushCases(cap, START.st, p, 0);
    assert Deliveries()[..1] == [Rx(0, 0)];
    FirstTake(cap, 0);
  }

  lemma FirstTake(cap: nat, at: int)
    requires IsUnit(UnitOf(0))
    ensures var b := Fresh(5, at).Take(cap, 0, Encode(UnitOf(0)), at); b.lostFragments == 0 && b.ts == 5
  {
    ReadUnit(Fresh(5, at).(packets := 1, lastArrival := at), cap, UnitOf(0));
  }

  lemma {:induction false} RunAfter(cap: nat, s0: nat, i: nat)
    requires 0 < i <= 23 && Conforming(Overlong()) && Distinct(Overlong()) && InStream(Overlong(), Deliveries()) &&
             |Deliveries()| == 24
    ensures InStream(Overlong(), Deliveries()[..i]) && After(s0, i, ObserveAll(cap, Overlong(), s0, Deliveries()[..i]))
  {
    hide *;
    ObserveLast(cap, Overlong(), s0, Deliveries(), i - 1);
    if i == 1 {
      First(cap, s0);
      NothingYet(cap, s0);
    } else {
      RunAfter(cap, s0, i - 1);
      RunConsistent(cap, Overlong(), s0, Deliveries()[..i - 1]);
      Next(cap, s0, i - 1, ObserveAll(cap, Overlong(), s0, Deliveries()[..i - 1]));
    }
  }

  lemma {:induction false} NothingYet(cap: nat, s0: nat)
    requires Conforming(Overlong()) && |Deliveries()| == 24 && InStream(Overlong(), Deliveries()[..0])
    ensures ObserveAll(cap, Overlong(), s0, Deliveries()[..0]) == START && Deliveries()[0] == Rx(0, 0)
  {
    hide Overlong;
  }

  /** Of the NAL units of the stream only the first is fragmented, and its last fragment was not accepted. */
  lemma OneIsBroken(from: seq<Rx>)
    requires |Deliveries()| == 24 && from == Deliveries()[..23] && InStream(Overlong(), from)
    ensures Broken(Overlong(), from) == {0}
  {
    hide Overlong;
    forall k: nat | k < LENGTH
      ensures Overlong()[k].unit == UnitOf(k)
    {
      OverlongPacket(k);
    }
    OverlongPacket(0);
    assert from[0].k == 0;
    assert PartOf(Overlong(), 0, from[0].k);
    assert FuStart(Overlong(), 1) == 0 && PartOf(Overlong(), 0, 1);
    assert !Has(from, 1);
  }

  /** The last delivery is a sequence reset, and ends the access unit. */
  lemma Ended(cap: nat, s0: nat, tr: Trace)
    requires After(s0, 23, tr) && Conforming(Overlong()) && Consistent(Overlong(), s0, tr)
    ensures |Overlong()| == LENGTH && IsUnit(Overlong()[LENGTH - 1].unit)
    ensures var log := Observe(cap, Overlong(), s0, tr, Rx(LENGTH - 1, 23)).log;
            log != [] && log[0].from == tr.from && log[0].ev.lostFragments == 2
  {
    OverlongPacket(LENGTH - 1);
    FirstIsOpen(s0, tr);
    hide Overlong, Deliveries, Push, Joined, Consistent, Conforming, Encode, SignedStep;
    var p := Wire(Overlong(), s0, LENGTH - 1);
    PushCases(cap, tr.st, p, 23);
    BackToLast(s0);
    assert !Late(tr.st, p) && !Progress(tr.st, p);
  }

  /** The repeated first packet has opened the NAL unit again. */
  lemma FirstIsOpen(s0: nat, tr: Trace)
    requires After(s0, 23, tr) && Conforming(Overlong()) && Consistent(Overlong(), s0, tr)
    ensures tr.st.asm.value.body.partial.Some?
  {
    hide Overlong, Deliveries, Truthful, Conforming;
    DeliveryAt(22);
    OverlongPacket(0);
    assert tr.from[22] == Deliveries()[22];
  }

  lemma BackToLast(s0: nat)
    ensures SignedStep((s0 + LENGTH - 1) % 0x1_0000, (s0 + Arriving(22)) % 0x1_0000) == LENGTH - 1 - 0x1_0000
  {
    StepIs(s0 + LENGTH - 1, s0, LENGTH - 1 - 0x1_0000);
  }

  /** The signed step between two positions, when it is known up to a multiple of 2^16. */
  lemma StepIs(u: nat, v: nat, d: int)
    requires -0x8000 <= d < 0x8000 && (u - v == d || u - v == d + 0x1_0000 || u - v == d - 0x1_0000)
    ensures SignedStep(u % 0x1_0000, v % 0x1_0000) == d
  {
    var e := SignedStep(u % 0x1_0000, v % 0x1_0000);
    var q := u / 0x1_0000 - v / 0x1_0000;
    assert u - v - q * 0x1_0000 == u % 0x1_0000 - v % 0x1_0000;
  }

  /**
   A conforming access unit of 62538 packets can be reported with two lost fragments when one fragmented NAL unit was
   accepted in part: its first packet, repeated after packet 62536, looks newer, and starts the NAL unit again.
   */
  lemma {:induction false} FragmentsOvercounted(cap: nat, s0: nat)
    ensures Conforming(Overlong()) && Span(Overlong(), LENGTH) && InStream(Overlong(), Deliveries())
    ensures var log := ObserveAll(cap, Overlong(), s0, Deliveries()).log;
            && log != [] && InStream(Overlong(), log[0].from)
            && log[0].ev.lostFragments == 2 && Broken(Overlong(), log[0].from) == {0}
  {
    hide *;
    OverlongConforms();
    DeliveryAt(23);
    ArrivingLast();
    RunAfter(cap, s0, 23);
    var tr := ObserveAll(cap, Overlong(), s0, Deliveries()[..23]);
    RunConsistent(cap, Overlong(), s0, Deliveries()[..23]);
    Ended(cap, s0, tr);
    ObserveLast(cap, Overlong(), s0, Deliveries(), 23);
    assert Deliveries()[..24] == Deliveries();
    FromOf(s0, tr);
    OneIsBroken(tr.from);
  }

  lemma ArrivingLast()
    ensures Arriving(23) == LENGTH - 1
  {
  }

  lemma FromOf(s0: nat, tr: Trace)
    requires After(s0, 23, tr)
    ensures |Deliveries()| == 24 && tr.from == Deliveries()[..23]
  {
  }

  /** The accounting holds for every event of every run of the streams with spans below `n`. */
  ghost predicate AllCounted(n: int) {
    forall cap: nat, s: seq<Sent>, s0: nat, rx: seq<Rx> | Conforming(s) && Span(s, n) && InStream(s, rx) ::
      CountsFragments(cap, s, s0, rx)
  }

  /**
   Exactly when fragments are counted right: for every capacity, conforming stream, first sequence number, loss,
   repetition and reordering, if and only if packets of one timestamp are at most 62536 packets apart.
   */
  lemma {:induction false} FragmentsCountedIff(n: int)
    ensures AllCounted(n) <==> n <= MAX_SPAN
  {
    hide Conforming, CountsFragments;
    if n <= MAX_SPAN {
      forall cap: nat, s: seq<Sent>, s0: nat, rx: seq<Rx> | Conforming(s) && Span(s, n) && InStream(s, rx)
        ensures CountsFragments(cap, s, s0, rx)
      {
        EveryEventIsCounted(cap, s, s0, rx);
      }
    } else {
      FragmentsOvercounted(0, 0);
      OvercountedIsWrong();
      assert !AllCounted(n);
    }
  }

  lemma OvercountedIsWrong()
    requires Conforming(Overlong()) && InStream(Overlong(), Deliveries())
    ensures !CountsFragments(0, Overlong(), 0, Deliveries())
  {
    hide *;
    FragmentsOvercounted(0, 0);
    NotCounted(ObserveAll(0, Overlong(), 0, Deliveries()).log[0]);
  }

  lemma NotCounted(t: Tagged)
    requires InStream(Overlong(), t.from) && t.ev.lostFragments == 2 && Broken(Overlong(), t.from) == {0}
    requires Conforming(Overlong()) && InStream(Overlong(), Deliveries())
    requires t in ObserveAll(0, Overlong(), 0, Deliveries()).log
    ensures !CountsFragments(0, Overlong(), 0, Deliveries())
  {
    hide Overlong, Deliveries, ObserveAll, Conforming, Broken, SomeBroken;
  }
}
