/** What the events mean: theorems over every conforming stream and every sequence of deliveries. */
module Delivery {
  import opened Common
  import opened DepackSpec
  import opened Packetisation
  import opened Reception

  lemma {:induction false} ReceivedWasSent(s: seq<Sent>, from: seq<Rx>, nal: Bytes)
    requires InStream(s, from) && nal in Received(s, from)
    ensures exists i | 0 <= i < |from| :: nal in Completes(s[from[i].k].unit)
  {
    var n := |from| - 1;
    if nal in Received(s, from[..n]) {
      ReceivedWasSent(s, from[..n], nal);
      var i :| 0 <= i < n && nal in Completes(s[from[..n][i].k].unit);
      assert from[..n][i] == from[i];
    } else {
      assert nal in Completes(s[from[n].k].unit);
    }
  }

  /**
   Whole NAL units only: an undamaged event holds, in order, exactly the NAL units of which every packet was
   accepted into its access unit, and each of them was sent under the timestamp of the event.
   */
  lemma {:induction false} DeliversWholeNals(cap: nat, s: seq<Sent>, s0: nat, rx: seq<Rx>)
    requires Conforming(s) && Distinct(s) && InStream(s, rx)
    ensures forall t | t in ObserveAll(cap, s, s0, rx).log && !t.ev.damaged ::
              && InStream(s, t.from)
              && t.ev.data == AnnexB(Received(s, t.from))
              && forall nal | nal in Received(s, t.from) ::
                   exists k | 0 <= k < |s| :: s[k].ts == t.ev.ts && nal in Completes(s[k].unit)
  {
    RunConsistent(cap, s, s0, rx);
    forall t, nal | t in ObserveAll(cap, s, s0, rx).log && !t.ev.damaged && Truthful(s, t) && nal in Received(s, t.from)
      ensures exists k | 0 <= k < |s| :: s[k].ts == t.ev.ts && nal in Completes(s[k].unit)
    {
      ReceivedWasSent(s, t.from, nal);
      var i :| 0 <= i < |t.from| && nal in Completes(s[t.from[i].k].unit);
      assert s[t.from[i].k].ts == t.ev.ts;
    }
  }

  /** Consecutive packets from the start of a NAL unit on give every NAL unit that ends in them. */
  lemma {:induction false} ReceivedConsecutive(s: seq<Sent>, from: seq<Rx>)
    requires Conforming(s) && InStream(s, from) && from != [] && Consecutive(from) && !Continues(s[from[0].k].unit)
    ensures Received(s, from) == Nals(s, from[0].k, from[|from| - 1].k + 1)
    ensures s[from[|from| - 1].k].unit.Frag? ==> Gathered(s, from)
  {
    var n := |from| - 1;
    var k := from[n].k;
    if n > 0 {
      assert from[..n][n - 1] == from[n - 1] && from[n - 1].k + 1 == k;
      assert Consecutive(from[..n]);
      ReceivedConsecutive(s, from[..n]);
      assert Linked(s, k);
    } else {
      assert from[..n] == [];
      assert Nals(s, k, k) == [];
    }
  }

  lemma {:induction false} NalsSplit(s: seq<Sent>, lo: nat, mid: nat, hi: nat)
    requires lo <= mid <= hi <= |s|
    ensures Nals(s, lo, hi) == Nals(s, lo, mid) + Nals(s, mid, hi)
    decreases hi
  {
    if mid < hi {
      NalsSplit(s, lo, mid, hi - 1);
    }
  }

  /** The packets before the start of a NAL unit end at least one. */
  lemma {:induction false} CompletesBefore(s: seq<Sent>, lo: nat, hi: nat)
    requires Conforming(s) && lo < hi < |s| && !Continues(s[hi].unit)
    ensures Nals(s, lo, hi) != [] && |AnnexB(Nals(s, lo, hi))| > 0
  {
    assert Linked(s, hi);
    assert IsUnit(s[hi - 1].unit);
    assert Completes(s[hi - 1].unit) != [];
  }

  /** What `complete` means for the packets an event was made from. */
  ghost predicate WholeFrom(s: seq<Sent>, t: Tagged) {
    && t.from != [] && InStream(s, t.from)
    && var first, end := t.from[0].k, t.from[|t.from| - 1].k;
    && s[end].marker && Head(s, end) <= first <= end && t.ev.packets == end + 1 - first
    && t.ev.data == AnnexB(Nals(s, first, end + 1))
    && (first == Head(s, end) <==> t.ev.data == AnnexB(Nals(s, Head(s, end), end + 1)))
  }

  lemma TruthfulWhole(s: seq<Sent>, t: Tagged)
    requires Conforming(s) && Truthful(s, t) && t.ev.complete
    ensures WholeFrom(s, t)
  {
    hide AnnexB, Received, Nals;
    ReceivedConsecutive(s, t.from);
    var first, end := t.from[0].k, t.from[|t.from| - 1].k;
    var h := Head(s, end);
    forall j | first <= j < end
      ensures !s[j].marker
    {
      assert t.from[j - first].k == j;
    }
    if h < first {
      NalsSplit(s, h, first, end + 1);
      AnnexBConcat(Nals(s, h, first), Nals(s, first, end + 1));
      CompletesBefore(s, h, first);
    }
  }

  /**
   Soundness of `complete`: a complete event ends with the marker of its access unit, holds every NAL unit from
   its first accepted packet to that marker, and is the whole access unit if and only if the first packet of the
   access unit was accepted into it.
   */
  lemma {:induction false} CompleteIsWhole(cap: nat, s: seq<Sent>, s0: nat, rx: seq<Rx>)
    requires Conforming(s) && Distinct(s) && InStream(s, rx)
    ensures forall t | t in ObserveAll(cap, s, s0, rx).log && t.ev.complete :: WholeFrom(s, t)
  {
    RunConsistent(cap, s, s0, rx);
    forall t | t in ObserveAll(cap, s, s0, rx).log && t.ev.complete
      ensures WholeFrom(s, t)
    {
      TruthfulWhole(s, t);
    }
  }

  /** A packet with one NAL unit opens an access unit. */
  lemma OneNal(cap: nat, ts: uint32, nal: Bytes, at: int)
    requires IsNal(nal) && 4 + |nal| <= cap
    ensures Fresh(ts, at).Take(cap, 0, nal, at)
         == Assembly(ts, Body(START_CODE + nal, None, false), 1, 0, 0, nal[0] % 32 == 5, false, at, at)
  {
    assert [] + START_CODE + nal == START_CODE + nal;
  }

  /** Two access units of two packets each. */
  const TWO_AUS := [Sent(0, false, Single([1])), Sent(0, true, Single([2])),
                    Sent(9, false, Single([3])), Sent(9, true, Single([4]))]

  /**
   The admitted limit: after the tail of one access unit and the head of the next are lost together, the whole gap is
   charged to the first, and the second is reported complete without its first NAL unit.
   */
  lemma HeadLossCanBeCharged()
    ensures Conforming(TWO_AUS) && Distinct(TWO_AUS) && InStream(TWO_AUS, [Rx(0, 0), Rx(3, 0)])
    ensures var log := ObserveAll(100, TWO_AUS, 0, [Rx(0, 0), Rx(3, 0)]).log;
            && |log| == 2 && !log[0].ev.complete && log[0].ev.lost == 2
            && log[1].ev.complete && log[1].ev.lost == 0 && log[1].ev.data == AnnexB([[4]])
    ensures Nals(TWO_AUS, Head(TWO_AUS, 3), 4) == [[3], [4]]
  {
    TwoAusConform();
    hide Push, Assembly.Take, Conforming, Distinct, Nals;
    var rx := [Rx(0, 0), Rx(3, 0)];
    var p0, p3 := Wire(TWO_AUS, 0, 0), Wire(TWO_AUS, 0, 3);
    OneNal(100, 0, [1], 0);
    OneNal(100, 9, [4], 0);
    PushCases(100, INITIAL, p0, 0);
    var t1 := Observe(100, TWO_AUS, 0, START, rx[0]);
    PushCases(100, t1.st, p3, 0);
    assert rx[..1] == [Rx(0, 0)] && rx[..1][..0] == [];
    assert ObserveAll(100, TWO_AUS, 0, rx[..1]) == t1;
    AnnexBOne([], [4]);
  }

  lemma TwoAusConform()
    ensures Conforming(TWO_AUS) && Distinct(TWO_AUS) && InStream(TWO_AUS, [Rx(0, 0), Rx(3, 0)])
    ensures Nals(TWO_AUS, Head(TWO_AUS, 3), 4) == [[3], [4]]
  {
    TwoAusDistinct();
    TwoAusNals();
    hide Nals, Distinct, Head;
  }

  lemma TwoAusDistinct()
    ensures Distinct(TWO_AUS)
  {
  }

  lemma TwoAusNals()
    ensures Nals(TWO_AUS, Head(TWO_AUS, 3), 4) == [[3], [4]]
  {
    assert Head(TWO_AUS, 3) == 2;
    assert Nals(TWO_AUS, 2, 3) == [] + [[3]];
    assert Nals(TWO_AUS, 2, 4) == [[3]] + [[4]];
  }
}
