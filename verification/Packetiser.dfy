/**
 A sender: every way to cut access units into single NAL unit packets, STAP-As and FU-As. Its streams conform, and the
 round trip is stated from the access units it is given to the events the depacketizer reports.
 */
module Packetiser {
  import opened Common
  import opened DepackSpec
  import opened Packetisation
  import opened Reception
  import opened RoundTrip

  /** How some NAL units are sent: alone, aggregated, or one cut into fragments after its header byte. */
  datatype Group = One(nal: Bytes) | Many(header: byte, nals: seq<Bytes>) | Cut(nal: Bytes, pieces: seq<Bytes>)

  predicate IsGroup(g: Group) {
    match g
    case One(nal) => IsNal(nal)
    case Many(header, nals) => IsUnit(Stap(header, nals))
    case Cut(nal, pieces) => IsNal(nal) && |pieces| >= 2 && Flatten(pieces) == nal[1..]
  }

  function GroupNals(g: Group): seq<Bytes> {
    match g
    case One(nal) => [nal]
    case Many(_, nals) => nals
    case Cut(nal, _) => [nal]
  }

  /** The fragments from piece `i` on, which starts at byte `lo`. */
  function Fragments(nal: Bytes, pieces: seq<Bytes>, i: nat, lo: nat): seq<Unit>
    requires i <= |pieces|
    decreases |pieces| - i
  {
    if i == |pieces| then []
    else [Frag(nal, lo, lo + |pieces[i]|, i == 0, i == |pieces| - 1)] + Fragments(nal, pieces, i + 1, lo + |pieces[i]|)
  }

  function GroupUnits(g: Group): seq<Unit> {
    match g
    case One(nal) => [Single(nal)]
    case Many(header, nals) => [Stap(header, nals)]
    case Cut(nal, pieces) => Fragments(nal, pieces, 0, 1)
  }

  datatype Plan = Plan(ts: uint32, groups: seq<Group>)

  ghost predicate IsPlan(p: Plan) {
    p.groups != [] && forall i | 0 <= i < |p.groups| :: IsGroup(p.groups[i])
  }

  function PlanNals(groups: seq<Group>): seq<Bytes> {
    if groups == [] then [] else GroupNals(groups[0]) + PlanNals(groups[1..])
  }

  function PlanUnits(groups: seq<Group>): seq<Unit> {
    if groups == [] then [] else GroupUnits(groups[0]) + PlanUnits(groups[1..])
  }

  function PlanPackets(p: Plan): seq<Sent> {
    var us := PlanUnits(p.groups);
    seq(|us|, i requires 0 <= i < |us| => Sent(p.ts, i == |us| - 1, us[i]))
  }

  /** The packets of all the access units, in order. */
  function Stream(plans: seq<Plan>): seq<Sent> {
    if plans == [] then [] else Stream(plans[..|plans| - 1]) + PlanPackets(plans[|plans| - 1])
  }

  // ----- units in a row -----

  ghost predicate UnitFollows(us: seq<Unit>, k: nat)
    requires 0 < k < |us|
  {
    && (LeavesOpen(us[k - 1]) <==> Continues(us[k]))
    && (LeavesOpen(us[k - 1]) ==> us[k].nal == us[k - 1].nal && us[k].lo == us[k - 1].hi)
  }

  /** Valid units, each following the one before; `open` allows the first to continue a NAL unit. */
  ghost predicate Row(us: seq<Unit>, open: bool) {
    && us != []
    && (forall k | 0 <= k < |us| :: IsUnit(us[k]))
    && (Continues(us[0]) <==> open) && !LeavesOpen(us[|us| - 1])
    && (forall k | 0 < k < |us| :: UnitFollows(us, k))
  }

  ghost function RowNals(us: seq<Unit>): seq<Bytes> {
    if us == [] then [] else RowNals(us[..|us| - 1]) + Completes(us[|us| - 1])
  }

  lemma Associative<T>(x: seq<T>, y: seq<T>, z: seq<T>)
    ensures x + y + z == x + (y + z)
  {
  }

  lemma {:induction false} RowNalsSnoc(us: seq<Unit>, u: Unit)
    ensures RowNals(us + [u]) == RowNals(us) + Completes(u)
  {
    assert (us + [u])[..|us|] == us;
  }

  lemma {:induction false} RowNalsConcat(a: seq<Unit>, b: seq<Unit>)
    ensures RowNals(a + b) == RowNals(a) + RowNals(b)
  {
    if b == [] {
      assert a + b == a;
    } else {
      hide *;
      var n := |b| - 1;
      assert b == b[..n] + [b[n]] && a + b == (a + b[..n]) + [b[n]];
      RowNalsSnoc(b[..n], b[n]);
      RowNalsSnoc(a + b[..n], b[n]);
      RowNalsConcat(a, b[..n]);
      Associative(RowNals(a), RowNals(b[..n]), Completes(b[n]));
    }
  }

  lemma RowConcat(a: seq<Unit>, b: seq<Unit>, open: bool)
    requires Row(a, open) && Row(b, false)
    ensures Row(a + b, open)
  {
    forall k | 0 < k < |a + b|
      ensures UnitFollows(a + b, k)
    {
      if k < |a| {
        assert UnitFollows(a, k);
      } else if k > |a| {
        assert UnitFollows(b, k - |a|);
      }
    }
  }

  lemma RowCons(u: Unit, b: seq<Unit>, open: bool)
    requires IsUnit(u) && LeavesOpen(u) && (Continues(u) <==> open)
    requires Row(b, true) && b[0].nal == u.nal && b[0].lo == u.hi
    ensures Row([u] + b, open)
  {
    forall k | 0 < k < |[u] + b|
      ensures UnitFollows([u] + b, k)
    {
      if k > 1 {
        assert UnitFollows(b, k - 1);
      }
    }
  }

  lemma {:induction false} RowNalsCons(u: Unit, us: seq<Unit>)
    ensures RowNals([u] + us) == Completes(u) + RowNals(us)
  {
    RowNalsConcat([u], us);
    assert [u][..0] == [] && RowNals([]) + Completes(u) == Completes(u);
  }

  lemma FlattenFrom(pieces: seq<Bytes>, i: nat)
    requires i < |pieces|
    ensures Flatten(pieces[i..]) == pieces[i] + Flatten(pieces[i + 1..])
  {
    assert pieces[i..][0] == pieces[i] && pieces[i..][1..] == pieces[i + 1..];
  }

  lemma {:induction false} FragmentsRow(nal: Bytes, pieces: seq<Bytes>, i: nat, lo: nat)
    requires IsNal(nal) && |pieces| >= 2 && i < |pieces| && (i == 0 ==> lo == 1) && lo >= 1
    requires lo + |Flatten(pieces[i..])| == |nal|
    ensures Row(Fragments(nal, pieces, i, lo), i > 0) && RowNals(Fragments(nal, pieces, i, lo)) == [nal]
    ensures Fragments(nal, pieces, i, lo)[0].nal == nal && Fragments(nal, pieces, i, lo)[0].lo == lo
    decreases |pieces| - i
  {
    hide RowNals;
    var hi := lo + |pieces[i]|;
    var u := Frag(nal, lo, hi, i == 0, i == |pieces| - 1);
    var rest := Fragments(nal, pieces, i + 1, hi);
    FlattenFrom(pieces, i);
    RowNalsCons(u, rest);
    if i == |pieces| - 1 {
      assert pieces[i + 1..] == [] && rest == [];
      RowNalsNone();
    } else {
      FragmentsRow(nal, pieces, i + 1, hi);
      RowCons(u, rest, i > 0);
    }
  }

  lemma RowNalsNone()
    ensures RowNals([]) == []
  {
  }

  lemma GroupRow(g: Group)
    requires IsGroup(g)
    ensures Row(GroupUnits(g), false) && RowNals(GroupUnits(g)) == GroupNals(g)
  {
    match g
    case One(nal) => assert [Single(nal)][..0] == [];
    case Many(header, nals) => assert [Stap(header, nals)][..0] == [];
    case Cut(nal, pieces) =>
      assert pieces[0..] == pieces;
      FragmentsRow(nal, pieces, 0, 1);
  }

  lemma {:induction false} PlanRow(groups: seq<Group>)
    requires groups != [] && forall i | 0 <= i < |groups| :: IsGroup(groups[i])
    ensures Row(PlanUnits(groups), false) && RowNals(PlanUnits(groups)) == PlanNals(groups)
  {
    GroupRow(groups[0]);
    var us, rest := GroupUnits(groups[0]), PlanUnits(groups[1..]);
    if |groups| == 1 {
      assert groups[1..] == [] && us + rest == us && GroupNals(groups[0]) + [] == GroupNals(groups[0]);
    } else {
      PlanRow(groups[1..]);
      RowConcat(us, rest, false);
      RowNalsConcat(us, rest);
    }
  }

  // ----- the stream -----

  lemma {:induction false} NalsOfRow(s: seq<Sent>, lo: nat, us: seq<Unit>)
    requires lo + |us| <= |s| && forall i | 0 <= i < |us| :: s[lo + i].unit == us[i]
    ensures Nals(s, lo, lo + |us|) == RowNals(us)
  {
    if us != [] {
      NalsOfRow(s, lo, us[..|us| - 1]);
    }
  }

  lemma {:induction false} HeadIs(s: seq<Sent>, h: nat, k: nat)
    requires h <= k < |s| && (h == 0 || s[h - 1].marker) && forall j | h <= j < k :: !s[j].marker
    ensures Head(s, k) == h
    decreases k
  {
    if h < k {
      HeadIs(s, h, k - 1);
    }
  }

  lemma AppendPlanConforms(s: seq<Sent>, p: Plan)
    requires Conforming(s) && IsPlan(p)
    ensures Conforming(s + PlanPackets(p))
  {
    hide PlanUnits, PlanNals, RowNals;
    PlanRow(p.groups);
    var us, s' := PlanUnits(p.groups), s + PlanPackets(p);
    forall k | 0 < k < |s'|
      ensures Linked(s', k)
    {
      if k < |s| {
        Adjacent(s, k);
      } else if k > |s| {
        assert UnitFollows(us, k - |s|);
      }
    }
  }

  lemma PlanIsRow(p: Plan)
    requires IsPlan(p)
    ensures Row(PlanUnits(p.groups), false) && RowNals(PlanUnits(p.groups)) == PlanNals(p.groups)
  {
    PlanRow(p.groups);
  }

  lemma LastMarker(s: seq<Sent>)
    requires Conforming(s) && s != []
    ensures s[|s| - 1].marker
  {
  }

  lemma {:induction false} AppendPlanAus(s: seq<Sent>, p: Plan)
    requires Conforming(s) && IsPlan(p)
    ensures Aus(s + PlanPackets(p)) == Aus(s) + [PlanAu(p)]
  {
    hide *;
    PlanIsRow(p);
    var us, ps := PlanUnits(p.groups), PlanPackets(p);
    var s' := s + ps;
    PacketsOf(p);
    if s != [] {
      LastMarker(s);
    }
    AppendedUnits(s, ps, us);
    HeadIs(s', |s|, |s'| - 1);
    NalsOfRow(s', |s|, us);
    LastAu(s', |s|);
    assert s'[..|s|] == s;
  }

  lemma AppendedUnits(s: seq<Sent>, ps: seq<Sent>, us: seq<Unit>)
    requires |ps| == |us| && forall i | 0 <= i < |us| :: ps[i].unit == us[i]
    requires forall i | 0 <= i < |us| :: ps[i].marker <==> i == |us| - 1
    ensures forall i | 0 <= i < |us| :: (s + ps)[|s| + i].unit == us[i]
    ensures forall j | |s| <= j < |s + ps| - 1 :: !(s + ps)[j].marker
    ensures us != [] ==> (s + ps)[|s + ps| - 1] == ps[|us| - 1]
  {
    assert forall i | 0 <= i < |us| :: (s + ps)[|s| + i] == ps[i];
  }

  lemma PacketsOf(p: Plan)
    requires IsPlan(p)
    ensures var us, ps := PlanUnits(p.groups), PlanPackets(p);
            && us != [] && |ps| == |us| && PlanAu(p) == Au(p.ts, PlanNals(p.groups), |us|) && ps[|us| - 1].ts == p.ts
            && forall i | 0 <= i < |us| :: ps[i].unit == us[i] && (ps[i].marker <==> i == |us| - 1)
  {
    hide PlanUnits, PlanNals, RowNals, UnitFollows;
    PlanIsRow(p);
  }

  lemma {:induction false} LastAu(s: seq<Sent>, h: nat)
    requires h < |s| && Head(s, |s| - 1) == h
    ensures Aus(s) == Aus(s[..h]) + [Au(s[|s| - 1].ts, Nals(s, h, |s|), |s| - h)]
  {
    hide Nals, Head;
  }

  function PlanAu(p: Plan): Au {
    Au(p.ts, PlanNals(p.groups), |PlanUnits(p.groups)|)
  }

  /** The access units of a list of plans. */
  function PlanAus(plans: seq<Plan>): seq<Au> {
    if plans == [] then [] else PlanAus(plans[..|plans| - 1]) + [PlanAu(plans[|plans| - 1])]
  }

  lemma {:induction false} PlanAusAt(plans: seq<Plan>, i: nat)
    requires i < |plans|
    ensures |PlanAus(plans)| == |plans| && PlanAus(plans)[i] == PlanAu(plans[i])
  {
    hide PlanAu;
    var n := |plans| - 1;
    if n > 0 {
      PlanAusAt(plans[..n], if i < n then i else 0);
    }
  }

  /** Every packetisation conforms and carries exactly its access units. */
  lemma {:induction false} StreamConforms(plans: seq<Plan>)
    requires forall i | 0 <= i < |plans| :: IsPlan(plans[i])
    ensures Conforming(Stream(plans)) && Aus(Stream(plans)) == PlanAus(plans)
  {
    if plans != [] {
      hide *;
      var n := |plans| - 1;
      assert forall i | 0 <= i < n :: plans[..n][i] == plans[i];
      StreamConforms(plans[..n]);
      AppendPlanConforms(Stream(plans[..n]), plans[n]);
      AppendPlanAus(Stream(plans[..n]), plans[n]);
      StreamSnoc(plans);
    }
  }

  lemma {:induction false} StreamSnoc(plans: seq<Plan>)
    requires plans != []
    ensures var n := |plans| - 1;
            && Stream(plans) == Stream(plans[..n]) + PlanPackets(plans[n])
            && PlanAus(plans) == PlanAus(plans[..n]) + [PlanAu(plans[n])]
  {
    hide PlanPackets, PlanAu;
  }

  /** Every marker of a stream ends one of its access units. */
  lemma {:induction false} AuEndingAt(s: seq<Sent>, e: nat)
    requires e < |s| && s[|s| - 1].marker && s[e].marker
    ensures exists i | 0 <= i < |Aus(s)| :: Aus(s)[i].nals == Nals(s, Head(s, e), e + 1)
  {
    hide Aus, Nals, Head;
    var h := Head(s, |s| - 1);
    LastAu(s, h);
    var before := Aus(s[..h]);
    if e == |s| - 1 {
      assert Aus(s)[|before|].nals == Nals(s, h, |s|);
    } else {
      assert e < h && s[..h][e] == s[e] && s[..h][h - 1] == s[h - 1];
      AuEndingAt(s[..h], e);
      var i :| 0 <= i < |before| && before[i].nals == Nals(s[..h], Head(s[..h], e), e + 1);
      HeadOfPrefix(s, h, e);
      NalsOfPrefix(s, h, Head(s, e), e + 1);
      assert Aus(s)[i] == before[i];
    }
  }

  /**
   Round trip: any access units, cut into packets in any way, sent from any sequence number with any timestamps and
   received in order, come back as one complete event each, with the same bytes, when each fits the buffer.
   */
  lemma {:induction false} SentIsReported(cap: nat, plans: seq<Plan>, s0: nat, rx: seq<Rx>)
    requires forall i | 0 <= i < |plans| :: IsPlan(plans[i]) && |AnnexB(PlanNals(plans[i].groups))| <= cap
    requires InOrder(Stream(plans), rx)
    ensures Conforming(Stream(plans))
    ensures var log := ObserveAll(cap, Stream(plans), s0, rx).log;
            |log| == |plans| && forall i | 0 <= i < |plans| :: Intact(log[i].ev, PlanAu(plans[i]))
  {
    hide Intact, PlanNals, PlanUnits, Aus, Nals, AnnexB, IsPlan;
    var s := Stream(plans);
    StreamConforms(plans);
    forall i | 0 <= i < |plans|
      ensures |PlanAus(plans)| == |plans| && PlanAus(plans)[i] == PlanAu(plans[i])
    {
      PlanAusAt(plans, i);
    }
    if plans == [] {
      assert s == [];
    } else {
      PlanAusAt(plans, 0);
    }
    forall e | 0 <= e < |s| && s[e].marker
      ensures |AnnexB(Nals(s, Head(s, e), e + 1))| <= cap
    {
      AuEndingAt(s, e);
    }
    InOrderIsIntact(cap, s, s0, rx);
  }
}
