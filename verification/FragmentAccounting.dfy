/** Fragment accounting: `lostFragments` against the fragmented NAL units that were only partly accepted. */
module FragmentAccounting {
  import opened Common
  import opened DepackSpec
  import opened Packetisation
  import opened Reception

  /** A fragmented NAL unit is named by the packet it starts in. */
  function FuStart(s: seq<Sent>, k: nat): (m: nat)
    requires k < |s|
    ensures m <= k && (k > 0 && Continues(s[k].unit) ==> m < k)
  {
    if k == 0 || !Continues(s[k].unit) then k else FuStart(s, k - 1)
  }

  ghost predicate Has(from: seq<Rx>, k: nat) {
    exists i | 0 <= i < |from| :: from[i].k == k
  }

  /** Packet `k` is a fragment of the NAL unit that starts in packet `m`. */
  predicate PartOf(s: seq<Sent>, m: nat, k: nat)
    requires k < |s|
  {
    s[k].unit.Frag? && FuStart(s, k) == m
  }

  /** Some fragment of the NAL unit that starts in packet `m` was not accepted. */
  ghost predicate Incomplete(s: seq<Sent>, from: seq<Rx>, m: nat) {
    exists k | 0 <= k < |s| :: PartOf(s, m, k) && !Has(from, k)
  }

  ghost predicate Touched(s: seq<Sent>, from: seq<Rx>, m: nat)
    requires InStream(s, from)
  {
    exists i | 0 <= i < |from| :: PartOf(s, m, from[i].k)
  }

  /** The fragmented NAL units of which some fragments were accepted, but not all. */
  ghost function Broken(s: seq<Sent>, from: seq<Rx>): set<nat>
    requires InStream(s, from)
  {
    set m: nat | m < |s| && Touched(s, from, m) && Incomplete(s, from, m)
  }

  /**
   Packet `i` is the first that was accepted of its NAL unit and not its start, and the NAL unit of the packet accepted
   before it is unfinished: the two are lost in one run.
   */
  ghost predicate Merges(s: seq<Sent>, from: seq<Rx>, i: nat)
    requires InStream(s, from)
  {
    && 0 < i < |from| && Continues(s[from[i].k].unit) && LeavesOpen(s[from[i - 1].k].unit)
    && FuStart(s, from[i - 1].k) != FuStart(s, from[i].k)
  }

  ghost function Merged(s: seq<Sent>, from: seq<Rx>): set<nat>
    requires InStream(s, from)
  {
    set i | 0 <= i < |from| && Merges(s, from, i) :: FuStart(s, from[i].k)
  }

  /** The broken NAL units with which a run of losses begins. */
  ghost function LostRuns(s: seq<Sent>, from: seq<Rx>): set<nat>
    requires InStream(s, from)
  {
    Broken(s, from) - Merged(s, from)
  }

  ghost predicate Rising(from: seq<Rx>) {
    forall i, j | 0 <= i < j < |from| :: from[i].k < from[j].k
  }

  /** The NAL unit whose fragments are still being gathered. */
  ghost function OpenFu(s: seq<Sent>, from: seq<Rx>): set<nat>
    requires InStream(s, from)
  {
    if Open(s, from) then {FuStart(s, from[|from| - 1].k)} else {}
  }

  // ----- fragmented NAL units in a conforming stream -----

  /** All packets from the start of a fragmented NAL unit to one of its fragments are its fragments. */
  lemma {:induction false} PartsAreContiguous(s: seq<Sent>, j: nat, k: nat)
    requires Conforming(s) && k < |s| && s[k].unit.Frag? && FuStart(s, k) <= j <= k
    ensures PartOf(s, FuStart(s, k), j) && (j < k ==> LeavesOpen(s[j].unit))
    decreases k
  {
    if j < k {
      Adjacent(s, k);
      PartsAreContiguous(s, j, k - 1);
    }
  }

  /** After an open fragment comes a fragment of the same NAL unit. */
  lemma {:induction false} NextPart(s: seq<Sent>, k: nat)
    requires Conforming(s) && k < |s| && LeavesOpen(s[k].unit)
    ensures k + 1 < |s| && PartOf(s, FuStart(s, k), k + 1)
  {
    assert k + 1 < |s|;
    Adjacent(s, k + 1);
  }

  /** The last fragment is the last packet of its NAL unit. */
  lemma {:induction false} LastPart(s: seq<Sent>, j: nat, k: nat)
    requires Conforming(s) && j < |s| && k < |s| && s[k].unit.Frag? && s[k].unit.last && PartOf(s, FuStart(s, k), j)
    ensures j <= k
  {
    if j > k {
      PartsAreContiguous(s, k, j);
    }
  }

  // ----- gathering -----

  lemma ContinuationFollows(s: seq<Sent>, k: nat)
    requires Conforming(s) && k < |s| && Continues(s[k].unit)
    ensures k > 0 && Follows(s[k - 1], s[k])
  {
    assert k > 0;
    Adjacent(s, k);
  }

  lemma NextBefore(from: seq<Rx>, i: nat)
    requires Rising(from) && i < |from| - 1 && from[i].k + 1 == from[|from| - 1].k
    ensures i == |from| - 2
  {
    var before := from[|from| - 2];
  }

  /** A fragment is gathered exactly when all the fragments up to it were accepted. */
  lemma {:induction false} GatheredIff(s: seq<Sent>, from: seq<Rx>)
    requires Conforming(s) && InStream(s, from) && Rising(from) && from != [] && s[from[|from| - 1].k].unit.Frag?
    ensures var k := from[|from| - 1].k;
            Gathered(s, from) <==> forall j | FuStart(s, k) <= j <= k :: Has(from, j)
  {
    hide Conforming;
    var n := |from| - 1;
    var k := from[n].k;
    var m, init := FuStart(s, k), from[..n];
    assert Has(from, k);
    if Continues(s[k].unit) {
      ContinuationFollows(s, k);
      forall j | m <= j < k
        ensures Has(from, j) <==> Has(init, j)
      {
        assert forall i | 0 <= i < n :: init[i] == from[i];
      }
      if Has(init, k - 1) {
        var i :| 0 <= i < n && init[i].k == k - 1;
        NextBefore(from, i);
        assert InStream(s, init) && Rising(init);
        GatheredIff(s, init);
      }
    }
  }

  lemma HasSnoc(from: seq<Rx>, r: Rx, k: nat)
    ensures Has(from + [r], k) <==> Has(from, k) || r.k == k
  {
    var from' := from + [r];
    assert from'[|from|] == r && forall i | 0 <= i < |from| :: from'[i] == from[i];
  }

  lemma TouchedSnoc(s: seq<Sent>, from: seq<Rx>, r: Rx, m: nat)
    requires InStream(s, from) && r.k < |s|
    ensures InStream(s, from + [r])
    ensures Touched(s, from + [r], m) <==> Touched(s, from, m) || PartOf(s, m, r.k)
  {
    var from' := from + [r];
    assert from'[|from|] == r && forall i | 0 <= i < |from| :: from'[i] == from[i];
  }

  lemma IncompleteSnoc(s: seq<Sent>, from: seq<Rx>, r: Rx, m: nat)
    requires InStream(s, from) && r.k < |s|
    ensures Incomplete(s, from + [r], m) ==> Incomplete(s, from, m)
    ensures Incomplete(s, from, m) && !PartOf(s, m, r.k) ==> Incomplete(s, from + [r], m)
  {
    forall k
      ensures Has(from + [r], k) <==> Has(from, k) || r.k == k
    {
      HasSnoc(from, r, k);
    }
  }

  /** The new packet comes later in the stream than all the accepted ones. */
  ghost predicate Newer(from: seq<Rx>, r: Rx) {
    forall i | 0 <= i < |from| :: from[i].k < r.k
  }

  /** A NAL unit with packet `r` and a later or an unaccepted fragment stays broken. */
  lemma {:induction false} StaysIncomplete(s: seq<Sent>, from: seq<Rx>, r: Rx)
    requires Conforming(s) && InStream(s, from) && Newer(from, r) && Rising(from) && r.k < |s| && s[r.k].unit.Frag?
    ensures InStream(s, from + [r]) && Rising(from + [r])
    ensures Incomplete(s, from + [r], FuStart(s, r.k)) <==> !(Gathered(s, from + [r]) && s[r.k].unit.last)
  {
    var from', m := from + [r], FuStart(s, r.k);
    assert from'[|from|] == r;
    GatheredIff(s, from');
    if LeavesOpen(s[r.k].unit) {
      NextPart(s, r.k);
      HasSnoc(from, r, r.k + 1);
      assert PartOf(s, m, r.k + 1) && !Has(from', r.k + 1);
    } else if Gathered(s, from') {
      forall k | 0 <= k < |s| && PartOf(s, m, k)
        ensures Has(from', k)
      {
        LastPart(s, k, r.k);
      }
    } else {
      var j :| m <= j <= r.k && !Has(from', j);
      PartsAreContiguous(s, j, r.k);
    }
  }

  /** What one more packet does to the broken NAL units. */
  lemma {:induction false} BrokenSnoc(s: seq<Sent>, from: seq<Rx>, r: Rx)
    requires Conforming(s) && InStream(s, from) && Rising(from) && Newer(from, r) && r.k < |s|
    ensures var from', u := from + [r], s[r.k].unit;
            && InStream(s, from') && Rising(from')
            && Broken(s, from') == (if !u.Frag? then Broken(s, from)
                                    else if Gathered(s, from') && u.last then Broken(s, from) - {FuStart(s, r.k)}
                                    else Broken(s, from) + {FuStart(s, r.k)})
  {
    forall m: nat
      ensures Touched(s, from + [r], m) <==> Touched(s, from, m) || PartOf(s, m, r.k)
      ensures Incomplete(s, from + [r], m) ==> Incomplete(s, from, m)
      ensures Incomplete(s, from, m) && !PartOf(s, m, r.k) ==> Incomplete(s, from + [r], m)
    {
      TouchedSnoc(s, from, r, m);
      IncompleteSnoc(s, from, r, m);
    }
    if s[r.k].unit.Frag? {
      StaysIncomplete(s, from, r);
    }
  }

  // ----- the counter -----

  /** What one packet does to the fragment counter and to the orphan flag. */
  lemma TakeFragments(cap: nat, a: Assembly, gap: nat, u: Unit, at: int)
    requires IsUnit(u)
    requires a.Gap(gap).body.partial.Some? ==> Continues(u)
    ensures var b, dropped := a.Take(cap, gap, Encode(u), at), gap > 0 && a.body.partial.Some?;
            var skipped := Continues(u) && a.Gap(gap).body.partial.None?;
            && b.lostFragments == a.lostFragments + (if dropped then 1 else if skipped && !a.orphan then 1 else 0)
            && ((a.body.partial.Some? ==> !a.orphan) ==> (b.orphan <==> skipped && LeavesOpen(u)))
            && (skipped && LeavesOpen(u) ==> b.orphan)
  {
    var g := a.Gap(gap);
    var c := g.(packets := g.packets + 1, lastArrival := at);
    ReadUnit(c, cap, u);
    match u
    case Single(_) =>
    case Stap(_, nals) => AppendNalsBody(c.(orphan := false), cap, nals);
    case Frag(_, _, _, _, _) =>
  }

  /** The counter is the number of the runs of losses, without the NAL unit that is still open. */
  ghost predicate Counted(s: seq<Sent>, a: Assembly, from: seq<Rx>)
    requires InStream(s, from)
  {
    && Rising(from)
    && OpenFu(s, from) <= LostRuns(s, from)
    && a.lostFragments == |LostRuns(s, from) - OpenFu(s, from)|
    && (Broken(s, from) - OpenFu(s, from) != {} ==> a.lostFragments > 0)
    && (a.orphan <==> from != [] && LeavesOpen(s[from[|from| - 1].k].unit) && !Open(s, from))
  }

  /** What one more packet does to the runs of losses. */
  lemma {:induction false} MergedSnoc(s: seq<Sent>, from: seq<Rx>, r: Rx)
    requires InStream(s, from) && r.k < |s|
    ensures InStream(s, from + [r])
    ensures var m := FuStart(s, r.k);
            Merged(s, from + [r]) == Merged(s, from) +
            if && from != [] && Continues(s[r.k].unit) && LeavesOpen(s[from[|from| - 1].k].unit)
               && FuStart(s, from[|from| - 1].k) != m then {m} else {}
  {
    var from', n := from + [r], |from|;
    assert from'[n] == r && forall i | 0 <= i < n :: from'[i] == from[i];
    forall i | 0 <= i < n
      ensures Merges(s, from', i) <==> Merges(s, from, i)
    {
    }
    assert Merges(s, from', n) <==>
      && from != [] && Continues(s[r.k].unit) && LeavesOpen(s[from[n - 1].k].unit)
      && FuStart(s, from[n - 1].k) != FuStart(s, r.k);
    var more := if Merges(s, from', n) then {FuStart(s, r.k)} else {};
    forall m
      ensures m in Merged(s, from') <==> m in Merged(s, from) + more
    {
      if m in Merged(s, from) {
        var i :| 0 <= i < n && Merges(s, from, i) && FuStart(s, from[i].k) == m;
        assert Merges(s, from', i);
      }
    }
  }

  /** A merged NAL unit was touched before. */
  lemma MergedIsTouched(s: seq<Sent>, from: seq<Rx>, m: nat)
    requires InStream(s, from) && m in Merged(s, from)
    ensures Touched(s, from, m)
  {
    var i :| 0 <= i < |from| && Merges(s, from, i) && FuStart(s, from[i].k) == m;
    assert PartOf(s, m, from[i].k);
  }

  /** A NAL unit that was touched before packet `r` of it leaves the last accepted packet inside it. */
  lemma {:induction false} TouchedBefore(s: seq<Sent>, from: seq<Rx>, r: Rx)
    requires Conforming(s) && InStream(s, from) && Rising(from) && Newer(from, r) && r.k < |s| && s[r.k].unit.Frag?
    requires Touched(s, from, FuStart(s, r.k))
    ensures LeavesOpen(s[from[|from| - 1].k].unit)
  {
    var m, n := FuStart(s, r.k), |from| - 1;
    var i :| 0 <= i < |from| && PartOf(s, m, from[i].k);
    assert m <= from[i].k <= from[n].k < r.k;
    PartsAreContiguous(s, from[n].k, r.k);
  }

  lemma Fewer(u: set<nat>, o: set<nat>)
    requires o <= u
    ensures |o| <= |u|
  {
    assert u == (u - o) + o;
  }

  lemma Minus(u: set<nat>, o: set<nat>)
    requires o <= u && |o| <= 1
    ensures |u - o| == |u| - |o|
  {
    assert u == (u - o) + o;
  }

  /** The packet starts no NAL unit that was touched before. */
  lemma FreshStart(s: seq<Sent>, from: seq<Rx>, r: Rx)
    requires InStream(s, from) && Newer(from, r) && r.k < |s|
    ensures r.k !in Broken(s, from) && r.k !in Merged(s, from)
  {
    if r.k in Merged(s, from) {
      MergedIsTouched(s, from, r.k);
    }
  }

  /** A packet that continues no fragmented NAL unit leaves all broken ones broken. */
  lemma {:induction false} BrokenAtBoundary(s: seq<Sent>, from: seq<Rx>, r: Rx)
    requires Conforming(s) && InStream(s, from) && Rising(from) && r.k < |s| && Newer(from, r) &&
             !Continues(s[r.k].unit)
    ensures var from' := from + [r];
            && InStream(s, from') && Rising(from') && OpenFu(s, from') <= Broken(s, from')
            && Broken(s, from') - OpenFu(s, from') == Broken(s, from)
            && (LeavesOpen(s[r.k].unit) ==> Open(s, from'))
  {
    hide Broken, Rising, Newer, Gathered, Conforming;
    ExtendReceived(s, from, r);
    BrokenSnoc(s, from, r);
    FreshStart(s, from, r);
  }

  /** ... and it comes after a gap if a fragmented NAL unit was open. */
  lemma {:induction false} GapAtBoundary(s: seq<Sent>, from: seq<Rx>, gap: nat, r: Rx)
    requires Conforming(s) && InStream(s, from) && r.k < |s| && GapFits(from, gap, r) && !Continues(s[r.k].unit)
    requires Open(s, from)
    ensures gap > 0
  {
    NextPart(s, from[|from| - 1].k);
  }

  /** A packet that continues no fragmented NAL unit: an open one before it is lost. */
  lemma {:induction false} CountedBoundary(s: seq<Sent>, a: Assembly, from: seq<Rx>, gap: nat, r: Rx, b: Assembly)
    requires Conforming(s) && InStream(s, from) && Counted(s, a, from) && r.k < |s| && GapFits(from, gap, r) &&
             Newer(from, r)
    requires !Continues(s[r.k].unit) && !b.orphan
    requires b.lostFragments == a.lostFragments + if gap > 0 && Open(s, from) then 1 else 0
    ensures InStream(s, from + [r]) && Counted(s, b, from + [r])
  {
    hide Broken, LostRuns, Rising, Newer, Gathered, Conforming, GapFits, FuStart, Continues;
    RunsAtBoundary(s, from, r);
    Minus(LostRuns(s, from), OpenFu(s, from));
    if Open(s, from) {
      GapAtBoundary(s, from, gap, r);
    } else {
      SameSet(Broken(s, from) - OpenFu(s, from), Broken(s, from));
    }
    assert |OpenFu(s, from)| == if Open(s, from) then 1 else 0;
    hide OpenFu, Open;
    assert (from + [r])[|from|] == r;
  }

  lemma {:induction false} RunsAtBoundary(s: seq<Sent>, from: seq<Rx>, r: Rx)
    requires Conforming(s) && InStream(s, from) && Rising(from) && r.k < |s| && Newer(from, r)
    requires !Continues(s[r.k].unit)
    ensures var from' := from + [r];
            && InStream(s, from') && Rising(from') && OpenFu(s, from') <= LostRuns(s, from')
            && Broken(s, from') - OpenFu(s, from') == Broken(s, from)
            && LostRuns(s, from') - OpenFu(s, from') == LostRuns(s, from)
            && (LeavesOpen(s[r.k].unit) ==> Open(s, from'))
  {
    hide Broken, Merged, Rising, Newer, Gathered, Conforming;
    BrokenAtBoundary(s, from, r);
    FreshStart(s, from, r);
    MergedSnoc(s, from, r);
    SameSet(LostRuns(s, from + [r]) - OpenFu(s, from + [r]), LostRuns(s, from));
  }

  /** A gathered fragment follows the open one. */
  lemma {:induction false} GatheredFollows(s: seq<Sent>, from: seq<Rx>, r: Rx)
    requires Conforming(s) && InStream(s, from) && Rising(from) && r.k < |s| && Newer(from, r)
    requires InStream(s, from + [r]) && Continues(s[r.k].unit) && Gathered(s, from + [r])
    ensures Open(s, from) && Rising(from + [r]) && Merged(s, from + [r]) == Merged(s, from)
    ensures LeavesOpen(s[r.k].unit) <==> Open(s, from + [r])
    ensures var m, u := FuStart(s, r.k), s[r.k].unit;
            && OpenFu(s, from) == {m} && OpenFu(s, from + [r]) == (if u.last then {} else {m})
            && Broken(s, from + [r]) == if u.last then Broken(s, from) - {m} else Broken(s, from) + {m}
  {
    hide Broken, Merged, Rising, Newer, Conforming;
    ExtendReceived(s, from, r);
    BrokenSnoc(s, from, r);
    MergedSnoc(s, from, r);
    ContinuationFollows(s, r.k);
  }

  lemma {:induction false} GatheredRuns(s: seq<Sent>, from: seq<Rx>, r: Rx)
    requires Conforming(s) && InStream(s, from) && Rising(from) && r.k < |s| && Newer(from, r)
    requires InStream(s, from + [r]) && Continues(s[r.k].unit) && Gathered(s, from + [r])
    requires OpenFu(s, from) <= LostRuns(s, from)
    ensures var from' := from + [r];
            && OpenFu(s, from') <= LostRuns(s, from')
            && Broken(s, from') - OpenFu(s, from') == Broken(s, from) - OpenFu(s, from)
            && LostRuns(s, from') - OpenFu(s, from') == LostRuns(s, from) - OpenFu(s, from)
  {
    GatheredFollows(s, from, r);
    hide Broken, Merged, Rising, Newer, Gathered, Conforming, FuStart, OpenFu, Open, Continues;
    GatheredSets(Broken(s, from), Merged(s, from), FuStart(s, r.k), s[r.k].unit.last);
  }

  /** A fragment that follows the open one. */
  lemma {:induction false} CountedGathered(s: seq<Sent>, a: Assembly, from: seq<Rx>, r: Rx, b: Assembly)
    requires Conforming(s) && InStream(s, from) && Counted(s, a, from) && r.k < |s| && Newer(from, r)
    requires InStream(s, from + [r]) && Continues(s[r.k].unit) && Gathered(s, from + [r])
    requires b.lostFragments == a.lostFragments && !b.orphan
    ensures Counted(s, b, from + [r])
  {
    GatheredFollows(s, from, r);
    GatheredRuns(s, from, r);
    hide Broken, LostRuns, Rising, Newer, Gathered, Conforming, FuStart, OpenFu, Open, Continues;
    assert (from + [r])[|from|] == r;
  }

  lemma GatheredSets(broken: set<nat>, merged: set<nat>, m: nat, last: bool)
    requires m in broken && m !in merged
    ensures var broken', open := if last then broken - {m} else broken + {m}, if last then {} else {m};
            && open <= broken' - merged && broken' - open == broken - {m}
            && broken' - merged - open == broken - merged - {m}
  {
  }

  /** A NAL unit whose fragment comes now was broken before if and only if the last accepted packet is one of it. */
  lemma {:induction false} BrokenBefore(s: seq<Sent>, from: seq<Rx>, r: Rx)
    requires Conforming(s) && InStream(s, from) && Rising(from) && Newer(from, r) && r.k < |s| && Continues(s[r.k].unit)
    ensures var m := FuStart(s, r.k);
            && (m in Broken(s, from) <==>
                from != [] && LeavesOpen(s[from[|from| - 1].k].unit) && FuStart(s, from[|from| - 1].k) == m)
            && (m in Merged(s, from) ==> m in Broken(s, from))
  {
    var m, n := FuStart(s, r.k), |from| - 1;
    assert PartOf(s, m, r.k) && !Has(from, r.k);
    if m in Merged(s, from) {
      MergedIsTouched(s, from, m);
    }
    if Touched(s, from, m) {
      TouchedBefore(s, from, r);
      var i :| 0 <= i < |from| && PartOf(s, m, from[i].k);
      assert m <= from[i].k <= from[n].k < r.k;
      PartsAreContiguous(s, from[n].k, r.k);
    } else if from != [] && LeavesOpen(s[from[n].k].unit) {
      assert !PartOf(s, m, from[n].k);
    }
  }

  /** The NAL unit that the last accepted packet leaves unfinished. */
  ghost function Within(s: seq<Sent>, from: seq<Rx>): Option<nat>
    requires InStream(s, from)
  {
    if from != [] && LeavesOpen(s[from[|from| - 1].k].unit) then Some(FuStart(s, from[|from| - 1].k)) else None
  }

  /** What a fragment that lost an earlier one of its NAL unit does to the broken and to the merged ones. */
  lemma {:induction false} OrphanFacts(s: seq<Sent>, from: seq<Rx>, r: Rx)
    requires Conforming(s) && InStream(s, from) && Rising(from) && r.k < |s| && Newer(from, r)
    requires InStream(s, from + [r]) && Continues(s[r.k].unit) && !Gathered(s, from + [r])
    ensures var m, within, from' := FuStart(s, r.k), Within(s, from), from + [r];
            && Rising(from') && OpenFu(s, from') == {}
            && Broken(s, from') == Broken(s, from) + {m}
            && (m in Broken(s, from) <==> within == Some(m)) && (m in Merged(s, from) ==> m in Broken(s, from))
            && Merged(s, from') ==
               (if within.Some? && within != Some(m) then Merged(s, from) + {m} else Merged(s, from))
            && OpenFu(s, from) == if Open(s, from) then {within.value} else {}
  {
    BrokenSnoc(s, from, r);
    BrokenBefore(s, from, r);
    MergedSnoc(s, from, r);
    hide Broken, Merged, Rising, Newer, Gathered, Conforming, Continues;
  }

  lemma {:induction false} OrphanRuns(s: seq<Sent>, from: seq<Rx>, r: Rx)
    requires Conforming(s) && InStream(s, from) && Rising(from) && r.k < |s| && Newer(from, r)
    requires InStream(s, from + [r]) && Continues(s[r.k].unit) && !Gathered(s, from + [r])
    requires OpenFu(s, from) <= LostRuns(s, from)
    ensures Rising(from + [r]) && !Open(s, from + [r]) && OpenFu(s, from + [r]) <= LostRuns(s, from + [r])
    ensures |LostRuns(s, from + [r]) - OpenFu(s, from + [r])| == |LostRuns(s, from) - OpenFu(s, from)| +
            if Open(s, from) || from == [] || !LeavesOpen(s[from[|from| - 1].k].unit) then 1 else 0
  {
    OrphanFacts(s, from, r);
    var m, within := FuStart(s, r.k), Within(s, from);
    var broken, merged := Broken(s, from), Merged(s, from);
    SameSet(LostRuns(s, from + [r]) - OpenFu(s, from + [r]), LostRuns(s, from + [r]));
    hide Broken, Merged, Rising, Newer, Gathered, Conforming, Continues, FuStart, OpenFu, Open;
    if Open(s, from) {
      assert within.value in OpenFu(s, from);
      OrphanAfterOpen(broken, merged, Merged(s, from + [r]), m, within.value);
    } else {
      OrphanAfterLoss(broken, merged, Merged(s, from + [r]), m, within.Some? && within != Some(m));
      SameSet(broken - merged, LostRuns(s, from) - OpenFu(s, from));
    }
  }

  lemma OrphanAfterOpen(broken: set<nat>, merged: set<nat>, merged': set<nat>, m: nat, last: nat)
    requires (m in broken <==> last == m) && last in broken && last !in merged
    requires merged' == if last == m then merged else merged + {m}
    ensures |broken + {m} - merged'| == |broken - merged - {last}| + 1
  {
    SameSet(broken + {m} - merged', broken - merged);
    OneLess(broken - merged, last);
  }

  lemma OrphanAfterLoss(broken: set<nat>, merged: set<nat>, merged': set<nat>, m: nat, merges: bool)
    requires (merges ==> m !in broken) && (m in merged ==> m in broken)
    requires merged' == if merges then merged + {m} else merged
    ensures |broken + {m} - merged'| == |broken - merged| + if merges || m in broken then 0 else 1
  {
    if merges || m in broken {
      SameSet(broken + {m} - merged', broken - merged);
    } else {
      SameSet(broken + {m} - merged - {m}, broken - merged);
      OneLess(broken + {m} - merged, m);
    }
  }

  lemma SameSet(x: set<nat>, y: set<nat>)
    requires forall e :: e in x <==> e in y
    ensures x == y
  {
  }

  lemma OneLess(x: set<nat>, e: nat)
    requires e in x
    ensures |x| == |x - {e}| + 1
  {
    assert x == x - {e} + {e};
  }

  /** A fragment whose NAL unit has already lost an earlier one. */
  lemma {:induction false} CountedOrphan(s: seq<Sent>, a: Assembly, from: seq<Rx>, r: Rx, b: Assembly)
    requires Conforming(s) && InStream(s, from) && Counted(s, a, from) && r.k < |s| && Newer(from, r)
    requires InStream(s, from + [r]) && Continues(s[r.k].unit) && !Gathered(s, from + [r])
    requires a.orphan ==> a.lostFragments > 0
    requires b.lostFragments == a.lostFragments + if Open(s, from) || !a.orphan then 1 else 0
    requires LeavesOpen(s[r.k].unit) <==> b.orphan
    ensures Counted(s, b, from + [r])
  {
    OrphanRuns(s, from, r);
    hide Broken, LostRuns, Rising, Newer, Gathered, Conforming, FuStart, Continues, OpenFu, Open;
    assert (from + [r])[|from|] == r;
  }

  lemma OpenIsNoOrphan(s: seq<Sent>, a: Assembly, from: seq<Rx>)
    requires InStream(s, from) && Counted(s, a, from) && Open(s, from)
    ensures !a.orphan
  {
  }

  lemma CountedExtend(cap: nat, s: seq<Sent>, a: Assembly, from: seq<Rx>, gap: nat, r: Rx)
    requires Conforming(s) && Assembles(s, a, from) && Counted(s, a, from) && r.k < |s| && GapFits(from, gap, r) &&
             Newer(from, r)
    ensures InStream(s, from + [r]) && Counted(s, a.Take(cap, gap, Encode(s[r.k].unit), r.at), from + [r])
  {
    hide Assembly.Take, Encode, Counted, Newer;
    var u, b := s[r.k].unit, a.Take(cap, gap, Encode(s[r.k].unit), r.at);
    UnitAt(s, r.k);
    GapBody(s, a, from, gap, r);
    if Open(s, from) {
      OpenIsNoOrphan(s, a, from);
    }
    TakeFragments(cap, a, gap, u, r.at);
    ExtendReceived(s, from, r);
    if !Continues(u) {
      CountedBoundary(s, a, from, gap, r, b);
    } else if Gathered(s, from + [r]) {
      CountedGathered(s, a, from, r, b);
    } else {
      CountedOrphan(s, a, from, r, b);
    }
  }

  // ----- every run -----

  /** What an event's count says: it is the number of the runs of losses, and positive exactly when there is a loss. */
  ghost predicate FragmentsCounted(s: seq<Sent>, t: Tagged) {
    && InStream(s, t.from)
    && t.ev.lostFragments == |LostRuns(s, t.from)| <= |Broken(s, t.from)|
    && (t.ev.lostFragments > 0 <==> Broken(s, t.from) != {})
  }

  lemma {:induction false} CountedClose(s: seq<Sent>, a: Assembly, from: seq<Rx>, byMarker: bool, tail: nat)
    requires Conforming(s) && Assembles(s, a, from) && Counted(s, a, from)
    ensures FragmentsCounted(s, Tagged(a.(lost := a.lost + tail).Close(byMarker), from))
  {
    hide Broken, Merged, Conforming, Open;
    var runs := LostRuns(s, from);
    Minus(runs, OpenFu(s, from));
    Fewer(Broken(s, from), runs);
  }

  /** The count is right wherever the packets of an access unit were accepted in the order sent. */
  ghost predicate Accounted(s: seq<Sent>, tr: Trace)
    requires Conforming(s)
  {
    && (tr.st.asm.Some? && Rising(tr.from) ==> InStream(s, tr.from) && Counted(s, tr.st.asm.value, tr.from))
    && (forall i | 0 <= i < |tr.log| :: Rising(tr.log[i].from) ==> FragmentsCounted(s, tr.log[i]))
  }

  lemma RisingSnoc(from: seq<Rx>, r: Rx)
    ensures Rising(from + [r]) <==> Rising(from) && Newer(from, r)
  {
    var from' := from + [r];
    assert from'[|from|] == r && forall i | 0 <= i < |from| :: from'[i] == from[i];
  }

  lemma {:induction false} JoinedCounted(cap: nat, s: seq<Sent>, s0: nat, asm: Option<Assembly>, from: seq<Rx>, r: Rx,
                                         gap: nat)
    requires Conforming(s) && r.k < |s|
    requires asm.Some? && asm.value.ts == s[r.k].ts ==>
               Assembles(s, asm.value, from) && Counted(s, asm.value, from) && GapFits(from, gap, r) && Newer(from, r)
    ensures var from' := if asm.Some? && asm.value.ts == s[r.k].ts then from + [r] else [r];
            InStream(s, from') && Counted(s, Joined(cap, asm, Wire(s, s0, r.k), r.at, gap), from')
  {
    hide Assembly.Take, Encode;
    if asm.Some? && asm.value.ts == s[r.k].ts {
      CountedExtend(cap, s, asm.value, from, gap, r);
    } else {
      assert [] + [r] == [r];
      CountedExtend(cap, s, Fresh(s[r.k].ts, r.at), [], if asm.Some? then 0 else gap, r);
    }
  }

  lemma {:induction false} AdmitAccounted(cap: nat, s: seq<Sent>, s0: nat, tr: Trace, r: Rx)
    requires Conforming(s) && Distinct(s) && Consistent(s, s0, tr) && Accounted(s, tr) && r.k < |s|
    ensures IsUnit(s[r.k].unit)
    ensures var p := Wire(s, s0, r.k);
            var asm, gap := Base(tr.st, p), GapOf(tr.st, p);
            var a, from' := Joined(cap, asm, p, r.at, gap), JoinedFrom(asm, tr.from, p, r);
            Rising(from') ==>
              && InStream(s, from') && Counted(s, a, from')
              && FragmentsCounted(s, Tagged(a.Close(p.marker), from'))
  {
    hide Conforming, Distinct, Joined, Assembles, Truthful, Counted, FragmentsCounted, Assembly.Close, Rising, Newer,
         IsUnit, Encode, Progress, Base, GapOf;
    UnitAt(s, r.k);
    var p, st := Wire(s, s0, r.k), tr.st;
    var asm, gap := Base(st, p), GapOf(st, p);
    var from' := JoinedFrom(asm, tr.from, p, r);
    BaseIsOpen(st, p);
    if Rising(from') {
      if asm.Some? && asm.value.ts == p.ts {
        GapOfProgress(s, s0, tr, r);
        RisingSnoc(tr.from, r);
      }
      JoinedCounted(cap, s, s0, asm, tr.from, r, gap);
      JoinedAssembles(cap, s, s0, asm, tr.from, r, gap);
      var a := Joined(cap, asm, p, r.at, gap);
      CountedClose(s, a, from', p.marker, 0);
      assert a.(lost := a.lost + 0) == a;
    }
  }

  /** The access unit that was open may end, with or without a lost tail. */
  lemma {:induction false} EndedAccounted(s: seq<Sent>, s0: nat, tr: Trace, p: Packet)
    requires Conforming(s) && Consistent(s, s0, tr) && Accounted(s, tr) && Rising(tr.from)
    ensures forall e | e in EndedBefore(Base(tr.st, p), p.ts, GapOf(tr.st, p)) || e in Ending(tr.st.asm) ::
              FragmentsCounted(s, Tagged(e, tr.from))
  {
    hide Conforming, Assembles, Truthful, Counted, FragmentsCounted, Assembly.Close, Rising;
    if tr.st.asm.Some? {
      var a := tr.st.asm.value;
      CountedClose(s, a, tr.from, false, 0);
      CountedClose(s, a, tr.from, false, GapOf(tr.st, p));
      assert a.(lost := a.lost + 0) == a;
    }
  }

  lemma {:induction false} ObserveAccounted(cap: nat, s: seq<Sent>, s0: nat, tr: Trace, r: Rx)
    requires Conforming(s) && Distinct(s) && Consistent(s, s0, tr) && Accounted(s, tr) && r.k < |s|
    ensures Accounted(s, Observe(cap, s, s0, tr, r))
  {
    hide Conforming, Distinct, Consistent, Push, Joined, Counted, FragmentsCounted, Assembly.Close, EndedBefore,
         Ending, Wire, Base, Rising;
    AdmitAccounted(cap, s, s0, tr, r);
    var p := Wire(s, s0, r.k);
    PushCases(cap, tr.st, p, r.at);
    if Rising(tr.from) {
      EndedAccounted(s, s0, tr, p);
    }
  }

  lemma {:induction false} RunAccounted(cap: nat, s: seq<Sent>, s0: nat, rx: seq<Rx>)
    requires Conforming(s) && Distinct(s) && InStream(s, rx)
    ensures Accounted(s, ObserveAll(cap, s, s0, rx))
  {
    hide Conforming, Distinct, Observe, Consistent;
    if rx != [] {
      var n := |rx| - 1;
      RunAccounted(cap, s, s0, rx[..n]);
      RunConsistent(cap, s, s0, rx[..n]);
      ObserveAccounted(cap, s, s0, ObserveAll(cap, s, s0, rx[..n]), rx[n]);
    }
  }

  /** Some accepted fragment belongs to a NAL unit of which another fragment was not accepted. */
  ghost predicate SomeBroken(s: seq<Sent>, from: seq<Rx>)
    requires InStream(s, from)
  {
    exists i | 0 <= i < |from| :: s[from[i].k].unit.Frag? && Incomplete(s, from, FuStart(s, from[i].k))
  }

  /**
   Fragment accounting: in every run, for every event whose packets were accepted in the order sent, `lostFragments` is
   the number of fragmented NAL units of which some fragments were accepted into the access unit but not all; those
   whose start was not accepted and that came right after a fragment of an unfinished NAL unit count as one with that.
   So it is positive exactly when some accepted fragment belongs to such a NAL unit.
   */
  lemma {:induction false} FragmentsAreCounted(cap: nat, s: seq<Sent>, s0: nat, rx: seq<Rx>)
    requires Conforming(s) && Distinct(s) && InStream(s, rx)
    ensures forall t | t in ObserveAll(cap, s, s0, rx).log && Rising(t.from) ::
              && InStream(s, t.from)
              && t.ev.lostFragments == |LostRuns(s, t.from)| <= |Broken(s, t.from)|
              && (t.ev.lostFragments > 0 <==> SomeBroken(s, t.from))
  {
    hide Conforming, Distinct, SomeBroken, Rising;
    RunAccounted(cap, s, s0, rx);
    forall t | t in ObserveAll(cap, s, s0, rx).log && FragmentsCounted(s, t)
      ensures Broken(s, t.from) != {} <==> SomeBroken(s, t.from)
    {
      BrokenIsReal(s, t.from);
    }
  }

  lemma {:induction false} BrokenIsReal(s: seq<Sent>, from: seq<Rx>)
    requires InStream(s, from)
    ensures Broken(s, from) != {} <==> SomeBroken(s, from)
  {
    hide Incomplete;
    if i :| 0 <= i < |from| && s[from[i].k].unit.Frag? && Incomplete(s, from, FuStart(s, from[i].k)) {
      assert PartOf(s, FuStart(s, from[i].k), from[i].k);
      assert FuStart(s, from[i].k) in Broken(s, from);
    }
  }

  // ----- where every event is in the order sent -----

  /**
   Within one timestamp, no earlier packet looks newer than a later one; after a marker it does not matter, because the
   access unit has ended.
   */
  ghost predicate Ordered(s: seq<Sent>) {
    forall j, k | 0 <= j < k < |s| && s[j].ts == s[k].ts && !s[k].marker :: (j - k) % 0x1_0000 > MAX_DROPOUT
  }

  /** Packets of one timestamp are less than `n` packets apart. */
  ghost predicate Span(s: seq<Sent>, n: int) {
    forall j, k | 0 <= j < k < |s| && s[j].ts == s[k].ts :: k - j < n
  }

  /** The longest span: packet 0 and the last packet before the marker are then one more than 3000 apart modulo 2^16. */
  const MAX_SPAN := 0x1_0000 - MAX_DROPOUT + 1

  lemma SpanIsDistinct(s: seq<Sent>)
    requires Span(s, MAX_SPAN)
    ensures Distinct(s)
  {
    forall j, k | 0 <= j < k < |s| && s[j].ts == s[k].ts
      ensures (k - j) % 0x1_0000 != 0
    {
      RemainderIs(k - j, 0x1_0000, 0, k - j);
    }
  }

  lemma SpanIsOrdered(s: seq<Sent>)
    requires Conforming(s) && Span(s, MAX_SPAN)
    ensures Ordered(s)
  {
    hide Conforming;
    forall j: nat, k: nat | j < k < |s| && s[j].ts == s[k].ts && !s[k].marker
      ensures (j - k) % 0x1_0000 > MAX_DROPOUT
    {
      MoreFollows(s, k);
      Adjacent(s, k + 1);
      assert k + 1 - j < MAX_SPAN;
      RemainderIs(j - k, 0x1_0000, -1, j - k + 0x1_0000);
    }
  }

  lemma MoreFollows(s: seq<Sent>, k: nat)
    requires Conforming(s) && k < |s| && !s[k].marker
    ensures k + 1 < |s|
  {
  }

  lemma {:induction false} StepMeansNewer(s: seq<Sent>, s0: nat, j: nat, k: nat)
    requires Ordered(s) && j < |s| && k < |s| && s[j].ts == s[k].ts && !s[j].marker
    requires 0 < SignedStep((s0 + k) % 0x1_0000, (s0 + j) % 0x1_0000) <= MAX_DROPOUT
    ensures j < k
  {
    StepRemainder(s0 + k, s0 + j);
  }

  /** The signed step of two positions, as a remainder of their difference. */
  lemma StepRemainder(u: nat, v: nat)
    ensures var d := SignedStep(u % 0x1_0000, v % 0x1_0000); 0 < d ==> (u - v) % 0x1_0000 == d
  {
    var d := SignedStep(u % 0x1_0000, v % 0x1_0000);
    var q := (u - v - d) / 0x1_0000;
    if d > 0 {
      assert u - v == q * 0x1_0000 + d;
      RemainderIs(u - v, 0x1_0000, q, d);
    }
  }

  /** All access units so far were accepted in the order sent. */
  ghost predicate AllRising(tr: Trace) {
    (tr.st.asm.Some? ==> Rising(tr.from)) && forall i | 0 <= i < |tr.log| :: Rising(tr.log[i].from)
  }

  lemma {:induction false} JoinsRising(s: seq<Sent>, s0: nat, tr: Trace, r: Rx)
    requires Conforming(s) && Distinct(s) && Ordered(s) && Consistent(s, s0, tr) && AllRising(tr) && r.k < |s|
    ensures IsUnit(s[r.k].unit)
    ensures var p := Wire(s, s0, r.k); Rising(JoinedFrom(Base(tr.st, p), tr.from, p, r))
  {
    hide Conforming, Truthful;
    UnitAt(s, r.k);
    var p := Wire(s, s0, r.k);
    if Base(tr.st, p).Some? && tr.st.asm.value.ts == p.ts {
      var j := tr.from[|tr.from| - 1].k;
      assert s[j].ts == s[r.k].ts;
      StepMeansNewer(s, s0, j, r.k);
      RisingSnoc(tr.from, r);
    }
  }

  lemma {:induction false} ObserveRising(cap: nat, s: seq<Sent>, s0: nat, tr: Trace, r: Rx)
    requires Conforming(s) && Distinct(s) && Ordered(s) && Consistent(s, s0, tr) && AllRising(tr) && r.k < |s|
    ensures AllRising(Observe(cap, s, s0, tr, r))
  {
    hide Push, Joined, Assembly.Close, EndedBefore, Ending, Base, Rising, Conforming, Ordered;
    JoinsRising(s, s0, tr, r);
    PushCases(cap, tr.st, Wire(s, s0, r.k), r.at);
    EndingSome(tr, Wire(s, s0, r.k));
  }

  lemma EndingSome(tr: Trace, p: Packet)
    ensures tr.st.asm.None? ==> Ending(tr.st.asm) == [] && EndedBefore(Base(tr.st, p), p.ts, GapOf(tr.st, p)) == []
  {
  }

  lemma {:induction false} RunRising(cap: nat, s: seq<Sent>, s0: nat, rx: seq<Rx>)
    requires Conforming(s) && Distinct(s) && Ordered(s) && InStream(s, rx)
    ensures AllRising(ObserveAll(cap, s, s0, rx))
  {
    hide Conforming, Ordered, Observe, Consistent;
    if rx != [] {
      var n := |rx| - 1;
      RunRising(cap, s, s0, rx[..n]);
      RunConsistent(cap, s, s0, rx[..n]);
      ObserveRising(cap, s, s0, ObserveAll(cap, s, s0, rx[..n]), rx[n]);
    }
  }

  /** Every event of a run is counted right. */
  ghost predicate CountsFragments(cap: nat, s: seq<Sent>, s0: nat, rx: seq<Rx>)
    requires Conforming(s) && InStream(s, rx)
  {
    forall t | t in ObserveAll(cap, s, s0, rx).log ::
      && InStream(s, t.from)
      && t.ev.lostFragments == |LostRuns(s, t.from)| <= |Broken(s, t.from)|
      && (t.ev.lostFragments > 0 <==> SomeBroken(s, t.from))
  }

  /**
   While packets of one timestamp are at most 62536 packets apart, the accounting holds for every event of every run.
   */
  lemma {:induction false} EveryEventIsCounted(cap: nat, s: seq<Sent>, s0: nat, rx: seq<Rx>)
    requires Conforming(s) && Span(s, MAX_SPAN) && InStream(s, rx)
    ensures CountsFragments(cap, s, s0, rx)
  {
    hide Conforming, Distinct, Ordered, Span, SomeBroken, Rising;
    SpanIsDistinct(s);
    SpanIsOrdered(s);
    FragmentsAreCounted(cap, s, s0, rx);
    RunRising(cap, s, s0, rx);
  }
}
