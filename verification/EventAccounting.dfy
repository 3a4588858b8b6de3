/**
 Every field of every event, exactly, for any packets at all: which packets it was made from, what is charged to it as
 lost, and when it is damaged or complete.
 */
module EventAccounting {
  import opened Common
  import opened DepackSpec
  import opened LossAccounting

  // ----- payloads -----

  /** The aggregation units from offset `off` on fill the payload. */
  predicate StapOk(p: Bytes, off: nat)
    decreases |p| - off
  {
    || off == |p|
    || (off + 2 <= |p|
        && var sz := Be16(p[off], p[off + 1]);
        0 < sz && off + 2 + sz <= |p| && StapOk(p, off + 2 + sz))
  }

  /** A type that the non-interleaved mode never sends, or a malformed STAP-A or FU-A; an empty payload is neither. */
  predicate Malformed(p: Bytes) {
    |p| > 0
    && var naluType := p[0] % 32;
    if naluType == 24 then !StapOk(p, 1) else if naluType == 28 then |p| < 2 else !(1 <= naluType <= 23)
  }

  /** One of the aggregation units from offset `off` on, up to a malformed one, is a slice of an IDR picture. */
  predicate StapHasIdr(p: Bytes, off: nat)
    decreases |p| - off
  {
    && off + 2 <= |p|
    && var sz := Be16(p[off], p[off + 1]);
    0 < sz && off + 2 + sz <= |p| && (p[off + 2] % 32 == 5 || StapHasIdr(p, off + 2 + sz))
  }

  /** The packet holds or begins a NAL unit of type 5. */
  predicate HasIdr(p: Bytes) {
    && |p| > 0
    && var naluType := p[0] % 32;
    || naluType == 5
    || (naluType == 24 && StapHasIdr(p, 1))
    || (naluType == 28 && |p| >= 2 && p[1] / 128 % 2 == 1 && p[1] % 32 == 5)
  }

  /** How many bytes the NAL units of an access unit take, and those of an open FU-A, when there is room for all. */
  datatype Sizes = Sizes(whole: nat, open: Option<nat>) {
    function Total(): nat {
      whole + if open.Some? then open.value else 0
    }

    function Add(n: nat): Sizes {
      if open.Some? then this.(open := Some(open.value + n)) else this.(whole := whole + n)
    }

    function Close(): Sizes {
      Sizes(Total(), None)
    }
  }

  /** A start code and the NAL unit for every aggregation unit. */
  function StapSize(p: Bytes, off: nat): nat
    decreases |p| - off
  {
    if off + 2 > |p| then 0
    else
      var sz := Be16(p[off], p[off + 1]);
      if sz <= 0 || off + 2 + sz > |p| then 0 else 4 + sz + StapSize(p, off + 2 + sz)
  }

  /** The sizes after one more packet; a gap before it costs the open FU-A. */
  function Grow(z: Sizes, gap: nat, p: Bytes): Sizes {
    var y := if gap > 0 then z.(open := None) else z;
    if |p| == 0 then y
    else
      var naluType := p[0] % 32;
      if 1 <= naluType <= 23 then y.Add(4 + |p|)
      else if naluType == 24 then y.Add(StapSize(p, 1))
      else if naluType == 28 && |p| >= 2 then
        var x := if p[1] / 128 % 2 == 1 then y.(open := Some(5)) else y;
        if x.open.None? then x
        else if p[1] / 64 % 2 == 1 then x.Add(|p| - 2).Close()
        else x.Add(|p| - 2)
      else y
  }

  ghost predicate Sized(b: Body, z: Sizes) {
    && |b.whole| == z.whole
    && if z.open.Some? then b.partial.Some? && |b.partial.value| == z.open.value else b.partial.None?
  }

  lemma AppendSized(b: Body, z: Sizes, cap: nat, bs: Bytes)
    requires Sized(b, z) && !b.damaged
    ensures var c := b.Append(cap, bs);
            && (c.damaged <==> z.Total() + |bs| > cap)
            && (!c.damaged ==> Sized(c, z.Add(|bs|)))
  {
  }

  lemma AppendStaysDamaged(b: Body, cap: nat, bs: Bytes)
    ensures b.damaged ==> b.Append(cap, bs).damaged
  {
  }

  lemma AppendNalSized(b: Body, z: Sizes, cap: nat, nal: Bytes)
    requires Sized(b, z) && !b.damaged
    ensures var c := b.AppendNal(cap, nal);
            && (c.damaged <==> z.Total() + 4 + |nal| > cap)
            && (!c.damaged ==> Sized(c, z.Add(4 + |nal|)))
  {
    hide Body.Append;
    AppendSized(b, z, cap, START_CODE);
    var c := b.Append(cap, START_CODE);
    AppendStaysDamaged(c, cap, nal);
    if !c.damaged {
      AppendSized(c, z.Add(4), cap, nal);
    }
  }

  lemma {:induction false} StapStaysDamaged(a: Assembly, cap: nat, p: Bytes, off: nat)
    requires a.body.damaged
    ensures a.StapFrom(cap, p, off).body.damaged
    decreases |p| - off
  {
    if off + 2 <= |p| {
      var sz := Be16(p[off], p[off + 1]);
      if 0 < sz <= |p| - off - 2 {
        StapStaysDamaged(a.AppendNal(cap, p[off + 2..off + 2 + sz]), cap, p, off + 2 + sz);
      }
    }
  }

  lemma {:induction false} StapSized(a: Assembly, z: Sizes, cap: nat, p: Bytes, off: nat)
    requires Sized(a.body, z) && !a.body.damaged && off <= |p|
    ensures var b := a.StapFrom(cap, p, off).body;
            && (b.damaged <==> !StapOk(p, off) || (off < |p| && z.Total() + StapSize(p, off) > cap))
            && (!b.damaged ==> Sized(b, z.Add(StapSize(p, off))))
    decreases |p| - off
  {
    hide Body.AppendNal;
    if off + 2 <= |p| {
      var sz := Be16(p[off], p[off + 1]);
      if 0 < sz <= |p| - off - 2 {
        var nal := p[off + 2..off + 2 + sz];
        var c := a.AppendNal(cap, nal);
        AppendNalSized(a.body, z, cap, nal);
        if c.body.damaged {
          StapStaysDamaged(c, cap, p, off + 2 + sz);
        } else {
          StapSized(c, z.Add(4 + sz), cap, p, off + 2 + sz);
        }
      }
    }
  }

  lemma BeginFuSized(b: Body, z: Sizes, cap: nat, nalHeader: byte)
    requires Sized(b, z) && !b.damaged
    ensures var c := b.BeginFu(cap, nalHeader);
            && (c.damaged <==> z.whole + 5 > cap)
            && (!c.damaged ==> Sized(c, z.(open := Some(5))))
  {
    hide Body.Append;
    var b0 := b.(partial := Some([]));
    AppendSized(b0, z.(open := Some(0)), cap, START_CODE);
    var c := b0.Append(cap, START_CODE);
    AppendStaysDamaged(c, cap, [nalHeader]);
    if !c.damaged {
      AppendSized(c, z.(open := Some(4)), cap, [nalHeader]);
    }
  }

  lemma ContinueFuSized(a: Assembly, z: Sizes, cap: nat, fragment: Bytes, end: bool)
    requires Sized(a.body, z) && !a.body.damaged && z.Total() <= cap
    ensures var b := a.ContinueFu(cap, fragment, end).body;
            var y := if z.open.None? then z else if end then z.Add(|fragment|).Close() else z.Add(|fragment|);
            && (b.damaged <==> y.Total() > cap)
            && (!b.damaged ==> Sized(b, y))
  {
    hide Body.Append;
    AppendSized(a.body, z, cap, fragment);
  }

  lemma FuASized(a: Assembly, z: Sizes, cap: nat, p: Bytes)
    requires Sized(a.body, z) && !a.body.damaged && z.Total() <= cap && |p| >= 2 && p[0] % 32 == 28
    ensures var b, y := a.FuA(cap, p).body, Grow(z, 0, p);
            && (b.damaged <==> y.Total() > cap)
            && (!b.damaged ==> Sized(b, y))
  {
    hide Body.Append, Body.BeginFu, Sized, Assembly.ContinueFu;
    if p[1] / 128 % 2 == 1 {
      var header := p[0] - p[0] % 32 + p[1] % 32;
      var c, y := a.BeginFu(cap, header), z.(open := Some(5));
      BeginFuSized(a.body, z, cap, header);
      if c.body.damaged {
        ContinueStaysDamaged(c, cap, p[2..], p[1] / 64 % 2 == 1);
      } else {
        ContinueFuSized(c, y, cap, p[2..], p[1] / 64 % 2 == 1);
      }
    } else {
      ContinueFuSized(a, z, cap, p[2..], p[1] / 64 % 2 == 1);
    }
  }

  lemma ContinueStaysDamaged(a: Assembly, cap: nat, fragment: Bytes, end: bool)
    requires a.body.damaged
    ensures a.ContinueFu(cap, fragment, end).body.damaged
  {
  }

  lemma PayloadSized(a: Assembly, z: Sizes, cap: nat, p: Bytes)
    requires Sized(a.body, z) && !a.body.damaged && z.Total() <= cap
    ensures var b, y := a.Payload(cap, p).body, Grow(z, 0, p);
            && (b.damaged <==> Malformed(p) || y.Total() > cap)
            && (!b.damaged ==> Sized(b, y))
  {
    hide Body.AppendNal, Sized, Assembly.FuA, Assembly.StapFrom, StapOk, StapSize;
    if |p| > 0 {
      var naluType := p[0] % 32;
      if 1 <= naluType <= 23 {
        AppendNalSized(a.body, z, cap, p);
      } else if naluType == 24 {
        StapSized(a.(orphan := false), z, cap, p, 1);
        StapEnds(p);
      } else if naluType == 28 && |p| >= 2 {
        FuASized(a, z, cap, p);
      }
    }
  }

  lemma {:induction false} StapEnds(p: Bytes)
    ensures |p| == 1 ==> StapOk(p, 1) && StapSize(p, 1) == 0
  {
  }

  lemma PayloadStaysDamaged(a: Assembly, cap: nat, p: Bytes)
    requires a.body.damaged
    ensures a.Payload(cap, p).body.damaged
  {
    hide Assembly.StapFrom;
    StapStaysDamaged(a.(orphan := false), cap, p, 1);
  }

  /** One packet damages an access unit exactly when it is malformed, or when something of it does not fit. */
  lemma TakeSized(a: Assembly, z: Sizes, cap: nat, gap: nat, p: Bytes, at: int)
    requires Sized(a.body, z) && !a.body.damaged && z.Total() <= cap
    ensures var b, y := a.Take(cap, gap, p, at).body, Grow(z, gap, p);
            && (b.damaged <==> Malformed(p) || y.Total() > cap)
            && (!b.damaged ==> Sized(b, y))
  {
    hide Assembly.Payload, Malformed;
    var y := if gap > 0 then z.(open := None) else z;
    var g := a.Gap(gap);
    assert Grow(z, gap, p) == Grow(y, 0, p);
    PayloadSized(g.(packets := g.packets + 1, lastArrival := at), y, cap, p);
  }

  lemma TakeStaysDamaged(a: Assembly, cap: nat, gap: nat, p: Bytes, at: int)
    requires a.body.damaged
    ensures a.Take(cap, gap, p, at).body.damaged
  {
    hide Assembly.Payload;
    var g := a.Gap(gap);
    PayloadStaysDamaged(g.(packets := g.packets + 1, lastArrival := at), cap, p);
  }

  // ----- runs -----

  /** An accepted packet; `gap` packets are missing between it and the one accepted before, unless it made a reset. */
  datatype Accepted = Accepted(p: Packet, at: int, gap: nat, reset: bool)

  /** An event, and the accepted packets `lo..hi` that it was made from. */
  datatype Ended = Ended(ev: Event, lo: nat, hi: nat)

  datatype Trace = Trace(st: State, acc: seq<Accepted>, start: nat, log: seq<Ended>)

  const NOTHING := Trace(INITIAL, [], 0, [])

  function Range(evs: seq<Event>, lo: nat, hi: nat): seq<Ended> {
    seq(|evs|, i requires 0 <= i < |evs| => Ended(evs[i], lo, hi))
  }

  function Next(cap: nat, tr: Trace, a: Arrival): Trace {
    var o := Push(cap, tr.st, a.p, a.at);
    if !o.accepted then tr.(st := o.st)
    else
      var n := |tr.acc|;
      var acc := tr.acc + [Accepted(a.p, a.at, GapOf(tr.st, a.p), !Progress(tr.st, a.p))];
      var start := if o.opens then n else tr.start;
      Trace(o.st, acc, start, tr.log + Range(o.ended, tr.start, n) + Range(o.own, start, n + 1))
  }

  /** Any packets, of any origin. */
  function RunAll(cap: nat, ps: seq<Arrival>): Trace {
    if ps == [] then NOTHING else Next(cap, RunAll(cap, ps[..|ps| - 1]), ps[|ps| - 1])
  }

  // ----- what an event must say -----

  /** Packet `i` is in the same access unit as the packet accepted before it. */
  predicate SameUnit(acc: seq<Accepted>, i: nat)
    requires 0 < i < |acc|
  {
    !acc[i - 1].p.marker && !acc[i].reset && acc[i].p.ts == acc[i - 1].p.ts
  }

  /** The accepted packets `lo..hi` begin an access unit and stay in it. */
  ghost predicate Begins(acc: seq<Accepted>, lo: nat, hi: nat) {
    && lo < hi <= |acc|
    && (lo > 0 ==> !SameUnit(acc, lo))
    && (forall i | lo < i < hi :: SameUnit(acc, i))
  }

  /** ... and end it: by the marker, by a new timestamp, or by a sequence reset. */
  ghost predicate IsUnit(acc: seq<Accepted>, lo: nat, hi: nat) {
    Begins(acc, lo, hi) && (acc[hi - 1].p.marker || (hi < |acc| && !SameUnit(acc, hi)))
  }

  /** The gaps before the packets `lo..hi`. */
  function Gaps(acc: seq<Accepted>, lo: nat, hi: nat): nat
    requires lo <= hi <= |acc|
  {
    if lo == hi then 0 else Gaps(acc, lo, hi - 1) + acc[hi - 1].gap
  }

  /** A gap between access units is the head of the second if the marker of the first was seen. */
  function HeadGap(acc: seq<Accepted>, lo: nat): nat
    requires lo < |acc|
  {
    if lo > 0 && acc[lo - 1].p.marker then acc[lo].gap else 0
  }

  /** ... and otherwise the tail of the first. */
  function TailGap(acc: seq<Accepted>, hi: nat): nat
    requires 0 < hi <= |acc|
  {
    if acc[hi - 1].p.marker || hi == |acc| then 0 else acc[hi].gap
  }

  function SizesOf(xs: seq<Accepted>): Sizes {
    if xs == [] then Sizes(0, None)
    else
      var n := |xs| - 1;
      Grow(SizesOf(xs[..n]), if n == 0 then 0 else xs[n].gap, xs[n].p.payload)
  }

  /** Packet `i` is malformed, or the NAL units so far do not fit the buffer. */
  ghost predicate Harms(cap: nat, xs: seq<Accepted>, i: nat)
    requires i < |xs|
  {
    Malformed(xs[i].p.payload) || SizesOf(xs[..i + 1]).Total() > cap
  }

  ghost predicate Damaged(cap: nat, xs: seq<Accepted>) {
    exists i | 0 <= i < |xs| :: Harms(cap, xs, i)
  }

  ghost predicate SomeIdr(xs: seq<Accepted>) {
    exists i | 0 <= i < |xs| :: HasIdr(xs[i].p.payload)
  }

  ghost predicate Exact(cap: nat, acc: seq<Accepted>, e: Ended) {
    && IsUnit(acc, e.lo, e.hi)
    && e.ev.ts == acc[e.lo].p.ts && e.ev.packets == e.hi - e.lo
    && e.ev.firstArrival == acc[e.lo].at && e.ev.lastArrival == acc[e.hi - 1].at
    && e.ev.lost == HeadGap(acc, e.lo) + Gaps(acc, e.lo + 1, e.hi) + TailGap(acc, e.hi)
    && (e.ev.damaged <==> Damaged(cap, acc[e.lo..e.hi]))
    && (e.ev.idr <==> SomeIdr(acc[e.lo..e.hi]))
    && (e.ev.complete <==>
          acc[e.hi - 1].p.marker && e.ev.lost == 0 && e.ev.lostFragments == 0 && !e.ev.damaged && e.ev.data != [])
  }

  /** The events are one after the other, and leave out no accepted packet before `end`. */
  ghost predicate Tile(log: seq<Ended>, end: nat) {
    if log == [] then end == 0
    else log[|log| - 1].hi == end && log[|log| - 1].lo < end && Tile(log[..|log| - 1], log[|log| - 1].lo)
  }

  // ----- the invariant -----

  /** The assembly `a` is what the accepted packets from `lo` on make of it. */
  ghost predicate Made(cap: nat, acc: seq<Accepted>, lo: nat, a: Assembly) {
    && Begins(acc, lo, |acc|)
    && a.ts == acc[lo].p.ts == acc[|acc| - 1].p.ts && a.packets == |acc| - lo
    && a.firstArrival == acc[lo].at && a.lastArrival == acc[|acc| - 1].at
    && a.lost == HeadGap(acc, lo) + Gaps(acc, lo + 1, |acc|)
    && (a.body.damaged <==> Damaged(cap, acc[lo..])) && (a.idr <==> SomeIdr(acc[lo..]))
    && (!a.body.damaged ==> Sized(a.body, SizesOf(acc[lo..])) && SizesOf(acc[lo..]).Total() <= cap)
  }

  ghost predicate Inv(cap: nat, tr: Trace) {
    && (tr.st.asm.Some? ==>
          Made(cap, tr.acc, tr.start, tr.st.asm.value) && !tr.acc[|tr.acc| - 1].p.marker && Tile(tr.log, tr.start))
    && (tr.st.asm.None? ==> (tr.acc != [] ==> tr.acc[|tr.acc| - 1].p.marker) && Tile(tr.log, |tr.acc|))
    && (tr.st.last.None? <==> tr.acc == [])
    && (forall i | 0 <= i < |tr.log| :: Exact(cap, tr.acc, tr.log[i]))
  }

  lemma DamagedSnoc(cap: nat, xs: seq<Accepted>, x: Accepted)
    ensures Damaged(cap, xs + [x]) <==> Damaged(cap, xs) || Harms(cap, xs + [x], |xs|)
  {
    hide Malformed, SizesOf;
    var ys := xs + [x];
    forall i: nat | i < |xs|
      ensures Harms(cap, ys, i) <==> Harms(cap, xs, i)
    {
      assert ys[..i + 1] == xs[..i + 1] && ys[i] == xs[i];
    }
  }

  lemma {:induction false} SizesSnoc(xs: seq<Accepted>, x: Accepted)
    ensures SizesOf(xs + [x]) == Grow(SizesOf(xs), if xs == [] then 0 else x.gap, x.p.payload)
    ensures (xs + [x])[..|xs| + 1] == xs + [x]
  {
    hide Grow;
    assert (xs + [x])[..|xs|] == xs;
  }

  /** The body of the access unit after one more packet. */
  lemma {:induction false} BodySnoc(cap: nat, xs: seq<Accepted>, x: Accepted, a: Assembly, gap: nat)
    requires a.body.damaged <==> Damaged(cap, xs)
    requires !a.body.damaged ==> Sized(a.body, SizesOf(xs)) && SizesOf(xs).Total() <= cap
    requires if xs == [] then SizesOf(xs) == Sizes(0, None) else gap == x.gap
    ensures var b := a.Take(cap, gap, x.p.payload, x.at).body;
            && (b.damaged <==> Damaged(cap, xs + [x]))
            && (!b.damaged ==> Sized(b, SizesOf(xs + [x])) && SizesOf(xs + [x]).Total() <= cap)
  {
    hide Assembly.Take, Malformed, Sized, Damaged, SizesOf;
    DamagedSnoc(cap, xs, x);
    SizesSnoc(xs, x);
    if a.body.damaged {
      TakeStaysDamaged(a, cap, gap, x.p.payload, x.at);
    } else {
      TakeSized(a, SizesOf(xs), cap, gap, x.p.payload, x.at);
      GapBeforeFirst(SizesOf(xs), gap, x.p.payload);
    }
  }

  lemma GapBeforeFirst(z: Sizes, gap: nat, p: Bytes)
    ensures z.open.None? ==> Grow(z, gap, p) == Grow(z, 0, p)
  {
  }

  lemma IdrSnoc(xs: seq<Accepted>, x: Accepted)
    ensures SomeIdr(xs + [x]) <==> SomeIdr(xs) || HasIdr(x.p.payload)
  {
    hide HasIdr;
    var ys := xs + [x];
    assert ys[|xs|] == x && forall i | 0 <= i < |xs| :: ys[i] == xs[i];
  }

  lemma TakeKeeps(a: Assembly, cap: nat, gap: nat, p: Bytes, at: int)
    ensures var b := a.Take(cap, gap, p, at);
            && b.ts == a.ts && b.packets == a.packets + 1 && b.lost == a.lost + gap
            && b.firstArrival == a.firstArrival && b.lastArrival == at && (b.idr <==> a.idr || HasIdr(p))
  {
    hide Assembly.StapFrom, StapHasIdr;
    TakeLost(a, cap, gap, p, at);
    var c := a.Gap(gap).(packets := a.Gap(gap).packets + 1, lastArrival := at);
    StapKeeps(c.(orphan := false), cap, p, 1);
  }

  lemma {:induction false} StapKeeps(a: Assembly, cap: nat, p: Bytes, off: nat)
    ensures var b := a.StapFrom(cap, p, off);
            && b.firstArrival == a.firstArrival && b.lastArrival == a.lastArrival
            && (b.idr <==> a.idr || StapHasIdr(p, off))
    decreases |p| - off
  {
    if off + 2 <= |p| {
      var sz := Be16(p[off], p[off + 1]);
      if 0 < sz <= |p| - off - 2 {
        StapKeeps(a.AppendNal(cap, p[off + 2..off + 2 + sz]), cap, p, off + 2 + sz);
      }
    }
  }

  // ----- one accepted packet -----

  lemma {:induction false} GapsSnoc(acc: seq<Accepted>, x: Accepted, lo: nat, hi: nat)
    requires lo <= hi <= |acc|
    ensures Gaps(acc + [x], lo, hi) == Gaps(acc, lo, hi)
  {
    if lo < hi {
      GapsSnoc(acc, x, lo, hi - 1);
    }
  }

  lemma BeginsSnoc(acc: seq<Accepted>, x: Accepted, lo: nat, hi: nat)
    requires Begins(acc, lo, hi)
    ensures Begins(acc + [x], lo, hi)
  {
    var acc' := acc + [x];
    assert forall i | 0 <= i < |acc| :: acc'[i] == acc[i];
    if lo > 0 {
      assert SameUnit(acc', lo) <==> SameUnit(acc, lo);
    }
    forall i | lo < i < hi
      ensures SameUnit(acc', i)
    {
      assert SameUnit(acc, i);
    }
  }

  /** A packet that joins the open access unit. */
  lemma MadeJoins(cap: nat, acc: seq<Accepted>, lo: nat, a: Assembly, x: Accepted)
    requires Made(cap, acc, lo, a) && SameUnit(acc + [x], |acc|)
    ensures Made(cap, acc + [x], lo, a.Take(cap, x.gap, x.p.payload, x.at))
  {
    hide Assembly.Take, Sized, Damaged, SizesOf, SomeIdr, HasIdr;
    var acc' := acc + [x];
    BeginsSnoc(acc, x, lo, |acc|);
    GapsSnoc(acc, x, lo + 1, |acc|);
    TakeKeeps(a, cap, x.gap, x.p.payload, x.at);
    BodySnoc(cap, acc[lo..], x, a, x.gap);
    IdrSnoc(acc[lo..], x);
    assert acc'[lo..] == acc[lo..] + [x];
    assert Begins(acc', lo, |acc'|);
  }

  /** A packet that opens an access unit. */
  lemma MadeOpens(cap: nat, acc: seq<Accepted>, x: Accepted)
    requires acc != [] ==> !SameUnit(acc + [x], |acc|)
    ensures var gap := HeadGap(acc + [x], |acc|);
            Made(cap, acc + [x], |acc|, Fresh(x.p.ts, x.at).Take(cap, gap, x.p.payload, x.at))
  {
    hide Assembly.Take;
    var acc', a := acc + [x], Fresh(x.p.ts, x.at);
    var gap := HeadGap(acc', |acc|);
    TakeKeeps(a, cap, gap, x.p.payload, x.at);
    BodySnoc(cap, [], x, a, gap);
    IdrSnoc([], x);
    assert acc'[|acc|..] == [] + [x];
    assert Gaps(acc', |acc'|, |acc'|) == 0;
  }

  // ----- the end of an access unit -----

  /** The marker ends it. */
  lemma ClosedByMarker(cap: nat, acc: seq<Accepted>, lo: nat, a: Assembly)
    requires Made(cap, acc, lo, a) && acc[|acc| - 1].p.marker
    ensures Exact(cap, acc, Ended(a.Close(true), lo, |acc|))
  {
    hide Sized, Damaged, SizesOf, Gaps, SomeIdr;
    assert acc[lo..|acc|] == acc[lo..];
  }

  /** The next accepted packet ends it. */
  lemma ClosedByNext(cap: nat, acc: seq<Accepted>, lo: nat, a: Assembly, x: Accepted)
    requires Made(cap, acc, lo, a) && !acc[|acc| - 1].p.marker && !SameUnit(acc + [x], |acc|)
    ensures Exact(cap, acc + [x], Ended(a.(lost := a.lost + x.gap).Close(false), lo, |acc|))
  {
    hide Sized, Damaged, SizesOf, Gaps, SomeIdr;
    BeginsSnoc(acc, x, lo, |acc|);
    GapsSnoc(acc, x, lo + 1, |acc|);
    var acc' := acc + [x];
    assert acc'[lo..|acc|] == acc[lo..];
    assert HeadGap(acc', lo) == HeadGap(acc, lo);
  }

  /** What an event says stays true. */
  lemma ExactStays(cap: nat, acc: seq<Accepted>, x: Accepted, e: Ended)
    requires Exact(cap, acc, e)
    ensures Exact(cap, acc + [x], e)
  {
    hide Damaged, Gaps, SomeIdr;
    var acc' := acc + [x];
    BeginsSnoc(acc, x, e.lo, e.hi);
    GapsSnoc(acc, x, e.lo + 1, e.hi);
    assert acc'[e.lo..e.hi] == acc[e.lo..e.hi];
    assert HeadGap(acc', e.lo) == HeadGap(acc, e.lo);
    if e.hi < |acc| {
      assert acc'[e.hi] == acc[e.hi] && acc'[e.hi - 1] == acc[e.hi - 1];
      assert SameUnit(acc', e.hi) <==> SameUnit(acc, e.hi);
    }
  }

  // ----- every run -----

  /** The access unit that an accepted packet is in. */
  lemma AdmitMade(cap: nat, tr: Trace, a: Arrival)
    requires Inv(cap, tr) && !Late(tr.st, a.p)
    ensures var asm, gap := Base(tr.st, a.p), GapOf(tr.st, a.p);
            var x := Accepted(a.p, a.at, gap, !Progress(tr.st, a.p));
            var joins := asm.Some? && asm.value.ts == a.p.ts;
            && (tr.acc != [] ==> (SameUnit(tr.acc + [x], |tr.acc|) <==> joins))
            && Made(cap, tr.acc + [x], if joins then tr.start else |tr.acc|, Joined(cap, asm, a.p, a.at, gap))
  {
    hide Assembly.Take, Sized, Damaged, SizesOf, Gaps, Exact, Tile, SomeIdr, HasIdr;
    var asm, gap := Base(tr.st, a.p), GapOf(tr.st, a.p);
    var x := Accepted(a.p, a.at, gap, !Progress(tr.st, a.p));
    if asm.Some? && asm.value.ts == a.p.ts {
      MadeJoins(cap, tr.acc, tr.start, asm.value, x);
    } else {
      MadeOpens(cap, tr.acc, x);
    }
  }

  /** What ends before an accepted packet. */
  lemma EndedExact(cap: nat, tr: Trace, a: Arrival)
    requires Inv(cap, tr) && !Late(tr.st, a.p)
    ensures var asm, gap, n := Base(tr.st, a.p), GapOf(tr.st, a.p), |tr.acc|;
            var x := Accepted(a.p, a.at, gap, !Progress(tr.st, a.p));
            var ended := if Progress(tr.st, a.p) then EndedBefore(asm, a.p.ts, gap) else Ending(tr.st.asm);
            && |ended| <= 1
            && (ended != [] ==> tr.st.asm.Some? && Exact(cap, tr.acc + [x], Ended(ended[0], tr.start, n)))
            && (ended == [] && tr.st.asm.Some? ==> asm.Some? && asm.value.ts == a.p.ts)
            && (ended != [] ==> !(asm.Some? && asm.value.ts == a.p.ts))
  {
    hide Assembly.Close, Sized, Damaged, SizesOf, Gaps, Exact, Tile, SomeIdr;
    var gap := GapOf(tr.st, a.p);
    var x := Accepted(a.p, a.at, gap, !Progress(tr.st, a.p));
    if tr.st.asm.Some? && !(Progress(tr.st, a.p) && tr.st.asm.value.ts == a.p.ts) {
      var b := tr.st.asm.value;
      ClosedByNext(cap, tr.acc, tr.start, b, x);
      assert b.(lost := b.lost + 0) == b;
    }
  }

  lemma {:induction false} TileSnoc(log: seq<Ended>, e: Ended)
    requires Tile(log, e.lo) && e.lo < e.hi
    ensures Tile(log + [e], e.hi)
  {
    assert (log + [e])[..|log|] == log;
  }

  lemma MadeRange(cap: nat, acc: seq<Accepted>, lo: nat, a: Assembly)
    requires Made(cap, acc, lo, a)
    ensures lo < |acc|
  {
  }

  /** The events of one accepted packet, put after those before. */
  lemma LogAfter(cap: nat, tr: Trace, a: Arrival, own: seq<Event>, start: nat)
    requires Inv(cap, tr) && !Late(tr.st, a.p) && |own| <= 1
    requires var x := Accepted(a.p, a.at, GapOf(tr.st, a.p), !Progress(tr.st, a.p));
             own != [] ==> Exact(cap, tr.acc + [x], Ended(own[0], start, |tr.acc| + 1))
    requires var asm := Base(tr.st, a.p);
             start == if asm.Some? && asm.value.ts == a.p.ts then tr.start else |tr.acc|
    ensures var asm, gap, n := Base(tr.st, a.p), GapOf(tr.st, a.p), |tr.acc|;
            var x := Accepted(a.p, a.at, gap, !Progress(tr.st, a.p));
            var ended := if Progress(tr.st, a.p) then EndedBefore(asm, a.p.ts, gap) else Ending(tr.st.asm);
            var log := tr.log + Range(ended, tr.start, n) + Range(own, start, n + 1);
            && (forall i | 0 <= i < |log| :: Exact(cap, tr.acc + [x], log[i]))
            && Tile(log, if own == [] then start else n + 1)
  {
    hide Made, Exact, Tile, EndedBefore, Ending, Base, SameUnit;
    var asm, gap, n := Base(tr.st, a.p), GapOf(tr.st, a.p), |tr.acc|;
    var x := Accepted(a.p, a.at, gap, !Progress(tr.st, a.p));
    var ended := if Progress(tr.st, a.p) then EndedBefore(asm, a.p.ts, gap) else Ending(tr.st.asm);
    EndedExact(cap, tr, a);
    forall i | 0 <= i < |tr.log|
      ensures Exact(cap, tr.acc + [x], tr.log[i])
    {
      ExactStays(cap, tr.acc, x, tr.log[i]);
    }
    if tr.st.asm.Some? {
      MadeRange(cap, tr.acc, tr.start, tr.st.asm.value);
    }
    BaseOfNone(tr.st, a.p);
    var log := tr.log + Range(ended, tr.start, n);
    if ended != [] {
      assert Range(ended, tr.start, n) == [Ended(ended[0], tr.start, n)];
      TileSnoc(tr.log, Ended(ended[0], tr.start, n));
    } else {
      assert log == tr.log;
    }
    if own != [] {
      assert Range(own, start, n + 1) == [Ended(own[0], start, n + 1)];
      TileSnoc(log, Ended(own[0], start, n + 1));
    } else {
      assert log + Range(own, start, n + 1) == log;
    }
  }

  lemma BaseOfNone(st: State, p: Packet)
    ensures st.asm.None? ==> Base(st, p).None?
  {
  }

  lemma NextKeepsInv(cap: nat, tr: Trace, a: Arrival)
    requires Inv(cap, tr)
    ensures Inv(cap, Next(cap, tr, a))
  {
    hide Push, Made, Exact, Tile, Joined, EndedBefore, Ending, Base, GapOf, Assembly.Close;
    PushCases(cap, tr.st, a.p, a.at);
    if !Late(tr.st, a.p) {
      var asm, gap := Base(tr.st, a.p), GapOf(tr.st, a.p);
      var joins := asm.Some? && asm.value.ts == a.p.ts;
      var b, start := Joined(cap, asm, a.p, a.at, gap), if joins then tr.start else |tr.acc|;
      AdmitMade(cap, tr, a);
      var acc := tr.acc + [Accepted(a.p, a.at, gap, !Progress(tr.st, a.p))];
      if a.p.marker {
        ClosedByMarker(cap, acc, start, b);
        LogAfter(cap, tr, a, [b.Close(true)], start);
      } else {
        LogAfter(cap, tr, a, [], start);
      }
    } else {
      LateHasLast(tr.st, a.p);
    }
  }

  lemma {:induction false} RunKeepsInv(cap: nat, ps: seq<Arrival>)
    ensures Inv(cap, RunAll(cap, ps))
  {
    hide Inv, Next;
    if ps == [] {
      NothingInv(cap);
    } else {
      RunKeepsInv(cap, ps[..|ps| - 1]);
      NextKeepsInv(cap, RunAll(cap, ps[..|ps| - 1]), ps[|ps| - 1]);
    }
  }

  lemma NothingInv(cap: nat)
    ensures Inv(cap, NOTHING)
  {
  }

  /**
   Every event of every run, exactly: the events are the maximal stretches of accepted packets of one access unit, in
   order and without a packet left out; each has its packets, its arrivals and its own gaps, the head gap if the marker
   before it was seen and the tail gap if its own was not; it is damaged if and only if one of its packets is malformed
   or its NAL units do not fit the buffer; it is an IDR picture if and only if one of them holds or begins a NAL unit of
   type 5; and it is complete if and only if it has its marker and some bytes and
   neither losses nor damage.
   */
  lemma {:induction false} EventsAreExact(cap: nat, ps: seq<Arrival>)
    ensures var tr := RunAll(cap, ps);
            && (forall e | e in tr.log :: Exact(cap, tr.acc, e))
            && Tile(tr.log, if tr.st.asm.Some? then tr.start else |tr.acc|)
            && (tr.st.asm.Some? ==> Begins(tr.acc, tr.start, |tr.acc|))
  {
    hide Exact, Tile, RunAll;
    RunKeepsInv(cap, ps);
  }
}
