/**
 The lock-free trace ring as an interleaving machine: every atomic load, compare-and-swap, row copy and store of a
 producer or of the flusher is one step, and the actions of a run may come in any order.
 */
module TraceRing {
  import opened Common

  /** The values of the columns of one row. */
  type Row = seq<int>

  const WORD := 0x1_0000_0000_0000_0000

  datatype Slot = Slot(row: Row, ready: bool)

  /** The slot of sequence number `i`: the capacity is a power of two, so the mask is the remainder. */
  function SlotAt(slots: seq<Slot>, i: nat): Slot
    requires |slots| > 0
  {
    slots[i % |slots|]
  }

  function SetSlot(slots: seq<Slot>, i: nat, slot: Slot): (r: seq<Slot>)
    requires |slots| > 0
    ensures |r| == |slots|
  {
    slots[i % |slots| := slot]
  }

  /** Where a producer is inside `Write`; `i` is the sequence number it loaded or claimed. */
  datatype Producer =
    | Idle
    | CheckClosed(row: Row)
    | CountLate
    | LoadClaimed(row: Row)
    | LoadConsumed(row: Row, i: nat)
    | CountOverflow
    | Claim(row: Row, i: nat)
    | Copy(row: Row, i: nat)
    | Publish(row: Row, i: nat)
  {
    /** It has claimed slot `i` and not published it. */
    predicate Owns() {
      Copy? || Publish?
    }

    /** Its call is neither in the ring nor counted as dropped. */
    predicate Undecided() {
      CheckClosed? || CountLate? || LoadClaimed? || LoadConsumed? || CountOverflow? || Claim?
    }
  }

  /** Where the consumer is inside `FlushOnce`; `m` is the next row to flush and `end` the claimed count it loaded. */
  datatype Flusher =
    | Resting
    | Scan(m: nat, end: nat, final: bool)
    | Format(m: nat, end: nat, final: bool)
    | Clear(m: nat, end: nat, final: bool)
    | StoreConsumed(m: nat, end: nat, final: bool)
    | ReadOverflow(m: nat, end: nat)
    | ReadLate(m: nat, end: nat, overflow: nat)
    | Finished(footer: Footer)

  datatype Footer = Footer(rows: nat, overflow: nat, late: nat, unpublished: nat)

  /**
   The ring and its threads. History, which no thread reads: `log` and `claimers` hold the row and the producer of every
   claim, and `calls` counts the calls of `Write`.
   */
  datatype State = State(
    slots: seq<Slot>, claimed: nat, consumed: nat, overflow: nat, late: nat, closed: bool,
    producers: seq<Producer>, flusher: Flusher, file: seq<Row>,
    log: seq<Row>, claimers: seq<nat>, calls: nat)
  {
    function Cap(): nat {
      |slots|
    }

    function SetProducer(p: nat, pc: Producer): State
      requires p < |producers|
    {
      this.(producers := producers[p := pc])
    }
  }

  function Initial(cap: nat, n: nat): State {
    State(seq(cap, _ => Slot([], false)), 0, 0, 0, 0, false, seq(n, _ => Idle), Resting, [], [], [], 0)
  }

  /** The unsigned test that the ring is full. */
  predicate Full(i: nat, consumed: nat, cap: nat) {
    (i - consumed) % WORD >= cap
  }

  datatype Action =
    | Begin(p: nat, row: Row)
    | Next(p: nat, spurious: bool)
    | Tear(p: nat, garbage: Row)
    | Flush(final: bool)
    | FlushNext
    | Close

  /** The next step of producer `p`; `spurious` lets the weak compare-and-swap fail although the value matches. */
  function ProducerStep(s: State, p: nat, spurious: bool): (t: State)
    requires p < |s.producers| && |s.slots| > 0
    ensures |t.slots| == |s.slots| && |t.producers| == |s.producers|
  {
    match s.producers[p]
    case Idle => s
    case CheckClosed(row) => s.SetProducer(p, if s.closed then CountLate else LoadClaimed(row))
    case CountLate => s.(late := s.late + 1).SetProducer(p, Idle)
    case LoadClaimed(row) => s.SetProducer(p, LoadConsumed(row, s.claimed))
    case LoadConsumed(row, i) => s.SetProducer(p, if Full(i, s.consumed, s.Cap()) then CountOverflow else Claim(row, i))
    case CountOverflow => s.(overflow := s.overflow + 1).SetProducer(p, Idle)
    case Claim(row, i) =>
      if s.claimed == i && !spurious then
        s.(claimed := i + 1, log := s.log + [row], claimers := s.claimers + [p]).SetProducer(p, Copy(row, i))
      else s.SetProducer(p, LoadConsumed(row, s.claimed))
    case Copy(row, i) =>
      s.(slots := SetSlot(s.slots, i, SlotAt(s.slots, i).(row := row))).SetProducer(p, Publish(row, i))
    case Publish(_, i) => s.(slots := SetSlot(s.slots, i, SlotAt(s.slots, i).(ready := true))).SetProducer(p, Idle)
  }

  /** The next step of the consumer inside `FlushOnce`. */
  function FlusherStep(s: State): (t: State)
    requires |s.slots| > 0
    ensures |t.slots| == |s.slots| && |t.producers| == |s.producers|
  {
    match s.flusher
    case Resting => s
    case Scan(m, end, final) =>
      var ready := m != end && SlotAt(s.slots, m).ready;
      s.(flusher := if ready then Format(m, end, final) else StoreConsumed(m, end, final))
    case Format(m, end, final) => s.(file := s.file + [SlotAt(s.slots, m).row], flusher := Clear(m, end, final))
    case Clear(m, end, final) =>
      s.(slots := SetSlot(s.slots, m, SlotAt(s.slots, m).(ready := false)), flusher := Scan(m + 1, end, final))
    case StoreConsumed(m, end, final) => s.(consumed := m, flusher := if final then ReadOverflow(m, end) else Resting)
    case ReadOverflow(m, end) => s.(flusher := ReadLate(m, end, s.overflow))
    case ReadLate(m, end, overflow) =>
      s.(flusher := Finished(Footer(|s.file|, overflow, s.late, if m <= end then end - m else 0)))
    case Finished(_) => s
  }

  /** One action; an action that cannot happen now changes nothing. */
  function Step(s: State, a: Action): (t: State)
    requires |s.slots| > 0
    ensures |t.slots| == |s.slots| && |t.producers| == |s.producers|
  {
    match a
    case Begin(p, row) =>
      if p < |s.producers| && s.producers[p].Idle? then s.(calls := s.calls + 1).SetProducer(p, CheckClosed(row)) else s
    case Next(p, spurious) =>
      if p < |s.producers| then ProducerStep(s, p, spurious) else s
    case Tear(p, garbage) =>
      if p < |s.producers| && s.producers[p].Copy? then
        var i := s.producers[p].i;
        s.(slots := SetSlot(s.slots, i, SlotAt(s.slots, i).(row := garbage)))
      else s
    case Flush(final) =>
      if s.flusher.Resting? && (final ==> s.closed) && (final || s.consumed != s.claimed) then
        s.(flusher := Scan(s.consumed, s.claimed, final))
      else s
    case FlushNext => FlusherStep(s)
    case Close =>
      s.(closed := true)
  }

  /** No producer is inside `Write`. */
  predicate Quiet(ps: seq<Producer>) {
    forall p | 0 <= p < |ps| :: ps[p].Idle?
  }

  function RunFrom(s: State, acts: seq<Action>): (t: State)
    requires |s.slots| > 0
    ensures |t.slots| == |s.slots| && |t.producers| == |s.producers|
  {
    if acts == [] then s else Step(RunFrom(s, acts[..|acts| - 1]), acts[|acts| - 1])
  }

  function Run(cap: nat, n: nat, acts: seq<Action>): (s: State)
    requires cap > 0
    ensures |s.slots| == cap && |s.producers| == n
  {
    RunFrom(Initial(cap, n), acts)
  }

  // ----- the invariant -----

  /** The first row that is not flushed. */
  function Pos(s: State): nat {
    match s.flusher
    case Scan(m, _, _) => m
    case Format(m, _, _) => m
    case Clear(m, _, _) => m
    case StoreConsumed(m, _, _) => m
    case _ => s.consumed
  }

  function Flushed(s: State): nat {
    Pos(s) + if s.flusher.Clear? then 1 else 0
  }

  ghost predicate Counters(s: State) {
    && 0 < |s.slots| < WORD
    && |s.log| == s.claimed && |s.claimers| == s.claimed
    && s.consumed <= Pos(s) <= s.claimed <= s.consumed + |s.slots|
  }

  /** What the flusher knows at each of its steps. */
  ghost predicate FlusherSound(s: State)
    requires Counters(s)
  {
    match s.flusher
    case Scan(m, end, _) => m <= end <= s.claimed
    case Format(m, end, _) => m < end <= s.claimed && SlotAt(s.slots, m).ready
    case Clear(m, end, _) => m < end <= s.claimed && SlotAt(s.slots, m).ready
    case StoreConsumed(m, end, _) => m <= end <= s.claimed
    case ReadOverflow(m, end) => m == s.consumed && m <= end <= s.claimed
    case ReadLate(m, end, _) => m == s.consumed && m <= end <= s.claimed
    case _ => true
  }

  /** Row `j` waits to be flushed: it is in its slot, or its producer is still busy with it. */
  ghost predicate Waiting(s: State, j: nat)
    requires Counters(s) && j < s.claimed
  {
    var slot, p := SlotAt(s.slots, j), s.claimers[j];
    if slot.ready then slot.row == s.log[j]
    else p < |s.producers| && s.producers[p].Owns() && s.producers[p].i == j
  }

  /** What producer `p` knows at each of its steps. */
  ghost predicate ProducerSound(s: State, p: nat)
    requires Counters(s) && p < |s.producers|
  {
    match s.producers[p]
    case LoadConsumed(_, i) => i <= s.claimed
    case Claim(_, i) => i <= s.claimed && (i < s.consumed || i - s.consumed < |s.slots|)
    case Copy(row, i) => Pos(s) <= i < s.claimed && s.claimers[i] == p && s.log[i] == row && !SlotAt(s.slots, i).ready
    case Publish(row, i) =>
      Pos(s) <= i < s.claimed && s.claimers[i] == p && s.log[i] == row && SlotAt(s.slots, i) == Slot(row, false)
    case _ => true
  }

  ghost predicate Inv(s: State) {
    && Counters(s) && FlusherSound(s)
    && Flushed(s) <= s.claimed && s.file == s.log[..Flushed(s)]
    && (forall j | Pos(s) <= j < s.claimed :: Waiting(s, j))
    && (forall j | s.claimed <= j < Pos(s) + |s.slots| :: !SlotAt(s.slots, j).ready)
    && (forall p | 0 <= p < |s.producers| :: ProducerSound(s, p))
  }

  /** Two sequence numbers less than the capacity apart have different slots. */
  lemma SlotsApart(i: nat, j: nat, cap: nat)
    requires i < j < i + cap
    ensures i % cap != j % cap
  {
    var k := j / cap - i / cap;
    assert j - i == k * cap + (j % cap - i % cap);
    Multiple(k, cap);
  }

  lemma SlotAgain(m: nat, cap: nat)
    requires cap > 0
    ensures (m + cap) % cap == m % cap
  {
    assert m + cap == (m / cap + 1) * cap + m % cap;
    RemainderIs(m + cap, cap, m / cap + 1, m % cap);
  }

  /** The slot of `i` is changed, and no other one of a window of `cap` sequence numbers. */
  lemma SetSlotApart(slots: seq<Slot>, i: nat, slot: Slot, lo: nat)
    requires lo <= i < lo + |slots|
    ensures SlotAt(SetSlot(slots, i, slot), i) == slot
    ensures forall j | lo <= j < lo + |slots| && j != i :: SlotAt(SetSlot(slots, i, slot), j) == SlotAt(slots, j)
  {
    forall j | lo <= j < lo + |slots| && j != i
      ensures j % |slots| != i % |slots|
    {
      SlotsApart(if i < j then i else j, if i < j then j else i, |slots|);
    }
  }

  // ----- every step keeps the invariant -----

  /** A step of producer `p` that does not touch the ring. */
  lemma RingUntouched(s: State, p: nat, pc: Producer, t: State)
    requires Inv(s) && p < |s.producers| && !s.producers[p].Owns() && !pc.Owns()
    requires t == s.(producers := s.producers[p := pc], overflow := t.overflow, late := t.late, calls := t.calls)
    requires match pc case LoadConsumed(_, i) => i <= s.claimed
                      case Claim(_, i) => i <= s.claimed && (i < s.consumed || i - s.consumed < |s.slots|)
                      case _ => true
    ensures Inv(t)
  {
    hide SlotAt;
    forall j | Pos(t) <= j < t.claimed
      ensures Waiting(t, j)
    {
      assert Waiting(s, j);
    }
    forall q | 0 <= q < |s.producers|
      ensures ProducerSound(t, q)
    {
      assert ProducerSound(s, q);
    }
  }

  lemma ClaimKeepsInv(s: State, p: nat)
    requires Inv(s) && p < |s.producers| && s.producers[p].Claim? && s.producers[p].i == s.claimed
    ensures Inv(ProducerStep(s, p, false))
  {
    hide SlotAt;
    var t := ProducerStep(s, p, false);
    assert ProducerSound(s, p);
    forall j | Pos(t) <= j < t.claimed
      ensures Waiting(t, j)
    {
      assert j < s.claimed ==> Waiting(s, j);
    }
    forall q | 0 <= q < |s.producers|
      ensures ProducerSound(t, q)
    {
      assert ProducerSound(s, q);
    }
  }

  /** The producer that owns a slot changes its row, or publishes it. */
  lemma OwnerKeepsInv(s: State, p: nat, slot: Slot, pc: Producer)
    requires Inv(s) && p < |s.producers| && s.producers[p].Owns()
    requires var row, i := s.producers[p].row, s.producers[p].i;
             || (pc == Copy(row, i) && s.producers[p] == pc && !slot.ready)
             || (pc == Publish(row, i) && slot == Slot(row, false))
             || (pc == Idle && slot == Slot(row, true))
    ensures Inv(s.(slots := SetSlot(s.slots, s.producers[p].i, slot)).SetProducer(p, pc))
  {
    hide SlotAt, SetSlot;
    var t := s.(slots := SetSlot(s.slots, s.producers[p].i, slot)).SetProducer(p, pc);
    assert ProducerSound(s, p);
    SetSlotApart(s.slots, s.producers[p].i, slot, Pos(s));
    forall j | Pos(t) <= j < t.claimed
      ensures Waiting(t, j)
    {
      assert Waiting(s, j);
    }
    forall q | 0 <= q < |s.producers|
      ensures ProducerSound(t, q)
    {
      assert ProducerSound(s, q);
    }
  }

  lemma ClearKeepsInv(s: State)
    requires Inv(s) && s.flusher.Clear?
    ensures Inv(FlusherStep(s))
  {
    var m := s.flusher.m;
    SetSlotApart(s.slots, m, SlotAt(s.slots, m).(ready := false), m);
    SlotAgain(m, |s.slots|);
    assert SlotAt(SetSlot(s.slots, m, SlotAt(s.slots, m).(ready := false)), m + |s.slots|)
        == SlotAt(SetSlot(s.slots, m, SlotAt(s.slots, m).(ready := false)), m);
    var t := FlusherStep(s);
    hide SlotAt, SetSlot;
    forall j | Pos(t) <= j < t.claimed
      ensures Waiting(t, j)
    {
      assert Waiting(s, j);
    }
    forall q | 0 <= q < |s.producers|
      ensures ProducerSound(t, q)
    {
      assert ProducerSound(s, q);
    }
  }

  lemma FormatKeepsInv(s: State)
    requires Inv(s) && s.flusher.Format?
    ensures Inv(FlusherStep(s))
  {
    hide SlotAt;
    assert Waiting(s, s.flusher.m);
    assert s.log[..s.flusher.m + 1] == s.log[..s.flusher.m] + [s.log[s.flusher.m]];
    var t := FlusherStep(s);
    forall j | Pos(t) <= j < t.claimed
      ensures Waiting(t, j)
    {
      assert Waiting(s, j);
    }
    forall q | 0 <= q < |s.producers|
      ensures ProducerSound(t, q)
    {
      assert ProducerSound(s, q);
    }
  }

  lemma FlusherKeepsInv(s: State)
    requires Inv(s) && !s.flusher.Clear? && !s.flusher.Format?
    ensures Inv(FlusherStep(s))
  {
    hide SlotAt, SetSlot;
    var t := FlusherStep(s);
    forall j | Pos(t) <= j < t.claimed
      ensures Waiting(t, j)
    {
      assert Waiting(s, j);
    }
    forall q | 0 <= q < |s.producers|
      ensures ProducerSound(t, q)
    {
      assert ProducerSound(s, q);
    }
  }

  lemma ProducerKeepsInv(s: State, p: nat, spurious: bool)
    requires Inv(s) && p < |s.producers|
    ensures Inv(ProducerStep(s, p, spurious))
  {
    hide Inv, SlotAt, SetSlot;
    SoundParts(s, p);
    var t := ProducerStep(s, p, spurious);
    match s.producers[p]
    case Claim(row, i) =>
      if s.claimed == i && !spurious {
        ClaimKeepsInv(s, p);
      } else {
        RingUntouched(s, p, t.producers[p], t);
      }
    case Copy(row, i) => OwnerKeepsInv(s, p, SlotAt(s.slots, i).(row := row), Publish(row, i));
    case Publish(row, i) => OwnerKeepsInv(s, p, SlotAt(s.slots, i).(ready := true), Idle);
    case _ => RingUntouched(s, p, t.producers[p], t);
  }

  lemma SoundParts(s: State, p: nat)
    requires Inv(s) && p < |s.producers|
    ensures Counters(s) && ProducerSound(s, p)
  {
  }

  lemma StepKeepsInv(s: State, a: Action)
    requires Inv(s)
    ensures Inv(Step(s, a))
  {
    hide SlotAt, SetSlot;
    match a
    case Begin(p, row) =>
      if p < |s.producers| && s.producers[p].Idle? {
        RingUntouched(s, p, CheckClosed(row), Step(s, a));
      }
    case Next(p, spurious) =>
      if p < |s.producers| {
        ProducerKeepsInv(s, p, spurious);
      }
    case Tear(p, garbage) => TearKeepsInv(s, p, garbage);
    case Flush(final) => SameRingKeepsInv(s, Step(s, a));
    case FlushNext =>
      if s.flusher.Clear? {
        ClearKeepsInv(s);
      } else if s.flusher.Format? {
        FormatKeepsInv(s);
      } else {
        FlusherKeepsInv(s);
      }
    case Close => SameRingKeepsInv(s, Step(s, a));
  }

  lemma TearKeepsInv(s: State, p: nat, garbage: Row)
    requires Inv(s)
    ensures Inv(Step(s, Tear(p, garbage)))
  {
    hide SlotAt, SetSlot;
    if p < |s.producers| && s.producers[p].Copy? {
      SoundParts(s, p);
      OwnerKeepsInv(s, p, SlotAt(s.slots, s.producers[p].i).(row := garbage), s.producers[p]);
      assert s.producers[p := s.producers[p]] == s.producers;
    }
  }

  lemma SameRingKeepsInv(s: State, t: State)
    requires Inv(s) && t == s.(closed := t.closed, flusher := t.flusher)
    requires
      || t.flusher == s.flusher
      || (s.flusher.Resting? && t.flusher.Scan? && t.flusher.m == s.consumed && t.flusher.end == s.claimed)
    ensures Inv(t)
  {
    hide SlotAt;
    forall j | Pos(t) <= j < t.claimed
      ensures Waiting(t, j)
    {
      assert Waiting(s, j);
    }
    forall q | 0 <= q < |s.producers|
      ensures ProducerSound(t, q)
    {
      assert ProducerSound(s, q);
    }
  }

  lemma InitialInv(cap: nat, n: nat)
    requires 0 < cap < WORD
    ensures Inv(Initial(cap, n))
  {
  }

  // ----- every run -----

  ghost predicate Reachable(s: State, cap: nat, n: nat)
    requires cap > 0
  {
    exists acts :: Run(cap, n, acts) == s
  }

  lemma ReachInitial(cap: nat, n: nat)
    requires cap > 0
    ensures Reachable(Initial(cap, n), cap, n)
  {
    assert Run(cap, n, []) == Initial(cap, n);
  }

  lemma ReachStep(s: State, cap: nat, n: nat, a: Action)
    requires cap > 0 && Reachable(s, cap, n)
    ensures |s.slots| == cap && Reachable(Step(s, a), cap, n)
  {
    var acts :| Run(cap, n, acts) == s;
    assert (acts + [a])[..|acts|] == acts;
    assert Run(cap, n, acts + [a]) == Step(s, a);
  }

  lemma {:induction false} RunInv(s: State, acts: seq<Action>)
    requires Inv(s)
    ensures |s.slots| > 0 && Inv(RunFrom(s, acts))
  {
    assert |s.slots| > 0;
    hide Inv, Step;
    if acts != [] {
      RunInv(s, acts[..|acts| - 1]);
      StepKeepsInv(RunFrom(s, acts[..|acts| - 1]), acts[|acts| - 1]);
    }
  }

  lemma ReachableInv(s: State, cap: nat, n: nat)
    requires 0 < cap < WORD && Reachable(s, cap, n)
    ensures Inv(s) && |s.slots| == cap && |s.producers| == n
  {
    hide Inv;
    var acts :| Run(cap, n, acts) == s;
    InitialInv(cap, n);
    RunInv(Initial(cap, n), acts);
  }

  /** In every run the file holds the rows in claim order, each once and unmodified, and the counters stay in order. */
  lemma RowsInClaimOrder(s: State, cap: nat, n: nat)
    requires 0 < cap < WORD && Reachable(s, cap, n)
    ensures s.consumed <= s.claimed <= s.consumed + cap && |s.log| == s.claimed
    ensures s.consumed <= |s.file| <= s.claimed && s.file == s.log[..|s.file|]
  {
    ReachableInv(s, cap, n);
  }

  /** The producers that hold a claim have different physical slots, none of which is published or flushed. */
  lemma OwnersApart(s: State, cap: nat, n: nat, p: nat, q: nat)
    requires 0 < cap < WORD && Reachable(s, cap, n) && p < n && q < n && p != q
    requires |s.producers| == n && s.producers[p].Owns() && s.producers[q].Owns()
    ensures s.producers[p].i % cap != s.producers[q].i % cap
    ensures |s.file| <= s.producers[p].i < s.claimed && |s.slots| == cap && !SlotAt(s.slots, s.producers[p].i).ready
  {
    hide Waiting, SlotAt, Reachable;
    ReachableInv(s, cap, n);
    assert ProducerSound(s, p) && ProducerSound(s, q);
    var i, j := s.producers[p].i, s.producers[q].i;
    SlotsApart(if i < j then i else j, if i < j then j else i, cap);
  }

  /** A slot with a published row that is not flushed is not written again. */
  lemma PublishedRowStays(s: State, cap: nat, n: nat, a: Action, j: nat)
    requires 0 < cap < WORD && Reachable(s, cap, n) && |s.slots| == cap
    requires |s.file| <= j < s.claimed && SlotAt(s.slots, j).ready
    ensures var t := Step(s, a);
            j < |t.file| || SlotAt(t.slots, j) == SlotAt(s.slots, j)
  {
    hide SlotAt, SetSlot, Waiting, ProducerSound;
    ReachableInv(s, cap, n);
    match a
    case Next(p, spurious) =>
      if p < n && s.producers[p].Owns() {
        OwnerSparesPublished(s, p, Step(s, a).slots, j);
      }
    case Tear(p, garbage) =>
      if p < n && s.producers[p].Owns() {
        OwnerSparesPublished(s, p, Step(s, a).slots, j);
      }
    case FlushNext =>
      if s.flusher.Clear? {
        var m := s.flusher.m;
        SetSlotApart(s.slots, m, SlotAt(s.slots, m).(ready := false), m);
      }
    case _ =>
  }

  lemma OwnerSparesPublished(s: State, p: nat, slots: seq<Slot>, j: nat)
    requires Inv(s) && p < |s.producers| && s.producers[p].Owns() && Pos(s) <= j < s.claimed && SlotAt(s.slots, j).ready
    requires slots == s.slots || exists slot :: slots == SetSlot(s.slots, s.producers[p].i, slot)
    ensures SlotAt(slots, j) == SlotAt(s.slots, j)
  {
    hide SlotAt, SetSlot;
    assert ProducerSound(s, p);
    if slot :| slots == SetSlot(s.slots, s.producers[p].i, slot) {
      SetSlotApart(s.slots, s.producers[p].i, slot, Pos(s));
    }
  }

  // ----- overflow -----

  /**
   When a row is dropped: as overflow exactly when, at the load of the consumed count, the ring is full or the claimed
   count that the producer loaded has been overtaken by the consumed count; as late exactly when the ring is closed at
   the check. Nothing else drops a row, and a failed compare-and-swap does not.
   */
  lemma OverflowIff(s: State, cap: nat, n: nat, p: nat, spurious: bool)
    requires 0 < cap < WORD && Reachable(s, cap, n) && p < n && |s.producers| == n && s.consumed <= WORD - cap
    ensures |s.slots| == cap
    ensures var pc, pc' := s.producers[p], ProducerStep(s, p, spurious).producers[p];
            && (pc'.CountOverflow? <==>
                pc.LoadConsumed? && (pc.i < s.consumed || (pc.i == s.claimed == s.consumed + cap)))
            && (pc'.CountLate? <==> pc.CheckClosed? && s.closed)
  {
    hide Full, SlotAt, SetSlot;
    ReachableInv(s, cap, n);
    assert ProducerSound(s, p);
    if s.producers[p].LoadConsumed? {
      FullIff(s.producers[p].i, s.consumed, cap);
    }
  }

  lemma FullIff(i: nat, consumed: nat, cap: nat)
    requires 0 < cap < WORD && consumed <= WORD - cap && i <= consumed + cap
    ensures Full(i, consumed, cap) <==> i < consumed || i == consumed + cap
  {
    if i < consumed {
      assert (i - consumed) % WORD == i - consumed + WORD;
    }
  }

  /** A call of `Write` up to the point where it has loaded the claimed count. */
  lemma LoadsClaimed(s: State, cap: nat, n: nat, p: nat, row: Row) returns (t: State)
    requires cap > 0 && Reachable(s, cap, n) && |s.slots| == cap && p < |s.producers| && s.producers[p].Idle? &&
             !s.closed
    ensures Reachable(t, cap, n)
    ensures t == s.(producers := s.producers[p := LoadConsumed(row, s.claimed)], calls := s.calls + 1)
  {
    hide Reachable;
    ReachStep(s, cap, n, Begin(p, row));
    var a := Step(s, Begin(p, row));
    ReachStep(a, cap, n, Next(p, false));
    var b := Step(a, Next(p, false));
    ReachStep(b, cap, n, Next(p, false));
    t := Step(b, Next(p, false));
    assert t.producers == s.producers[p := LoadConsumed(row, s.claimed)];
  }

  /** The rest of that call, when no other producer interferes and the ring is not full. */
  lemma ClaimsAndPublishes(s: State, cap: nat, n: nat, p: nat) returns (t: State)
    requires cap > 0 && Reachable(s, cap, n) && |s.slots| == cap && p < |s.producers| && s.producers[p].LoadConsumed?
    requires var i := s.producers[p].i; i == s.claimed && !Full(i, s.consumed, cap)
    ensures Reachable(t, cap, n)
    ensures var row, i := s.producers[p].row, s.claimed;
            t == s.(producers := s.producers[p := Idle], claimed := i + 1,
                slots := SetSlot(s.slots, i, Slot(row, true)),
                    log := s.log + [row], claimers := s.claimers + [p])
  {
    hide Full, Reachable;
    var row, i := s.producers[p].row, s.claimed;
    ReachStep(s, cap, n, Next(p, false));
    var a := Step(s, Next(p, false));
    ReachStep(a, cap, n, Next(p, false));
    var b := Step(a, Next(p, false));
    ReachStep(b, cap, n, Next(p, false));
    var c := Step(b, Next(p, false));
    ReachStep(c, cap, n, Next(p, false));
    t := Step(c, Next(p, false));
    assert t.producers == s.producers[p := Idle];
    assert t.slots == SetSlot(s.slots, i, Slot(row, true));
  }

  /** One `FlushOnce` that finds one published row. */
  lemma FlushesOne(s: State, cap: nat, n: nat) returns (t: State)
    requires cap > 0 && Reachable(s, cap, n) && |s.slots| == cap && s.flusher.Resting? && s.claimed == s.consumed + 1
    requires SlotAt(s.slots, s.consumed).ready
    ensures Reachable(t, cap, n)
    ensures var slot := SlotAt(s.slots, s.consumed);
            t == s.(consumed := s.claimed, file := s.file + [slot.row],
                    slots := SetSlot(s.slots, s.consumed, slot.(ready := false)))
  {
    hide SlotAt, SetSlot, Reachable;
    var b := s;
    ReachStep(b, cap, n, Flush(false));
    b := Step(b, Flush(false));
    for k := 0 to 5
      invariant Reachable(b, cap, n) && |b.slots| == cap
      invariant k == 0 ==> b == s.(flusher := Scan(s.consumed, s.claimed, false))
      invariant k == 1 ==> b == s.(flusher := Format(s.consumed, s.claimed, false))
      invariant k == 2 ==> b == s.(flusher := Clear(s.consumed, s.claimed, false),
                file := s.file + [SlotAt(s.slots, s.consumed).row])
      invariant k >= 3 ==>
                  b == s.(flusher := if k == 3 then Scan(s.claimed, s.claimed, false)
                                     else if k == 4 then StoreConsumed(s.claimed, s.claimed, false) else Resting,
                          consumed := if k == 5 then s.claimed else s.consumed,
                          file := s.file + [SlotAt(s.slots, s.consumed).row],
                          slots := SetSlot(s.slots, s.consumed, SlotAt(s.slots, s.consumed).(ready := false)))
    {
      ReachStep(b, cap, n, FlushNext);
      b := Step(b, FlushNext);
    }
    t := b;
  }

  /** A row can be dropped although the ring is empty: its producer slept between its two loads. */
  lemma DropWhileEmpty()
    ensures exists s: State :: Reachable(s, 1, 2) && s.overflow == 1 && s.claimed == s.consumed == 1 && s.file == [[7]]
  {
    hide Reachable;
    ReachInitial(1, 2);
    var a := LoadsClaimed(Initial(1, 2), 1, 2, 0, [5]);
    var b := LoadsClaimed(a, 1, 2, 1, [7]);
    var c := ClaimsAndPublishes(b, 1, 2, 1);
    var d := FlushesOne(c, 1, 2);
    assert Full(0, 1, 1);
    ReachStep(d, 1, 2, Next(0, false));
    var e := Step(d, Next(0, false));
    ReachStep(e, 1, 2, Next(0, false));
    var f := Step(e, Next(0, false));
    assert f.overflow == 1;
  }

  // ----- one call of Write -----

  lemma {:induction false} RunOn(s: State, acts: seq<Action>, a: Action)
    requires |s.slots| > 0
    ensures RunFrom(s, acts + [a]) == Step(RunFrom(s, acts), a)
  {
    assert (acts + [a])[..|acts|] == acts;
  }

  /** What a call of `Write` does if no other thread interferes. */
  function Written(s: State, p: nat, row: Row): State
    requires |s.slots| > 0
  {
    if s.closed then s.(calls := s.calls + 1, late := s.late + 1)
    else if s.claimed == s.consumed + |s.slots| then s.(calls := s.calls + 1, overflow := s.overflow + 1)
    else
      s.(calls := s.calls + 1, claimed := s.claimed + 1, slots := SetSlot(s.slots, s.claimed, Slot(row, true)),
         log := s.log + [row], claimers := s.claimers + [p])
  }

  /** The steps of a call, one by one. */
  function Stepped(s: State, p: nat, row: Row, k: nat): State
    requires |s.slots| > 0 && p < |s.producers|
  {
    var t := s.(calls := s.calls + 1);
    var i, free := s.claimed, s.claimed != s.consumed + |s.slots|;
    match k
    case 0 => s
    case 1 => t.SetProducer(p, CheckClosed(row))
    case 2 => t.SetProducer(p, if s.closed then CountLate else LoadClaimed(row))
    case 3 => if s.closed then t.(late := s.late + 1) else t.SetProducer(p, LoadConsumed(row, i))
    case 4 => t.SetProducer(p, if free then Claim(row, i) else CountOverflow)
    case 5 =>
      if free then t.(claimed := i + 1, log := s.log + [row], claimers := s.claimers + [p]).SetProducer(p, Copy(row, i))
      else t.(overflow := s.overflow + 1)
    case 6 =>
      t.(claimed := i + 1, log := s.log + [row], claimers := s.claimers + [p],
         slots := SetSlot(s.slots, i, SlotAt(s.slots, i).(row := row))).SetProducer(p, Publish(row, i))
    case _ => Written(s, p, row)
  }

  lemma StepsOn(s: State, p: nat, row: Row, k: nat)
    requires Inv(s) && p < |s.producers| && s.producers[p].Idle?
    requires k < if s.closed then 3 else if s.claimed == s.consumed + |s.slots| then 5 else 7
    ensures |s.slots| > 0
    ensures Stepped(s, p, row, k + 1) == Step(Stepped(s, p, row, k), if k == 0 then Begin(p, row) else Next(p, false))
  {
    assert |s.slots| > 0 && (s.claimed - s.consumed) % WORD == s.claimed - s.consumed <= |s.slots|;
    assert s.producers[p := Idle] == s.producers;
    hide Inv;
    if k < 4 {
      StepsToClaim(s, p, row, k);
    } else {
      StepsFromClaim(s, p, row, k);
    }
  }

  lemma StepsToClaim(s: State, p: nat, row: Row, k: nat)
    requires |s.slots| > 0 && p < |s.producers| && s.producers[p := Idle] == s.producers && s.producers[p].Idle?
    requires (s.claimed - s.consumed) % WORD == s.claimed - s.consumed <= |s.slots|
    requires k < 4 && (s.closed ==> k < 3)
    ensures Stepped(s, p, row, k + 1) == Step(Stepped(s, p, row, k), if k == 0 then Begin(p, row) else Next(p, false))
  {
    hide SetSlot, SlotAt;
  }

  lemma StepsFromClaim(s: State, p: nat, row: Row, k: nat)
    requires |s.slots| > 0 && p < |s.producers| && s.producers[p := Idle] == s.producers
    requires 4 <= k < 7 && !s.closed && (s.claimed == s.consumed + |s.slots| ==> k == 4)
    ensures Stepped(s, p, row, k + 1) == Step(Stepped(s, p, row, k), Next(p, false))
  {
    hide Full;
  }

  /**
   A call that no other thread interrupts drops its row as late if the ring is closed, drops it as overflow if the ring
   is full, and otherwise puts it, published, into the next slot; nothing else has changed.
   */
  lemma {:induction false} WriteAlone(s: State, cap: nat, n: nat, p: nat, row: Row) returns (acts: seq<Action>)
    requires 0 < cap < WORD && Reachable(s, cap, n) && p < |s.producers| && s.producers[p].Idle? && |s.slots| == cap
    ensures forall a | a in acts :: a == Begin(p, row) || a == Next(p, false)
    ensures RunFrom(s, acts) == Written(s, p, row)
  {
    ReachableInv(s, cap, n);
    var last := if s.closed then 3 else if s.claimed == s.consumed + cap then 5 else 7;
    LastStepped(s, p, row);
    hide *;
    acts := [];
    assert RunFrom(s, []) == Stepped(s, p, row, 0) by { NoneStepped(s, p, row); }
    for k := 0 to last
      invariant forall a | a in acts :: a == Begin(p, row) || a == Next(p, false)
      invariant RunFrom(s, acts) == Stepped(s, p, row, k)
    {
      var a := if k == 0 then Begin(p, row) else Next(p, false);
      StepsOn(s, p, row, k);
      RunOn(s, acts, a);
      acts := acts + [a];
    }
  }

  lemma {:induction false} NoneStepped(s: State, p: nat, row: Row)
    requires |s.slots| > 0 && p < |s.producers|
    ensures RunFrom(s, []) == Stepped(s, p, row, 0)
  {
  }

  lemma LastStepped(s: State, p: nat, row: Row)
    requires Inv(s) && p < |s.producers|
    ensures |s.slots| > 0
    ensures Stepped(s, p, row, if s.closed then 3 else if s.claimed == s.consumed + |s.slots| then 5 else 7)
         == Written(s, p, row)
  {
    assert |s.slots| > 0;
    hide Inv;
  }

  // ----- how far a flush goes -----

  /** The flusher writes rows, in a flush that loaded `end` as the claimed count. */
  predicate Writing(f: Flusher, end: nat, final: bool) {
    (f.Scan? || f.Format? || f.Clear?) && f.end == end && f.final == final
  }

  /** The flusher is about to stop writing: it looks at row `m`, which is not published, or beyond its last row. */
  predicate StopsAt(s: State, m: nat, end: nat, final: bool)
    requires |s.slots| > 0
  {
    s.flusher == Scan(m, end, final) && (m == end || !SlotAt(s.slots, m).ready)
  }

  /** Whatever the other threads do, a flush goes on until it meets an unpublished slot, or its last row. */
  lemma WritesOn(s: State, a: Action, end: nat, final: bool)
    requires |s.slots| > 0 && Writing(s.flusher, end, final)
    ensures || Writing(Step(s, a).flusher, end, final)
            || (a == FlushNext && StopsAt(s, Pos(s), end, final) &&
                Step(s, a).flusher == StoreConsumed(Pos(s), end, final))
  {
    hide SlotAt, SetSlot;
  }

  /** The moment at which a flush stops writing, in any run in which it does. */
  lemma {:induction false} StopsWriting(s: State, acts: seq<Action>, end: nat, final: bool) returns (k: nat)
    requires |s.slots| > 0 && Writing(s.flusher, end, final) && !Writing(RunFrom(s, acts).flusher, end, final)
    ensures k < |acts| && acts[k] == FlushNext
    ensures var u := RunFrom(s, acts[..k]); StopsAt(u, Pos(u), end, final)
    ensures RunFrom(s, acts[..k + 1]).flusher == StoreConsumed(Pos(RunFrom(s, acts[..k])), end, final)
  {
    hide Step, Writing, StopsAt;
    if acts != [] {
      var n := |acts| - 1;
      var u := RunFrom(s, acts[..n]);
      if Writing(u.flusher, end, final) {
        k := n;
        assert acts[..n + 1] == acts;
        WritesOn(u, acts[n], end, final);
      } else {
        k := StopsWriting(s, acts[..n], end, final);
        assert acts[..n][..k] == acts[..k] && acts[..n][..k + 1] == acts[..k + 1];
      }
    }
  }

  /**
   A flush writes every row that had been claimed when it began, up to the first one that it finds unpublished: in any
   run in which the flush has stopped writing, there was a moment at which all rows before `m` were in the file and
   slot `m` was not published, or `m` was the claimed count that the flush had loaded; the consumed count becomes `m`.
   */
  lemma FlushStopsAtGap(s: State, cap: nat, n: nat, final: bool, acts: seq<Action>) returns (k: nat)
    requires 0 < cap < WORD && Reachable(s, cap, n) && s.flusher.Resting? && |s.slots| == cap
    requires (final ==> s.closed) && (final || s.consumed != s.claimed)
    requires !Writing(RunFrom(Step(s, Flush(final)), acts).flusher, s.claimed, final)
    ensures k < |acts|
    ensures var b := Step(s, Flush(final));
            var before, after := RunFrom(b, acts[..k]), RunFrom(b, acts[..k + 1]);
            var m := |before.file|;
            && s.consumed <= m <= s.claimed && m <= |before.log| && before.file == before.log[..m]
            && (m == s.claimed || !SlotAt(before.slots, m).ready)
            && after == before.(flusher := StoreConsumed(m, s.claimed, final))
  {
    hide SlotAt, RunFrom;
    ReachableInv(s, cap, n);
    StepKeepsInv(s, Flush(final));
    var b := Step(s, Flush(final));
    k := StopsWriting(b, acts, s.claimed, final);
    RunInv(b, acts[..k]);
    ConsumedGrows(b, acts[..k]);
    LastStep(b, acts, k);
  }

  lemma {:induction false} LastStep(s: State, acts: seq<Action>, k: nat)
    requires |s.slots| > 0 && k < |acts|
    ensures RunFrom(s, acts[..k + 1]) == Step(RunFrom(s, acts[..k]), acts[k])
  {
    assert acts[..k + 1][..k] == acts[..k];
  }

  lemma {:induction false} ConsumedGrows(s: State, acts: seq<Action>)
    requires Inv(s)
    ensures |s.slots| > 0 && s.consumed <= RunFrom(s, acts).consumed
  {
    RunInv(s, []);
    hide Inv, Step;
    if acts != [] {
      ConsumedGrows(s, acts[..|acts| - 1]);
      RunInv(s, acts[..|acts| - 1]);
      ConsumedStep(RunFrom(s, acts[..|acts| - 1]), acts[|acts| - 1]);
    }
  }

  lemma ConsumedStep(s: State, a: Action)
    requires Inv(s)
    ensures |s.slots| > 0 && s.consumed <= Step(s, a).consumed
  {
    hide SlotAt, SetSlot, Waiting, ProducerSound;
  }

  /** The rows from `m` on are published, up to row `g`, which is not or is the last one. */
  ghost predicate Gap(s: State, m: nat, g: nat, end: nat)
    requires |s.slots| > 0
  {
    && m <= g <= end && (forall j | m <= j < g :: SlotAt(s.slots, j).ready)
    && (g == end || !SlotAt(s.slots, g).ready)
  }

  /** Between two states, the slots of rows `m` to `g` were freed, and no other slot of the ring was touched. */
  ghost predicate Freed(before: seq<Slot>, after: seq<Slot>, base: nat, m: nat, g: nat) {
    && |before| == |after| > 0
    && forall j | base <= j < base + |before| ::
      SlotAt(after, j) == if m <= j < g then SlotAt(before, j).(ready := false) else SlotAt(before, j)
  }

  function FlushSteps(k: nat): seq<Action> {
    seq(k, _ => FlushNext)
  }

  lemma {:induction false} MoreSteps(s: State, k: nat)
    requires |s.slots| > 0
    ensures RunFrom(s, FlushSteps(k + 1)) == RunFrom(FlusherStep(s), FlushSteps(k))
  {
    hide FlusherStep, RunFrom;
    assert FlushSteps(k + 1) == [FlushNext] + FlushSteps(k);
    RunFromConcat(s, FlushNext, FlushSteps(k));
  }

  lemma {:induction false} MoreSteps3(s: State, k: nat)
    requires |s.slots| > 0
    ensures RunFrom(s, FlushSteps(k + 3)) == RunFrom(FlusherStep(FlusherStep(FlusherStep(s))), FlushSteps(k))
  {
    hide FlusherStep, RunFrom, FlushSteps;
    MoreSteps(s, k + 2);
    MoreSteps(FlusherStep(s), k + 1);
    MoreSteps(FlusherStep(FlusherStep(s)), k);
  }

  lemma {:induction false} NoSteps(s: State)
    requires |s.slots| > 0
    ensures RunFrom(s, FlushSteps(0)) == s
  {
  }

  /** One published row is written and its slot is freed. */
  lemma WritesRow(s: State)
    requires Inv(s) && s.flusher.Scan? && s.flusher.m < s.flusher.end && SlotAt(s.slots, s.flusher.m).ready
    ensures var m, t := s.flusher.m, FlusherStep(FlusherStep(FlusherStep(s)));
            && Inv(t) && Freed(s.slots, t.slots, s.consumed, m, m + 1) && m < |s.log|
            && t == s.(slots := t.slots, file := s.log[..m + 1], flusher := Scan(m + 1, s.flusher.end, s.flusher.final))
  {
    hide SlotAt, SetSlot;
    var m := s.flusher.m;
    StepKeepsInv(s, FlushNext);
    StepKeepsInv(FlusherStep(s), FlushNext);
    StepKeepsInv(FlusherStep(FlusherStep(s)), FlushNext);
    SetSlotApart(s.slots, m, SlotAt(s.slots, m).(ready := false), s.consumed);
    hide Waiting, ProducerSound;
  }

  lemma FreedMore(s: State, mid: State, after: seq<Slot>, base: nat, m: nat, g: nat, end: nat)
    requires Freed(s.slots, mid.slots, base, m, m + 1) && Freed(mid.slots, after, base, m + 1, g)
    requires Gap(mid, m + 1, g, end)
    requires base <= m < end <= base + |s.slots| && SlotAt(s.slots, m).ready
    ensures Gap(s, m, g, end) && Freed(s.slots, after, base, m, g)
  {
    hide SlotAt;
    forall j | m <= j < g
      ensures SlotAt(s.slots, j).ready
    {
      assert j > m ==> SlotAt(mid.slots, j).ready;
    }
    if g < end {
      assert SlotAt(mid.slots, g) == SlotAt(s.slots, g);
    }
  }

  lemma ScanBounds(s: State)
    requires Inv(s) && s.flusher.Scan?
    ensures 0 < |s.slots| && s.consumed <= s.flusher.m <= s.flusher.end <= s.claimed == |s.log|
    ensures s.flusher.end <= s.consumed + |s.slots| && s.file == s.log[..s.flusher.m]
  {
  }

  lemma {:induction false} WritesNone(s: State)
    requires |s.slots| > 0 && s.flusher.Scan? && s.consumed <= s.flusher.m <= s.flusher.end
    requires s.flusher.m == s.flusher.end || !SlotAt(s.slots, s.flusher.m).ready
    requires s.flusher.m <= |s.log| && s.file == s.log[..s.flusher.m]
    ensures Wrote(s, RunFrom(s, FlushSteps(1)), s.flusher.m)
  {
    hide SlotAt, RunFrom, FlushSteps;
    MoreSteps(s, 0);
    NoSteps(FlusherStep(s));
  }

  /** From a flusher that looks at row `m`, the rows before `g` were written, and nothing else has changed. */
  ghost predicate Wrote(s: State, t: State, g: nat)
    requires |s.slots| > 0 && s.flusher.Scan?
  {
    && Gap(s, s.flusher.m, g, s.flusher.end) && g <= |s.log|
    && Freed(s.slots, t.slots, s.consumed, s.flusher.m, g)
    && t == s.(slots := t.slots, file := s.log[..g], flusher := StoreConsumed(g, s.flusher.end, s.flusher.final))
  }

  lemma WroteMore(s: State, u: State, t: State, g: nat)
    requires |s.slots| > 0 && s.flusher.Scan? && s.consumed <= s.flusher.m < s.flusher.end <= s.consumed + |s.slots|
    requires SlotAt(s.slots, s.flusher.m).ready && Freed(s.slots, u.slots, s.consumed, s.flusher.m, s.flusher.m + 1)
    requires u == s.(slots := u.slots, file := u.file, flusher := Scan(s.flusher.m + 1, s.flusher.end, s.flusher.final))
    requires Wrote(u, t, g)
    ensures Wrote(s, t, g)
  {
    hide Freed, Gap;
    FreedMore(s, u, t.slots, s.consumed, s.flusher.m, g, s.flusher.end);
  }

  /** Only the flusher moves, until it stops writing. */
  lemma {:induction false} WritesAlone(s: State) returns (k: nat, g: nat)
    requires Inv(s) && s.flusher.Scan?
    ensures |s.slots| > 0 && Wrote(s, RunFrom(s, FlushSteps(k)), g)
    decreases s.claimed - s.flusher.m
  {
    ScanBounds(s);
    hide *;
    if s.flusher.m != s.flusher.end && SlotAt(s.slots, s.flusher.m).ready {
      WritesRow(s);
      var u := FlusherStep(FlusherStep(FlusherStep(s)));
      k, g := WritesAlone(u);
      MoreSteps3(s, k);
      WroteMore(s, u, RunFrom(u, FlushSteps(k)), g);
      k := k + 3;
    } else {
      k, g := 1, s.flusher.m;
      WritesNone(s);
    }
  }

  /**
   A flush that no producer interrupts ends, and how: rows `s.consumed` to `g` were published, and `g` is the claimed
   count or was not; the file holds all rows before `g`, the consumed count is `g`, the slots of the written rows are
   free, and nothing else has changed. After the final one the footer accounts for every claimed row.
   */
  lemma FlushAlone(s: State, cap: nat, n: nat, final: bool) returns (k: nat, g: nat)
    requires 0 < cap < WORD && Reachable(s, cap, n) && s.flusher.Resting? && |s.slots| == cap
    requires (final ==> s.closed) && (final || s.consumed != s.claimed)
    ensures Gap(s, s.consumed, g, s.claimed) && g <= |s.log|
    ensures var t := RunFrom(s, [Flush(final)] + FlushSteps(k));
            && Freed(s.slots, t.slots, s.consumed, s.consumed, g)
            && t == s.(slots := t.slots, consumed := g, file := s.log[..g],
                       flusher := if final then Finished(Footer(g, s.overflow, s.late, s.claimed - g)) else Resting)
  {
    ReachableInv(s, cap, n);
    StepKeepsInv(s, Flush(final));
    var b := Step(s, Flush(final));
    assert b == s.(flusher := Scan(s.consumed, s.claimed, final));
    hide *;
    k, g := WritesAlone(b);
    var u := RunFrom(b, FlushSteps(k));
    var rest := if final then 3 else 1;
    RunFromAppend(b, FlushSteps(k), FlushSteps(rest));
    FlushStepsAppend(k, rest);
    EndsAfter(s, b, u, g, final);
    k := k + rest;
    RunFromConcat(s, Flush(final), FlushSteps(k));
  }

  lemma EndsAfter(s: State, b: State, u: State, g: nat, final: bool)
    requires |s.slots| > 0 && b == s.(flusher := Scan(s.consumed, s.claimed, final)) && Wrote(b, u, g)
    ensures Gap(s, s.consumed, g, s.claimed) && g <= |s.log| && |u.slots| > 0
    ensures var t := RunFrom(u, FlushSteps(if final then 3 else 1));
            && Freed(s.slots, t.slots, s.consumed, s.consumed, g)
            && t == s.(slots := t.slots, consumed := g, file := s.log[..g],
                       flusher := if final then Finished(Footer(g, s.overflow, s.late, s.claimed - g)) else Resting)
  {
    EndsAlone(u);
    SameGap(s, b, s.consumed, g, s.claimed);
    hide RunFrom, FlushSteps, Gap, SlotAt;
  }

  lemma SameGap(s: State, b: State, m: nat, g: nat, end: nat)
    requires b.slots == s.slots && |s.slots| > 0 && Gap(b, m, g, end)
    ensures Gap(s, m, g, end)
  {
  }

  lemma FlushStepsAppend(a: nat, b: nat)
    ensures FlushSteps(a) + FlushSteps(b) == FlushSteps(a + b)
  {
  }

  lemma {:induction false} EndsAlone(u: State)
    requires |u.slots| > 0 && u.flusher.StoreConsumed? && u.flusher.m <= u.flusher.end
    ensures RunFrom(u, FlushSteps(if u.flusher.final then 3 else 1))
         == u.(consumed := u.flusher.m, flusher := if !u.flusher.final then Resting
               else Finished(Footer(|u.file|, u.overflow, u.late, u.flusher.end - u.flusher.m)))
  {
    hide RunFrom, FlushSteps;
    if u.flusher.final {
      MoreSteps3(u, 0);
      NoSteps(FlusherStep(FlusherStep(FlusherStep(u))));
    } else {
      MoreSteps(u, 0);
      NoSteps(FlusherStep(u));
    }
  }

  /** What holds from the beginning of the final flush on; `end`, `overflow` and `late` are the counts at that time. */
  ghost predicate FinalFlush(s: State, end: nat, overflow: nat, late: nat) {
    && overflow <= s.overflow && late <= s.late
    && match s.flusher
       case Scan(_, e, final) => final && e == end
       case Format(_, e, final) => final && e == end
       case Clear(_, e, final) => final && e == end
       case StoreConsumed(_, e, final) => final && e == end
       case ReadOverflow(_, e) => e == end
       case ReadLate(_, e, o) => e == end && overflow <= o <= s.overflow
       case Finished(f) =>
         && f.rows == |s.file| && f.rows + f.unpublished == end
         && overflow <= f.overflow <= s.overflow && late <= f.late <= s.late
       case Resting => false
  }

  lemma FinalFlushStep(s: State, a: Action, end: nat, overflow: nat, late: nat)
    requires Inv(s) && FinalFlush(s, end, overflow, late)
    ensures FinalFlush(Step(s, a), end, overflow, late)
  {
    if a.FlushNext? {
      FinalFlushNext(s, end, overflow, late);
    } else {
      OthersOnlyCount(s, a);
      hide Inv, Step;
    }
  }

  lemma OthersOnlyCount(s: State, a: Action)
    requires |s.slots| > 0 && !a.FlushNext? && !s.flusher.Resting?
    ensures var t := Step(s, a);
            t.flusher == s.flusher && t.file == s.file && s.overflow <= t.overflow && s.late <= t.late
  {
    hide SlotAt, SetSlot, Full;
  }

  lemma FinalFlushNext(s: State, end: nat, overflow: nat, late: nat)
    requires Inv(s) && FinalFlush(s, end, overflow, late)
    ensures FinalFlush(FlusherStep(s), end, overflow, late)
  {
    hide SlotAt, SetSlot, Waiting, ProducerSound;
  }

  lemma {:induction false} FinalFlushRun(s: State, acts: seq<Action>, end: nat, overflow: nat, late: nat)
    requires Inv(s) && FinalFlush(s, end, overflow, late)
    ensures |s.slots| > 0 && FinalFlush(RunFrom(s, acts), end, overflow, late)
  {
    RunInv(s, []);
    hide Inv, Step, FinalFlush;
    if acts != [] {
      RunInv(s, acts[..|acts| - 1]);
      FinalFlushRun(s, acts[..|acts| - 1], end, overflow, late);
      FinalFlushStep(RunFrom(s, acts[..|acts| - 1]), acts[|acts| - 1], end, overflow, late);
    }
  }

  /**
   The footer in every run, whatever the producers do meanwhile: the rows in the file and the unpublished rows together
   are the claimed count that the final flush loaded, and the dropped rows are those counted up to some moment of it.
   */
  lemma {:induction false} FooterAccounts(s: State, cap: nat, n: nat, acts: seq<Action>)
    requires 0 < cap < WORD && Reachable(s, cap, n) && s.flusher.Resting? && s.closed && |s.slots| == cap
    requires RunFrom(Step(s, Flush(true)), acts).flusher.Finished?
    ensures var t := RunFrom(Step(s, Flush(true)), acts);
            var f := t.flusher.footer;
            && f.rows == |t.file| && f.rows + f.unpublished == s.claimed
            && s.overflow <= f.overflow <= t.overflow && s.late <= f.late <= t.late
  {
    ReachableInv(s, cap, n);
    StepKeepsInv(s, Flush(true));
    hide Inv;
    FinalFlushRun(Step(s, Flush(true)), acts, s.claimed, s.overflow, s.late);
  }

  // ----- accounting and shutdown -----

  /** How many calls are neither in the ring nor counted as dropped. */
  function Undecided(ps: seq<Producer>): nat {
    if ps == [] then 0 else Undecided(ps[..|ps| - 1]) + if ps[|ps| - 1].Undecided() then 1 else 0
  }

  lemma {:induction false} UndecidedUpdate(ps: seq<Producer>, p: nat, pc: Producer)
    requires p < |ps|
    ensures Undecided(ps[p := pc])
         == Undecided(ps) - (if ps[p].Undecided() then 1 else 0) + (if pc.Undecided() then 1 else 0)
  {
    var n := |ps| - 1;
    if p < n {
      UndecidedUpdate(ps[..n], p, pc);
      assert ps[p := pc][..n] == ps[..n][p := pc];
    } else {
      assert ps[p := pc][..n] == ps[..n];
    }
  }

  lemma {:induction false} NoneUndecided(ps: seq<Producer>)
    requires forall p | 0 <= p < |ps| :: !ps[p].Undecided()
    ensures Undecided(ps) == 0
  {
    if ps != [] {
      NoneUndecided(ps[..|ps| - 1]);
    }
  }

  /** Every call of `Write` has claimed a slot, has been counted as dropped, or is not decided. */
  ghost predicate CallsCounted(s: State) {
    s.calls == s.claimed + s.overflow + s.late + Undecided(s.producers)
  }

  lemma StepCounts(s: State, a: Action)
    requires |s.slots| > 0 && CallsCounted(s)
    ensures CallsCounted(Step(s, a))
  {
    hide SlotAt, SetSlot, Undecided;
    if (a.Begin? || a.Next?) && a.p < |s.producers| {
      UndecidedUpdate(s.producers, a.p, Step(s, a).producers[a.p]);
    }
  }

  /** No producer can still claim a slot. */
  ghost predicate NoClaims(ps: seq<Producer>) {
    forall p | 0 <= p < |ps| :: ps[p].Idle? || ps[p].CheckClosed? || ps[p].CountLate?
  }

  /** The flusher is not in the final flush, and has not been. */
  predicate NotFinal(f: Flusher) {
    match f
    case Resting => true
    case Scan(_, _, final) => !final
    case Format(_, _, final) => !final
    case Clear(_, _, final) => !final
    case StoreConsumed(_, _, final) => !final
    case _ => false
  }

  /** What holds once the ring is closed and no producer can claim; `decided` calls were decided by then. */
  ghost predicate ShuttingDown(s: State, decided: nat) {
    && s.closed && NoClaims(s.producers) && CallsCounted(s)
    && decided <= s.claimed + s.overflow + s.late
    && match s.flusher
       case Scan(m, end, final) => final ==> end == s.claimed
       case Format(m, end, final) => final ==> end == s.claimed
       case Clear(m, end, final) => final ==> end == s.claimed
       case StoreConsumed(m, end, final) => final ==> m == end == s.claimed
       case ReadOverflow(m, end) => m == end == s.claimed
       case ReadLate(m, end, overflow) => m == end == s.claimed && overflow == s.overflow
       case Finished(f) =>
         && s.consumed == s.claimed && f.rows == s.claimed && f.unpublished == 0 && f.overflow == s.overflow
         && decided <= s.claimed + s.overflow + f.late && f.late <= s.late
       case Resting => true
  }

  /** With no producer in the ring, every claimed row is published. */
  lemma AllPublished(s: State, j: nat)
    requires Inv(s) && NoClaims(s.producers) && Pos(s) <= j < s.claimed
    ensures SlotAt(s.slots, j).ready
  {
    hide SlotAt;
    assert Waiting(s, j);
  }

  lemma FlusherShutsDown(s: State, decided: nat)
    requires Inv(s) && ShuttingDown(s, decided)
    ensures ShuttingDown(FlusherStep(s), decided)
  {
    hide SlotAt, SetSlot, Undecided;
    if s.flusher.Scan? && s.flusher.m < s.claimed {
      AllPublished(s, s.flusher.m);
    }
  }

  lemma StepShutsDown(s: State, a: Action, decided: nat)
    requires Inv(s) && ShuttingDown(s, decided)
    ensures ShuttingDown(Step(s, a), decided)
  {
    hide SlotAt, SetSlot, Undecided;
    if a.FlushNext? {
      FlusherShutsDown(s, decided);
    } else {
      StepCounts(s, a);
    }
  }

  lemma {:induction false} RunShutsDown(s: State, acts: seq<Action>, decided: nat)
    requires Inv(s) && ShuttingDown(s, decided)
    ensures |s.slots| > 0 && ShuttingDown(RunFrom(s, acts), decided)
  {
    RunInv(s, []);
    hide Inv, Step, ShuttingDown;
    if acts != [] {
      RunInv(s, acts[..|acts| - 1]);
      RunShutsDown(s, acts[..|acts| - 1], decided);
      StepShutsDown(RunFrom(s, acts[..|acts| - 1]), acts[|acts| - 1], decided);
    }
  }

  lemma {:induction false} RunCounts(cap: nat, n: nat, acts: seq<Action>)
    requires cap > 0
    ensures CallsCounted(Run(cap, n, acts))
  {
    hide Step, CallsCounted;
    if acts == [] {
      NoneCalled(cap, n);
    } else {
      RunCounts(cap, n, acts[..|acts| - 1]);
      StepCounts(Run(cap, n, acts[..|acts| - 1]), acts[|acts| - 1]);
    }
  }

  lemma NoneCalled(cap: nat, n: nat)
    requires cap > 0
    ensures CallsCounted(Initial(cap, n))
  {
    NoneUndecided(Initial(cap, n).producers);
  }

  /**
   The final flush is done, and left nothing out: every claimed row is in the file, and every overflow in the footer.
   */
  ghost predicate Complete(s: State)
    requires s.flusher.Finished?
  {
    var f := s.flusher.footer;
    s.file == s.log && f.rows == |s.file| && f.unpublished == 0 && f.overflow == s.overflow
  }

  /**
   No silent loss at shutdown: if after `Close`, at some moment before the final flush, no producer could claim any
   more, then after the final flush every claimed row is in the file, none is unpublished, and the footer counts every
   call that was decided by that moment. If there were no calls besides these, rows, overflow and late add up to the
   calls, and a footer without errors means one row in the file for every call.
   */
  lemma {:induction false} NothingLostAtShutdown(s: State, cap: nat, n: nat, acts: seq<Action>)
    requires 0 < cap < WORD && Reachable(s, cap, n) && s.closed && NotFinal(s.flusher) && NoClaims(s.producers)
    requires |s.slots| > 0 && RunFrom(s, acts).flusher.Finished?
    ensures var t, decided := RunFrom(s, acts), s.claimed + s.overflow + s.late;
            var f := t.flusher.footer;
            && Complete(t)
            && decided <= f.rows + f.overflow + f.late <= t.calls
            && (Quiet(s.producers) ==> decided == s.calls)
            && (t.calls == decided ==> f.rows + f.overflow + f.late == t.calls)
            && (t.calls == decided && f.overflow == 0 && f.late == 0 ==> |t.file| == t.calls)
  {
    hide Undecided;
    ReachableInv(s, cap, n);
    var before :| Run(cap, n, before) == s;
    RunCounts(cap, n, before);
    RunInv(s, acts);
    RunShutsDown(s, acts, s.claimed + s.overflow + s.late);
    var t := RunFrom(s, acts);
    assert t.log[..|t.log|] == t.log;
    if Quiet(s.producers) {
      NoneUndecided(s.producers);
    }
  }

  // ----- the condition is exact -----

  /** How far the flusher is from the end of the final flush. */
  function Phase(f: Flusher): nat {
    if f.Finished? || f.ReadOverflow? || f.ReadLate? then 0 else if f.Resting? then 2 else if NotFinal(f) then 3 else 1
  }

  function Stage(f: Flusher): nat {
    match f
    case Scan(_, _, _) => 3
    case Format(_, _, _) => 2
    case Clear(_, _, _) => 1
    case ReadOverflow(_, _) => 2
    case ReadLate(_, _, _) => 1
    case _ => 0
  }

  /** Only the flusher moves, and finishes. */
  lemma {:induction false} FlushOut(s: State) returns (acts: seq<Action>)
    requires Inv(s) && s.closed
    ensures |s.slots| > 0
    ensures var t := RunFrom(s, acts);
            && t.flusher.Finished? && Inv(t)
            && t.producers == s.producers && t.log == s.log && t.claimed == s.claimed && t.overflow == s.overflow
    decreases Phase(s.flusher), s.claimed - Pos(s), Stage(s.flusher)
  {
    hide SlotAt, SetSlot;
    RunInv(s, []);
    if s.flusher.Finished? {
      acts := [];
    } else {
      var a := if s.flusher.Resting? then Flush(true) else FlushNext;
      StepKeepsInv(s, a);
      hide Inv;
      var rest := FlushOut(Step(s, a));
      acts := [a] + rest;
      RunFromConcat(s, a, rest);
    }
  }

  lemma {:induction false} RunFromConcat(s: State, a: Action, rest: seq<Action>)
    requires |s.slots| > 0
    ensures RunFrom(s, [a] + rest) == RunFrom(Step(s, a), rest)
  {
    hide Step;
    if rest == [] {
      assert [a] + rest == [a] && [a][..0] == [];
      assert RunFrom(s, [a][..0]) == s;
    } else {
      var n := |rest| - 1;
      assert ([a] + rest)[..n + 1] == [a] + rest[..n];
      RunFromConcat(s, a, rest[..n]);
    }
  }

  /** How far a producer that has not claimed yet is from claiming a slot, or from counting its row as dropped. */
  function Distance(s: State, p: nat): nat
    requires p < |s.producers|
  {
    match s.producers[p]
    case LoadClaimed(_) => 6
    case LoadConsumed(_, i) => if i == s.claimed then 2 else 5
    case Claim(_, i) => if i == s.claimed then 1 else 4
    case _ => 0
  }

  /** Only producer `p` moves, after the final flush: it claims a slot, or counts an overflow. */
  lemma {:induction false} LateRow(s: State, p: nat) returns (acts: seq<Action>)
    requires Inv(s) && p < |s.producers| && s.flusher.Finished?
    requires s.producers[p].LoadClaimed? || s.producers[p].LoadConsumed? || s.producers[p].Claim? ||
             s.producers[p].CountOverflow?
    ensures |s.slots| > 0
    ensures var t := RunFrom(s, acts);
            && t.flusher == s.flusher && t.file == s.file
            && (|t.log| > |s.log| || t.overflow > s.overflow)
    decreases Distance(s, p)
  {
    hide SlotAt, SetSlot, Full;
    RunInv(s, []);
    var a := Next(p, false);
    StepKeepsInv(s, a);
    OneStep(s, a);
    hide Inv;
    if s.producers[p].CountOverflow? || (s.producers[p].Claim? && s.producers[p].i == s.claimed) {
      acts := [a];
    } else {
      var rest := LateRow(Step(s, a), p);
      acts := [a] + rest;
      RunFromConcat(s, a, rest);
    }
  }

  lemma {:induction false} OneStep(s: State, a: Action)
    requires |s.slots| > 0
    ensures RunFrom(s, [a]) == Step(s, a)
  {
    RunFromConcat(s, a, []);
    assert [a] + [] == [a];
  }

  lemma {:induction false} RunFromAppend(s: State, a: seq<Action>, b: seq<Action>)
    requires |s.slots| > 0
    ensures RunFrom(s, a + b) == RunFrom(RunFrom(s, a), b)
  {
    hide Step;
    if b == [] {
      assert a + b == a;
    } else {
      var n := |b| - 1;
      assert (a + b)[..|a| + n] == a + b[..n];
      RunFromAppend(s, a, b[..n]);
    }
  }

  /** A producer that owns a slot or can still claim one spoils a final flush that begins now. */
  lemma {:induction false} SpoilFlush(s: State, p: nat) returns (acts: seq<Action>)
    requires Inv(s) && s.closed && p < |s.producers|
    requires !s.producers[p].Idle? && !s.producers[p].CheckClosed? && !s.producers[p].CountLate?
    ensures |s.slots| > 0 && RunFrom(s, acts).flusher.Finished? && !Complete(RunFrom(s, acts))
  {
    acts := FlushOut(s);
    var t := RunFrom(s, acts);
    if s.producers[p].Owns() {
      OwnedIsNotFlushed(t, p);
    } else if Complete(t) {
      hide Inv;
      var rest := LateRow(t, p);
      RunFromAppend(s, acts, rest);
      acts := acts + rest;
    }
  }

  lemma OwnedIsNotFlushed(t: State, p: nat)
    requires Inv(t) && t.flusher.Finished? && p < |t.producers| && t.producers[p].Owns()
    ensures |t.file| < |t.log|
  {
    assert ProducerSound(t, p);
  }

  /**
   Exactly when nothing is lost: at a moment after `Close` and before the final flush, every way to go on leaves every
   claimed row in the file and every overflow in the footer, if and only if no producer owns a slot or can still claim
   one.
   */
  lemma {:induction false} CompleteIff(s: State, cap: nat, n: nat)
    requires 0 < cap < WORD && Reachable(s, cap, n) && s.closed && NotFinal(s.flusher)
    ensures |s.slots| > 0
    ensures NoClaims(s.producers) <==> forall acts | RunFrom(s, acts).flusher.Finished? :: Complete(RunFrom(s, acts))
  {
    hide RunFrom, Complete, Inv;
    ReachableInv(s, cap, n);
    if NoClaims(s.producers) {
      forall acts | RunFrom(s, acts).flusher.Finished?
        ensures Complete(RunFrom(s, acts))
      {
        NothingLostAtShutdown(s, cap, n, acts);
      }
    } else {
      var p :| && 0 <= p < |s.producers|
               && !(s.producers[p].Idle? || s.producers[p].CheckClosed? || s.producers[p].CountLate?);
      var acts := SpoilFlush(s, p);
    }
  }

  /**
   The condition is needed: a row claimed after the final flush has begun is neither in the file nor in its footer.
   */
  lemma LostAfterClose()
    ensures exists s: State :: Reachable(s, 1, 1) && s.flusher == Finished(Footer(0, 0, 0, 0)) && s.calls == 1
                               && Quiet(s.producers) && s.file == [] && s.log == [[5]]
  {
    hide Reachable;
    ReachInitial(1, 1);
    var a := LoadsClaimed(Initial(1, 1), 1, 1, 0, [5]);
    ReachStep(a, 1, 1, Close);
    var b := Step(a, Close);
    ReachStep(b, 1, 1, Flush(true));
    var c := Step(b, Flush(true));
    for k := 0 to 4
      invariant Reachable(c, 1, 1)
      invariant c.producers == a.producers && c.slots == a.slots && c.closed
      invariant c == b.(flusher := c.flusher)
      invariant c.flusher == (match k case 0 => Scan(0, 0, true)
                                      case 1 => StoreConsumed(0, 0, true)
                                      case 2 => ReadOverflow(0, 0)
                                      case 3 => ReadLate(0, 0, 0)
                                      case _ => Finished(Footer(0, 0, 0, 0)))
    {
      ReachStep(c, 1, 1, FlushNext);
      c := Step(c, FlushNext);
    }
    var d := ClaimsAndPublishes(c, 1, 1, 0);
    assert Quiet(d.producers);
  }

  // ----- the capacity -----

  function Pow2(k: nat): nat {
    if k == 0 then 1 else 2 * Pow2(k - 1)
  }

  /** The capacity is the smallest power of two that is at least `n`. */
  method RoundUpPow2(n: nat) returns (c: nat)
    ensures c >= n && exists k: nat :: c == Pow2(k) && (k > 0 ==> Pow2(k - 1) < n)
  {
    c := 1;
    ghost var k: nat := 0;
    while c < n
      invariant c == Pow2(k) && c >= 1 && (k > 0 ==> Pow2(k - 1) < n)
      decreases n - c
    {
      c := 2 * c;
      k := k + 1;
    }
  }
}
