/**
 The per-frame arrival summary of one slot of the ring: a single writer and a reader under a sequence lock, as an
 interleaving machine whose steps are the loads and stores of either.
 */
module Seqlock {
  import opened Common

  datatype Arrived = Arrived(ts: uint32, at: int)

  /** The fields under the lock; `key` is the timestamp of the frame. */
  datatype Entry = Entry(key: Option<uint32>, first: int, last: int, n: nat)

  const EMPTY := Entry(None, 0, 0, 0)

  // ----- what an entry means -----

  /** The first of the packets at the end that all belong to one frame. */
  function Opened(ps: seq<Arrived>): (i: nat)
    requires ps != []
    ensures i < |ps| && (forall j | i <= j < |ps| :: ps[j].ts == ps[|ps| - 1].ts) &&
            (i > 0 ==> ps[i - 1].ts != ps[|ps| - 1].ts)
  {
    var n := |ps| - 1;
    if n == 0 || ps[n - 1].ts != ps[n].ts then n else Opened(ps[..n])
  }

  /** The earliest arrival in `lo..hi`. */
  function Earliest(ps: seq<Arrived>, lo: nat, hi: nat): (m: int)
    requires lo < hi <= |ps|
    ensures (forall j | lo <= j < hi :: m <= ps[j].at) && exists j | lo <= j < hi :: ps[j].at == m
  {
    if lo + 1 == hi then ps[lo].at
    else
      var m := Earliest(ps, lo, hi - 1);
      if ps[hi - 1].at < m then ps[hi - 1].at else m
  }

  /** The entry after some packets: it summarises those of the last frame since it was opened. */
  function EntryOf(ps: seq<Arrived>): Entry {
    if ps == [] then EMPTY
    else Entry(Some(ps[|ps| - 1].ts), Earliest(ps, Opened(ps), |ps|), ps[|ps| - 1].at, |ps| - Opened(ps))
  }

  /** What the writer makes of an entry. */
  function Extended(e: Entry, p: Arrived): Entry {
    if e.key == Some(p.ts) then Entry(e.key, if p.at < e.first then p.at else e.first, p.at, e.n + 1)
    else Entry(Some(p.ts), p.at, p.at, 1)
  }

  lemma {:induction false} EarliestOfPrefix(ps: seq<Arrived>, m: nat, lo: nat, hi: nat)
    requires lo < hi <= m <= |ps|
    ensures Earliest(ps[..m], lo, hi) == Earliest(ps, lo, hi)
  {
    if lo + 1 < hi {
      EarliestOfPrefix(ps, m, lo, hi - 1);
    }
  }

  lemma {:induction false} ExtendedIsEntryOf(ps: seq<Arrived>, p: Arrived)
    ensures EntryOf(ps + [p]) == Extended(EntryOf(ps), p)
  {
    var qs, n := ps + [p], |ps|;
    assert qs[..n] == ps;
    if n > 0 && ps[n - 1].ts == p.ts {
      assert qs[n - 1] == ps[n - 1];
      EarliestOfPrefix(qs, n, Opened(ps), n);
    }
  }

  // ----- the machine -----

  /** The writer is at store `stage` of one packet; `same`: the packet extends the entry. */
  datatype Writer = Resting | Writing(p: Arrived, same: bool, seq0: nat, stage: nat)

  datatype Reader =
    | NoLookup
    | LoadSeq(ts: uint32, attempt: nat)
    | LoadKey(ts: uint32, attempt: nat, s0: nat)
    | LoadFirst(ts: uint32, attempt: nat, s0: nat)
    | LoadLast(ts: uint32, attempt: nat, s0: nat, first: int)
    | LoadN(ts: uint32, attempt: nat, s0: nat, first: int, last: int)
    | Recheck(ts: uint32, attempt: nat, s0: nat, first: int, last: int, n: nat)
    | Found(ts: uint32, s0: nat, first: int, last: int, n: nat)
    | NotFound(ts: uint32)

  /** History: the packets whose write is finished, and how many there were when the lookup began. */
  datatype State = State(sequence: nat, e: Entry, writer: Writer, reader: Reader, done: seq<Arrived>, since: nat)

  const INITIAL := State(0, EMPTY, Resting, NoLookup, [], 0)

  /** The field stores of one packet, in the writer's order. */
  function Store(e: Entry, p: Arrived, same: bool, stage: nat): Entry {
    if same then
      match stage
      case 1 => e.(n := e.n + 1)
      case 2 => e.(last := p.at)
      case 3 => if p.at < e.first then e.(first := p.at) else e
      case _ => e
    else
      match stage
      case 1 => e.(key := Some(p.ts))
      case 2 => e.(first := p.at)
      case 3 => e.(last := p.at)
      case 4 => e.(n := 1)
      case _ => e
  }

  const LAST_STAGE := 5

  function WriterStep(s: State): State {
    match s.writer
    case Resting => s
    case Writing(p, same, seq0, stage) =>
      if stage == 0 then s.(sequence := seq0 + 1, writer := Writing(p, same, seq0, 1))
      else if stage < LAST_STAGE then s.(e := Store(s.e, p, same, stage), writer := Writing(p, same, seq0, stage + 1))
      else s.(sequence := seq0 + 2, writer := Resting, done := s.done + [p])
  }

  const ATTEMPTS := 4

  function Retry(ts: uint32, attempt: nat): Reader {
    if attempt + 1 < ATTEMPTS then LoadSeq(ts, attempt + 1) else NotFound(ts)
  }

  function ReaderNext(s: State): Reader {
    match s.reader
    case LoadSeq(ts, attempt) => if s.sequence % 2 == 1 then Retry(ts, attempt) else LoadKey(ts, attempt, s.sequence)
    case LoadKey(ts, attempt, s0) => if s.e.key != Some(ts) then NotFound(ts) else LoadFirst(ts, attempt, s0)
    case LoadFirst(ts, attempt, s0) => LoadLast(ts, attempt, s0, s.e.first)
    case LoadLast(ts, attempt, s0, first) => LoadN(ts, attempt, s0, first, s.e.last)
    case LoadN(ts, attempt, s0, first, last) => Recheck(ts, attempt, s0, first, last, s.e.n)
    case Recheck(ts, attempt, s0, first, last, n) =>
      if s.sequence == s0 then Found(ts, s0, first, last, n) else Retry(ts, attempt)
    case _ => s.reader
  }

  datatype Action = Packet(p: Arrived) | Write | Lookup(ts: uint32) | Read

  /** One action; a packet while one is being written, or a lookup during another, changes nothing. */
  function Step(s: State, a: Action): State {
    match a
    case Packet(p) => if s.writer.Resting? then s.(writer := Writing(p, s.e.key == Some(p.ts), s.sequence, 0)) else s
    case Write => WriterStep(s)
    case Lookup(ts) =>
      if s.reader.NoLookup? || s.reader.Found? || s.reader.NotFound? then
        s.(reader := LoadSeq(ts, 0), since := |s.done|)
      else s
    case Read => s.(reader := ReaderNext(s))
  }

  function Run(acts: seq<Action>): State {
    if acts == [] then INITIAL else Step(Run(acts[..|acts| - 1]), acts[|acts| - 1])
  }

  // ----- the invariant -----

  /** The entry when the stores before `stage` are made. */
  function Stored(e: Entry, p: Arrived, same: bool, stage: nat): Entry {
    if stage <= 1 then e else Store(Stored(e, p, same, stage - 1), p, same, stage - 1)
  }

  ghost predicate WriterSound(s: State) {
    match s.writer
    case Resting => s.sequence == 2 * |s.done| && s.e == EntryOf(s.done)
    case Writing(p, same, seq0, stage) =>
      && seq0 == 2 * |s.done| && stage <= LAST_STAGE
      && s.sequence == seq0 + (if stage == 0 then 0 else 1)
      && (same <==> EntryOf(s.done).key == Some(p.ts))
      && s.e == Stored(EntryOf(s.done), p, same, stage)
  }

  /** What has been read since the sequence number was `s0`, if it still is. */
  ghost predicate ReaderSound(s: State) {
    && s.since <= |s.done|
    && match s.reader
       case LoadKey(_, _, s0) => Snapshot(s, s0)
       case LoadFirst(ts, _, s0) => Snapshot(s, s0) && (s.sequence == s0 ==> s.e.key == Some(ts))
       case LoadLast(ts, _, s0, first) =>
         Snapshot(s, s0) && (s.sequence == s0 ==> s.e.key == Some(ts) && s.e.first == first)
       case LoadN(ts, _, s0, first, last) =>
         Snapshot(s, s0) && (s.sequence == s0 ==> s.e.key == Some(ts) && s.e.first == first && s.e.last == last)
       case Recheck(ts, _, s0, first, last, n) =>
         Snapshot(s, s0) && (s.sequence == s0 ==> s.e == Entry(Some(ts), first, last, n))
       case Found(ts, s0, first, last, n) =>
         Snapshot(s, s0) && EntryOf(s.done[..s0 / 2]) == Entry(Some(ts), first, last, n)
       case _ => true
  }

  /** An even sequence number that was current at some time of the lookup. */
  ghost predicate Snapshot(s: State, s0: nat) {
    s0 % 2 == 0 && s.since <= s0 / 2 <= |s.done| && s0 <= s.sequence
  }

  ghost predicate Inv(s: State) {
    WriterSound(s) && ReaderSound(s)
  }

  /** The stores together do to the entry what one more packet should. */
  lemma {:induction false} StoresExtend(ps: seq<Arrived>, p: Arrived)
    ensures var e := EntryOf(ps);
            Stored(e, p, e.key == Some(p.ts), LAST_STAGE) == EntryOf(ps + [p])
  {
    var e := EntryOf(ps);
    ExtendedIsEntryOf(ps, p);
    hide EntryOf, Stored;
    var same := e.key == Some(p.ts);
    StoredNext(e, p, same, 1);
    StoredNext(e, p, same, 2);
    StoredNext(e, p, same, 3);
    StoredNext(e, p, same, 4);
  }

  lemma WriteKeepsInv(s: State)
    requires Inv(s)
    ensures Inv(WriterStep(s))
  {
    hide EntryOf, Stored, Store;
    if s.writer.Writing? {
      StoresExtend(s.done, s.writer.p);
      StoredNext(EntryOf(s.done), s.writer.p, s.writer.same, s.writer.stage);
      StoredNext(EntryOf(s.done), s.writer.p, s.writer.same, s.writer.stage + 1);
      if s.reader.Found? {
        assert (s.done + [s.writer.p])[..s.reader.s0 / 2] == s.done[..s.reader.s0 / 2];
      }
    }
  }

  lemma StoredNext(e: Entry, p: Arrived, same: bool, stage: nat)
    ensures stage <= 1 ==> Stored(e, p, same, stage) == e
    ensures stage >= 1 ==> Stored(e, p, same, stage + 1) == Store(Stored(e, p, same, stage), p, same, stage)
  {
  }

  lemma ReadKeepsInv(s: State)
    requires Inv(s)
    ensures Inv(s.(reader := ReaderNext(s)))
  {
    hide EntryOf, Stored, Store;
    if s.writer.Writing? {
      StoredNext(EntryOf(s.done), s.writer.p, s.writer.same, s.writer.stage);
    }
    assert s.done[..|s.done|] == s.done;
  }

  lemma StepKeepsInv(s: State, a: Action)
    requires Inv(s)
    ensures Inv(Step(s, a))
  {
    hide EntryOf, Stored, Store;
    match a
    case Packet(p) => StoredNext(EntryOf(s.done), p, s.e.key == Some(p.ts), 0);
    case Write => WriteKeepsInv(s);
    case Lookup(ts) =>
    case Read => ReadKeepsInv(s);
  }

  lemma {:induction false} RunInv(acts: seq<Action>)
    ensures Inv(Run(acts))
  {
    hide Inv, Step;
    if acts == [] {
      assert Inv(INITIAL) by { InitialInv(); }
    } else {
      RunInv(acts[..|acts| - 1]);
      StepKeepsInv(Run(acts[..|acts| - 1]), acts[|acts| - 1]);
    }
  }

  lemma InitialInv()
    ensures Inv(INITIAL)
  {
  }

  /** The entry after some packets, spelled out. */
  ghost predicate Summary(ps: seq<Arrived>, ts: uint32, first: int, last: int, n: nat) {
    && 0 < n <= |ps| && first <= last && ps[|ps| - 1] == Arrived(ts, last)
    && (forall i | |ps| - n <= i < |ps| :: ps[i].ts == ts && first <= ps[i].at)
    && (exists i | |ps| - n <= i < |ps| :: ps[i].at == first)
    && (|ps| - n > 0 ==> ps[|ps| - n - 1].ts != ts)
  }

  /** An entry is the summary of the packets of its frame since the slot was opened for it, and of nothing else. */
  lemma EntryIsSummary(ps: seq<Arrived>, ts: uint32, first: int, last: int, n: nat)
    ensures EntryOf(ps) == Entry(Some(ts), first, last, n) <==> Summary(ps, ts, first, last, n)
  {
    if Summary(ps, ts, first, last, n) {
      OpenedIs(ps, |ps| - n);
      assert ps[|ps| - 1].at == last;
    }
  }

  lemma {:induction false} OpenedIs(ps: seq<Arrived>, lo: nat)
    requires lo < |ps| && (forall i | lo <= i < |ps| :: ps[i].ts == ps[|ps| - 1].ts) &&
             (lo > 0 ==> ps[lo - 1].ts != ps[|ps| - 1].ts)
    ensures Opened(ps) == lo
  {
    var o := Opened(ps);
  }

  /**
   Coherence: in every run, a lookup that succeeds returns the entry as it was after `j` finished writes, at some time
   during the lookup. It belongs to the frame that was asked for: `n` packets since the slot was opened for it, the
   earliest of them at `first` and the newest at `last`.
   */
  lemma {:induction false} LookupIsCoherent(acts: seq<Action>)
    requires Run(acts).reader.Found?
    ensures var s := Run(acts);
            var Found(ts, s0, first, last, n) := s.reader;
            var j := s0 / 2;
            s.since <= j <= |s.done| && Summary(s.done[..j], ts, first, last, n)
  {
    hide EntryOf, Summary, Run;
    RunInv(acts);
    var s := Run(acts);
    EntryIsSummary(s.done[..s.reader.s0 / 2], s.reader.ts, s.reader.first, s.reader.last, s.reader.n);
  }

  /**
   A lookup that no write overlaps succeeds, in six loads, exactly when the slot is open for the frame it asks for.
   */
  lemma {:induction false} UndisturbedLookup(acts: seq<Action>, ts: uint32)
    requires Run(acts).writer.Resting?
    requires Run(acts).reader.NoLookup? || Run(acts).reader.Found? || Run(acts).reader.NotFound?
    ensures var s, e := Run(acts), EntryOf(Run(acts).done);
            var t := Step(Step(Step(Step(Step(Step(Step(s, Lookup(ts)), Read), Read), Read), Read), Read), Read);
            t.reader == if e.key == Some(ts) then Found(ts, s.sequence, e.first, e.last, e.n) else NotFound(ts)
  {
    hide EntryOf, Run;
    RunInv(acts);
  }

  /** A load of the reader that ends an attempt: a write is under way, or one has ended since the attempt began. */
  predicate Disturbed(s: State) {
    (s.reader.LoadSeq? && s.sequence % 2 == 1) || (s.reader.Recheck? && s.sequence != s.reader.s0)
  }

  /** A load of the reader that finds the slot open for another frame. */
  predicate Misses(s: State) {
    s.reader.LoadKey? && s.e.key != Some(s.reader.ts)
  }

  /** How many attempts of the lookup that began at action `i` were disturbed. */
  function Disturbances(acts: seq<Action>, i: nat): nat {
    if |acts| <= i + 1 then 0
    else
      var s := Run(acts[..|acts| - 1]);
      Disturbances(acts[..|acts| - 1], i) + if acts[|acts| - 1].Read? && Disturbed(s) then 1 else 0
  }

  /** How often it found the slot open for another frame. */
  function KeyMisses(acts: seq<Action>, i: nat): nat {
    if |acts| <= i + 1 then 0
    else
      var s := Run(acts[..|acts| - 1]);
      KeyMisses(acts[..|acts| - 1], i) + if acts[|acts| - 1].Read? && Misses(s) then 1 else 0
  }

  /** What one action does to a lookup: only its own loads count, and a disturbed one begins the next attempt. */
  lemma StepFails(s: State, a: Action)
    requires !a.Lookup? && !s.reader.NoLookup?
    ensures var r, r' := s.reader, Step(s, a).reader;
            && r'.ts == r.ts && !r'.NoLookup?
            && (!a.Read? || r.Found? || r.NotFound? ==> r' == r)
            && (a.Read? && Misses(s) ==> r'.NotFound?)
            && (a.Read? && Disturbed(s) ==>
                  r' == if r.attempt + 1 < 4 then LoadSeq(r.ts, r.attempt + 1) else NotFound(r.ts))
            && (a.Read? && !r.Found? && !r.NotFound? && !Misses(s) && !Disturbed(s) ==>
                  !r'.NotFound? && (!r'.Found? ==> r'.attempt == r.attempt))
  {
    hide Store;
  }

  /**
   Why a lookup fails, in every run: exactly if it found the slot open for another frame, or if four attempts were
   disturbed by writes. Until then it goes on, or has succeeded.
   */
  lemma {:induction false} FailsIff(acts: seq<Action>, i: nat, ts: uint32)
    requires i < |acts| && acts[i] == Lookup(ts) && forall k | i < k < |acts| :: !acts[k].Lookup?
    requires var r := Run(acts[..i]).reader; r.NoLookup? || r.Found? || r.NotFound?
    ensures var r, d, m := Run(acts).reader, Disturbances(acts, i), KeyMisses(acts, i);
            && (r.NotFound? <==> m > 0 || d == 4)
            && d <= 4 && !r.NoLookup? && r.ts == ts
            && (!r.NotFound? && !r.Found? ==> r.attempt == d)
  {
    var n := |acts| - 1;
    if i < n {
      assert acts[..n][..i] == acts[..i];
      FailsIff(acts[..n], i, ts);
      hide Run;
      StepFails(Run(acts[..n]), acts[n]);
    }
  }

  // ----- slots -----

  const ARRIVAL_RING := 1024

  function ArrivalSlot(ts: uint32): nat {
    ts / 90 % ARRIVAL_RING
  }

  /** Frames from 1 ms to 1023 ms apart have different slots, so that an entry lives that long. */
  lemma SlotsApart(a: uint32, b: uint32)
    requires 90 <= b - a <= 1023 * 90
    ensures ArrivalSlot(a) != ArrivalSlot(b)
  {
    assert 1 <= b / 90 - a / 90 <= 1023;
  }
}
