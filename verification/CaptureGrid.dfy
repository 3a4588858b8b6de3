/** The sender's capture grid: which slot is sent when, with which frame of which rung. */
module CaptureGrid {
  import opened Common
  import opened AnnexBIndex
  import opened CaptureTimeline

  // ----- rows -----

  /**
   One turn of the loop, as history: the point in time at which its wait began, the slot that it waited for, and the
   clock reading that ended the wait.
   */
  datatype Turn = Turn(begin: nat, awaited: int, wake: nat)

  /** Sent in its slot; found to have passed by a turn of the loop; or found to have passed after the stop request. */
  datatype Kind = Current(rung: nat, asked: nat, frame: AccessUnit, toEncoder: bool) | Missed | Drained

  /**
   One row of the frame trace. `read` is the clock reading that decided about the slot. A current slot went to the muxer
   from rung `rung`, after the requested rung was read at `asked`.
   */
  datatype Row = Row(idx: nat, slot: int, src: int, pts: int, turn: Turn, read: nat, kind: Kind) {
    predicate Sent() {
      kind.Current?
    }
  }

  /** The rung that is in use after some rows: that of the last sent one. */
  function RungAfter(rows: seq<Row>, initial: nat): nat {
    if rows == [] then initial
    else if rows[|rows| - 1].Sent() then rows[|rows| - 1].kind.rung
    else RungAfter(rows[..|rows| - 1], initial)
  }

  /** The files, and the slot length and the epoch in microseconds. */
  datatype Config = Config(rungs: seq<Rung>, phase: int, origin: int, interval: int, start: int) {
    ghost predicate Valid() {
      RungsOk(rungs, origin) && interval > 0
    }

    function N(): int
      requires rungs != []
    {
      |rungs[0].aus|
    }

    function File(slot: int): int
      requires rungs != [] && N() > 0
    {
      FileIdx(N(), phase, origin, slot)
    }

    predicate IdrSlot(slot: int)
      requires rungs != [] && N() > 0
    {
      rungs[0].aus[File(slot)].isIdr
    }

    /** When a slot begins. */
    function Begins(slot: int): int {
      start + slot * interval
    }

    function Pts(slot: int): int {
      slot * interval * 90 / 1000
    }
  }

  /**
   The environment at each point in time: the clock, the requested rung and the answer of the muxer; and when the sender
   is asked to stop.
   */
  datatype Env = Env(clock: nat -> int, want: nat -> nat, muxes: nat -> bool, stop: nat) {
    ghost predicate Valid(rungs: nat) {
      && (forall i, j | 0 <= i <= j :: clock(i) <= clock(j))
      && (forall t :: want(t) < rungs)
    }
  }

  /** What a row says is so; `pts` is the time since the epoch in ticks of 90 kHz. */
  ghost predicate RowOk(cfg: Config, env: Env, row: Row)
    requires cfg.Valid()
  {
    && row.src == SrcOf(cfg.N(), cfg.phase, row.slot)
    && 1000 * row.pts <= 90 * (cfg.Begins(row.slot) - cfg.start) < 1000 * (row.pts + 1)
    && (if row.Sent() then
          && cfg.Begins(row.slot) <= env.clock(row.read) < cfg.Begins(row.slot + 1)
          && row.kind.asked > row.read && row.kind.rung < |cfg.rungs|
          && cfg.File(row.slot) < |cfg.rungs[row.kind.rung].aus|
          && row.kind.frame == cfg.rungs[row.kind.rung].aus[cfg.File(row.slot)]
          && row.kind.toEncoder == env.muxes(row.kind.asked)
        else cfg.Begins(row.slot + 1) <= env.clock(row.read))
  }

  /** The rung of a sent row: the requested one at an IDR, and the one in use otherwise. */
  ghost predicate RungOk(cfg: Config, env: Env, rows: seq<Row>, i: nat, initial: nat)
    requires cfg.Valid() && i < |rows|
  {
    rows[i].Sent() ==>
      rows[i].kind.rung == if cfg.IdrSlot(rows[i].slot) then env.want(rows[i].kind.asked)
                           else RungAfter(rows[..i], initial)
  }

  /** The rows are those of consecutive slots from `first` on. */
  ghost predicate Covers(cfg: Config, env: Env, rows: seq<Row>, first: int, initial: nat)
    requires cfg.Valid()
  {
    && (forall i | 0 <= i < |rows| :: rows[i].idx == i && rows[i].slot == first + i && RowOk(cfg, env, rows[i]))
    && (forall i | 0 <= i < |rows| :: RungOk(cfg, env, rows, i, initial))
    && (forall i, j | 0 <= i < j < |rows| && rows[i].Sent() && rows[j].Sent() ::
          rows[i].kind.asked < rows[j].kind.asked)
  }

  lemma {:induction false} CoversSnoc(cfg: Config, env: Env, rows: seq<Row>, first: int, initial: nat, row: Row)
    requires cfg.Valid() && Covers(cfg, env, rows, first, initial)
    requires row.idx == |rows| && row.slot == first + |rows| && RowOk(cfg, env, row)
    requires row.Sent() ==> forall i | 0 <= i < |rows| && rows[i].Sent() :: rows[i].kind.asked < row.kind.asked
    requires row.Sent() ==>
               row.kind.rung == if cfg.IdrSlot(row.slot) then env.want(row.kind.asked) else RungAfter(rows, initial)
    ensures Covers(cfg, env, rows + [row], first, initial)
    ensures RungAfter(rows + [row], initial) == if row.Sent() then row.kind.rung else RungAfter(rows, initial)
  {
    var rows' := rows + [row];
    assert rows'[..|rows|] == rows;
    forall i | 0 <= i < |rows'|
      ensures RungOk(cfg, env, rows', i, initial)
    {
      assert i < |rows| ==> rows'[..i] == rows[..i] && RungOk(cfg, env, rows, i, initial);
    }
  }

  lemma MissedRowOk(cfg: Config, env: Env, row: Row)
    requires cfg.Valid() && row.src == SrcOf(cfg.N(), cfg.phase, row.slot) && row.pts == cfg.Pts(row.slot)
    requires !row.Sent() && cfg.Begins(row.slot + 1) <= env.clock(row.read)
    ensures RowOk(cfg, env, row)
  {
    PtsIsElapsed(cfg, row.slot);
  }

  lemma SentRowOk(cfg: Config, env: Env, row: Row)
    requires cfg.Valid() && row.src == SrcOf(cfg.N(), cfg.phase, row.slot) && row.pts == cfg.Pts(row.slot)
    requires row.Sent() && cfg.Begins(row.slot) <= env.clock(row.read) < cfg.Begins(row.slot + 1)
    requires row.kind.asked > row.read && row.kind.rung < |cfg.rungs| && row.kind.toEncoder == env.muxes(row.kind.asked)
    requires cfg.File(row.slot) < |cfg.rungs[row.kind.rung].aus|
    requires row.kind.frame == cfg.rungs[row.kind.rung].aus[cfg.File(row.slot)]
    ensures RowOk(cfg, env, row)
  {
    PtsIsElapsed(cfg, row.slot);
  }

  lemma PtsIsElapsed(cfg: Config, slot: int)
    ensures 1000 * cfg.Pts(slot) <= 90 * (cfg.Begins(slot) - cfg.start) < 1000 * (cfg.Pts(slot) + 1)
  {
  }

  /** The slot that is current at clock reading `now`. */
  lemma ResumeIsCurrent(cfg: Config, now: int, slot: int)
    requires cfg.interval > 0 && cfg.Begins(slot + 1) <= now
    ensures var resume := (now - cfg.start) / cfg.interval;
            slot < resume && cfg.Begins(resume) <= now < cfg.Begins(resume + 1)
  {
    var resume := (now - cfg.start) / cfg.interval;
    var r := (now - cfg.start) % cfg.interval;
    assert now - cfg.start == resume * cfg.interval + r;
    if resume <= slot {
      Multiple(slot + 1 - resume, cfg.interval);
    }
  }

  lemma CoversNone(cfg: Config, env: Env, first: int, initial: nat)
    requires cfg.Valid()
    ensures Covers(cfg, env, [], first, initial)
  {
  }

  /**
   `slot` is the first IDR slot, from slot 0 on, that begins after clock reading `now`; a reading within slot 0 does not
   count as late. It is less than one loop of the file away.
   */
  ghost predicate IsFirst(cfg: Config, now: int, slot: int)
    requires cfg.Valid()
  {
    var late := now >= cfg.Begins(1);
    var earliest := if late then (now - cfg.start) / cfg.interval + 1 else 0;
    && (late ==> cfg.Begins(earliest - 1) <= now < cfg.Begins(earliest))
    && 0 <= earliest <= slot < earliest + cfg.N() && cfg.IdrSlot(slot)
    && forall k | earliest <= k < slot :: !cfg.IdrSlot(k)
  }

  // ----- when a slot is sent -----

  /**
   A wait for the moment `us` that begins at point `begin` ends at clock reading `w`: the points are a look at the stop
   request and a clock reading in turn, and `w` is the first reading that is not before `us`.
   */
  ghost predicate WakesAt(env: Env, us: int, begin: nat, w: nat) {
    && begin < w && (w - begin) % 2 == 1 && w - 1 < env.stop && us <= env.clock(w)
    && forall v | begin < v < w && (v - begin) % 2 == 1 :: env.clock(v) < us
  }

  lemma WakesOnce(env: Env, us: int, begin: nat, v: nat, w: nat)
    requires WakesAt(env, us, begin, v) && WakesAt(env, us, begin, w)
    ensures v == w
  {
  }

  /**
   A turn waits for a slot and reads the clock once more. The slots that have passed by then are missed, and the current
   one is sent, after one more look at the stop request for each.
   */
  ghost predicate TurnOk(cfg: Config, env: Env, row: Row) {
    && !row.kind.Drained?
    && WakesAt(env, cfg.Begins(row.turn.awaited), row.turn.begin, row.turn.wake)
    && row.read == row.turn.wake + 1 && row.turn.awaited <= row.slot
    && (row.Sent() ==> row.kind.asked == row.turn.wake + 3 + row.slot - row.turn.awaited)
  }

  /** The point at which the turn for row `i` begins, when the row before it was sent; `t0` for the first turn. */
  function TurnBegin(rows: seq<Row>, i: nat, t0: nat): nat
    requires i <= |rows|
  {
    if i > 0 && rows[i - 1].Sent() then rows[i - 1].kind.asked + 2 else t0
  }

  /** After a missed slot the same turn goes on; after a sent one the next turn begins, and waits for the next slot. */
  ghost predicate Follows(rows: seq<Row>, i: nat, t0: nat)
    requires i < |rows|
  {
    if i > 0 && !rows[i - 1].Sent() then rows[i].turn == rows[i - 1].turn
    else rows[i].turn.begin == TurnBegin(rows, i, t0) && rows[i].turn.awaited == rows[i].slot
  }

  /** The first `n` rows are those of the turns of the loop, one after the other. */
  ghost predicate Timing(cfg: Config, env: Env, rows: seq<Row>, n: nat, t0: nat)
    requires n <= |rows|
  {
    forall i | 0 <= i < n :: TurnOk(cfg, env, rows[i]) && Follows(rows, i, t0)
  }

  /** If the wait ends at all, then the stop request comes before the look after it. */
  ghost predicate WokeTooLate(env: Env, us: int, begin: nat) {
    forall w: nat | WakesAt(env, us, begin, w) :: w + 2 >= env.stop
  }

  /**
   After these rows the stop request is what ended the loop: it came before the next look that the last turn had to
   make. That is the look before the next row of a turn that has missed slots, or the one after a wait that has
   ended.
   */
  ghost predicate Stopped(cfg: Config, env: Env, rows: seq<Row>, n: nat, first: int, t0: nat)
    requires n <= |rows|
  {
    if n > 0 && !rows[n - 1].Sent() then
      rows[n - 1].turn.wake + 3 + rows[n - 1].slot - rows[n - 1].turn.awaited >= env.stop
    else
      WokeTooLate(env, cfg.Begins(first + n), TurnBegin(rows, n, t0))
  }

  lemma TimingSnoc(cfg: Config, env: Env, rows: seq<Row>, t0: nat, row: Row)
    requires Timing(cfg, env, rows, |rows|, t0) && TurnOk(cfg, env, row)
    requires if rows != [] && !rows[|rows| - 1].Sent() then row.turn == rows[|rows| - 1].turn
             else row.turn.begin == TurnBegin(rows, |rows|, t0) && row.turn.awaited == row.slot
    ensures Timing(cfg, env, rows + [row], |rows| + 1, t0)
  {
    hide TurnOk;
    var rows' := rows + [row];
    assert forall i | 0 <= i < |rows| :: rows'[i] == rows[i];
    forall i | 0 <= i < |rows'|
      ensures Follows(rows', i, t0)
    {
      assert i < |rows| ==> Follows(rows, i, t0);
    }
  }

  lemma TimingPrefix(cfg: Config, env: Env, rows: seq<Row>, n: nat, first: int, t0: nat, row: Row)
    requires n <= |rows| && Timing(cfg, env, rows, n, t0) && Stopped(cfg, env, rows, n, first, t0)
    ensures Timing(cfg, env, rows + [row], n, t0) && Stopped(cfg, env, rows + [row], n, first, t0)
  {
    hide TurnOk, WokeTooLate;
    var rows' := rows + [row];
    assert forall i | 0 <= i < |rows| :: rows'[i] == rows[i];
    forall i | 0 <= i < n
      ensures Follows(rows', i, t0)
    {
      assert Follows(rows, i, t0);
    }
  }

  class Grid {
    const cfg: Config
    const env: Env
    /** The first rung. */
    ghost const initial: nat
    /** How many points in time have passed. */
    var time: nat
    var curRung: nat
    var rows: seq<Row>

    ghost predicate Valid() {
      cfg.Valid() && env.Valid(|cfg.rungs|)
    }

    /** The rows so far, and the next slot. */
    ghost predicate At(first: int, slot: int)
      reads this
      requires Valid()
    {
      && slot == first + |rows| && Covers(cfg, env, rows, first, initial)
      && curRung == RungAfter(rows, initial) < |cfg.rungs|
      && forall i | 0 <= i < |rows| && rows[i].Sent() :: rows[i].kind.asked < time
    }

    /** The loop is between two turns: the next one begins after a look at the stop request. */
    ghost predicate Between(t0: nat)
      reads this
    {
      && Timing(cfg, env, rows, |rows|, t0) && (rows != [] ==> rows[|rows| - 1].Sent())
      && time + 1 == TurnBegin(rows, |rows|, t0)
    }

    constructor (cfg: Config, env: Env, initial: nat)
      requires cfg.Valid() && env.Valid(|cfg.rungs|) && initial < |cfg.rungs|
      ensures this.cfg == cfg && this.env == env && this.initial == initial && Valid()
      ensures rows == [] && curRung == initial && time == 0
    {
      this.cfg, this.env, this.initial := cfg, env, initial;
      time, curRung, rows := 0, initial, [];
    }

    method Now() returns (us: int)
      modifies this`time
      ensures us == env.clock(old(time)) && time == old(time) + 1
    {
      us := env.clock(time);
      time := time + 1;
    }

    method Running() returns (r: bool)
      modifies this`time
      ensures r == (old(time) < env.stop) && time == old(time) + 1
    {
      r := time < env.stop;
      time := time + 1;
    }

    /** Waits for a moment; false if the sender is stopped first. */
    method SleepUntil(us: int) returns (ok: bool)
      modifies this`time
      ensures time > old(time)
      ensures ok ==> WakesAt(env, us, old(time), time - 1)
      ensures !ok ==> forall w: nat :: !WakesAt(env, us, old(time), w)
    {
      ok := false;
      var running := Running();
      while running
        invariant time > old(time) && (time - old(time)) % 2 == 1 && (running <==> time <= env.stop)
        invariant forall v | old(time) < v < time && (v - old(time)) % 2 == 1 :: env.clock(v) < us
        decreases env.stop - time, running
      {
        var now := Now();
        if now >= us {
          return true;
        }
        running := Running();
      }
    }

    /** A slot that has passed. */
    method EmitMissed(slot: int, idx: nat, turn: Turn, read: nat, kind: Kind) returns (idx': nat)
      requires Valid() && idx == |rows| && !kind.Current?
      modifies this`rows
      ensures idx' == idx + 1
      ensures rows == old(rows) + [Row(idx, slot, SrcOf(cfg.N(), cfg.phase, slot), cfg.Pts(slot), turn, read, kind)]
    {
      var src, pts := SrcOf(cfg.N(), cfg.phase, slot), slot * cfg.interval * 90 / 1000;
      rows := rows + [Row(idx, slot, src, pts, turn, read, kind)];
      idx' := idx + 1;
    }

    /** The current slot: the rung is switched only at an IDR, and the frame of the slot goes to the muxer. */
    method EmitSlot(slot: int, idx: nat, target: int, turn: Turn, read: nat) returns (idx': nat)
      requires Valid() && idx == |rows| && curRung < |cfg.rungs| && target == cfg.Begins(slot)
      modifies this
      ensures idx' == idx + 1 && time == old(time) + 1 && curRung < |cfg.rungs|
      ensures curRung == if cfg.IdrSlot(slot) then env.want(old(time)) else old(curRung)
      ensures cfg.File(slot) < |cfg.rungs[curRung].aus|
      ensures var frame := cfg.rungs[curRung].aus[cfg.File(slot)];
              var kind := Current(curRung, old(time), frame, env.muxes(old(time)));
              rows == old(rows) + [Row(idx, slot, SrcOf(cfg.N(), cfg.phase, slot), cfg.Pts(slot), turn, read, kind)]
    {
      var src := SrcOf(cfg.N(), cfg.phase, slot);
      var fi := cfg.File(slot);
      var want := env.want(time);
      if want != curRung && cfg.rungs[0].aus[fi].isIdr {
        curRung := want;
      }
      assert SameShape(cfg.rungs[curRung].aus, cfg.rungs[0].aus);
      var au := cfg.rungs[curRung].aus[fi];
      var pts := (target - cfg.start) * 90 / 1000;
      rows := rows + [Row(idx, slot, src, pts, turn, read, Current(curRung, time, au, env.muxes(time)))];
      time := time + 1;
      idx' := idx + 1;
    }

    /** The next slot with an IDR, at most one loop of the file away. */
    method NextIdrSlot(from: int) returns (slot: int)
      requires Valid()
      ensures from <= slot < from + cfg.N() && cfg.IdrSlot(slot) && forall k | from <= k < slot :: !cfg.IdrSlot(k)
    {
      slot := from;
      ghost var z := IdrWithin(cfg, from);
      while !cfg.rungs[0].aus[cfg.File(slot)].isIdr
        invariant from <= slot <= z && forall k | from <= k < slot :: !cfg.IdrSlot(k)
        decreases z - slot
      {
        slot := slot + 1;
      }
    }

    /** Where the grid begins: at the first IDR slot that is not in the past. */
    method FirstSlot() returns (slot: int)
      requires Valid()
      modifies this`time
      ensures time == old(time) + 1
      ensures IsFirst(cfg, env.clock(old(time)), slot)
    {
      hide FileIdx, RungsOk;
      slot := NextIdrSlot(0);
      var t0 := Now();
      if t0 >= cfg.start + cfg.interval {
        ResumeIsCurrent(cfg, t0, 0);
        var behind := (t0 - cfg.start) / cfg.interval + 1;
        slot := NextIdrSlot(if slot > behind then slot else behind);
      }
    }

    /** Rows for the slots that had passed at the clock reading after the wait of `turn`, up to `until`. */
    method CatchUp(first: int, idx: nat, until: int, turn: Turn, ghost t0: nat) returns (slot: int, idx': nat)
      requires Valid() && At(first, turn.awaited) && idx == |rows| && turn.awaited < until
      requires cfg.Begins(until) <= env.clock(turn.wake + 1) && time == turn.wake + 2
      requires Timing(cfg, env, rows, |rows|, t0) && (rows != [] ==> rows[|rows| - 1].Sent())
      requires turn.begin == TurnBegin(rows, |rows|, t0)
      requires WakesAt(env, cfg.Begins(turn.awaited), turn.begin, turn.wake)
      modifies this`rows, this`time
      ensures At(first, slot) && idx' == |rows| && Timing(cfg, env, rows, |rows|, t0)
      ensures turn.awaited <= slot <= until && time > old(time)
      ensures slot < until ==> turn.wake + 2 + slot - turn.awaited >= env.stop
      ensures slot == until ==> time == turn.wake + 2 + slot - turn.awaited
      ensures slot == turn.awaited ==> rows == old(rows)
      ensures slot > turn.awaited ==>
                && rows[|rows| - 1].kind.Missed? && rows[|rows| - 1].turn == turn && rows[|rows| - 1].slot == slot - 1
    {
      hide Covers, RungAfter, RowOk, Timing, WakesAt;
      slot, idx' := turn.awaited, idx;
      var running := true;
      while slot < until && running
        invariant At(first, slot) && idx' == |rows| && Timing(cfg, env, rows, |rows|, t0)
        invariant turn.awaited <= slot <= until && (slot > turn.awaited || !running ==> time > old(time))
        invariant time == turn.wake + 2 + slot - turn.awaited + if running then 0 else 1
        invariant slot < until && !running ==> turn.wake + 2 + slot - turn.awaited >= env.stop
        invariant slot == until ==> running
        invariant slot == turn.awaited ==> rows == old(rows)
        invariant slot > turn.awaited ==>
                    && rows[|rows| - 1].kind.Missed? && rows[|rows| - 1].turn == turn
                    && rows[|rows| - 1].slot == slot - 1
        decreases until - slot, running
      {
        running := Running();
        if running {
          BeginsMonotone(cfg, slot + 1, until);
          ghost var src := SrcOf(cfg.N(), cfg.phase, slot);
          ghost var row := Row(idx', slot, src, cfg.Pts(slot), turn, turn.wake + 1, Missed);
          MissedRowOk(cfg, env, row);
          CoversSnoc(cfg, env, rows, first, initial, row);
          TimingSnoc(cfg, env, rows, t0, row);
          idx' := EmitMissed(slot, idx', turn, turn.wake + 1, Missed);
          slot := slot + 1;
        }
      }
    }

    /**
     The whole run: one row for every slot from the first one on, up to and including every slot that had passed at the
     last clock reading; each row and each choice of rung is as `Covers` says. The first `played` rows are those of the
     turns of the loop, which only the stop request ends; the others are the slots that have passed after that.
     */
    method GridLoop() returns (first: int, ghost played: nat)
      requires Valid() && rows == [] && curRung == initial < |cfg.rungs|
      modifies this
      ensures Covers(cfg, env, rows, first, initial) && curRung == RungAfter(rows, initial)
      ensures IsFirst(cfg, env.clock(old(time)), first)
      ensures time > 0 && env.clock(time - 1) < cfg.Begins(first + |rows| + 1)
      ensures played <= |rows| && Timing(cfg, env, rows, played, old(time) + 2)
      ensures Stopped(cfg, env, rows, played, first, old(time) + 2)
      ensures forall i | played <= i < |rows| :: rows[i].kind.Drained? && rows[i].read == time - 1
    {
      hide RowOk, Covers, IsFirst, Config.Begins, WakesAt;
      ghost var t0 := time + 2;
      first := FirstSlot();
      CoversNone(cfg, env, first, initial);
      var slot, idx, go := first, 0, true;
      while go
        invariant At(first, slot) && idx == |rows| && Timing(cfg, env, rows, |rows|, t0)
        invariant go ==> Between(t0)
        invariant !go ==> Stopped(cfg, env, rows, |rows|, first, t0)
        decreases go, env.stop - time
      {
        var running := Running();
        if !running {
          NoTurn(cfg, env, rows, first, t0);
          go := false;
        } else {
          slot, idx, go := OneSlot(first, slot, idx, t0);
        }
      }
      played := |rows|;
      slot, idx := Drain(first, slot, idx, played, t0);
    }

    /** After the last turn: the slots that have passed by now. */
    method Drain(first: int, from: int, idx: nat, ghost played: nat, ghost t0: nat) returns (slot: int, idx': nat)
      requires Valid() && At(first, from) && idx == |rows| == played && Timing(cfg, env, rows, played, t0)
      requires Stopped(cfg, env, rows, played, first, t0)
      modifies this`rows, this`time
      ensures At(first, slot) && idx' == |rows| >= played && Timing(cfg, env, rows, played, t0)
      ensures Stopped(cfg, env, rows, played, first, t0)
      ensures time > 0 && env.clock(time - 1) < cfg.Begins(slot + 1)
      ensures forall i | played <= i < |rows| :: rows[i].kind.Drained? && rows[i].read == time - 1
    {
      hide RowOk, Covers, RungAfter, Timing, WakesAt, Stopped;
      slot, idx' := from, idx;
      var now := Now();
      while cfg.start + (slot + 1) * cfg.interval <= now
        invariant At(first, slot) && idx' == |rows| >= played && Timing(cfg, env, rows, played, t0)
        invariant Stopped(cfg, env, rows, played, first, t0)
        invariant time > 0 && now == env.clock(time - 1)
        invariant forall i | played <= i < |rows| :: rows[i].kind.Drained? && rows[i].read == time - 1
        decreases now - cfg.Begins(slot)
      {
        ghost var src := SrcOf(cfg.N(), cfg.phase, slot);
        ghost var row := Row(idx', slot, src, cfg.Pts(slot), Turn(0, 0, 0), time - 1, Drained);
        MissedRowOk(cfg, env, row);
        CoversSnoc(cfg, env, rows, first, initial, row);
        TimingPrefix(cfg, env, rows, played, first, t0, row);
        idx' := EmitMissed(slot, idx', Turn(0, 0, 0), time - 1, Drained);
        slot := slot + 1;
      }
    }

    /** One turn of the loop: the slots that have passed, and the current one; `go` is false after a stop request. */
    method OneSlot(first: int, from: int, idx: nat, ghost t0: nat) returns (slot: int, idx': nat, go: bool)
      requires Valid() && At(first, from) && idx == |rows| && Timing(cfg, env, rows, |rows|, t0)
      requires (rows != [] ==> rows[|rows| - 1].Sent()) && time == TurnBegin(rows, |rows|, t0)
      modifies this
      ensures At(first, slot) && idx' == |rows| && time > old(time) && Timing(cfg, env, rows, |rows|, t0)
      ensures if go then Between(t0) else Stopped(cfg, env, rows, |rows|, first, t0)
    {
      hide RowOk, Covers, RungAfter, Timing, WakesAt, Stopped, FileIdx, RungsOk, Config.Pts;
      slot, idx', go := from, idx, false;
      var begin := time;
      var target := cfg.start + slot * cfg.interval;
      var ok := SleepUntil(target);
      if !ok {
        NeverWoke(cfg, env, rows, begin, slot, first, t0);
        return;
      }
      var turn := Turn(begin, from, time - 1);
      var now := Now();
      if now >= cfg.start + (slot + 1) * cfg.interval {
        ResumeIsCurrent(cfg, now, slot);
        var resume := (now - cfg.start) / cfg.interval;
        slot, idx' := CatchUp(first, idx', resume, turn, t0);
        if slot < resume {
          CaughtUpStop(cfg, env, rows, turn, slot, first, t0);
          return;
        }
        target := cfg.start + slot * cfg.interval;
      }
      var running := Running();
      if !running {
        CaughtUpStop(cfg, env, rows, turn, slot, first, t0);
        return;
      }
      idx' := SendCurrent(first, slot, idx', target, turn, t0);
      slot, go := slot + 1, true;
    }

    method SendCurrent(first: int, slot: int, idx: nat, target: int, turn: Turn, ghost t0: nat) returns (idx': nat)
      requires Valid() && At(first, slot) && idx == |rows| && target == cfg.Begins(slot)
      requires cfg.Begins(slot) <= env.clock(turn.wake + 1) < cfg.Begins(slot + 1)
      requires Timing(cfg, env, rows, |rows|, t0) && turn.awaited <= slot
      requires time == turn.wake + 3 + slot - turn.awaited
      requires WakesAt(env, cfg.Begins(turn.awaited), turn.begin, turn.wake)
      requires if slot == turn.awaited then
                 (rows != [] ==> rows[|rows| - 1].Sent()) && turn.begin == TurnBegin(rows, |rows|, t0)
               else rows != [] && rows[|rows| - 1].kind.Missed? && rows[|rows| - 1].turn == turn
      modifies this
      ensures At(first, slot + 1) && idx' == |rows| && time > old(time) && Between(t0)
    {
      hide Covers, RungAfter, Config.Pts, SrcOf, FileIdx, Config.Begins, WakesAt, Timing;
      ghost var rung := if cfg.IdrSlot(slot) then env.want(time) else curRung;
      InEveryRung(cfg, rung, slot);
      ghost var src := SrcOf(cfg.N(), cfg.phase, slot);
      ghost var kind := Current(rung, time, cfg.rungs[rung].aus[cfg.File(slot)], env.muxes(time));
      ghost var row := Row(idx, slot, src, cfg.Pts(slot), turn, turn.wake + 1, kind);
      SentRowOk(cfg, env, row);
      CoversSnoc(cfg, env, rows, first, initial, row);
      TimingSnoc(cfg, env, rows, t0, row);
      idx' := EmitSlot(slot, idx, target, turn, turn.wake + 1);
    }
  }

  /** The file index is valid in every rung. */
  lemma InEveryRung(cfg: Config, rung: nat, slot: int)
    requires cfg.Valid() && rung < |cfg.rungs|
    ensures cfg.File(slot) < |cfg.rungs[rung].aus|
  {
    assert SameShape(cfg.rungs[rung].aus, cfg.rungs[0].aus);
  }

  /** No turn begins after the stop request. */
  lemma NoTurn(cfg: Config, env: Env, rows: seq<Row>, first: int, t0: nat)
    requires TurnBegin(rows, |rows|, t0) > env.stop && (rows != [] ==> rows[|rows| - 1].Sent())
    ensures Stopped(cfg, env, rows, |rows|, first, t0)
  {
  }

  /** A wait that the stop request has ended. */
  lemma NeverWoke(cfg: Config, env: Env, rows: seq<Row>, begin: nat, slot: int, first: int, t0: nat)
    requires slot == first + |rows| && begin == TurnBegin(rows, |rows|, t0) && (rows != [] ==> rows[|rows| - 1].Sent())
    requires forall w: nat :: !WakesAt(env, cfg.Begins(slot), begin, w)
    ensures Stopped(cfg, env, rows, |rows|, first, t0)
  {
  }

  /** A turn that has woken ends before its next row only if the stop request came before its next look. */
  lemma CaughtUpStop(cfg: Config, env: Env, rows: seq<Row>, turn: Turn, slot: int, first: int, t0: nat)
    requires slot == first + |rows| && turn.wake + 2 + slot - turn.awaited >= env.stop && turn.awaited <= slot
    requires WakesAt(env, cfg.Begins(turn.awaited), turn.begin, turn.wake)
    requires if slot == turn.awaited then
               (rows != [] ==> rows[|rows| - 1].Sent()) && turn.begin == TurnBegin(rows, |rows|, t0)
             else
               && rows != [] && rows[|rows| - 1].kind.Missed? && rows[|rows| - 1].turn == turn
               && rows[|rows| - 1].slot == slot - 1
    ensures Stopped(cfg, env, rows, |rows|, first, t0)
  {
    if slot == turn.awaited {
      forall w: nat | WakesAt(env, cfg.Begins(slot), turn.begin, w)
        ensures w + 2 >= env.stop
      {
        WakesOnce(env, cfg.Begins(slot), turn.begin, w, turn.wake);
      }
    }
  }

  lemma BeginsMonotone(cfg: Config, a: int, b: int)
    requires cfg.interval > 0 && a <= b
    ensures cfg.Begins(a) <= cfg.Begins(b)
  {
    assert (b - a) * cfg.interval >= 0;
  }

  /** The first frame of the file is an IDR, and every loop of the file sends it. */
  lemma IdrWithin(cfg: Config, from: int) returns (z: int)
    requires cfg.Valid()
    ensures from <= z < from + cfg.N() && cfg.IdrSlot(z)
  {
    var n := cfg.N();
    var a := cfg.origin - cfg.phase - from;
    z := from + a % n;
    FileIdxIs(n, cfg.phase, cfg.origin, z);
    ModPlus(a, from + cfg.phase - cfg.origin, n);
    RemainderIs(0, n, 0, 0);
  }

  // ----- which slots are sent -----

  lemma WakesLater(env: Env, us: int, later: int, begin: nat, v: nat, w: nat)
    requires us <= later && WakesAt(env, us, begin, v) && WakesAt(env, later, begin, w)
    ensures v <= w
  {
  }

  lemma TurnOf(cfg: Config, env: Env, rows: seq<Row>, n: nat, t0: nat, i: nat)
    requires n <= |rows| && Timing(cfg, env, rows, n, t0) && i < n
    ensures var row := rows[i];
            && WakesAt(env, cfg.Begins(row.turn.awaited), row.turn.begin, row.turn.wake)
            && row.read == row.turn.wake + 1 && row.turn.awaited <= row.slot
            && (row.Sent() <==> !row.kind.Missed?)
  {
    assert TurnOk(cfg, env, rows[i]);
  }

  lemma ReadsLater(env: Env, rungs: nat, us: int, later: int, begin: nat, v: nat, w: nat)
    requires env.Valid(rungs) && us <= later && WakesAt(env, us, begin, v) && WakesAt(env, later, begin, w)
    ensures env.clock(v + 1) <= env.clock(w + 1)
  {
    WakesLater(env, us, later, begin, v, w);
    hide WakesAt;
  }

  lemma MissedReads(cfg: Config, env: Env, row: Row, w: nat)
    requires cfg.interval > 0 && env.Valid(|cfg.rungs|)
    requires WakesAt(env, cfg.Begins(row.turn.awaited), row.turn.begin, row.turn.wake) && row.turn.awaited <= row.slot
    requires row.read == row.turn.wake + 1 && cfg.Begins(row.slot + 1) <= env.clock(row.read)
    requires WakesAt(env, cfg.Begins(row.slot), row.turn.begin, w)
    ensures cfg.Begins(row.slot + 1) <= env.clock(w + 1)
  {
    hide *;
    var turn := row.turn;
    BeginsMonotone(cfg, turn.awaited, row.slot);
    ReadsLater(env, |cfg.rungs|, cfg.Begins(turn.awaited), cfg.Begins(row.slot), turn.begin, turn.wake, w);
  }

  /**
   A slot that the loop missed had no chance: there is no point at which the wait for it could have ended with the slot
   still current at the next clock reading.
   */
  lemma MissedHadNoChance(cfg: Config, env: Env, rows: seq<Row>, first: int, initial: nat, n: nat, t0: nat, i: nat,
                          w: nat)
    requires cfg.Valid() && env.Valid(|cfg.rungs|) && Covers(cfg, env, rows, first, initial)
    requires n <= |rows| && Timing(cfg, env, rows, n, t0) && i < n && rows[i].kind.Missed?
    requires WakesAt(env, cfg.Begins(rows[i].slot), rows[i].turn.begin, w)
    ensures cfg.Begins(rows[i].slot + 1) <= env.clock(w + 1)
  {
    assert cfg.interval > 0;
    hide *;
    ReadingOf(cfg, env, rows, first, initial, i);
    TurnOf(cfg, env, rows, n, t0, i);
    MissedReads(cfg, env, rows[i], w);
  }

  /** The clock moves by at most `d` between two points. */
  ghost predicate Steps(env: Env, d: int) {
    forall t: nat :: env.clock(t + 1) - env.clock(t) <= d
  }

  lemma {:induction false} Elapsed(env: Env, d: int, t: nat, k: nat)
    requires Steps(env, d)
    ensures env.clock(t + k) - env.clock(t) <= k * d
  {
    if k > 0 {
      Elapsed(env, d, t, k - 1);
      assert env.clock(t + (k - 1) + 1) - env.clock(t + (k - 1)) <= d;
    }
  }

  /** A wait that begins in time ends in time. */
  lemma WakesInTime(cfg: Config, env: Env, d: int, slot: int, begin: nat, w: nat, before: nat)
    requires cfg.Valid() && env.Valid(|cfg.rungs|) && Steps(env, d) && 6 * d <= cfg.interval && 0 <= d
    requires WakesAt(env, cfg.Begins(slot), begin, w)
    requires before <= begin <= before + 4 && env.clock(before) < cfg.Begins(slot)
    ensures env.clock(w + 1) < cfg.Begins(slot + 1)
  {
    BeginsNext(cfg, slot);
    var from := if w == begin + 1 then before else w - 2;
    assert env.clock(from) < cfg.Begins(slot);
    hide WakesAt, Config.Begins;
    Elapsed(env, d, from, w + 1 - from);
    AtMostSix(w + 1 - from, d);
  }

  lemma BeginsNext(cfg: Config, slot: int)
    ensures cfg.Begins(slot + 1) == cfg.Begins(slot) + cfg.interval
  {
  }

  lemma AtMostSix(k: nat, d: int)
    requires k <= 6 && 0 <= d
    ensures k * d <= 6 * d
  {
    assert (6 - k) * d >= 0;
  }

  /** A slot whose turn waited for it, and began in time, is sent. */
  lemma SentInTime(cfg: Config, env: Env, d: int, row: Row, before: nat)
    requires cfg.Valid() && env.Valid(|cfg.rungs|) && Steps(env, d) && 6 * d <= cfg.interval && 0 <= d
    requires TurnOk(cfg, env, row) && row.turn.awaited == row.slot
    requires !row.Sent() ==> cfg.Begins(row.slot + 1) <= env.clock(row.read)
    requires before <= row.turn.begin <= before + 4 && env.clock(before) < cfg.Begins(row.slot)
    ensures row.Sent() && row.kind.asked == row.read + 2
  {
    hide Steps, WakesAt, Config.Begins;
    WakesInTime(cfg, env, d, row.slot, row.turn.begin, row.turn.wake, before);
  }

  /** What the row of a slot says about the clock. */
  lemma ReadingOf(cfg: Config, env: Env, rows: seq<Row>, first: int, initial: nat, i: nat)
    requires cfg.Valid() && Covers(cfg, env, rows, first, initial) && i < |rows|
    ensures rows[i].slot == first + i
    ensures if rows[i].Sent() then env.clock(rows[i].read) < cfg.Begins(first + i + 1)
            else cfg.Begins(first + i + 1) <= env.clock(rows[i].read)
  {
    hide RungOk, Config.Begins, Config.Valid;
    assert RowOk(cfg, env, rows[i]);
  }

  /** With a clock of short steps and a start in time, the loop misses no slot. */
  lemma {:induction false} NoneMissed(cfg: Config, env: Env, rows: seq<Row>, first: int, initial: nat, n: nat, t0: nat,
                                      d: int, i: nat)
    requires cfg.Valid() && env.Valid(|cfg.rungs|) && Covers(cfg, env, rows, first, initial)
    requires n <= |rows| && Timing(cfg, env, rows, n, t0) && i < n
    requires 0 <= d && 6 * d <= cfg.interval && Steps(env, d) && t0 >= 2 && env.clock(t0 - 2) < cfg.Begins(first)
    ensures rows[i].Sent() && rows[i].turn.awaited == rows[i].slot && rows[i].kind.asked == rows[i].read + 2
  {
    hide Steps, TurnOk, Covers, Config.Begins;
    ReadingOf(cfg, env, rows, first, initial, i);
    assert TurnOk(cfg, env, rows[i]) && Follows(rows, i, t0);
    if i == 0 {
      SentInTime(cfg, env, d, rows[i], t0 - 2);
    } else {
      NoneMissed(cfg, env, rows, first, initial, n, t0, d, i - 1);
      ReadingOf(cfg, env, rows, first, initial, i - 1);
      SentInTime(cfg, env, d, rows[i], rows[i - 1].read);
    }
  }

  /** The first of the readings of a wait that is not too early. */
  lemma {:induction false} FirstReading(env: Env, us: int, begin: nat, v: nat) returns (w: nat)
    requires begin < v && (v - begin) % 2 == 1 && v - 1 < env.stop && us <= env.clock(v)
    ensures w <= v && WakesAt(env, us, begin, w)
    decreases v
  {
    if u: nat :| begin < u < v && (u - begin) % 2 == 1 && us <= env.clock(u) {
      w := FirstReading(env, us, begin, u);
    } else {
      w := v;
    }
  }

  /**
   Only the stop request ends the sending: after the last sent slot, the next one had not begun four points before
   the stop request, unless the turn for it began after that.
   */
  lemma SentUntilStopped(cfg: Config, env: Env, rows: seq<Row>, first: int, n: nat, t0: nat)
    requires cfg.Valid() && env.Valid(|cfg.rungs|) && n <= |rows| && Stopped(cfg, env, rows, n, first, t0)
    requires (n > 0 ==> rows[n - 1].Sent()) && TurnBegin(rows, n, t0) + 4 < env.stop
    ensures env.clock(env.stop - 4) < cfg.Begins(first + n)
  {
    var begin, us := TurnBegin(rows, n, t0), cfg.Begins(first + n);
    var v := if (env.stop - 4 - begin) % 2 == 1 then env.stop - 4 else env.stop - 3;
    if us <= env.clock(v) {
      var w := FirstReading(env, us, begin, v);
    }
  }

  // ----- rung consistency -----

  lemma {:induction false} RungStays(rows: seq<Row>, i: nat, j: nat, initial: nat)
    requires i < j <= |rows| && rows[i].Sent() && forall k | i < k < j :: !rows[k].Sent()
    ensures RungAfter(rows[..j], initial) == rows[i].kind.rung
    decreases j
  {
    assert rows[..j][..j - 1] == rows[..j - 1];
    if i < j - 1 {
      RungStays(rows, i, j - 1, initial);
    }
  }

  /** Between two consecutive sent slots the rung changes only if the later one is an IDR. */
  lemma {:induction false} RungChangesAtIdr(cfg: Config, env: Env, rows: seq<Row>, first: int, initial: nat, i: nat,
                                            j: nat)
    requires cfg.Valid() && Covers(cfg, env, rows, first, initial)
    requires i < j < |rows| && rows[i].Sent() && rows[j].Sent() && forall k | i < k < j :: !rows[k].Sent()
    ensures rows[j].kind.rung != rows[i].kind.rung ==> cfg.IdrSlot(rows[j].slot)
  {
    RungStays(rows, i, j, initial);
    assert RungOk(cfg, env, rows, j, initial);
  }

  /** The last sent row before `j`. */
  lemma {:induction false} SentBefore(rows: seq<Row>, i: nat, j: nat) returns (k: nat)
    requires i < j <= |rows| && rows[i].Sent()
    ensures i <= k < j && rows[k].Sent() && forall m | k < m < j :: !rows[m].Sent()
    decreases j
  {
    if rows[j - 1].Sent() {
      k := j - 1;
    } else {
      k := SentBefore(rows, i, j - 1);
    }
  }

  /** All frames sent between two IDR positions come from one rung, that of the frame they begin with. */
  lemma {:induction false} OneRungBetweenIdrs(cfg: Config, env: Env, rows: seq<Row>, first: int, initial: nat, i: nat,
                                              j: nat)
    requires cfg.Valid() && Covers(cfg, env, rows, first, initial)
    requires i <= j < |rows| && rows[i].Sent() && rows[j].Sent()
    requires forall k | i < k <= j && rows[k].Sent() :: !cfg.IdrSlot(rows[k].slot)
    ensures rows[j].kind.rung == rows[i].kind.rung
    decreases j
  {
    if i < j {
      var k := SentBefore(rows, i, j);
      OneRungBetweenIdrs(cfg, env, rows, first, initial, i, k);
      RungChangesAtIdr(cfg, env, rows, first, initial, k, j);
    }
  }

  /**
   A requested rung is in use from the first IDR that is sent after the request on, as long as no other is requested:
   `i` is such an IDR and `j` any frame sent later.
   */
  lemma {:induction false} RequestedRungInUse(cfg: Config, env: Env, rows: seq<Row>, first: int, initial: nat, i: nat,
                                              j: nat, wanted: nat)
    requires cfg.Valid() && Covers(cfg, env, rows, first, initial)
    requires i <= j < |rows| && rows[i].Sent() && rows[j].Sent() && cfg.IdrSlot(rows[i].slot)
    requires forall t | rows[i].kind.asked <= t <= rows[j].kind.asked :: env.want(t) == wanted
    ensures rows[j].kind.rung == wanted
    decreases j
  {
    hide RowOk;
    assert RungOk(cfg, env, rows, j, initial);
    if i < j && !cfg.IdrSlot(rows[j].slot) {
      var k := SentBefore(rows, i, j);
      RequestedRungInUse(cfg, env, rows, first, initial, i, k, wanted);
      RungChangesAtIdr(cfg, env, rows, first, initial, k, j);
    }
  }
}
