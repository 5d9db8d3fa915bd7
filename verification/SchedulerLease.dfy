/** Any number of workers competing for the `scheduler_lock` row, statement by statement
    (docker/scheduler.py). Every SQL statement is one atomic step, and so is every clock read; the time a
    statement waits for the database lies between the two. The steps of different workers interleave freely. */
module SchedulerLease {
  import opened Basics
  import opened SchedulerLock

  /** What a worker is doing. `at` is the clock it read on entering the acquire. A holder remembers the clock
      reading behind its latest accepted write, when its latest write returned, and how many passes of its
      heartbeat have failed since the last accepted one; one that is `stopping` has set the stop event and
      waits for its jobs before the DELETE. */
  datatype Role =
    | Idle
    | Entered(at: nat)
    | Refused(at: nat)
    | SawStale(at: nat, seen: Row)
    | Holder(written: nat, returned: nat, missed: nat, stopping: bool)
    | Gone(started: bool)

  /** Inside a pass of the heartbeat loop: a clock has been read and its UPDATE or INSERT is on its way, or the
      statement before has been answered and the next clock is not read yet. */
  datatype Stage = Touching(at: nat) | Unmatched | Inserting(at: nat) | Inserted | TouchingAgain(at: nat)

  datatype Beat = Quiet | Pass(begun: nat, stage: Stage)

  datatype Worker = Worker(role: Role, beat: Beat)

  datatype State = State(now: nat, row: Option<Row>, workers: seq<Worker>)

  datatype Step =
    | Tick(to: nat)
    | Enter(w: nat)
    | Insert(w: nat, pid: int)
    | InsertFails(w: nat)
    | Read(w: nat)
    | TakeOver(w: nat, pid: int)
    | BeatReads(w: nat)
    | BeatWrites(w: nat)
    | BeatFails(w: nat)
    | SetStop(w: nat)
    | Release(w: nat)
    | ReleaseFails(w: nat)
    | Crash(w: nat)

  /** The heartbeat thread of a worker that started may still run statements after the worker is gone. */
  predicate Started(k: Worker) {
    k.role.Holder? || (k.role.Gone? && k.role.started)
  }

  predicate InFlight(b: Beat) {
    b.Pass? && (b.stage.Touching? || b.stage.Inserting? || b.stage.TouchingAgain?)
  }

  predicate Enabled(s: State, step: Step) {
    if step.Tick? then s.now <= step.to
    else
      step.w < |s.workers|
      && var k := s.workers[step.w];
         match step
         case Enter(_) => k.role.Idle?
         case Insert(_, _) => k.role.Entered?
         case InsertFails(_) => k.role.Entered?
         case Read(_) => k.role.Refused?
         case TakeOver(_, _) => k.role.SawStale?
         case BeatReads(_) => Started(k) && !InFlight(k.beat)
         case BeatWrites(_) => InFlight(k.beat)
         case BeatFails(_) => InFlight(k.beat)
         case SetStop(_) => k.role.Holder?
         case Release(_) => k.role.Holder? && k.role.stopping
         case ReleaseFails(_) => k.role.Holder? && k.role.stopping
         case Crash(_) => !k.role.Gone?
  }

  /** The next clock read of a heartbeat pass. */
  function NextRead(b: Beat, now: nat): Beat
    requires !InFlight(b)
  {
    if b.Quiet? then Pass(now, Touching(now))
    else Pass(b.begun, if b.stage.Unmatched? then Inserting(now) else TouchingAgain(now))
  }

  /** A role after one of its heartbeat writes, of a clock read at `at`, has been accepted. */
  function Accepted(r: Role, at: nat, now: nat): Role {
    if r.Holder? then r.(written := at, returned := now, missed := 0) else r
  }

  /** A role after a pass that ended without an accepted write. */
  function Missed(r: Role, now: nat): Role {
    if r.Holder? then r.(returned := now, missed := r.missed + 1) else r
  }

  function NewHolder(at: nat, now: nat): Role {
    Holder(at, now, 0, false)
  }

  /** The row of a worker that takes the lock with the clock reading `at`. */
  function OwnRow(pid: int, at: nat): Row {
    Row(pid, IsoNow(at), Some(IsoNow(at)))
  }

  /** A heartbeat statement is answered: an UPDATE that finds no row is followed by INSERT OR IGNORE with pid 0
      and another UPDATE. */
  function Write(row: Option<Row>, k: Worker, now: nat): (Option<Row>, Worker)
    requires InFlight(k.beat)
  {
    var stage := k.beat.stage;
    var stamp := IsoNow(stage.at);
    if stage.Inserting? then
      var next := Pass(k.beat.begun, Inserted);
      if row.None? then
        (Some(OwnRow(0, stage.at)), Worker(if k.role.Holder? then k.role.(written := stage.at) else k.role, next))
      else (row, k.(beat := next))
    else if row.Some? then
      (Some(row.value.(heartbeatAt := Some(stamp))), Worker(Accepted(k.role, stage.at, now), Quiet))
    else if stage.Touching? then (row, k.(beat := Pass(k.beat.begun, Unmatched)))
    else (row, Worker(Missed(k.role, now), Quiet))
  }

  function Apply(s: State, step: Step): State
    requires Enabled(s, step)
  {
    if step.Tick? then s.(now := step.to)
    else
      var w, k := step.w, s.workers[step.w];
      match step
      case Enter(_) => s.(workers := s.workers[w := k.(role := Entered(s.now))])
      case Insert(_, pid) =>
        if s.row.None? then
          State(s.now, Some(OwnRow(pid, k.role.at)), s.workers[w := k.(role := NewHolder(k.role.at, s.now))])
        else s.(workers := s.workers[w := k.(role := Refused(k.role.at))])
      case InsertFails(_) => s.(workers := s.workers[w := k.(role := Refused(k.role.at))])
      case Read(_) =>
        if s.row.Some? && Stale(s.row.value, s.now) then
          s.(workers := s.workers[w := k.(role := SawStale(k.role.at, s.row.value))])
        else s.(workers := s.workers[w := k.(role := Gone(false))])
      case TakeOver(_, pid) =>
        State(s.now, if s.row.Some? then Some(OwnRow(pid, k.role.at)) else None,
              s.workers[w := k.(role := NewHolder(k.role.at, s.now))])
      case BeatReads(_) => s.(workers := s.workers[w := k.(beat := NextRead(k.beat, s.now))])
      case BeatWrites(_) =>
        var (row, k') := Write(s.row, k, s.now);
        State(s.now, row, s.workers[w := k'])
      case BeatFails(_) => s.(workers := s.workers[w := Worker(Missed(k.role, s.now), Quiet)])
      case SetStop(_) => s.(workers := s.workers[w := k.(role := k.role.(stopping := true))])
      case Release(_) => State(s.now, None, s.workers[w := k.(role := Gone(true))])
      case ReleaseFails(_) => s.(workers := s.workers[w := k.(role := Gone(true))])
      case Crash(_) => s.(workers := s.workers[w := k.(role := Gone(k.role.Holder?))])
  }

  /** All workers idle; the row may be left over from an earlier process, readable or not. */
  predicate Init(s: State) {
    forall w :: 0 <= w < |s.workers| ==> s.workers[w] == Worker(Idle, Quiet)
  }

  ghost predicate Run(states: seq<State>, steps: seq<Step>) {
    && |states| == |steps| + 1
    && Init(states[0])
    && forall i :: 0 <= i < |steps| ==> Enabled(states[i], steps[i]) && states[i + 1] == Apply(states[i], steps[i])
  }

  predicate MutualExclusion(s: State) {
    forall v, w :: 0 <= v < w < |s.workers| ==> !(s.workers[v].role.Holder? && s.workers[w].role.Holder?)
  }

  // ---- Three hypotheses ----

  /** The stamp of a clock reading, and of one `late` before it. */
  function StampBefore(at: nat, late: nat): nat {
    IsoNow(if late <= at then at - late else 0)
  }

  /** On the timing: no worker between its acquire and its DELETE has a latest accepted write older than the
      stale timeout, less what a beat may be late. */
  predicate Fresh(s: State, late: nat) {
    forall w :: 0 <= w < |s.workers| && s.workers[w].role.Holder? ==>
      s.now - StampBefore(s.workers[w].role.written, late) <= STALE_TIMEOUT
  }

  /** On the takeover: the row has not changed between the SELECT and the UPDATE. */
  predicate Undisturbed(s: State, step: Step) {
    step.TakeOver? && step.w < |s.workers| && s.workers[step.w].role.SawStale? ==>
      s.row == Some(s.workers[step.w].role.seen)
  }

  /** On the beats: one that a worker left behind when it went does not set the row back by more than `late` behind
      the latest accepted write of the holder. */
  predicate NoLateBeat(s: State, step: Step, late: nat) {
    step.BeatWrites? && step.w < |s.workers| && InFlight(s.workers[step.w].beat)
    && !s.workers[step.w].role.Holder? ==>
      forall v :: 0 <= v < |s.workers| && s.workers[v].role.Holder? ==>
        StampBefore(s.workers[v].role.written, late) <= IsoNow(s.workers[step.w].beat.stage.at)
  }

  ghost predicate Calm(s: State, step: Step, late: nat) {
    Fresh(s, late) && Undisturbed(s, step) && NoLateBeat(s, step, late)
  }

  // ---- Mutual exclusion ----

  /** A stale row that was seen was stale; the row is at most `late` behind the latest write of whoever holds the
      lock; and a holder's own beat in flight carries a clock read after that write. */
  predicate WorkerOk(s: State, k: Worker, late: nat) {
    match k.role
    case Idle => k.beat.Quiet?
    case Entered(at) => at <= s.now && k.beat.Quiet?
    case Refused(at) => at <= s.now && k.beat.Quiet?
    case SawStale(at, seen) => at <= s.now && k.beat.Quiet? && Stale(seen, s.now)
    case Holder(written, _, _, _) =>
      && written <= s.now
      && s.row.Some? && s.row.value.heartbeatAt.Some? && s.row.value.heartbeatAt.value >= StampBefore(written, late)
      && (k.beat.Quiet? || (k.beat.stage.Touching? && written <= k.beat.begun == k.beat.stage.at <= s.now))
    case Gone(_) => true
  }

  predicate Inv(s: State, late: nat) {
    && MutualExclusion(s)
    && forall w :: 0 <= w < |s.workers| ==> WorkerOk(s, s.workers[w], late)
  }

  /** The step that could break exclusion: with a fresh holder the row it read cannot still be there. */
  lemma TakeOverFindsNoHolder(s: State, w: nat, pid: int, v: nat, late: nat)
    requires Inv(s, late) && Calm(s, TakeOver(w, pid), late) && Enabled(s, TakeOver(w, pid))
    requires v < |s.workers|
    ensures !s.workers[v].role.Holder?
  {
    assert WorkerOk(s, s.workers[w], late) && WorkerOk(s, s.workers[v], late);
  }

  /** A beat that lands keeps the row at most `late` behind every holder's latest write. */
  lemma BeatKeepsWorkerOk(s: State, w: nat, v: nat, late: nat)
    requires Inv(s, late) && Calm(s, BeatWrites(w), late) && Enabled(s, BeatWrites(w))
    requires v < |s.workers|
    ensures WorkerOk(Apply(s, BeatWrites(w)), Apply(s, BeatWrites(w)).workers[v], late)
  {
    assert WorkerOk(s, s.workers[v], late) && WorkerOk(s, s.workers[w], late);
    if v != w && s.workers[v].role.Holder? {
      assert !s.workers[w].role.Holder?;
    }
  }

  /** The worker that takes a step. */
  lemma ActorStaysOk(s: State, step: Step, late: nat)
    requires Inv(s, late) && Calm(s, step, late) && Enabled(s, step) && !step.Tick? && !step.BeatWrites?
    ensures WorkerOk(Apply(s, step), Apply(s, step).workers[step.w], late)
  {
    assert WorkerOk(s, s.workers[step.w], late);
  }

  /** A worker that does not. */
  lemma OthersStayOk(s: State, step: Step, v: nat, late: nat)
    requires Inv(s, late) && Calm(s, step, late) && Enabled(s, step) && !step.Tick? && !step.BeatWrites?
    requires v < |s.workers| && v != step.w
    ensures WorkerOk(Apply(s, step), Apply(s, step).workers[v], late)
  {
    assert WorkerOk(s, s.workers[v], late);
    if step.TakeOver? {
      TakeOverFindsNoHolder(s, step.w, step.pid, v, late);
    } else if step.Release? && s.workers[v].role.Holder? {
      assert false;
    }
  }

  lemma TickKeepsWorkerOk(s: State, step: Step, v: nat, late: nat)
    requires Inv(s, late) && Enabled(s, step) && step.Tick? && v < |s.workers|
    ensures WorkerOk(Apply(s, step), Apply(s, step).workers[v], late)
  {
    assert WorkerOk(s, s.workers[v], late);
  }

  lemma StepKeepsWorkerOk(s: State, step: Step, v: nat, late: nat)
    requires Inv(s, late) && Calm(s, step, late) && Enabled(s, step)
    requires v < |s.workers|
    ensures WorkerOk(Apply(s, step), Apply(s, step).workers[v], late)
  {
    if step.Tick? {
      TickKeepsWorkerOk(s, step, v, late);
    } else if step.BeatWrites? {
      BeatKeepsWorkerOk(s, step.w, v, late);
    } else if v == step.w {
      ActorStaysOk(s, step, late);
    } else {
      OthersStayOk(s, step, v, late);
    }
  }

  lemma StepKeepsExclusion(s: State, step: Step, late: nat)
    requires Inv(s, late) && Calm(s, step, late) && Enabled(s, step)
    ensures MutualExclusion(Apply(s, step))
  {
    var t := Apply(s, step);
    forall v, w | 0 <= v < w < |t.workers| ensures !(t.workers[v].role.Holder? && t.workers[w].role.Holder?) {
      assert WorkerOk(s, s.workers[v], late) && WorkerOk(s, s.workers[w], late);
      if step.TakeOver? {
        TakeOverFindsNoHolder(s, step.w, step.pid, v, late);
        TakeOverFindsNoHolder(s, step.w, step.pid, w, late);
      }
    }
  }

  lemma StepKeepsInv(s: State, step: Step, late: nat)
    requires Inv(s, late) && Calm(s, step, late) && Enabled(s, step)
    ensures Inv(Apply(s, step), late)
  {
    forall v | 0 <= v < |Apply(s, step).workers| ensures WorkerOk(Apply(s, step), Apply(s, step).workers[v], late) {
      StepKeepsWorkerOk(s, step, v, late);
    }
    StepKeepsExclusion(s, step, late);
  }

  lemma {:induction false} RunKeepsInv(states: seq<State>, steps: seq<Step>, n: nat, late: nat)
    requires Run(states, steps) && n < |states|
    requires forall i :: 0 <= i < n ==> Calm(states[i], steps[i], late)
    ensures Inv(states[n], late)
  {
    if n > 0 {
      RunKeepsInv(states, steps, n - 1, late);
      StepKeepsInv(states[n - 1], steps[n - 1], late);
    }
  }

  /** Mutual exclusion in every state of every run that has met the three hypotheses so far, although beats and
      the DELETE never compare a pid. With `late` zero no beat that is left behind may set the row back at all; the
      fresher the holders are, the later such beats may be. */
  lemma AtMostOneHolder(states: seq<State>, steps: seq<Step>, n: nat, late: nat)
    requires Run(states, steps) && n < |states|
    requires forall i :: 0 <= i < n ==> Calm(states[i], steps[i], late)
    ensures MutualExclusion(states[n])
  {
    RunKeepsInv(states, steps, n, late);
  }

  // ---- Workers that keep time ----

  /** How far the clock may go before this worker must have moved on. */
  predicate InTime(k: Worker, to: nat, limit: nat, slack: nat) {
    match k.role
    case Idle => true
    case Entered(at) => to <= at + limit
    case Refused(at) => to <= at + limit
    case SawStale(at, _) => to <= at + limit
    case Holder(_, returned, _, _) =>
      if k.beat.Quiet? then to <= returned + HEARTBEAT_INTERVAL + slack else to <= k.beat.begun + limit
    case Gone(_) => InFlight(k.beat) ==> to <= k.beat.stage.at + limit
  }

  /** A discipline that gives freshness. Every statement is answered, also one that a worker left behind when it
      went, and an acquire is through, within `limit` of its clock read; a holder begins its next pass, or has
      released the row, within the interval and `slack` of the last answer; and it never has two failed passes in a
      row. */
  predicate Punctual(s: State, step: Step, limit: nat, slack: nat) {
    && (step.Tick? ==> forall w :: 0 <= w < |s.workers| ==> InTime(s.workers[w], step.to, limit, slack))
    && (step.BeatFails? && step.w < |s.workers| && s.workers[step.w].role.Holder? ==>
          s.workers[step.w].role.missed == 0)
  }

  /** What 90 seconds leave beside two intervals and the dropped fraction of a second. */
  predicate Affordable(limit: nat, slack: nat, late: nat) {
    3 * limit + 2 * slack + late <= 29 * SECOND
  }

  predicate OnTime(s: State, k: Worker, limit: nat, slack: nat) {
    && InTime(k, s.now, limit, slack)
    && (k.role.Holder? ==>
          && k.role.missed <= 1 && k.role.returned <= s.now
          && k.role.returned <= k.role.written + limit
                                + (if k.role.missed == 0 then 0 else HEARTBEAT_INTERVAL + slack + limit)
          && (k.beat.Pass? ==> k.beat.begun <= k.role.returned + HEARTBEAT_INTERVAL + slack))
  }

  predicate AllOnTime(s: State, limit: nat, slack: nat) {
    forall w :: 0 <= w < |s.workers| ==> OnTime(s, s.workers[w], limit, slack)
  }

  lemma OnTimeIsFresh(s: State, limit: nat, slack: nat, late: nat)
    requires AllOnTime(s, limit, slack) && Affordable(limit, slack, late)
    ensures Fresh(s, late)
  {
    forall w | 0 <= w < |s.workers| && s.workers[w].role.Holder?
      ensures s.now - StampBefore(s.workers[w].role.written, late) <= STALE_TIMEOUT
    {
      var k := s.workers[w];
      assert OnTime(s, k, limit, slack);
    }
  }

  /** A beat that was left behind is not later than the limit. */
  lemma OnTimeIsNotLate(s: State, step: Step, limit: nat, slack: nat, late: nat)
    requires Inv(s, late) && AllOnTime(s, limit, slack) && Enabled(s, step) && limit <= late
    ensures NoLateBeat(s, step, late)
  {
    if step.BeatWrites? && !s.workers[step.w].role.Holder? {
      var k := s.workers[step.w];
      assert OnTime(s, k, limit, slack) && WorkerOk(s, k, late);
      forall v | 0 <= v < |s.workers| && s.workers[v].role.Holder?
        ensures StampBefore(s.workers[v].role.written, late) <= IsoNow(k.beat.stage.at)
      {
        assert WorkerOk(s, s.workers[v], late);
      }
    }
  }

  lemma ActorKeepsTime(s: State, step: Step, limit: nat, slack: nat, late: nat)
    requires Inv(s, late) && Enabled(s, step) && Punctual(s, step, limit, slack) && AllOnTime(s, limit, slack)
    requires !step.Tick?
    ensures OnTime(Apply(s, step), Apply(s, step).workers[step.w], limit, slack)
  {
    assert OnTime(s, s.workers[step.w], limit, slack) && WorkerOk(s, s.workers[step.w], late);
  }

  lemma StepKeepsTime(s: State, step: Step, limit: nat, slack: nat, v: nat, late: nat)
    requires Inv(s, late) && Enabled(s, step) && Punctual(s, step, limit, slack) && AllOnTime(s, limit, slack)
    requires v < |s.workers|
    ensures OnTime(Apply(s, step), Apply(s, step).workers[v], limit, slack)
  {
    assert OnTime(s, s.workers[v], limit, slack);
    if !step.Tick? && v == step.w {
      ActorKeepsTime(s, step, limit, slack, late);
    }
  }

  /** In a run of workers that keep time every state is fresh. Beats that are late by the limit or more cannot
      happen. */
  lemma {:induction false} PunctualRunKeepsInv(
    states: seq<State>, steps: seq<Step>, limit: nat, slack: nat, late: nat, n: nat)
    requires Run(states, steps) && n < |states| && Affordable(limit, slack, late)
    requires forall i :: 0 <= i < n ==>
               Punctual(states[i], steps[i], limit, slack) && Undisturbed(states[i], steps[i])
               && (late < limit ==> NoLateBeat(states[i], steps[i], late))
    ensures Inv(states[n], late) && AllOnTime(states[n], limit, slack) && Fresh(states[n], late)
  {
    if n > 0 {
      PunctualRunKeepsInv(states, steps, limit, slack, late, n - 1);
      var s, step := states[n - 1], steps[n - 1];
      if limit <= late {
        OnTimeIsNotLate(s, step, limit, slack, late);
      }
      StepKeepsInv(s, step, late);
      forall v | 0 <= v < |states[n].workers| ensures OnTime(states[n], states[n].workers[v], limit, slack) {
        StepKeepsTime(s, step, limit, slack, v, late);
      }
    }
    OnTimeIsFresh(states[n], limit, slack, late);
  }

  /** So of workers that keep time neither freshness nor the absence of late beats need be assumed: at most one of
      them holds the lock, and its row is never stale. */
  lemma PunctualWorkersExclude(states: seq<State>, steps: seq<Step>, limit: nat, slack: nat, n: nat)
    requires Run(states, steps) && n < |states| && 4 * limit + 2 * slack <= 29 * SECOND
    requires forall i :: 0 <= i < n ==>
               Punctual(states[i], steps[i], limit, slack) && Undisturbed(states[i], steps[i])
    ensures MutualExclusion(states[n]) && Fresh(states[n], limit)
    ensures forall w :: 0 <= w < |states[n].workers| && states[n].workers[w].role.Holder? ==>
              states[n].row.Some? && !Stale(states[n].row.value, states[n].now)
  {
    PunctualRunKeepsInv(states, steps, limit, slack, limit, n);
    assert forall w :: 0 <= w < |states[n].workers| ==> WorkerOk(states[n], states[n].workers[w], limit);
  }

  // ---- One attempt and one pass, without interference ----

  function Exec(s: State, steps: seq<Step>): Option<State>
    decreases |steps|
  {
    if steps == [] then Some(s)
    else if Enabled(s, steps[0]) then Exec(Apply(s, steps[0]), steps[1..])
    else None
  }

  /** The statements that one attempt comes to. */
  function Attempt(s: State, w: nat, pid: int): seq<Step> {
    if s.row.None? then [Enter(w), Insert(w, pid)]
    else if Stale(s.row.value, s.now) then [Enter(w), Insert(w, pid), Read(w), TakeOver(w, pid)]
    else [Enter(w), Insert(w, pid), Read(w)]
  }

  lemma ExecStep(s: State, step: Step, rest: seq<Step>)
    requires Enabled(s, step)
    ensures Exec(s, [step] + rest) == Exec(Apply(s, step), rest)
  {
    assert ([step] + rest)[1..] == rest;
  }

  lemma EnterAndInsert(s: State, w: nat, pid: int, rest: seq<Step>)
    requires w < |s.workers| && s.workers[w] == Worker(Idle, Quiet)
    ensures Exec(s, [Enter(w)] + ([Insert(w, pid)] + rest))
         == Exec(if s.row.None? then
                   State(s.now, Some(OwnRow(pid, s.now)), s.workers[w := Worker(NewHolder(s.now, s.now), Quiet)])
                 else s.(workers := s.workers[w := Worker(Refused(s.now), Quiet)]), rest)
  {
    var s1 := Apply(s, Enter(w));
    ExecStep(s, Enter(w), [Insert(w, pid)] + rest);
    ExecStep(s1, Insert(w, pid), rest);
    assert Apply(s1, Insert(w, pid)).workers
        == s.workers[w := Worker(if s.row.None? then NewHolder(s.now, s.now) else Refused(s.now), Quiet)];
  }

  /** The statements of one attempt, run back to back against any row or none, do exactly what `AcquireSpec`
      says: the worker becomes a holder with its stamp in the row, or gives up. */
  lemma AttemptRefinesAcquire(s: State, w: nat, pid: int)
    requires w < |s.workers| && s.workers[w] == Worker(Idle, Quiet)
    ensures var (acquired, row) := AcquireSpec(s.row, pid, IsoNow(s.now), s.now);
            Exec(s, Attempt(s, w, pid))
            == Some(State(s.now, row, s.workers[w := Worker(if acquired then NewHolder(s.now, s.now) else Gone(false),
                                                            Quiet)]))
  {
    var steps := Attempt(s, w, pid);
    EnterAndInsert(s, w, pid, steps[2..]);
    assert steps == [Enter(w)] + ([Insert(w, pid)] + steps[2..]);
    if s.row.Some? {
      var s2 := s.(workers := s.workers[w := Worker(Refused(s.now), Quiet)]);
      var s3 := Apply(s2, Read(w));
      ExecStep(s2, Read(w), steps[3..]);
      assert steps[2..] == [Read(w)] + steps[3..];
      if Stale(s.row.value, s.now) {
        ExecStep(s3, TakeOver(w, pid), []);
        assert steps[3..] == [TakeOver(w, pid)] + [];
        assert Apply(s3, TakeOver(w, pid)).workers == s.workers[w := Worker(NewHolder(s.now, s.now), Quiet)];
      } else {
        assert s3.workers == s.workers[w := Worker(Gone(false), Quiet)];
      }
    }
  }

  /** The statements of one pass: one UPDATE, or UPDATE, INSERT and UPDATE. */
  function BeatPass(s: State, w: nat): seq<Step> {
    if s.row.Some? then [BeatReads(w), BeatWrites(w)]
    else [BeatReads(w), BeatWrites(w)] + [BeatReads(w), BeatWrites(w)] + [BeatReads(w), BeatWrites(w)]
  }

  lemma ReadAndWrite(s: State, w: nat, rest: seq<Step>)
    requires w < |s.workers| && Started(s.workers[w]) && !InFlight(s.workers[w].beat)
    ensures var (row, k) := Write(s.row, s.workers[w].(beat := NextRead(s.workers[w].beat, s.now)), s.now);
      Exec(s, [BeatReads(w), BeatWrites(w)] + rest) == Exec(State(s.now, row, s.workers[w := k]), rest)
  {
    var s1 := Apply(s, BeatReads(w));
    ExecStep(s, BeatReads(w), [BeatWrites(w)] + rest);
    ExecStep(s1, BeatWrites(w), rest);
    assert [BeatReads(w), BeatWrites(w)] + rest == [BeatReads(w)] + ([BeatWrites(w)] + rest);
    assert Apply(s1, BeatWrites(w)).workers
        == s.workers[w := Write(s.row, s.workers[w].(beat := NextRead(s.workers[w].beat, s.now)), s.now).1];
  }

  /** One pass, run back to back, leaves in the row what `BeatSpec` says. */
  lemma PassRefinesBeat(s: State, w: nat)
    requires w < |s.workers| && Started(s.workers[w]) && s.workers[w].beat.Quiet?
    ensures var t := Exec(s, BeatPass(s, w));
      t.Some? && t.value.now == s.now && t.value.row == BeatSpec(s.row, s.now)
      && |t.value.workers| == |s.workers| && t.value.workers[w].beat.Quiet?
  {
    var pair := [BeatReads(w), BeatWrites(w)];
    if s.row.Some? {
      assert BeatPass(s, w) == pair + [];
      ReadAndWrite(s, w, []);
    } else {
      assert BeatPass(s, w) == pair + (pair + (pair + []));
      ReadAndWrite(s, w, pair + (pair + []));
      var (r1, k1) := Write(s.row, s.workers[w].(beat := NextRead(s.workers[w].beat, s.now)), s.now);
      var s1 := State(s.now, r1, s.workers[w := k1]);
      ReadAndWrite(s1, w, pair + []);
      var (r2, k2) := Write(s1.row, s1.workers[w].(beat := NextRead(s1.workers[w].beat, s.now)), s.now);
      var s2 := State(s.now, r2, s1.workers[w := k2]);
      ReadAndWrite(s2, w, []);
    }
  }

  // ---- Each hypothesis is needed ----

  /** Freshness is needed, for every state: when the row is stale, an idle worker that attempts the lock joins
      whoever holds it, undisturbed, as a second holder; a worker that stops and waits longer than the timeout
      for its jobs, without beats, is such a holder. When the former holder has crashed, the same attempt is how
      the lock recovers. */
  lemma StaleRowIsTakenOver(s: State, v: nat, w: nat, pid: int, late: nat)
    requires v < |s.workers| && w < |s.workers| && v != w && s.workers[w] == Worker(Idle, Quiet)
    requires s.row.Some? && Stale(s.row.value, s.now)
    ensures var t := Exec(s, Attempt(s, w, pid));
            && t.Some? && |t.value.workers| == |s.workers|
            && t.value.workers[w].role.Holder? && t.value.workers[v] == s.workers[v]
            && (s.workers[v].role.Holder? ==> !MutualExclusion(t.value))
            && (Inv(s, late) && (forall u :: 0 <= u < |s.workers| ==> !s.workers[u].role.Holder?) ==> Inv(t.value, late))
  {
    AttemptRefinesAcquire(s, w, pid);
    var t := Exec(s, Attempt(s, w, pid)).value;
    if s.workers[v].role.Holder? {
      var lo, hi := if v < w then v else w, if v < w then w else v;
      assert t.workers[lo].role.Holder? && t.workers[hi].role.Holder?;
    }
    if Inv(s, late) && forall u :: 0 <= u < |s.workers| ==> !s.workers[u].role.Holder? {
      forall u | 0 <= u < |t.workers| ensures WorkerOk(t, t.workers[u], late) {
        assert WorkerOk(s, s.workers[u], late);
      }
    }
  }

  ghost predicate FreshRun(states: seq<State>, steps: seq<Step>) {
    Run(states, steps) && forall i :: 0 <= i < |states| ==> Fresh(states[i], 0)
  }

  ghost predicate UndisturbedRun(states: seq<State>, steps: seq<Step>) {
    |steps| <= |states| && forall i :: 0 <= i < |steps| ==> Undisturbed(states[i], steps[i])
  }

  ghost predicate NoLateBeats(states: seq<State>, steps: seq<Step>) {
    |steps| <= |states| && forall i :: 0 <= i < |steps| ==> NoLateBeat(states[i], steps[i], 0)
  }

  /** No time passes and no beat fails: a run that keeps time, however narrow the limits. */
  predicate Instant(steps: seq<Step>) {
    forall i :: 0 <= i < |steps| ==> !steps[i].Tick? && !steps[i].BeatFails?
  }

  lemma Extend(states: seq<State>, steps: seq<Step>, step: Step, next: State)
    returns (states': seq<State>, steps': seq<Step>)
    requires FreshRun(states, steps) && Enabled(states[|steps|], step)
    requires next == Apply(states[|steps|], step) && Fresh(next, 0)
    ensures FreshRun(states', steps') && states'[0] == states[0] && states'[|steps'|] == next
    ensures UndisturbedRun(states, steps) && Undisturbed(states[|steps|], step) ==> UndisturbedRun(states', steps')
    ensures Instant(steps) && !step.Tick? && !step.BeatFails? ==> Instant(steps')
    ensures NoLateBeats(states, steps) && NoLateBeat(states[|steps|], step, 0) ==> NoLateBeats(states', steps')
  {
    states', steps' := states + [next], steps + [step];
  }

  function Calmly(role: Role): Worker {
    Worker(role, Quiet)
  }

  /** Both workers have entered and been refused. */
  lemma BothRefused(s: State) returns (states: seq<State>, steps: seq<Step>)
    requires s.workers == [Calmly(Idle), Calmly(Idle)] && s.row.Some?
    ensures FreshRun(states, steps) && NoLateBeats(states, steps) && Instant(steps) && states[0] == s
    ensures states[|steps|] == s.(workers := [Calmly(Refused(s.now)), Calmly(Refused(s.now))])
  {
    var idle, entered, refused := Calmly(Idle), Calmly(Entered(s.now)), Calmly(Refused(s.now));
    states, steps := [s], [];
    states, steps := Extend(states, steps, Enter(0), s.(workers := [entered, idle]));
    states, steps := Extend(states, steps, Insert(0, 1), s.(workers := [refused, idle]));
    states, steps := Extend(states, steps, Enter(1), s.(workers := [refused, entered]));
    states, steps := Extend(states, steps, Insert(1, 2), s.(workers := [refused, refused]));
  }

  lemma BothSawStale(s: State) returns (states: seq<State>, steps: seq<Step>)
    requires s.workers == [Calmly(Idle), Calmly(Idle)] && s.row.Some? && Stale(s.row.value, s.now)
    ensures FreshRun(states, steps) && NoLateBeats(states, steps) && Instant(steps) && states[0] == s
    ensures var saw := Calmly(SawStale(s.now, s.row.value)); states[|steps|] == s.(workers := [saw, saw])
  {
    states, steps := BothRefused(s);
    var refused, saw := Calmly(Refused(s.now)), Calmly(SawStale(s.now, s.row.value));
    states, steps := Extend(states, steps, Read(0), s.(workers := [saw, refused]));
    states, steps := Extend(states, steps, Read(1), s.(workers := [saw, saw]));
  }

  /** Undisturbed takeovers are needed, also of workers that keep time: two workers that both saw the same stale row
      both take it over at one instant, every state being fresh and no beat late. */
  lemma InterleavedTakeOversCollide(left: Row) returns (states: seq<State>, steps: seq<Step>)
    requires left.heartbeatAt == Some(0)
    ensures FreshRun(states, steps) && NoLateBeats(states, steps) && states[0].row == Some(left)
    ensures forall i, limit, slack :: 0 <= i < |steps| ==> Punctual(states[i], steps[i], limit, slack)
    ensures !MutualExclusion(states[|steps|])
  {
    var now := STALE_TIMEOUT + SECOND;
    var s := State(now, Some(left), [Calmly(Idle), Calmly(Idle)]);
    states, steps := BothSawStale(s);
    var saw, holder := Calmly(SawStale(now, left)), Calmly(NewHolder(now, now));
    states, steps := Extend(states, steps, TakeOver(0, 1), State(now, Some(OwnRow(1, now)), [holder, saw]));
    var t := State(now, Some(OwnRow(2, now)), [holder, holder]);
    states, steps := Extend(states, steps, TakeOver(1, 2), t);
    assert t.workers[0].role.Holder? && t.workers[1].role.Holder?;
  }

  const T99: nat := 99 * SECOND
  const T100: nat := 100 * SECOND
  const T190: nat := 190 * SECOND

  /** A worker that stopped and has released the lock, with a beat of second 99 still on its way. */
  function LeftBehind(): Worker {
    Worker(Gone(true), Pass(T99, Touching(T99)))
  }

  lemma HoldsAtSecond99() returns (states: seq<State>, steps: seq<Step>)
    ensures FreshRun(states, steps) && UndisturbedRun(states, steps) && states[0].row == None
    ensures states[|steps|]
         == State(T99, Some(OwnRow(0, T99)), [Calmly(NewHolder(T99, T99)), Calmly(Idle), Calmly(Idle)])
  {
    var idle := Calmly(Idle);
    var s := State(T99, None, [idle, idle, idle]);
    states, steps := [s], [];
    states, steps := Extend(states, steps, Enter(0), s.(workers := [Calmly(Entered(T99)), idle, idle]));
    states, steps := Extend(states, steps, Insert(0, 0),
                            State(T99, Some(OwnRow(0, T99)), [Calmly(NewHolder(T99, T99)), idle, idle]));
  }

  lemma LeavesBeatBehind() returns (states: seq<State>, steps: seq<Step>)
    ensures FreshRun(states, steps) && UndisturbedRun(states, steps) && states[0].row == None
    ensures states[|steps|] == State(T99, None, [LeftBehind(), Calmly(Idle), Calmly(Idle)])
  {
    states, steps := HoldsAtSecond99();
    var idle, holder := Calmly(Idle), NewHolder(T99, T99);
    var own, beat := Some(OwnRow(0, T99)), Pass(T99, Touching(T99));
    states, steps := Extend(states, steps, BeatReads(0), State(T99, own, [Worker(holder, beat), idle, idle]));
    states, steps := Extend(states, steps, SetStop(0),
                            State(T99, own, [Worker(holder.(stopping := true), beat), idle, idle]));
    states, steps := Extend(states, steps, Release(0), State(T99, None, [LeftBehind(), idle, idle]));
  }

  /** The next worker takes the free lock at second 100, and the old beat then sets the row back to 99. */
  lemma OldBeatLands() returns (states: seq<State>, steps: seq<Step>)
    ensures FreshRun(states, steps) && UndisturbedRun(states, steps) && states[0].row == None
    ensures states[|steps|]
         == State(T100, Some(Row(1, T100, Some(T99))), [Calmly(Gone(true)), Calmly(NewHolder(T100, T100)), Calmly(Idle)])
  {
    states, steps := LeavesBeatBehind();
    var idle, stray, holder := Calmly(Idle), LeftBehind(), Calmly(NewHolder(T100, T100));
    assert IsoNow(T100) == T100 && IsoNow(T99) == T99;
    states, steps := Extend(states, steps, Tick(T100), State(T100, None, [stray, idle, idle]));
    states, steps := Extend(states, steps, Enter(1), State(T100, None, [stray, Calmly(Entered(T100)), idle]));
    states, steps := Extend(states, steps, Insert(1, 1), State(T100, Some(OwnRow(1, T100)), [stray, holder, idle]));
    states, steps := Extend(states, steps, BeatWrites(0),
                            State(T100, Some(Row(1, T100, Some(T99))), [Calmly(Gone(true)), holder, idle]));
  }

  lemma ThirdIsRefused() returns (states: seq<State>, steps: seq<Step>)
    ensures FreshRun(states, steps) && UndisturbedRun(states, steps) && states[0].row == None
    ensures states[|steps|] == State(T190, Some(Row(1, T100, Some(T99))),
              [Calmly(Gone(true)), Calmly(NewHolder(T100, T100)), Calmly(Refused(T190))])
  {
    states, steps := OldBeatLands();
    var gone, holder := Calmly(Gone(true)), Calmly(NewHolder(T100, T100));
    var s := State(T190, Some(Row(1, T100, Some(T99))), [gone, holder, Calmly(Idle)]);
    assert IsoNow(T100) == T100;
    states, steps := Extend(states, steps, Tick(T190), s);
    states, steps := Extend(states, steps, Enter(2), s.(workers := [gone, holder, Calmly(Entered(T190))]));
    states, steps := Extend(states, steps, Insert(2, 2), s.(workers := [gone, holder, Calmly(Refused(T190))]));
  }

  /** A third worker enters at second 190 and finds the row 91 seconds old. */
  lemma OldBeatIsRead() returns (states: seq<State>, steps: seq<Step>)
    ensures FreshRun(states, steps) && UndisturbedRun(states, steps) && states[0].row == None
    ensures var row := Row(1, T100, Some(T99));
      states[|steps|] == State(T190, Some(row), [Calmly(Gone(true)), Calmly(NewHolder(T100, T100)), Calmly(SawStale(T190, row))])
  {
    states, steps := ThirdIsRefused();
    var row := Row(1, T100, Some(T99));
    var gone, holder := Calmly(Gone(true)), Calmly(NewHolder(T100, T100));
    assert IsoNow(T100) == T100;
    states, steps := Extend(states, steps, Read(2), State(T190, Some(row), [gone, holder, Calmly(SawStale(T190, row))]));
  }

  /** Timely beats are needed: with every state fresh and every takeover undisturbed, a beat that a worker left
      behind when it stopped, landing one second late, makes two holders. */
  lemma LateBeatCollides() returns (states: seq<State>, steps: seq<Step>)
    ensures FreshRun(states, steps) && UndisturbedRun(states, steps) && states[0].row == None
    ensures !MutualExclusion(states[|steps|])
  {
    states, steps := OldBeatIsRead();
    var gone, holder, late := Calmly(Gone(true)), Calmly(NewHolder(T100, T100)), Calmly(NewHolder(T190, T190));
    var t := State(T190, Some(OwnRow(2, T190)), [gone, holder, late]);
    assert IsoNow(T100) == T100 && IsoNow(T190) == T190;
    states, steps := Extend(states, steps, TakeOver(2, 2), t);
    assert t.workers[1].role.Holder? && t.workers[2].role.Holder?;
  }

  predicate Unreadable(s: State) {
    && s.row.Some? && s.row.value.heartbeatAt.None?
    && forall w :: 0 <= w < |s.workers| ==>
         !Started(s.workers[w]) && !s.workers[w].role.SawStale? && s.workers[w].beat.Quiet?
  }

  /** A heartbeat that does not parse blocks the lock for good: whatever any number of workers do, the
      row stays as it is and none of them ever becomes the holder. */
  lemma {:induction false} UnreadableHeartbeatBlocksForever(states: seq<State>, steps: seq<Step>, n: nat)
    requires Run(states, steps) && n < |states|
    requires states[0].row.Some? && states[0].row.value.heartbeatAt.None?
    ensures Unreadable(states[n]) && states[n].row == states[0].row
  {
    if n > 0 {
      UnreadableHeartbeatBlocksForever(states, steps, n - 1);
      var s, step := states[n - 1], steps[n - 1];
      assert Enabled(s, step) && states[n] == Apply(s, step);
      forall w | 0 <= w < |states[n].workers|
        ensures !Started(states[n].workers[w]) && !states[n].workers[w].role.SawStale?
        ensures states[n].workers[w].beat.Quiet?
      {
        assert !Started(s.workers[w]) && !s.workers[w].role.SawStale? && s.workers[w].beat.Quiet?;
      }
    }
  }
}
