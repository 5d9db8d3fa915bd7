/** The single-row `scheduler_lock` table and the statements a worker runs against it
    (docker/scheduler.py). Times are microseconds; stored heartbeats are whole seconds,
    because `iso_now()` formats with second precision while `now()` does not. */
module SchedulerLock {
  import opened Basics

  const SECOND: nat := 1_000_000
  const HEARTBEAT_INTERVAL: nat := 30 * SECOND
  const STALE_TIMEOUT: nat := 90 * SECOND

  /** `heartbeatAt` is `None` when the stored text does not parse as a time. */
  datatype Row = Row(pid: int, startedAt: nat, heartbeatAt: Option<nat>)

  /** The value `iso_now()` stores for a clock reading. */
  function IsoNow(now: nat): (stored: nat)
    ensures stored <= now < stored + SECOND && stored % SECOND == 0
  {
    now - now % SECOND
  }

  predicate Stale(row: Row, now: nat) {
    row.heartbeatAt.Some? && now - row.heartbeatAt.value > STALE_TIMEOUT
  }

  /** What one uninterrupted `_acquire_scheduler_lock` does to the row: `stamp` is the stored form of the
      clock read on entry, `now` the clock read for the age comparison. */
  function AcquireSpec(row: Option<Row>, pid: int, stamp: nat, now: nat): (bool, Option<Row>) {
    if row.None? || Stale(row.value, now) then (true, Some(Row(pid, stamp, Some(stamp))))
    else (false, row)
  }

  /** What one successful pass of the heartbeat loop body leaves in the row. */
  function BeatSpec(row: Option<Row>, now: nat): Option<Row> {
    var stamp := IsoNow(now);
    if row.Some? then Some(row.value.(heartbeatAt := Some(stamp))) else Some(Row(0, stamp, Some(stamp)))
  }

  /** One write of the heartbeat loop: how long it took to land, and whether the database accepted it. */
  datatype Write = Write(delay: nat, ok: bool)

  /** When write `i` starts: the loop waits a full interval after the previous write has returned.
      Write 0 is the acquisition itself, started at `t0`. */
  function StartOf(t0: nat, ws: seq<Write>, i: nat): (t: nat)
    requires i <= |ws|
    ensures t >= t0
  {
    if i == 0 then t0 else StartOf(t0, ws, i - 1) + ws[i - 1].delay + HEARTBEAT_INTERVAL
  }

  /** The row after the first `i` writes; write 0 has left `initial`, which may since have been deleted. */
  function RowAfter(initial: Option<Row>, t0: nat, ws: seq<Write>, i: nat): Option<Row>
    requires 1 <= i <= |ws|
  {
    if i == 1 then initial
    else
      var before := RowAfter(initial, t0, ws, i - 1);
      if ws[i - 1].ok then BeatSpec(before, StartOf(t0, ws, i - 1)) else before
  }

  /** The table, with one method per SQL statement. */
  class LockTable {
    var row: Option<Row>

    constructor ()
      ensures row == None
    {
      row := None;
    }

    /** INSERT with the fixed primary key 1: refused when the row exists. */
    method Insert(pid: int, stamp: nat) returns (ok: bool)
      modifies this
      ensures ok == old(row).None?
      ensures row == if ok then Some(Row(pid, stamp, Some(stamp))) else old(row)
    {
      ok := row.None?;
      if ok {
        row := Some(Row(pid, stamp, Some(stamp)));
      }
    }

    /** UPDATE of pid, started_at and heartbeat_at. */
    method TakeOver(pid: int, stamp: nat)
      modifies this
      ensures row == if old(row).Some? then Some(Row(pid, stamp, Some(stamp))) else None
    {
      if row.Some? {
        row := Some(Row(pid, stamp, Some(stamp)));
      }
    }

    /** UPDATE of heartbeat_at alone; returns the row count. */
    method Touch(stamp: nat) returns (count: nat)
      modifies this
      ensures count == if old(row).Some? then 1 else 0
      ensures row == if old(row).Some? then Some(old(row).value.(heartbeatAt := Some(stamp))) else None
    {
      if row.Some? {
        row := Some(row.value.(heartbeatAt := Some(stamp)));
        count := 1;
      } else {
        count := 0;
      }
    }

    /** DELETE, which compares no pid. */
    method Delete()
      modifies this
      ensures row == None
    {
      row := None;
    }

    /** `_acquire_scheduler_lock`, run without interference: `entry` is the clock on entry and
        `check` the later clock read for the age comparison. */
    method AcquireSchedulerLock(pid: int, entry: nat, check: nat) returns (acquired: bool)
      requires entry <= check
      modifies this
      ensures (acquired, row) == AcquireSpec(old(row), pid, IsoNow(entry), check)
      ensures acquired <==> old(row).None?
                            || (old(row).value.heartbeatAt.Some? && check > old(row).value.heartbeatAt.value + 90_000_000)
      ensures acquired ==> row == Some(Row(pid, IsoNow(entry), Some(IsoNow(entry))))
      ensures !acquired ==> row == old(row)
    {
      var stamp := IsoNow(entry);
      var inserted := Insert(pid, stamp);
      if inserted {
        return true;
      }
      if row.Some? && row.value.heartbeatAt.Some? {
        if check - row.value.heartbeatAt.value > STALE_TIMEOUT {
          TakeOver(pid, stamp);
          return true;
        }
      }
      return false;
    }

    /** One pass of the heartbeat loop body that does not raise. */
    method Beat(now: nat)
      modifies this
      ensures row == BeatSpec(old(row), now)
    {
      var stamp := IsoNow(now);
      var count := Touch(stamp);
      if count == 0 {
        var _ := Insert(0, stamp);
        count := Touch(stamp);
      }
    }

    /** `stop_scheduler` from the DELETE on: one that fails leaves the row to go stale. */
    method StopScheduler(accepted: bool)
      modifies this
      ensures row == if accepted then None else old(row)
    {
      if accepted {
        Delete();
      }
    }

    /** `_heartbeat_loop` until the stop event: a refused write leaves the row alone and the loop goes on. */
    method HeartbeatLoop(t0: nat, ws: seq<Write>)
      requires ws != []
      modifies this
      ensures row == RowAfter(old(row), t0, ws, |ws|)
    {
      var clock := t0 + ws[0].delay;
      var i := 1;
      while i < |ws|
        invariant 1 <= i <= |ws|
        invariant clock == StartOf(t0, ws, i - 1) + ws[i - 1].delay
        invariant row == RowAfter(old(row), t0, ws, i)
      {
        clock := clock + HEARTBEAT_INTERVAL;
        if ws[i].ok {
          Beat(clock);
        }
        clock := clock + ws[i].delay;
        i := i + 1;
      }
    }
  }

  /** Total time spent inside writes `i` up to but not including `j`. */
  function DelaySum(ws: seq<Write>, i: nat, j: nat): nat
    requires i <= j <= |ws|
  {
    if i == j then 0 else DelaySum(ws, i, j - 1) + ws[j - 1].delay
  }

  lemma {:induction false} StartDistance(t0: nat, ws: seq<Write>, i: nat, j: nat)
    requires i <= j <= |ws|
    ensures StartOf(t0, ws, j) == StartOf(t0, ws, i) + (j - i) * HEARTBEAT_INTERVAL + DelaySum(ws, i, j)
  {
    if i < j {
      StartDistance(t0, ws, i, j - 1);
    }
  }

  /** After `k` refused writes the row still holds the stamp of the write before them. */
  lemma {:induction false} RefusedWritesKeepRow(initial: Option<Row>, t0: nat, ws: seq<Write>, i: nat, k: nat)
    requires 1 <= i && i + k <= |ws|
    requires forall m :: i <= m < i + k ==> !ws[m].ok
    ensures RowAfter(initial, t0, ws, i + k) == RowAfter(initial, t0, ws, i)
  {
    if k > 0 {
      RefusedWritesKeepRow(initial, t0, ws, i, k - 1);
    }
  }

  /** Write `i` was accepted, or is the acquisition whose stamp is in `initial`. */
  predicate Landed(initial: Option<Row>, t0: nat, ws: seq<Write>, i: nat)
    requires i < |ws|
  {
    if i == 0 then initial.Some? && initial.value.heartbeatAt == Some(IsoNow(t0)) else ws[i].ok
  }

  lemma LandedStamp(initial: Option<Row>, t0: nat, ws: seq<Write>, i: nat)
    requires i < |ws| && Landed(initial, t0, ws, i)
    ensures RowAfter(initial, t0, ws, i + 1).Some?
    ensures RowAfter(initial, t0, ws, i + 1).value.heartbeatAt == Some(IsoNow(StartOf(t0, ws, i)))
  {
  }

  /** The age of the row at the moment the next write lands: a whole interval for each of the `k`
      refused writes and one more, every delay in between, and the fraction of a second that
      `iso_now()` dropped when it stamped the row. */
  lemma AgeWhenNextWriteLands(initial: Option<Row>, t0: nat, ws: seq<Write>, i: nat, k: nat)
    requires i + k + 1 < |ws| && Landed(initial, t0, ws, i)
    requires forall m :: i < m <= i + k ==> !ws[m].ok
    ensures var row := RowAfter(initial, t0, ws, i + k + 1);
            var landing := StartOf(t0, ws, i + k + 1) + ws[i + k + 1].delay;
            && row.Some? && row.value.heartbeatAt.Some?
            && landing - row.value.heartbeatAt.value
               == (k + 1) * HEARTBEAT_INTERVAL + DelaySum(ws, i, i + k + 2) + StartOf(t0, ws, i) % SECOND
  {
    LandedStamp(initial, t0, ws, i);
    RefusedWritesKeepRow(initial, t0, ws, i + 1, k);
    StartDistance(t0, ws, i, i + k + 1);
  }

  /** Without delays, the row of a worker that misses `k` writes in a row is seen as stale just before
      its next write lands exactly when `k >= 3`, or `k == 2` and its last stamp dropped a fraction. */
  lemma StaleAfterMissedWrites(initial: Option<Row>, t0: nat, ws: seq<Write>, i: nat, k: nat)
    requires i + k + 1 < |ws| && Landed(initial, t0, ws, i)
    requires forall m :: i < m <= i + k ==> !ws[m].ok
    requires DelaySum(ws, i, i + k + 2) == 0
    ensures var landing := StartOf(t0, ws, i + k + 1);
            var row := RowAfter(initial, t0, ws, i + k + 1);
            row.Some? && Stale(row.value, landing)
            <==> k >= 3 || (k == 2 && StartOf(t0, ws, i) % SECOND != 0)
  {
    AgeWhenNextWriteLands(initial, t0, ws, i, k);
    assert ws[i + k + 1].delay == 0;
  }

  /** Two missed writes and no delay do not guarantee a fresh row: a worker that acquired the lock half
      a second past a whole second is stale before its third write. */
  lemma TwoMissedWritesCanGoStale()
    ensures var t0 := SECOND / 2;
            var ws := [Write(0, true), Write(0, false), Write(0, false), Write(0, true)];
            var row := RowAfter(Some(Row(1, 0, Some(0))), t0, ws, 3);
            row.Some? && Stale(row.value, StartOf(t0, ws, 3))
  {
    var t0 := SECOND / 2;
    var ws := [Write(0, true), Write(0, false), Write(0, false), Write(0, true)];
    assert DelaySum(ws, 0, 4) == 0 by {
      assert DelaySum(ws, 0, 1) == 0 && DelaySum(ws, 0, 2) == 0 && DelaySum(ws, 0, 3) == 0;
    }
    StaleAfterMissedWrites(Some(Row(1, 0, Some(0))), t0, ws, 0, 2);
  }

  /** The most recent write up to `n` that landed. */
  function LastLanded(ws: seq<Write>, n: nat): (last: nat)
    requires n < |ws|
    ensures last <= n && (last == 0 || ws[last].ok)
    ensures forall m :: last < m <= n ==> !ws[m].ok
  {
    if n == 0 || ws[n].ok then n else LastLanded(ws, n - 1)
  }

  /** A worker that never misses two writes in a row, and whose writes each take less than a third of
      29 seconds, has a fresh row at every instant: `n` is the last write that has returned by `t`. */
  lemma SteadyHeartbeatIsFresh(initial: Option<Row>, t0: nat, ws: seq<Write>, n: nat, t: nat)
    requires n + 1 < |ws| && Landed(initial, t0, ws, 0)
    requires forall m :: 0 < m && m + 1 < |ws| ==> ws[m].ok || ws[m + 1].ok
    requires forall m :: 0 <= m < |ws| ==> 3 * ws[m].delay <= 29 * SECOND
    requires StartOf(t0, ws, n) + ws[n].delay <= t <= StartOf(t0, ws, n + 1) + ws[n + 1].delay
    ensures var row := RowAfter(initial, t0, ws, n + 1); row.Some? && !Stale(row.value, t)
  {
    var last := LastLanded(ws, n);
    AgeWhenNextWriteLands(initial, t0, ws, last, n - last);
    assert n - last <= 1;
    assert DelaySum(ws, last, n + 2) <= 29 * SECOND by {
      assert DelaySum(ws, last, n + 2) == DelaySum(ws, last, n + 1) + ws[n + 1].delay;
      assert DelaySum(ws, last, n + 1) == DelaySum(ws, last, n) + ws[n].delay;
      if last < n {
        assert DelaySum(ws, last, n) == DelaySum(ws, last, n - 1) + ws[n - 1].delay;
      }
    }
  }
}
