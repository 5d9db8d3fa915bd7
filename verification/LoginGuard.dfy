/** Login failures, the lockout, its throttled audit trail and the failure alert: the failure flow of
    `login` (docker/auth.py) over the `login_attempts` table (docker/users.py). One `login` call at a
    time; each call reads the clock on entry, again when it records, and again when it notifies. */
module LoginGuard {
  import opened Basics

  const MAX_ATTEMPTS: nat := 100
  const LOCKOUT_SECONDS: int := 300
  const LOGIN_FAILURE_ALERT_THRESHOLD: nat := 5
  const PURGE_AGE: int := 7 * 86400

  /** One row of `login_attempts`. */
  datatype Attempt = Attempt(ip: string, time: int)

  /** One finished `login` call. */
  datatype Event =
    | Failed(ip: string, now: int, at: int, seen: int, alert: bool)
    | Blocked(ip: string, now: int, audited: bool)
    | Succeeded(ip: string, now: int)

  type History = Log<Event>

  function EndOf(e: Event): int {
    if e.Failed? then e.seen else e.now
  }

  predicate EndsBy(h: History, now: int) {
    h.Then? ==> EndOf(h.last) <= now
  }

  /** Failures of one IP after `cutoff`, since its last success, over the whole history. */
  function Failures(h: History, ip: string, cutoff: int): nat {
    match h
    case Empty => 0
    case Then(before, e) =>
      if e.ip != ip || e.Blocked? then Failures(before, ip, cutoff)
      else if e.Succeeded? then 0
      else Failures(before, ip, cutoff) + if e.at > cutoff then 1 else 0
  }

  /** When the blocking of one IP was last written to the audit trail. */
  function LastAudit(h: History, ip: string): Option<int> {
    match h
    case Empty => None
    case Then(before, e) => if e.Blocked? && e.ip == ip && e.audited then Some(e.now) else LastAudit(before, ip)
  }

  /** The audit decision of a throttle that forgets nothing. */
  predicate AuditDue(h: History, ip: string, now: int) {
    var last := LastAudit(h, ip);
    last.None? || now - last.value >= LOCKOUT_SECONDS
  }

  /** The calls follow one another in clock order, and each went as it would with nothing ever purged. */
  predicate Genuine(h: History) {
    match h
    case Empty => true
    case Then(before, e) =>
      && Genuine(before) && EndsBy(before, e.now)
      && match e
         case Failed(ip, now, at, seen, alert) =>
           && now <= at <= seen
           && Failures(before, ip, now - LOCKOUT_SECONDS) < MAX_ATTEMPTS
           && alert == (Failures(h, ip, seen - LOCKOUT_SECONDS) == LOGIN_FAILURE_ALERT_THRESHOLD)
         case Blocked(ip, now, audited) =>
           && Failures(before, ip, now - LOCKOUT_SECONDS) >= MAX_ATTEMPTS
           && audited == AuditDue(before, ip, now)
         case Succeeded(ip, now) =>
           Failures(before, ip, now - LOCKOUT_SECONDS) < MAX_ATTEMPTS
  }

  function CountRows(rows: seq<Attempt>, ip: string, cutoff: int): nat {
    if rows == [] then 0
    else CountRows(rows[..|rows| - 1], ip, cutoff)
         + if rows[|rows| - 1].ip == ip && rows[|rows| - 1].time > cutoff then 1 else 0
  }

  /** The purged table answers every query that reaches back no further than the purge. */
  ghost predicate CountsAgree(rows: seq<Attempt>, h: History) {
    forall ip, cutoff :: EndsBy(h, cutoff + PURGE_AGE) ==> CountRows(rows, ip, cutoff) == Failures(h, ip, cutoff)
  }

  /** The pruned map knows the last audit of every IP it holds, and has dropped only audits that are
      more than two windows old. */
  ghost predicate AuditsAgree(audited: map<string, int>, h: History) {
    && (forall ip :: ip in audited ==> LastAudit(h, ip) == Some(audited[ip]))
    && (forall ip :: ip !in audited ==>
          LastAudit(h, ip).None?
          || (h.Then? && EndOf(h.last) - LastAudit(h, ip).value > LOCKOUT_SECONDS * 2))
  }

  class Guard {
    var rows: seq<Attempt>
    var auditedAt: map<string, int>
    ghost var history: History

    ghost predicate Valid()
      reads this
    {
      Genuine(history) && CountsAgree(rows, history) && AuditsAgree(auditedAt, history)
    }

    constructor ()
      ensures Valid() && history == Empty && rows == [] && auditedAt == map[]
    {
      rows := [];
      auditedAt := map[];
      history := Empty;
    }

    method CountRecentFailures(ip: string, cutoff: int) returns (count: nat)
      ensures count == CountRows(rows, ip, cutoff)
    {
      count := 0;
      for i := 0 to |rows|
        invariant count == CountRows(rows[..i], ip, cutoff)
      {
        assert rows[..i + 1][..i] == rows[..i];
        if rows[i].ip == ip && rows[i].time > cutoff {
          count := count + 1;
        }
      }
      assert rows[..|rows|] == rows;
    }

    /** INSERT, then DELETE of every row of any IP older than seven days. */
    method RecordLoginFailure(ip: string, now: int)
      modifies this`rows
      ensures forall p, cutoff :: cutoff >= now - PURGE_AGE ==>
                CountRows(rows, p, cutoff)
                == CountRows(old(rows), p, cutoff) + if p == ip && now > cutoff then 1 else 0
    {
      var kept := Without(rows + [Attempt(ip, now)], (a: Attempt) => a.time < now - PURGE_AGE);
      forall p, cutoff | cutoff >= now - PURGE_AGE
        ensures CountRows(kept, p, cutoff)
                == CountRows(rows, p, cutoff) + if p == ip && now > cutoff then 1 else 0
      {
        assert (rows + [Attempt(ip, now)])[..|rows|] == rows;
        RemovalKeepsCount(rows + [Attempt(ip, now)], (a: Attempt) => a.time < now - PURGE_AGE, p, cutoff);
      }
      rows := kept;
    }

    /** DELETE of every row of one IP. */
    method ClearLoginFailures(ip: string)
      modifies this`rows
      ensures forall p, cutoff :: CountRows(rows, p, cutoff) == if p == ip then 0 else CountRows(old(rows), p, cutoff)
    {
      var kept := Without(rows, (a: Attempt) => a.ip == ip);
      forall p, cutoff
        ensures CountRows(kept, p, cutoff) == if p == ip then 0 else CountRows(rows, p, cutoff)
      {
        if p == ip {
          RemovalOfIp(rows, ip, cutoff);
        } else {
          RemovalKeepsCount(rows, (a: Attempt) => a.ip == ip, p, cutoff);
        }
      }
      rows := kept;
    }

    /** `_audit_lockout_once`, the part under its lock; returns whether the audit is written. */
    method AuditLockoutOnce(ip: string, now: int) returns (audited: bool)
      requires AuditsAgree(auditedAt, history) && EndsBy(history, now)
      modifies this`auditedAt
      ensures audited == AuditDue(history, ip, now)
      ensures AuditsAgree(auditedAt, Then(history, Blocked(ip, now, audited)))
    {
      if ip in auditedAt && now - auditedAt[ip] < LOCKOUT_SECONDS {
        return false;
      }
      ghost var before := auditedAt;
      auditedAt := map p | p in auditedAt && !(now - auditedAt[p] > LOCKOUT_SECONDS * 2) :: auditedAt[p];
      auditedAt := auditedAt[ip := now];
      return true;
    }

    /** `login`: the lockout check, then the password check, whose outcome is `verified`. */
    method Login(ip: string, verified: bool, now: int, at: int, seen: int) returns (e: Event)
      requires Valid() && EndsBy(history, now) && now <= at <= seen
      modifies this
      ensures Valid() && history == Then(old(history), e)
      ensures e.ip == ip && e.now == now && (e.Failed? ==> e.at == at && e.seen == seen)
      ensures e.Blocked? <==> Failures(old(history), ip, now - LOCKOUT_SECONDS) >= MAX_ATTEMPTS
      ensures !e.Blocked? ==> (e.Succeeded? <==> verified)
    {
      var failures := CountRecentFailures(ip, now - LOCKOUT_SECONDS);
      if failures >= MAX_ATTEMPTS {
        var audited := AuditLockoutOnce(ip, now);
        e := Blocked(ip, now, audited);
      } else if !verified {
        RecordLoginFailure(ip, at);
        failures := CountRecentFailures(ip, seen - LOCKOUT_SECONDS);
        e := Failed(ip, now, at, seen, failures == LOGIN_FAILURE_ALERT_THRESHOLD);
      } else {
        ClearLoginFailures(ip);
        e := Succeeded(ip, now);
      }
      history := Then(history, e);
    }
  }

  /** The rows a DELETE leaves: those that do not meet its condition, in order. */
  function Without(rows: seq<Attempt>, gone: Attempt -> bool): seq<Attempt> {
    if rows == [] then []
    else
      var init, last := rows[..|rows| - 1], rows[|rows| - 1];
      if gone(last) then Without(init, gone) else Without(init, gone) + [last]
  }

  lemma {:induction false} RemovalKeepsCount(rows: seq<Attempt>, gone: Attempt -> bool, ip: string, cutoff: int)
    requires forall a: Attempt :: a.ip == ip && a.time > cutoff ==> !gone(a)
    ensures CountRows(Without(rows, gone), ip, cutoff) == CountRows(rows, ip, cutoff)
  {
    if rows != [] {
      var init, last := rows[..|rows| - 1], rows[|rows| - 1];
      RemovalKeepsCount(init, gone, ip, cutoff);
      var kept := Without(init, gone);
      assert (kept + [last])[..|kept|] == kept;
    }
  }

  lemma {:induction false} RemovalOfIp(rows: seq<Attempt>, ip: string, cutoff: int)
    ensures CountRows(Without(rows, (a: Attempt) => a.ip == ip), ip, cutoff) == 0
  {
    if rows != [] {
      var init, last := rows[..|rows| - 1], rows[|rows| - 1];
      RemovalOfIp(init, ip, cutoff);
      var kept := Without(init, (a: Attempt) => a.ip == ip);
      assert (kept + [last])[..|kept|] == kept;
    }
  }

  /** Failures of one IP that the table still holds, in the window `(t - 300, t]`. */
  function RecordedInWindow(h: History, ip: string, t: int): nat {
    match h
    case Empty => 0
    case Then(before, e) =>
      if e.ip != ip || e.Blocked? then RecordedInWindow(before, ip, t)
      else if e.Succeeded? then 0
      else RecordedInWindow(before, ip, t) + if t - LOCKOUT_SECONDS < e.at <= t then 1 else 0
  }

  /** All failures of one IP in that window, whether or not a success has since erased them. */
  function FailedInWindow(h: History, ip: string, t: int): nat {
    match h
    case Empty => 0
    case Then(before, e) =>
      FailedInWindow(before, ip, t)
      + if e.Failed? && e.ip == ip && t - LOCKOUT_SECONDS < e.at <= t then 1 else 0
  }

  function SucceededInWindow(h: History, ip: string, t: int): nat {
    match h
    case Empty => 0
    case Then(before, e) =>
      SucceededInWindow(before, ip, t)
      + if e.Succeeded? && e.ip == ip && t - LOCKOUT_SECONDS < e.now <= t then 1 else 0
  }

  lemma {:induction false} RecordedWithinFailures(h: History, ip: string, t: int, cutoff: int)
    requires cutoff <= t - LOCKOUT_SECONDS
    ensures RecordedInWindow(h, ip, t) <= Failures(h, ip, cutoff)
  {
    match h
    case Empty =>
    case Then(before, e) => RecordedWithinFailures(before, ip, t, cutoff);
  }

  /** In every serial run, the table never holds more than 100 failures of one IP in any 300 seconds. */
  lemma {:induction false} RecordedFailuresAreBounded(h: History, ip: string, t: int)
    requires Genuine(h)
    ensures RecordedInWindow(h, ip, t) <= MAX_ATTEMPTS
  {
    match h
    case Empty =>
    case Then(before, e) =>
      RecordedFailuresAreBounded(before, ip, t);
      if e.Failed? && e.ip == ip && t - LOCKOUT_SECONDS < e.at <= t {
        RecordedWithinFailures(before, ip, t, e.now - LOCKOUT_SECONDS);
      }
  }

  lemma {:induction false} NoFailuresAheadOfTime(h: History, ip: string, t: int, now: int)
    requires Genuine(h) && EndsBy(h, now) && now <= t - LOCKOUT_SECONDS
    ensures FailedInWindow(h, ip, t) == 0
  {
    match h
    case Empty =>
    case Then(before, e) => NoFailuresAheadOfTime(before, ip, t, now);
  }

  /** A success erases the record, so the failures of one IP in 300 seconds are bounded only by 100 for
      each success in them and 100 more. */
  lemma {:induction false} FailuresBoundedBySuccesses(h: History, ip: string, t: int)
    requires Genuine(h)
    ensures FailedInWindow(h, ip, t) <= MAX_ATTEMPTS * (SucceededInWindow(h, ip, t) + 1)
    ensures EndsBy(h, t) ==>
              FailedInWindow(h, ip, t) <= MAX_ATTEMPTS * SucceededInWindow(h, ip, t) + RecordedInWindow(h, ip, t)
  {
    match h
    case Empty =>
    case Then(before, e) =>
      FailuresBoundedBySuccesses(before, ip, t);
      RecordedFailuresAreBounded(before, ip, t);
      RecordedFailuresAreBounded(h, ip, t);
      if e.Succeeded? && e.now <= t - LOCKOUT_SECONDS {
        NoFailuresAheadOfTime(before, ip, t, e.now);
      }
  }

  /** `g` is the run up to some earlier point of `h`. */
  predicate PrefixOf(g: History, h: History) {
    g == h || (h.Then? && PrefixOf(g, h.before))
  }

  lemma {:induction false} EarlierAudit(g: History, h: History, ip: string)
    requires Genuine(h) && PrefixOf(g, h) && g.Then? && g.last.Blocked? && g.last.ip == ip && g.last.audited
    ensures LastAudit(h, ip).Some? && g.last.now <= LastAudit(h, ip).value
    ensures h.Then? && LastAudit(h, ip).value <= EndOf(h.last)
  {
    if g != h {
      EarlierAudit(g, h.before, ip);
    }
  }

  /** Any two audits of one IP, anywhere in a run, are at least 300 seconds apart. */
  lemma AuditsAreSpaced(g: History, h: History)
    requires Genuine(h) && h.Then? && h.last.Blocked? && h.last.audited
    requires PrefixOf(g, h.before) && g.Then? && g.last.Blocked? && g.last.ip == h.last.ip && g.last.audited
    ensures h.last.now - g.last.now >= LOCKOUT_SECONDS
  {
    EarlierAudit(g, h.before, h.last.ip);
  }

  /** The last audit of an IP is an audit in the run. */
  lemma {:induction false} LastAuditHappened(h: History, ip: string) returns (g: History)
    requires LastAudit(h, ip).Some?
    ensures PrefixOf(g, h) && g.Then? && g.last.Blocked? && g.last.ip == ip && g.last.audited
    ensures LastAudit(h, ip) == Some(g.last.now)
  {
    if h.last.Blocked? && h.last.audited && h.last.ip == ip {
      g := h;
    } else {
      g := LastAuditHappened(h.before, ip);
    }
  }

  /** Every blocked attempt, the first one too, has an audit of its IP in the run, perhaps its own, that is less than
      300 seconds old. */
  lemma EveryBlockIsCovered(h: History) returns (g: History)
    requires Genuine(h) && h.Then? && h.last.Blocked?
    ensures PrefixOf(g, h) && g.Then? && g.last.Blocked? && g.last.ip == h.last.ip && g.last.audited
    ensures 0 <= h.last.now - g.last.now < LOCKOUT_SECONDS
    ensures h.last.audited <==> g == h
  {
    if h.last.audited {
      g := h;
    } else {
      g := LastAuditHappened(h.before, h.last.ip);
      EarlierAudit(g, h.before, h.last.ip);
    }
  }

  // ---- The failure alert ----

  /** One recorded failure: when its row was written, and when the alert was considered. */
  datatype Failure = Failure(at: int, seen: int)

  /** The failures of one IP since its record was last empty. */
  function Stretch(h: History, ip: string): seq<Failure> {
    match h
    case Empty => []
    case Then(before, e) =>
      if e.ip != ip || e.Blocked? then Stretch(before, ip)
      else if e.Succeeded? then []
      else Stretch(before, ip) + [Failure(e.at, e.seen)]
  }

  /** The alerts sent over that stretch. */
  function StretchAlerts(h: History, ip: string): nat {
    match h
    case Empty => 0
    case Then(before, e) =>
      if e.ip != ip || e.Blocked? then StretchAlerts(before, ip)
      else if e.Succeeded? then 0
      else StretchAlerts(before, ip) + if e.alert then 1 else 0
  }

  predicate Ordered(st: seq<Failure>) {
    && (forall i :: 0 <= i < |st| ==> st[i].at <= st[i].seen)
    && forall i, j :: 0 <= i < j < |st| ==> st[i].at <= st[j].at && st[i].seen <= st[j].seen
  }

  /** Failure number `n` of a stretch, counted from 1, sends the alert: the window behind it holds the fifth to
      last failure and not the sixth. */
  predicate Fires(st: seq<Failure>, n: nat) {
    && LOGIN_FAILURE_ALERT_THRESHOLD <= n <= |st|
    && st[n - 5].at > st[n - 1].seen - LOCKOUT_SECONDS
    && (n == 5 || st[n - 6].at <= st[n - 1].seen - LOCKOUT_SECONDS)
  }

  lemma {:induction false} StretchIsOrdered(h: History, ip: string)
    requires Genuine(h)
    ensures Ordered(Stretch(h, ip))
    ensures forall i :: 0 <= i < |Stretch(h, ip)| ==> h.Then? && Stretch(h, ip)[i].seen <= EndOf(h.last)
  {
    match h
    case Empty =>
    case Then(before, e) => StretchIsOrdered(before, ip);
  }

  /** The k-th to last failure is after the cutoff. */
  predicate LastAfter(st: seq<Failure>, cutoff: int, k: nat) {
    k == 0 || (k <= |st| && st[|st| - k].at > cutoff)
  }

  lemma LastAfterAppend(st: seq<Failure>, x: Failure, cutoff: int, k: nat)
    requires Ordered(st + [x])
    ensures Ordered(st)
    ensures x.at > cutoff && k > 0 ==> (LastAfter(st + [x], cutoff, k) <==> LastAfter(st, cutoff, k - 1))
    ensures x.at <= cutoff && k > 0 ==> !LastAfter(st + [x], cutoff, k) && !LastAfter(st, cutoff, k)
  {
    var all := st + [x];
    assert forall i :: 0 <= i < |st| ==> all[i] == st[i];
    assert all[|st|] == x;
  }

  /** A count of at least `k` is a k-th to last failure after the cutoff. */
  lemma {:induction false} FailuresAtLeast(h: History, ip: string, cutoff: int, k: nat)
    requires Ordered(Stretch(h, ip))
    ensures Failures(h, ip, cutoff) >= k <==> LastAfter(Stretch(h, ip), cutoff, k)
  {
    match h
    case Empty =>
    case Then(before, e) =>
      if e.ip != ip || e.Blocked? {
        FailuresAtLeast(before, ip, cutoff, k);
      } else if e.Failed? && k > 0 {
        LastAfterAppend(Stretch(before, ip), Failure(e.at, e.seen), cutoff, k);
        FailuresAtLeast(before, ip, cutoff, if e.at > cutoff then k - 1 else k);
      }
  }

  /** A failure is alerted exactly when it fires, however long the stretch. */
  lemma AlertFiresIff(h: History)
    requires Genuine(h) && h.Then? && h.last.Failed?
    ensures h.last.alert <==> Fires(Stretch(h, h.last.ip), |Stretch(h, h.last.ip)|)
  {
    var ip, cutoff := h.last.ip, h.last.seen - LOCKOUT_SECONDS;
    StretchIsOrdered(h, ip);
    FailuresAtLeast(h, ip, cutoff, 5);
    FailuresAtLeast(h, ip, cutoff, 6);
  }

  /** How many of the first `n` failures fire. */
  function FireCount(st: seq<Failure>, n: nat): nat {
    if n == 0 then 0 else FireCount(st, n - 1) + if Fires(st, n) then 1 else 0
  }

  lemma {:induction false} FireCountOfPrefix(st: seq<Failure>, last: Failure, n: nat)
    requires n <= |st|
    ensures FireCount(st + [last], n) == FireCount(st, n)
  {
    if n > 0 {
      FireCountOfPrefix(st, last, n - 1);
    }
  }

  /** The alerts of a stretch are its failures that fire. */
  lemma {:induction false} AlertsAreFires(h: History, ip: string)
    requires Genuine(h)
    ensures StretchAlerts(h, ip) == FireCount(Stretch(h, ip), |Stretch(h, ip)|)
  {
    match h
    case Empty =>
    case Then(before, e) =>
      AlertsAreFires(before, ip);
      if e.ip == ip && e.Failed? {
        AlertFiresIff(h);
        FireCountOfPrefix(Stretch(before, ip), Failure(e.at, e.seen), |Stretch(before, ip)|);
      }
  }

  ghost predicate FiresOnce(st: seq<Failure>, n: nat) {
    exists k: nat :: k <= n && Fires(st, k) && forall m: nat :: m <= n && Fires(st, m) ==> m == k
  }

  lemma {:induction false} NoFires(st: seq<Failure>, n: nat)
    ensures FireCount(st, n) == 0 <==> forall m: nat :: m <= n ==> !Fires(st, m)
  {
    if n > 0 {
      NoFires(st, n - 1);
    }
  }

  lemma FiresOnceAtLast(st: seq<Failure>, n: nat)
    requires n > 0 && Fires(st, n)
    ensures FiresOnce(st, n) <==> forall m: nat :: m <= n - 1 ==> !Fires(st, m)
  {
  }

  lemma FiresOnceBefore(st: seq<Failure>, n: nat)
    requires n > 0 && !Fires(st, n)
    ensures FiresOnce(st, n) <==> FiresOnce(st, n - 1)
  {
    if FiresOnce(st, n - 1) {
      var k: nat :| k <= n - 1 && Fires(st, k) && forall m: nat :: m <= n - 1 && Fires(st, m) ==> m == k;
      assert k <= n;
    }
  }

  lemma {:induction false} OneFireIff(st: seq<Failure>, n: nat)
    ensures FireCount(st, n) == 1 <==> FiresOnce(st, n)
  {
    if n > 0 {
      if Fires(st, n) {
        FiresOnceAtLast(st, n);
        NoFires(st, n - 1);
      } else {
        FiresOnceBefore(st, n);
        OneFireIff(st, n - 1);
      }
    }
  }

  /** The alert is sent exactly once over a stretch if and only if exactly one of its failures has its fifth to
      last failure, and not its sixth, less than 300 seconds behind. */
  lemma AlertOnceIff(h: History, ip: string)
    requires Genuine(h)
    ensures StretchAlerts(h, ip) == 1 <==> FiresOnce(Stretch(h, ip), |Stretch(h, ip)|)
  {
    AlertsAreFires(h, ip);
    OneFireIff(Stretch(h, ip), |Stretch(h, ip)|);
  }

  lemma {:induction false} OnlyTheFifthFires(st: seq<Failure>, n: nat)
    requires Ordered(st) && n <= |st|
    requires st != [] ==> st[|st| - 1].seen - st[0].at < LOCKOUT_SECONDS
    ensures FireCount(st, n) == if n >= LOGIN_FAILURE_ALERT_THRESHOLD then 1 else 0
  {
    if n > 0 {
      OnlyTheFifthFires(st, n - 1);
      assert st[n - 1].seen <= st[|st| - 1].seen;
    }
  }

  /** In particular: over a stretch shorter than 300 seconds, the alert is sent exactly once if there are five
      failures and never otherwise, whatever other IPs do meanwhile. */
  lemma AlertExactlyOnce(h: History, ip: string)
    requires Genuine(h)
    requires var st := Stretch(h, ip); st != [] ==> st[|st| - 1].seen - st[0].at < LOCKOUT_SECONDS
    ensures StretchAlerts(h, ip) == if |Stretch(h, ip)| >= LOGIN_FAILURE_ALERT_THRESHOLD then 1 else 0
  {
    StretchIsOrdered(h, ip);
    AlertsAreFires(h, ip);
    OnlyTheFifthFires(Stretch(h, ip), |Stretch(h, ip)|);
  }

  /** One IP failing `n` times, once every `period` seconds. */
  function Drip(ip: string, period: nat, n: nat): History {
    if n == 0 then Empty
    else
      var t := (n - 1) * period;
      Then(Drip(ip, period, n - 1), Failed(ip, t, t, t, n >= LOGIN_FAILURE_ALERT_THRESHOLD))
  }

  lemma {:induction false} DripStretch(ip: string, period: nat, n: nat)
    ensures |Stretch(Drip(ip, period, n), ip)| == n
    ensures forall i :: 0 <= i < n ==> Stretch(Drip(ip, period, n), ip)[i] == Failure(i * period, i * period)
  {
    if n > 0 {
      DripStretch(ip, period, n - 1);
    }
  }

  lemma MultiplyMonotone(a: nat, b: nat, c: nat)
    requires a <= b
    ensures a * c <= b * c
  {
  }

  lemma DripIsOrdered(ip: string, period: nat, n: nat)
    ensures Ordered(Stretch(Drip(ip, period, n), ip))
  {
    var st := Stretch(Drip(ip, period, n), ip);
    DripStretch(ip, period, n);
    forall i, j | 0 <= i < j < n ensures st[i].at <= st[j].at && st[i].seen <= st[j].seen {
      MultiplyMonotone(i, j, period);
    }
  }

  /** Every failure from the fifth on fires. */
  lemma DripFires(ip: string, period: nat, n: nat, m: nat)
    requires 60 <= period < 75 && m <= n
    ensures Fires(Stretch(Drip(ip, period, n), ip), m) <==> m >= LOGIN_FAILURE_ALERT_THRESHOLD
  {
    DripStretch(ip, period, n);
    if m >= 5 {
      assert (m - 5) * period == (m - 1) * period - 4 * period;
      if m > 5 {
        assert (m - 6) * period == (m - 1) * period - 5 * period;
      }
    }
  }

  lemma {:induction false} DripFireCount(ip: string, period: nat, n: nat, m: nat)
    requires 60 <= period < 75 && m <= n
    ensures FireCount(Stretch(Drip(ip, period, n), ip), m) == if m < 4 then 0 else m - 4
  {
    DripFires(ip, period, n, m);
    if m > 0 {
      DripFireCount(ip, period, n, m - 1);
    }
  }

  /** No more than six failures of a drip are less than 300 seconds old, so the lockout never interferes. */
  lemma DripStaysBelowLockout(ip: string, period: nat, n: nat)
    requires 60 <= period && n > 0
    ensures Failures(Drip(ip, period, n - 1), ip, (n - 1) * period - LOCKOUT_SECONDS) < MAX_ATTEMPTS
  {
    DripIsOrdered(ip, period, n - 1);
    DripStretch(ip, period, n - 1);
    FailuresAtLeast(Drip(ip, period, n - 1), ip, (n - 1) * period - LOCKOUT_SECONDS, MAX_ATTEMPTS);
    if n - 1 >= MAX_ATTEMPTS {
      assert (n - 1 - 100) * period == (n - 1) * period - 100 * period;
    }
  }

  lemma {:induction false} DripIsGenuine(ip: string, period: nat, n: nat)
    requires 60 <= period < 75
    ensures Genuine(Drip(ip, period, n))
  {
    if n > 0 {
      var h, cutoff := Drip(ip, period, n), (n - 1) * period - LOCKOUT_SECONDS;
      DripIsGenuine(ip, period, n - 1);
      DripStaysBelowLockout(ip, period, n);
      if n > 1 {
        MultiplyMonotone(n - 2, n - 1, period);
      }
      DripIsOrdered(ip, period, n);
      DripStretch(ip, period, n);
      DripFires(ip, period, n, n);
      FailuresAtLeast(h, ip, cutoff, 5);
      FailuresAtLeast(h, ip, cutoff, 6);
    }
  }

  /** Beyond 300 seconds "once" fails: an IP that keeps failing once every 60 to 74 seconds raises the
      alert at its fifth failure and at every failure after it. */
  lemma SteadyDripAlertsEveryTime(ip: string, period: nat, n: nat)
    requires 60 <= period < 75
    ensures Genuine(Drip(ip, period, n))
    ensures |Stretch(Drip(ip, period, n), ip)| == n
    ensures StretchAlerts(Drip(ip, period, n), ip) == if n < 4 then 0 else n - 4
  {
    DripIsGenuine(ip, period, n);
    DripStretch(ip, period, n);
    AlertsAreFires(Drip(ip, period, n), ip);
    DripFireCount(ip, period, n, n);
  }
}
