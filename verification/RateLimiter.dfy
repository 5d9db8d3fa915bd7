/** The per-IP sliding window of `AuthMiddleware._check_rate_limit` (docker/auth_middleware.py), compared
    with a limiter that never forgets. */
module RateLimiter {
  import opened Basics

  const API_RATE_LIMIT: nat := 1000
  const API_RATE_WINDOW: int := 60

  /** One request and what the limiter decided about it. */
  datatype Decision = Decision(ip: string, time: int, admitted: bool)

  type History = Log<Decision>

  /** The times of the admitted requests of one IP, oldest first. */
  function Admitted(history: History, ip: string): seq<int> {
    match history
    case Empty => []
    case Then(before, d) => if d.ip == ip && d.admitted then Admitted(before, ip) + [d.time] else Admitted(before, ip)
  }

  /** Those of the first `n` times that are after `cutoff`, in order. */
  function FirstAfter(times: seq<int>, n: nat, cutoff: int): seq<int>
    requires n <= |times|
  {
    if n == 0 then []
    else if times[n - 1] > cutoff then FirstAfter(times, n - 1, cutoff) + [times[n - 1]]
    else FirstAfter(times, n - 1, cutoff)
  }

  /** The times after `cutoff`, in order. */
  function After(times: seq<int>, cutoff: int): seq<int> {
    FirstAfter(times, |times|, cutoff)
  }

  /** The decision of a limiter that keeps its whole history. */
  predicate IdealAllows(history: History, ip: string, now: int) {
    |After(Admitted(history, ip), now - API_RATE_WINDOW)| < API_RATE_LIMIT
  }

  /** The run so far ended at or before `now`. */
  predicate NotAfter(history: History, now: int) {
    history.Then? ==> history.last.time <= now
  }

  /** A history in clock order in which every decision is the ideal one. */
  predicate Ideal(history: History) {
    match history
    case Empty => true
    case Then(before, d) =>
      Ideal(before) && NotAfter(before, d.time) && d.admitted == IdealAllows(before, d.ip, d.time)
  }

  /** What the pruned store holds for one IP: its admitted requests that were still inside the window
      when that IP was last seen, admitted or not. */
  function Kept(history: History, ip: string): seq<int> {
    match history
    case Empty => []
    case Then(before, d) => if d.ip == ip then After(Admitted(history, ip), d.time - API_RATE_WINDOW) else Kept(before, ip)
  }

  /** The number of admitted requests of one IP in the window `(t - 60, t]`. */
  function CountInWindow(history: History, ip: string, t: int): nat {
    match history
    case Empty => 0
    case Then(before, d) =>
      CountInWindow(before, ip, t)
      + if d.ip == ip && d.admitted && t - API_RATE_WINDOW < d.time <= t then 1 else 0
  }

  /** The pruned store stands for the whole history. */
  ghost predicate Represents(times: map<string, seq<int>>, history: History) {
    && (forall ip :: ip in times ==> times[ip] != [] && times[ip] == Kept(history, ip))
    && (forall ip :: ip !in times ==> Admitted(history, ip) == [])
  }

  class Limiter {
    var times: map<string, seq<int>>
    ghost var history: History

    ghost predicate Valid()
      reads this
    {
      Ideal(history) && Represents(times, history)
    }

    constructor ()
      ensures Valid() && history == Empty && times == map[]
    {
      times := map[];
      history := Empty;
    }

    /** `_check_rate_limit`, the whole of it under the lock. */
    method CheckRateLimit(ip: string, now: int) returns (allowed: bool)
      requires Valid() && NotAfter(history, now)
      modifies this
      ensures Valid()
      ensures allowed == IdealAllows(old(history), ip, now)
      ensures history == Then(old(history), Decision(ip, now, allowed))
      ensures times == old(times)[ip := Kept(history, ip)] && |times[ip]| <= API_RATE_LIMIT
    {
      var stored := if ip in times then times[ip] else [];
      var kept := Prune(stored, now - API_RATE_WINDOW);
      ghost var h := Then(history, Decision(ip, now, |kept| < API_RATE_LIMIT));
      StoreAgreesWithHistory(history, ip, stored, now);
      StoredIsKept(history, h.last, kept);
      AppendRepresents(times, history, h.last);
      Overwritten(times, ip, kept, kept + [now]);
      times := times[ip := kept];
      if times[ip] == [] {
        times := times - {ip};
      } else if |times[ip]| >= API_RATE_LIMIT {
        history := h;
        return false;
      }
      times := times[ip := (if ip in times then times[ip] else []) + [now]];
      history := h;
      return true;
    }
  }

  /** The list comprehension that drops the times at or before the cutoff. */
  method Prune(stored: seq<int>, cutoff: int) returns (kept: seq<int>)
    ensures kept == After(stored, cutoff)
  {
    kept := [];
    for i := 0 to |stored|
      invariant kept == FirstAfter(stored, i, cutoff)
    {
      if stored[i] > cutoff {
        kept := kept + [stored[i]];
      }
    }
  }

  lemma Overwritten<K, V>(m: map<K, V>, k: K, v: V, w: V)
    ensures m[k := v][k := w] == m[k := w]
    ensures (m[k := v] - {k})[k := w] == m[k := w]
  {
  }

  lemma {:induction false} FirstAfterOfPrefix(times: seq<int>, t: int, n: nat, cutoff: int)
    requires n <= |times|
    ensures FirstAfter(times + [t], n, cutoff) == FirstAfter(times, n, cutoff)
  {
    if n > 0 {
      FirstAfterOfPrefix(times, t, n - 1, cutoff);
    }
  }

  lemma AfterAppend(times: seq<int>, t: int, cutoff: int)
    ensures After(times + [t], cutoff) == if t > cutoff then After(times, cutoff) + [t] else After(times, cutoff)
  {
    FirstAfterOfPrefix(times, t, |times|, cutoff);
  }

  /** Pruning to one cutoff and then to a later one is pruning to the later one. */
  lemma {:induction false} FirstAfterAfter(times: seq<int>, n: nat, c: int, d: int)
    requires c <= d && n <= |times|
    ensures After(FirstAfter(times, n, c), d) == FirstAfter(times, n, d)
  {
    if n > 0 {
      FirstAfterAfter(times, n - 1, c, d);
      AfterAppend(FirstAfter(times, n - 1, c), times[n - 1], d);
    }
  }

  lemma AfterAfter(times: seq<int>, c: int, d: int)
    requires c <= d
    ensures After(After(times, c), d) == After(times, d)
  {
    FirstAfterAfter(times, |times|, c, d);
  }

  lemma {:induction false} LaterCutoffKeepsFewerOf(times: seq<int>, n: nat, c: int, d: int)
    requires c <= d && n <= |times|
    ensures |FirstAfter(times, n, d)| <= |FirstAfter(times, n, c)|
  {
    if n > 0 {
      LaterCutoffKeepsFewerOf(times, n - 1, c, d);
    }
  }

  lemma LaterCutoffKeepsFewer(times: seq<int>, c: int, d: int)
    requires c <= d
    ensures |After(times, d)| <= |After(times, c)|
  {
    LaterCutoffKeepsFewerOf(times, |times|, c, d);
  }

  /** The pruned list of an IP answers the next request as the whole history would. */
  lemma {:induction false} KeptAgrees(history: History, ip: string, now: int)
    requires Ideal(history) && NotAfter(history, now)
    ensures After(Kept(history, ip), now - API_RATE_WINDOW) == After(Admitted(history, ip), now - API_RATE_WINDOW)
  {
    match history
    case Empty =>
    case Then(before, d) =>
      if d.ip == ip {
        AfterAfter(Admitted(history, ip), d.time - API_RATE_WINDOW, now - API_RATE_WINDOW);
      } else {
        KeptAgrees(before, ip, now);
      }
  }

  lemma StoreAgreesWithHistory(history: History, ip: string, stored: seq<int>, now: int)
    requires Ideal(history) && NotAfter(history, now)
    requires if stored == [] then Admitted(history, ip) == [] else stored == Kept(history, ip)
    ensures After(stored, now - API_RATE_WINDOW) == After(Admitted(history, ip), now - API_RATE_WINDOW)
  {
    KeptAgrees(history, ip, now);
  }

  lemma AfterDecision(times: seq<int>, t: int, admitted: bool, all: seq<int>)
    requires all == if admitted then times + [t] else times
    ensures var cutoff := t - API_RATE_WINDOW;
      After(all, cutoff) == if admitted then After(times, cutoff) + [t] else After(times, cutoff)
  {
    AfterAppend(times, t, t - API_RATE_WINDOW);
  }

  lemma KeptIsAfter(history: History)
    requires history.Then?
    ensures Kept(history, history.last.ip)
         == After(Admitted(history, history.last.ip), history.last.time - API_RATE_WINDOW)
  {
  }

  lemma AdmittedGrows(history: History, d: Decision)
    ensures Admitted(Then(history, d), d.ip)
         == if d.admitted then Admitted(history, d.ip) + [d.time] else Admitted(history, d.ip)
  {
  }

  lemma KeptAfterDecision(history: History, d: Decision, kept: seq<int>)
    requires kept == After(Admitted(history, d.ip), d.time - API_RATE_WINDOW)
    ensures Kept(Then(history, d), d.ip) == if d.admitted then kept + [d.time] else kept
  {
    KeptIsAfter(Then(history, d));
    AdmittedGrows(history, d);
    AfterDecision(Admitted(history, d.ip), d.time, d.admitted, Admitted(Then(history, d), d.ip));
  }

  lemma IdealDecision(history: History, d: Decision)
    requires Ideal(history) && NotAfter(history, d.time) && d.admitted == IdealAllows(history, d.ip, d.time)
    ensures Ideal(Then(history, d))
  {
  }

  lemma KeptIsBounded(history: History, ip: string, t: int)
    requires Ideal(history) && history.Then? && history.last.ip == ip && history.last.time == t
    ensures |Kept(history, ip)| <= API_RATE_LIMIT
  {
    EveryWindowIsBounded(history, ip, t);
    WindowIsAfter(history, ip, t);
  }

  /** The list the code stores for the requesting IP: the pruned one, and the new time if admitted. */
  lemma StoredIsKept(history: History, d: Decision, kept: seq<int>)
    requires Ideal(history) && NotAfter(history, d.time)
    requires kept == After(Admitted(history, d.ip), d.time - API_RATE_WINDOW)
    requires d.admitted == (|kept| < API_RATE_LIMIT)
    ensures Ideal(Then(history, d))
    ensures Kept(Then(history, d), d.ip) == if d.admitted then kept + [d.time] else kept
    ensures |Kept(Then(history, d), d.ip)| <= API_RATE_LIMIT
  {
    IdealDecision(history, d);
    KeptAfterDecision(history, d, kept);
    KeptIsBounded(Then(history, d), d.ip, d.time);
  }

  lemma AppendRepresents(times: map<string, seq<int>>, history: History, d: Decision)
    requires Represents(times, history) && Kept(Then(history, d), d.ip) != []
    ensures Represents(times[d.ip := Kept(Then(history, d), d.ip)], Then(history, d))
  {
  }

  /** A window that ends at or after the latest request is counted by the times after its start. */
  lemma {:induction false} WindowIsAfter(history: History, ip: string, t: int)
    requires Ideal(history) && NotAfter(history, t)
    ensures CountInWindow(history, ip, t) == |After(Admitted(history, ip), t - API_RATE_WINDOW)|
  {
    match history
    case Empty =>
    case Then(before, d) =>
      WindowIsAfter(before, ip, t);
      AfterAppend(Admitted(before, ip), d.time, t - API_RATE_WINDOW);
  }

  /** In every run, every IP has at most 1000 admitted requests in every window of 60 seconds, wherever
      the window ends. */
  lemma {:induction false} EveryWindowIsBounded(history: History, ip: string, t: int)
    requires Ideal(history)
    ensures CountInWindow(history, ip, t) <= API_RATE_LIMIT
  {
    match history
    case Empty =>
    case Then(before, d) =>
      EveryWindowIsBounded(before, ip, t);
      if d.ip == ip && d.admitted && t - API_RATE_WINDOW < d.time <= t {
        WindowIsAfter(before, ip, t);
        LaterCutoffKeepsFewer(Admitted(before, ip), d.time - API_RATE_WINDOW, t - API_RATE_WINDOW);
      }
  }
}
