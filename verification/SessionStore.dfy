/** The in-memory session store (docker/session_store.py) against an ideal store that discards nothing on
    its own, and the sessions that survive a password change (docker/users.py). */
module SessionStore {
  import opened Basics

  datatype Session = Session(userId: int, username: string, createdAt: int, expiresAt: int)

  type Sessions = map<string, Session>

  /** One call, with the clock it read; `Got` covers every lookup. */
  datatype Op =
    | Added(token: string, userId: int, username: string, now: int, ttl: int)
    | Got(token: string, now: int)
    | Removed(token: string, now: int)
    | Refreshed(token: string, now: int, ttl: int)
    | RemovedUser(userId: int, now: int)
    | Cleaned(now: int)

  type History = Log<Op>

  predicate EndsBy(h: History, now: int) {
    h.Then? ==> h.last.now <= now
  }

  predicate Live(s: Sessions, token: string, now: int) {
    token in s && s[token].expiresAt > now
  }

  /** The answer of a lookup: a session that has not expired. */
  function Lookup(s: Sessions, token: string, now: int): Option<Session> {
    if Live(s, token, now) then Some(s[token]) else None
  }

  /** What one call does to the real store. */
  function Step(s: Sessions, op: Op): Sessions {
    match op
    case Added(token, userId, username, now, ttl) => s[token := Session(userId, username, now, now + ttl)]
    case Got(token, now) => if token in s && s[token].expiresAt <= now then s - {token} else s
    case Removed(token, _) => s - {token}
    case Refreshed(token, now, ttl) => if token in s then s[token := s[token].(expiresAt := now + ttl)] else s
    case RemovedUser(userId, _) => map t | t in s && s[t].userId != userId :: s[t]
    case Cleaned(now) => map t | t in s && s[t].expiresAt > now :: s[t]
  }

  /** What one call does to the ideal store: lookups and cleanups only observe. */
  function IdealStep(s: Sessions, op: Op): Sessions {
    if op.Got? || op.Cleaned? then s else Step(s, op)
  }

  function Stored(h: History): Sessions {
    match h
    case Empty => map[]
    case Then(before, op) => Step(Stored(before), op)
  }

  function Ideal(h: History): Sessions {
    match h
    case Empty => map[]
    case Then(before, op) => IdealStep(Ideal(before), op)
  }

  /** A refresh of a token whose session has run out, cleaned up or not. */
  predicate Revives(s: Sessions, op: Op) {
    op.Refreshed? && op.token in s && s[op.token].expiresAt <= op.now
  }

  /** Calls in clock order that never refresh a token after its session has run out. */
  predicate Orderly(h: History) {
    match h
    case Empty => true
    case Then(before, op) => Orderly(before) && EndsBy(before, op.now) && !Revives(Ideal(before), op)
  }

  class Store {
    var store: Sessions
    ghost var history: History

    ghost predicate Valid()
      reads this
    {
      store == Stored(history)
    }

    constructor ()
      ensures Valid() && history == Empty
    {
      store := map[];
      history := Empty;
    }

    method Add(token: string, userId: int, username: string, ttl: int, now: int)
      requires Valid()
      modifies this
      ensures Valid() && history == Then(old(history), Added(token, userId, username, now, ttl))
    {
      store := store[token := Session(userId, username, now, now + ttl)];
      history := Then(history, Added(token, userId, username, now, ttl));
    }

    method Get(token: string, now: int) returns (session: Option<Session>)
      requires Valid()
      modifies this
      ensures Valid() && history == Then(old(history), Got(token, now))
      ensures session == Lookup(Stored(old(history)), token, now)
      ensures Orderly(old(history)) && EndsBy(old(history), now) ==>
                session == Lookup(Ideal(old(history)), token, now)
    {
      if Orderly(history) && EndsBy(history, now) {
        LookupIsIdeal(history, token, now);
      }
      history := Then(history, Got(token, now));
      if token !in store {
        return None;
      }
      if store[token].expiresAt <= now {
        store := store - {token};
        return None;
      }
      return Some(store[token]);
    }

    method Remove(token: string, now: int) returns (removed: bool)
      requires Valid()
      modifies this
      ensures Valid() && history == Then(old(history), Removed(token, now))
      ensures removed == (token in old(store))
    {
      history := Then(history, Removed(token, now));
      removed := token in store;
      if removed {
        store := store - {token};
      }
    }

    method UpdateExpiry(token: string, ttl: int, now: int) returns (found: bool)
      requires Valid()
      modifies this
      ensures Valid() && history == Then(old(history), Refreshed(token, now, ttl))
      ensures found == (token in old(store))
    {
      history := Then(history, Refreshed(token, now, ttl));
      found := token in store;
      if found {
        store := store[token := store[token].(expiresAt := now + ttl)];
      }
    }

    /** Collect the tokens of the user, then delete them one by one. */
    method RemoveByUser(userId: int, now: int) returns (count: nat)
      requires Valid()
      modifies this
      ensures Valid() && history == Then(old(history), RemovedUser(userId, now))
      ensures count == |set t | t in old(store) && old(store)[t].userId == userId|
    {
      history := Then(history, RemovedUser(userId, now));
      var targets := set t | t in store && store[t].userId == userId;
      count := |targets|;
      DeleteAll(targets);
      assert store == Step(old(store), RemovedUser(userId, now));
    }

    /** Collect the expired tokens, then delete them one by one. */
    method CleanupExpired(now: int) returns (count: nat)
      requires Valid()
      modifies this
      ensures Valid() && history == Then(old(history), Cleaned(now))
      ensures count == |set t | t in old(store) && old(store)[t].expiresAt <= now|
    {
      history := Then(history, Cleaned(now));
      var expired := set t | t in store && store[t].expiresAt <= now;
      count := |expired|;
      DeleteAll(expired);
      assert store == Step(old(store), Cleaned(now));
    }

    method DeleteAll(targets: set<string>)
      modifies this`store
      ensures store == old(store) - targets
    {
      var left := targets;
      while left != {}
        invariant left <= targets && store == old(store) - (targets - left)
        decreases |left|
      {
        var t :| t in left;
        store := store - {t};
        left := left - {t};
      }
    }
  }

  /** The outcome of `change_password`. */
  datatype PasswordChange = WrongPassword | WeakPassword | Changed(sessions: nat)

  /** `change_password`: `users` maps names to ids, `verified` says whether the old password matched and
      `weak` whether the new one breaks the policy. Writing the new hash is outside this model. */
  method ChangePassword(sessions: Store, users: map<string, int>, username: string, verified: bool, weak: bool, now: int)
    returns (r: PasswordChange)
    requires sessions.Valid()
    modifies sessions
    ensures sessions.Valid()
    ensures r.Changed? <==> verified && !weak
    ensures r.WrongPassword? <==> !verified
    ensures !r.Changed? || username !in users ==> sessions.history == old(sessions.history)
    ensures r.Changed? && username in users ==>
              sessions.history == Then(old(sessions.history), RemovedUser(users[username], now))
  {
    if !verified {
      return WrongPassword;
    }
    if weak {
      return WeakPassword;
    }
    var count := 0;
    if username in users {
      count := sessions.RemoveByUser(users[username], now);
    }
    return Changed(count);
  }

  /** The real store holds part of the ideal one, and lacks only sessions that had run out. */
  ghost predicate Refines(s: Sessions, ideal: Sessions, h: History) {
    && (forall t :: t in s ==> t in ideal && s[t] == ideal[t])
    && (forall t :: t in ideal && t !in s ==> h.Then? && ideal[t].expiresAt <= h.last.now)
  }

  lemma {:induction false} StoreRefinesIdeal(h: History)
    requires Orderly(h)
    ensures Refines(Stored(h), Ideal(h), h)
  {
    match h
    case Empty =>
    case Then(before, op) => StoreRefinesIdeal(before);
  }

  /** Every lookup, at any moment after the run, answers as the ideal store does. */
  lemma LookupIsIdeal(h: History, token: string, now: int)
    requires Orderly(h) && EndsBy(h, now)
    ensures Lookup(Stored(h), token, now) == Lookup(Ideal(h), token, now)
  {
    StoreRefinesIdeal(h);
  }

  /** The run without its lookups and cleanups. */
  function Effects(h: History): History {
    match h
    case Empty => Empty
    case Then(before, op) => if op.Got? || op.Cleaned? then Effects(before) else Then(Effects(before), op)
  }

  lemma {:induction false} ObservationsLeaveIdeal(h: History)
    ensures Ideal(Effects(h)) == Ideal(h)
  {
    match h
    case Empty =>
    case Then(before, op) => ObservationsLeaveIdeal(before);
  }

  /** Two orderly runs that differ only in where lookups and `cleanup_expired` happen give the same
      answer to every later lookup. */
  lemma CleanupsAreInvisible(g: History, h: History, token: string, now: int)
    requires Orderly(g) && Orderly(h) && EndsBy(g, now) && EndsBy(h, now) && Effects(g) == Effects(h)
    ensures Lookup(Stored(g), token, now) == Lookup(Stored(h), token, now)
  {
    LookupIsIdeal(g, token, now);
    LookupIsIdeal(h, token, now);
    ObservationsLeaveIdeal(g);
    ObservationsLeaveIdeal(h);
  }

  /** The condition is exact: a cleanup right before a refresh changes some later answer if and only if
      the refresh revives a session that has run out. */
  lemma CleanupMattersOnlyBeforeRevival(s: Sessions, token: string, now: int, ttl: int)
    requires ttl > 0
    ensures var refresh := Refreshed(token, now, ttl);
            (exists t, later :: later >= now
               && Lookup(Step(Step(s, Cleaned(now)), refresh), t, later) != Lookup(Step(s, refresh), t, later))
            <==> Revives(s, refresh)
  {
    var refresh := Refreshed(token, now, ttl);
    if Revives(s, refresh) {
      assert Lookup(Step(Step(s, Cleaned(now)), refresh), token, now) != Lookup(Step(s, refresh), token, now);
    }
  }

  /** No call after `h` and up to `g` adds a session of this user. */
  predicate NoLoginSince(h: History, g: History, userId: int) {
    g == h || (g.Then? && NoLoginSince(h, g.before, userId) && !(g.last.Added? && g.last.userId == userId))
  }

  /** After a successful password change no session of that user is found, whatever calls follow, until
      one of them adds a session of that user again. */
  lemma {:induction false} NoSessionSurvivesPasswordChange(h: History, g: History, userId: int, token: string, now: int)
    requires h.Then? && h.last.RemovedUser? && h.last.userId == userId
    requires NoLoginSince(h, g, userId)
    ensures forall t :: t in Stored(g) ==> Stored(g)[t].userId != userId
    ensures var found := Lookup(Stored(g), token, now); found.Some? ==> found.value.userId != userId
  {
    if g != h {
      NoSessionSurvivesPasswordChange(h, g.before, userId, token, now);
    }
  }

  /** The sessions of every other user are exactly as before the change. */
  lemma OtherUsersKeepTheirSessions(h: History, userId: int, token: string, now: int, at: int)
    ensures var before := Lookup(Stored(h), token, at);
            var after := Lookup(Stored(Then(h, RemovedUser(userId, now))), token, at);
            after == if before.Some? && before.value.userId == userId then None else before
  {
  }

  // ---- What a lookup tells ----

  /** The call is about this token, or about all sessions of this user. */
  predicate Touches(op: Op, token: string, userId: int) {
    match op
    case Added(t, _, _, _, _) => t == token
    case Removed(t, _) => t == token
    case Refreshed(t, _, _) => t == token
    case RemovedUser(u, _) => u == userId
    case Got(_, _) => false
    case Cleaned(_) => false
  }

  /** `h` is `g` and further calls by the time `now`, none of which touches the session. */
  predicate Untouched(g: History, h: History, token: string, userId: int, now: int) {
    h == g || (h.Then? && h.last.now <= now && !Touches(h.last, token, userId) && Untouched(g, h.before, token, userId, now))
  }

  lemma {:induction false} LookupUntilTouched(g: History, h: History, token: string, userId: int, now: int)
    requires Untouched(g, h, token, userId, now) && token in Stored(g) && Stored(g)[token].userId == userId
    ensures Lookup(Stored(h), token, now) == Lookup(Stored(g), token, now)
    ensures token in Stored(h) ==> Stored(h)[token] == Stored(g)[token]
  {
    if h != g {
      LookupUntilTouched(g, h.before, token, userId, now);
    }
  }

  /** After a login the session is found, with what it was added with, for as long as its time runs, whatever happens
      to other sessions, and however often it is looked up or the store is cleaned. */
  lemma AddedSessionIsFound(before: History, h: History, token: string, userId: int, username: string, at: int, ttl: int,
                            now: int)
    requires Untouched(Then(before, Added(token, userId, username, at, ttl)), h, token, userId, now)
    ensures Lookup(Stored(h), token, now)
         == if now < at + ttl then Some(Session(userId, username, at, at + ttl)) else None
  {
    LookupUntilTouched(Then(before, Added(token, userId, username, at, ttl)), h, token, userId, now);
  }

  /** A refresh of a session that is in the store sets its time anew and changes nothing else of it. */
  lemma RefreshedSessionIsFound(before: History, h: History, token: string, at: int, ttl: int, now: int)
    requires token in Stored(before)
    requires Untouched(Then(before, Refreshed(token, at, ttl)), h, token, Stored(before)[token].userId, now)
    ensures var s := Stored(before)[token];
      Lookup(Stored(h), token, now)
      == if now < at + ttl then Some(Session(s.userId, s.username, s.createdAt, at + ttl)) else None
  {
    LookupUntilTouched(Then(before, Refreshed(token, at, ttl)), h, token, Stored(before)[token].userId, now);
  }

  /** No call since has added the token. */
  predicate NotAddedSince(g: History, h: History, token: string) {
    h == g || (h.Then? && !(h.last.Added? && h.last.token == token) && NotAddedSince(g, h.before, token))
  }

  /** After a logout nothing is found under the token until it is added again. */
  lemma {:induction false} RemovedSessionIsGone(before: History, h: History, token: string, at: int, now: int)
    requires NotAddedSince(Then(before, Removed(token, at)), h, token)
    ensures token !in Stored(h) && Lookup(Stored(h), token, now) == None
  {
    if h != Then(before, Removed(token, at)) {
      RemovedSessionIsGone(before, h.before, token, at, now);
    }
  }
}
