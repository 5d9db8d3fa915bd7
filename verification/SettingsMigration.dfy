/** The start-up migration from `user_settings` to `user_preferences` (docker/app.py): it may be cut off after any
    statement and started again, and a marker row tells later starts that it is done. */
module SettingsMigration {
  import opened Basics

  type Key = (int, string)
  type Table = map<Key, string>

  /** What `json.loads` makes of a settings cell; an object's values are given as the JSON text to be stored. */
  datatype Parsed = Unparsable | NotAnObject | Object(items: seq<(string, string)>)

  datatype Row = Row(userId: int, settings: Parsed)

  /** One INSERT OR REPLACE. */
  datatype Op = Op(key: Key, value: string)

  const MARKER: Key := (0, "_migration_v49_done")

  function ItemOps(userId: int, items: seq<(string, string)>): (ops: seq<Op>)
    ensures |ops| == |items|
    ensures forall i :: 0 <= i < |ops| ==> ops[i] == Op((userId, items[i].0), items[i].1)
  {
    seq(|items|, i requires 0 <= i < |items| => Op((userId, items[i].0), items[i].1))
  }

  function RowOps(row: Row): seq<Op> {
    if row.settings.Object? then ItemOps(row.userId, row.settings.items) else []
  }

  /** The inserts of one complete run, in order. */
  function Ops(rows: seq<Row>): seq<Op> {
    if rows == [] then [] else RowOps(rows[0]) + Ops(rows[1..])
  }

  /** The table after these inserts, of which only those in `ok` succeed. */
  function Apply(p: Table, ops: seq<Op>, ok: Op -> bool): Table
    decreases |ops|
  {
    if ops == [] then p else Apply(if ok(ops[0]) then p[ops[0].key := ops[0].value] else p, ops[1..], ok)
  }

  function SuccessCount(ops: seq<Op>, ok: Op -> bool): nat {
    if ops == [] then 0 else (if ok(ops[0]) then 1 else 0) + SuccessCount(ops[1..], ok)
  }

  /** INSERT OR IGNORE of the marker. */
  function WithMarker(p: Table): Table {
    if MARKER in p then p else p[MARKER := "1"]
  }

  /** A run that ends, or is cut off, after at most `steps` statements. */
  function Run(p: Table, ops: seq<Op>, ok: Op -> bool, steps: nat): Table {
    if MARKER in p then p
    else if steps <= |ops| then Apply(p, ops[..steps], ok)
    else WithMarker(Apply(p, ops, ok))
  }

  function Complete(p: Table, ops: seq<Op>, ok: Op -> bool): Table {
    Run(p, ops, ok, |ops| + 1)
  }

  lemma {:induction false} ApplyJoin(p: Table, a: seq<Op>, b: seq<Op>, ok: Op -> bool)
    ensures Apply(p, a + b, ok) == Apply(Apply(p, a, ok), b, ok)
    ensures SuccessCount(a + b, ok) == SuccessCount(a, ok) + SuccessCount(b, ok)
    decreases |a|
  {
    if a == [] {
      assert a + b == b;
    } else {
      assert (a + b)[1..] == a[1..] + b;
      ApplyJoin(if ok(a[0]) then p[a[0].key := a[0].value] else p, a[1..], b, ok);
    }
  }

  lemma ApplyOne(p: Table, done: seq<Op>, op: Op, ok: Op -> bool)
    ensures Apply(p, done + [op], ok)
         == var q := Apply(p, done, ok); if ok(op) then q[op.key := op.value] else q
    ensures SuccessCount(done + [op], ok) == SuccessCount(done, ok) + if ok(op) then 1 else 0
  {
    ApplyJoin(p, done, [op], ok);
    var q := Apply(p, done, ok);
    assert [op][1..] == [];
  }

  lemma SlicesMeet<T>(all: seq<T>, row: seq<T>, rest: seq<T>, done: nat, n: nat)
    requires done <= |all| && all[done..] == row + rest && n <= |row|
    ensures done + n <= |all| && all[..done + n] == all[..done] + row[..n]
    ensures n == |row| ==> all[done + n..] == rest
  {
    assert |all| == done + |row| + |rest|;
    assert all[..done + n] == all[..done] + all[done..][..n];
    assert (row + rest)[..n] == row[..n];
    assert all[done + n..] == all[done..][n..];
  }

  lemma RowsStep(rows: seq<Row>, i: nat, done: nat, n: nat)
    requires i < |rows| && done <= |Ops(rows)| && Ops(rows)[done..] == Ops(rows[i..]) && n <= |RowOps(rows[i])|
    ensures done + n <= |Ops(rows)| && Ops(rows)[..done + n] == Ops(rows)[..done] + RowOps(rows[i])[..n]
    ensures n == |RowOps(rows[i])| ==> Ops(rows)[done + n..] == Ops(rows[i + 1..])
    ensures n < |RowOps(rows[i])| ==> done + n < |Ops(rows)|
  {
    assert rows[i..][1..] == rows[i + 1..];
    assert Ops(rows[i..]) == RowOps(rows[i]) + Ops(rows[i + 1..]);
    SlicesMeet(Ops(rows), RowOps(rows[i]), Ops(rows[i + 1..]), done, n);
  }

  /** The first `executed` inserts have been tried, and `migrated` of them succeeded. */
  predicate Tried(before: Table, now: Table, ops: seq<Op>, ok: Op -> bool, executed: nat, migrated: nat) {
    executed <= |ops| && now == Apply(before, ops[..executed], ok) && migrated == SuccessCount(ops[..executed], ok)
  }

  /** The inserts of the first `i` rows are the first `done` ones. */
  predicate At(rows: seq<Row>, i: nat, done: nat) {
    i <= |rows| && done <= |Ops(rows)| && Ops(rows)[done..] == Ops(rows[i..])
  }

  lemma AtStart(rows: seq<Row>, p: Table, ok: Op -> bool)
    ensures At(rows, 0, 0) && Tried(p, p, Ops(rows), ok, 0, 0)
  {
    assert rows[0..] == rows && Ops(rows)[..0] == [];
  }

  lemma AtEnd(rows: seq<Row>, done: nat)
    requires At(rows, |rows|, done)
    ensures done == |Ops(rows)|
  {
    assert Ops(rows[|rows|..]) == [];
  }

  lemma RowTried(
    before: Table, mid: Table, now: Table, rows: seq<Row>, i: nat, ok: Op -> bool,
    done: nat, n: nat, migrated: nat, count: nat)
    requires i < |rows| && Tried(before, mid, Ops(rows), ok, done, migrated)
    requires At(rows, i, done) && Tried(mid, now, RowOps(rows[i]), ok, n, count)
    ensures Tried(before, now, Ops(rows), ok, done + n, migrated + count)
    ensures n == |RowOps(rows[i])| ==> At(rows, i + 1, done + n)
    ensures n < |RowOps(rows[i])| ==> done + n < |Ops(rows)|
  {
    RowsStep(rows, i, done, n);
    ApplyJoin(before, Ops(rows)[..done], RowOps(rows[i])[..n], ok);
  }

  class Database {
    var preferences: Table

    constructor (preferences: Table)
      ensures this.preferences == preferences
    {
      this.preferences := preferences;
    }

    /** The loop over one settings object. The process dies before it would execute statement number `steps` of
        this loop, counted from 0. */
    method MigrateRow(row: Row, ok: Op -> bool, steps: nat) returns (alive: bool, executed: nat, migrated: nat)
      modifies this
      ensures executed <= |RowOps(row)| && executed <= steps
      ensures alive == (executed == |RowOps(row)|) && (!alive ==> executed == steps)
      ensures Tried(old(preferences), preferences, RowOps(row), ok, executed, migrated)
    {
      executed, migrated := 0, 0;
      if !row.settings.Object? {
        return true, 0, 0;
      }
      var items := row.settings.items;
      while executed < |items|
        invariant executed <= |items| && executed <= steps
        invariant preferences == Apply(old(preferences), RowOps(row)[..executed], ok)
        invariant migrated == SuccessCount(RowOps(row)[..executed], ok)
      {
        if executed == steps {
          return false, executed, migrated;
        }
        var op := Op((row.userId, items[executed].0), items[executed].1);
        ApplyOne(old(preferences), RowOps(row)[..executed], op, ok);
        assert RowOps(row)[..executed + 1] == RowOps(row)[..executed] + [op];
        if ok(op) {
          preferences := preferences[op.key := op.value];
          migrated := migrated + 1;
        }
        executed := executed + 1;
      }
      return true, executed, migrated;
    }

    /** The loop over all rows, with the same meaning of `steps`. */
    method MigrateRows(rows: seq<Row>, ok: Op -> bool, steps: nat) returns (alive: bool, executed: nat, migrated: nat)
      modifies this
      ensures executed <= |Ops(rows)| && executed <= steps
      ensures alive == (executed == |Ops(rows)|) && (!alive ==> executed == steps)
      ensures Tried(old(preferences), preferences, Ops(rows), ok, executed, migrated)
    {
      executed, migrated := 0, 0;
      AtStart(rows, preferences, ok);
      for i := 0 to |rows|
        invariant Tried(old(preferences), preferences, Ops(rows), ok, executed, migrated)
        invariant executed <= steps && At(rows, i, executed)
      {
        ghost var before := preferences;
        var survived, n, count := MigrateRow(rows[i], ok, steps - executed);
        RowTried(old(preferences), before, preferences, rows, i, ok, executed, n, migrated, count);
        executed, migrated := executed + n, migrated + count;
        if !survived {
          return false, executed, migrated;
        }
      }
      AtEnd(rows, executed);
      return true, executed, migrated;
    }

    /** The migration. `rows` is None where the old table does not exist; the process dies before it would execute
        statement number `steps`, and then there is no result. */
    method Migrate(rows: Option<seq<Row>>, ok: Op -> bool, steps: nat) returns (result: Option<nat>)
      modifies this
      ensures var ops := if rows.Some? then Ops(rows.value) else [];
        && preferences == Run(old(preferences), ops, ok, steps)
        && result == (if MARKER in old(preferences) then Some(0)
                      else if steps <= |ops| then None
                      else Some(SuccessCount(ops, ok)))
    {
      if MARKER in preferences {
        return Some(0);
      }
      if rows.None? || rows.value == [] {
        if steps == 0 {
          return None;
        }
        preferences := WithMarker(preferences);
        return Some(0);
      }
      var alive, executed, migrated := MigrateRows(rows.value, ok, steps);
      assert Ops(rows.value)[..|Ops(rows.value)|] == Ops(rows.value);
      if !alive || executed == steps {
        return None;
      }
      preferences := WithMarker(preferences);
      return Some(migrated);
    }
  }

  // ---- Keys ----

  predicate Distinct(ops: seq<Op>) {
    forall i, j :: 0 <= i < j < |ops| ==> ops[i].key != ops[j].key
  }

  predicate Has(ops: seq<Op>, k: Key) {
    exists i :: 0 <= i < |ops| && ops[i].key == k
  }

  /** One row per user, and an object's keys are all different. */
  predicate SoundRows(rows: seq<Row>) {
    && (forall i, j :: 0 <= i < j < |rows| ==> rows[i].userId != rows[j].userId)
    && (forall i :: 0 <= i < |rows| && rows[i].settings.Object? ==> Distinct(RowOps(rows[i])))
  }

  lemma {:induction false} OpsComeFromRows(rows: seq<Row>, i: nat)
    requires i < |Ops(rows)|
    ensures exists r :: 0 <= r < |rows| && rows[r].userId == Ops(rows)[i].key.0
    decreases |rows|
  {
    var n := |RowOps(rows[0])|;
    if i >= n {
      OpsComeFromRows(rows[1..], i - n);
      var r :| 0 <= r < |rows[1..]| && rows[1..][r].userId == Ops(rows[1..])[i - n].key.0;
      assert rows[r + 1].userId == Ops(rows)[i].key.0;
    }
  }

  /** No two inserts of a run write the same row. */
  lemma {:induction false} OpsAreDistinct(rows: seq<Row>)
    requires SoundRows(rows)
    ensures Distinct(Ops(rows))
    decreases |rows|
  {
    if rows != [] {
      var a, b := RowOps(rows[0]), Ops(rows[1..]);
      OpsAreDistinct(rows[1..]);
      assert Distinct(a);
      forall i, j | 0 <= i < |a| && 0 <= j < |b| ensures a[i].key != b[j].key {
        OpsComeFromRows(rows[1..], j);
      }
    }
  }

  /** Only the keys of the inserts change. */
  lemma {:induction false} OtherKeysStay(p: Table, ops: seq<Op>, ok: Op -> bool, k: Key)
    requires !Has(ops, k)
    ensures k in Apply(p, ops, ok) <==> k in p
    ensures k in p ==> Apply(p, ops, ok)[k] == p[k]
    decreases |ops|
  {
    if ops != [] {
      assert ops[0].key != k;
      assert !Has(ops[1..], k) by {
        assert forall i :: 0 <= i < |ops[1..]| ==> ops[1..][i] == ops[i + 1];
      }
      OtherKeysStay(if ok(ops[0]) then p[ops[0].key := ops[0].value] else p, ops[1..], ok, k);
    }
  }

  /** A run, cut off or not, changes nothing but the migrated keys and the marker. */
  lemma UnrelatedKeysAreKept(p: Table, ops: seq<Op>, ok: Op -> bool, steps: nat, k: Key)
    requires !Has(ops, k) && k != MARKER
    ensures k in Run(p, ops, ok, steps) <==> k in p
    ensures k in p ==> Run(p, ops, ok, steps)[k] == p[k]
  {
    OtherKeysStay(p, ops, ok, k);
    if steps <= |ops| {
      assert forall i :: 0 <= i < steps ==> ops[..steps][i] == ops[i];
      OtherKeysStay(p, ops[..steps], ok, k);
    }
  }

  /** Once the marker is there, no run changes anything. */
  lemma MarkerEndsMigration(p: Table, ops: seq<Op>, ok: Op -> bool, again: Op -> bool, steps: nat)
    ensures Run(Complete(p, ops, ok), ops, again, steps) == Complete(p, ops, ok)
  {
  }

  // ---- Restarts ----

  function Always(): Op -> bool {
    _ => true
  }

  /** What may happen before the run that completes: a run that dies, with some inserts failing, or a change to
      another table row by the running application. */
  datatype Event = CutOff(steps: nat, ok: Op -> bool) | Put(key: Key, value: string) | Remove(key: Key)

  predicate Possible(e: Event, ops: seq<Op>) {
    match e
    case CutOff(steps, _) => steps <= |ops|
    case Put(key, _) => key != MARKER
    case Remove(key) => key != MARKER
  }

  function After(p: Table, ops: seq<Op>, e: Event): Table {
    match e
    case CutOff(steps, ok) => Run(p, ops, ok, steps)
    case Put(key, value) => p[key := value]
    case Remove(key) => p - {key}
  }

  function AfterAll(p: Table, ops: seq<Op>, events: seq<Event>): Table
    decreases |events|
  {
    if events == [] then p else AfterAll(After(p, ops, events[0]), ops, events[1..])
  }

  /** The same history without any run. */
  function EditsOnly(p: Table, events: seq<Event>): Table
    decreases |events|
  {
    if events == [] then p
    else EditsOnly(if events[0].CutOff? then p else After(p, [], events[0]), events[1..])
  }

  ghost predicate AgreeOutside(ops: seq<Op>, p: Table, q: Table) {
    forall k :: !Has(ops, k) ==> (k in p <==> k in q) && (k in p ==> p[k] == q[k])
  }

  lemma {:induction false} ApplyForgets(p: Table, q: Table, ops: seq<Op>)
    requires AgreeOutside(ops, p, q)
    ensures Apply(p, ops, Always()) == Apply(q, ops, Always())
    decreases |ops|
  {
    if ops == [] {
      assert forall k :: !Has(ops, k);
      assert p == q;
    } else {
      var op, rest := ops[0], ops[1..];
      var p1, q1 := p[op.key := op.value], q[op.key := op.value];
      forall k | !Has(rest, k) ensures (k in p1 <==> k in q1) && (k in p1 ==> p1[k] == q1[k]) {
        if k != op.key {
          assert !Has(ops, k) by {
            assert forall i :: 0 < i < |ops| ==> ops[i] == rest[i - 1];
          }
        }
      }
      ApplyForgets(p1, q1, rest);
    }
  }

  lemma EventAgrees(p: Table, q: Table, ops: seq<Op>, e: Event)
    requires AgreeOutside(ops, p, q) && Possible(e, ops) && !Has(ops, MARKER)
    ensures AgreeOutside(ops, After(p, ops, e), if e.CutOff? then q else After(q, [], e))
  {
    if e.CutOff? {
      var p1 := After(p, ops, e);
      forall k | !Has(ops, k) ensures (k in p1 <==> k in q) && (k in p1 ==> p1[k] == q[k]) {
        assert forall i :: 0 <= i < e.steps ==> ops[..e.steps][i] == ops[i];
        OtherKeysStay(p, ops[..e.steps], e.ok, k);
      }
    }
  }

  lemma {:induction false} EventsAgree(p: Table, q: Table, ops: seq<Op>, events: seq<Event>)
    requires AgreeOutside(ops, p, q) && !Has(ops, MARKER)
    requires forall i :: 0 <= i < |events| ==> Possible(events[i], ops)
    ensures AgreeOutside(ops, AfterAll(p, ops, events), EditsOnly(q, events))
    decreases |events|
  {
    if events != [] {
      var e := events[0];
      EventAgrees(p, q, ops, e);
      EventsAgree(After(p, ops, e), if e.CutOff? then q else After(q, [], e), ops, events[1..]);
    }
  }

  /** Any number of runs that died after any number of inserts, with any inserts failing in them and any changes to
      preferences in between, leave no trace once a run completes with all inserts: the table is that of one
      uninterrupted run over the changes alone. */
  lemma CutOffRunsLeaveNoTrace(p: Table, ops: seq<Op>, events: seq<Event>)
    requires !Has(ops, MARKER) && MARKER !in p
    requires forall i :: 0 <= i < |events| ==> Possible(events[i], ops)
    ensures Complete(AfterAll(p, ops, events), ops, Always()) == Complete(EditsOnly(p, events), ops, Always())
  {
    var a, b := AfterAll(p, ops, events), EditsOnly(p, events);
    EventsAgree(p, p, ops, events);
    ApplyForgets(a, b, ops);
    NoMarkerYet(p, events);
    assert MARKER !in b && MARKER !in a;
  }

  lemma {:induction false} NoMarkerYet(p: Table, events: seq<Event>)
    requires MARKER !in p && forall i :: 0 <= i < |events| && !events[i].CutOff? ==> events[i].key != MARKER
    ensures MARKER !in EditsOnly(p, events)
    decreases |events|
  {
    if events != [] {
      NoMarkerYet(if events[0].CutOff? then p else After(p, [], events[0]), events[1..]);
    }
  }

  // ---- What a run leaves ----

  lemma TailKeys(ops: seq<Op>)
    requires ops != [] && Distinct(ops)
    ensures Distinct(ops[1..]) && !Has(ops[1..], ops[0].key)
  {
    assert forall i :: 0 <= i < |ops[1..]| ==> ops[1..][i] == ops[i + 1];
  }

  /** A migrated key has its new value if its insert succeeded, and else is as it was. */
  lemma {:induction false} AppliedValue(p: Table, ops: seq<Op>, ok: Op -> bool, i: nat)
    requires Distinct(ops) && i < |ops|
    ensures var q, k := Apply(p, ops, ok), ops[i].key;
      if ok(ops[i]) then k in q && q[k] == ops[i].value else (k in q <==> k in p) && (k in p ==> q[k] == p[k])
    decreases |ops|
  {
    TailKeys(ops);
    var p1 := if ok(ops[0]) then p[ops[0].key := ops[0].value] else p;
    if i == 0 {
      OtherKeysStay(p1, ops[1..], ok, ops[0].key);
    } else {
      assert ops[1..][i - 1] == ops[i];
      AppliedValue(p1, ops[1..], ok, i - 1);
    }
  }

  /** The price of starting over: whatever the application stored under a migrated key between a run that died and
      the run that completes is replaced by the old setting. */
  lemma EditsOfMigratedKeysAreLost(p: Table, ops: seq<Op>, i: nat)
    requires Distinct(ops) && i < |ops| && MARKER !in p
    ensures ops[i].key in Complete(p, ops, Always()) && Complete(p, ops, Always())[ops[i].key] == ops[i].value
  {
    AppliedValue(p, ops, Always(), i);
  }

  /** An insert that fails is never tried again, since the marker is written all the same. The table is that of a run
      without failures exactly when every row whose insert failed held the value already. */
  lemma FailuresShowIff(p: Table, ops: seq<Op>, ok: Op -> bool)
    requires Distinct(ops) && !Has(ops, MARKER) && MARKER !in p
    ensures Complete(Complete(p, ops, ok), ops, Always()) == Complete(p, ops, Always())
            <==> forall i :: 0 <= i < |ops| && !ok(ops[i]) ==> ops[i].key in p && p[ops[i].key] == ops[i].value
  {
    var a, b := Apply(p, ops, ok), Apply(p, ops, Always());
    OtherKeysStay(p, ops, ok, MARKER);
    OtherKeysStay(p, ops, Always(), MARKER);
    assert a == b <==> WithMarker(a) == WithMarker(b) by {
      if WithMarker(a) == WithMarker(b) {
        assert a == WithMarker(a) - {MARKER} && b == WithMarker(b) - {MARKER};
      }
    }
    forall i | 0 <= i < |ops|
      ensures ok(ops[i]) ==> ops[i].key in a && a[ops[i].key] == ops[i].value
      ensures !ok(ops[i]) ==> (ops[i].key in a <==> ops[i].key in p) && (ops[i].key in p ==> a[ops[i].key] == p[ops[i].key])
      ensures ops[i].key in b && b[ops[i].key] == ops[i].value
    {
      AppliedValue(p, ops, ok, i);
      AppliedValue(p, ops, Always(), i);
    }
    if forall i :: 0 <= i < |ops| && !ok(ops[i]) ==> ops[i].key in p && p[ops[i].key] == ops[i].value {
      forall k ensures (k in a <==> k in b) && (k in a ==> a[k] == b[k]) {
        if !Has(ops, k) {
          OtherKeysStay(p, ops, ok, k);
          OtherKeysStay(p, ops, Always(), k);
        }
      }
      assert a == b;
    }
  }

  // ---- The marker as a setting ----

  /** Dying anywhere and starting again gives what one run gives, on every table. */
  ghost predicate RestartSafe(ops: seq<Op>) {
    forall p: Table, c: nat :: MARKER !in p && c <= |ops| ==>
      Complete(Run(p, ops, Always(), c), ops, Always()) == Complete(p, ops, Always())
  }

  lemma CutBeforeMarker(p: Table, ops: seq<Op>, c: nat)
    requires Distinct(ops) && MARKER !in p && c <= |ops|
    requires forall i :: 0 <= i < |ops| - 1 ==> ops[i].key != MARKER
    ensures Complete(Run(p, ops, Always(), c), ops, Always()) == Complete(p, ops, Always())
  {
    var q := Apply(p, ops[..c], Always());
    assert forall i :: 0 <= i < c ==> ops[..c][i] == ops[i];
    if c == |ops| && Has(ops, MARKER) {
      assert ops[..c] == ops;
      AppliedValue(p, ops, Always(), |ops| - 1);
    } else {
      OtherKeysStay(p, ops[..c], Always(), MARKER);
      forall k | !Has(ops, k) ensures (k in p <==> k in q) && (k in p ==> p[k] == q[k]) {
        OtherKeysStay(p, ops[..c], Always(), k);
      }
      ApplyForgets(p, q, ops);
    }
  }

  lemma MarkerInTheMiddle(ops: seq<Op>, i: nat)
    requires Distinct(ops) && i < |ops| - 1 && ops[i].key == MARKER
    ensures !RestartSafe(ops)
  {
    var p: Table := map[];
    var head, last := ops[..i + 1], ops[|ops| - 1].key;
    assert forall j :: 0 <= j <= i ==> head[j] == ops[j];
    AppliedValue(p, head, Always(), i);
    OtherKeysStay(p, head, Always(), last);
    AppliedValue(p, ops, Always(), |ops| - 1);
    assert last !in Complete(Run(p, ops, Always(), i + 1), ops, Always());
    assert last in Complete(p, ops, Always());
  }

  /** A user's setting that has the marker's key, under user 0, stops a restarted run too early. Restarts are safe
      exactly when no insert but the last one writes the marker's row. */
  lemma RestartSafeIff(ops: seq<Op>)
    requires Distinct(ops)
    ensures RestartSafe(ops) <==> forall i :: 0 <= i < |ops| - 1 ==> ops[i].key != MARKER
  {
    if forall i :: 0 <= i < |ops| - 1 ==> ops[i].key != MARKER {
      forall p: Table, c: nat | MARKER !in p && c <= |ops|
        ensures Complete(Run(p, ops, Always(), c), ops, Always()) == Complete(p, ops, Always())
      {
        CutBeforeMarker(p, ops, c);
      }
    } else {
      var i :| 0 <= i < |ops| - 1 && ops[i].key == MARKER;
      MarkerInTheMiddle(ops, i);
    }
  }

  /** Where every settings row belongs to a user other than 0, as the table's reference to `users` demands when it is
      enforced, restarts are safe. */
  lemma RestartSafeForUsers(rows: seq<Row>)
    requires SoundRows(rows) && forall r :: 0 <= r < |rows| ==> rows[r].userId != 0
    ensures RestartSafe(Ops(rows))
  {
    OpsAreDistinct(rows);
    forall i | 0 <= i < |Ops(rows)| ensures Ops(rows)[i].key != MARKER {
      OpsComeFromRows(rows, i);
    }
    RestartSafeIff(Ops(rows));
  }

  /** The inserts are exactly the settings of all rows that hold an object, each under its user and its key. */
  lemma {:induction false} EverySettingIsInserted(rows: seq<Row>, op: Op)
    ensures op in Ops(rows)
            <==> exists r, j :: 0 <= r < |rows| && rows[r].settings.Object? && 0 <= j < |rows[r].settings.items|
                                && op == Op((rows[r].userId, rows[r].settings.items[j].0), rows[r].settings.items[j].1)
    decreases |rows|
  {
    if rows != [] {
      var rest := rows[1..];
      EverySettingIsInserted(rest, op);
      if op in RowOps(rows[0]) {
        var j :| 0 <= j < |RowOps(rows[0])| && RowOps(rows[0])[j] == op;
        assert op == Op((rows[0].userId, rows[0].settings.items[j].0), rows[0].settings.items[j].1);
      }
      if r, j :| 0 <= r < |rest| && rest[r].settings.Object? && 0 <= j < |rest[r].settings.items|
                 && op == Op((rest[r].userId, rest[r].settings.items[j].0), rest[r].settings.items[j].1) {
        assert rows[r + 1] == rest[r];
        assert op == Op((rows[r + 1].userId, rows[r + 1].settings.items[j].0), rows[r + 1].settings.items[j].1);
      }
      forall j | rows[0].settings.Object? && 0 <= j < |rows[0].settings.items|
        ensures Op((rows[0].userId, rows[0].settings.items[j].0), rows[0].settings.items[j].1) in RowOps(rows[0])
      {
        assert RowOps(rows[0])[j] == Op((rows[0].userId, rows[0].settings.items[j].0), rows[0].settings.items[j].1);
      }
    }
  }
}
