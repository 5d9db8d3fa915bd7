/** Comparing the cache table with its baseline report (scripts/check_cache_consistency.py). */
module CacheDiff {
  import opened Basics

  datatype Field = StandardNumber | SourceSite | CachedAt | Source

  const FIELDS: seq<Field> := [StandardNumber, SourceSite, CachedAt, Source]

  /** A record; a field it does not have reads as None, as one that is null does. */
  datatype Record = Record(id: int, values: map<Field, Option<string>>)

  datatype Change = Change(id: int, field: Field, baseline: Option<string>, current: Option<string>)

  type Records = map<int, Record>

  /** `rec.get(field)`. */
  function Get(r: Record, f: Field): Option<string> {
    if f in r.values then r.values[f] else None
  }

  predicate SameFields(r: Record, s: Record) {
    forall f :: Get(r, f) == Get(s, f)
  }

  /** The keys in the order in which the loops meet them: every key once. */
  predicate Enumerates(keys: seq<int>, m: Records) {
    (forall i :: 0 <= i < |keys| ==> keys[i] in m) && (forall k :: k in m ==> k in keys)
    && forall i, j :: 0 <= i < j < |keys| ==> keys[i] != keys[j]
  }

  predicate Keyed(m: Records) {
    forall k :: k in m ==> m[k].id == k
  }

  // ---- The two loops ----

  function Missing(keys: seq<int>, m: Records, other: Records): seq<Record>
    requires forall i :: 0 <= i < |keys| ==> keys[i] in m
  {
    if keys == [] then []
    else (if keys[0] !in other then [m[keys[0]]] else []) + Missing(keys[1..], m, other)
  }

  function FieldChanges(id: int, fields: seq<Field>, base: Record, cur: Record): seq<Change> {
    if fields == [] then []
    else
      (if Get(cur, fields[0]) != Get(base, fields[0])
       then [Change(id, fields[0], Get(base, fields[0]), Get(cur, fields[0]))] else [])
      + FieldChanges(id, fields[1..], base, cur)
  }

  function Modified(keys: seq<int>, current: Records, baseline: Records): seq<Change>
    requires forall i :: 0 <= i < |keys| ==> keys[i] in baseline
  {
    if keys == [] then []
    else
      (if keys[0] in current then FieldChanges(keys[0], FIELDS, baseline[keys[0]], current[keys[0]]) else [])
      + Modified(keys[1..], current, baseline)
  }

  lemma MissingStep(found: seq<Record>, keys: seq<int>, i: nat, m: Records, other: Records)
    requires i < |keys| && forall j :: 0 <= j < |keys| ==> keys[j] in m
    ensures found + Missing(keys[i..], m, other)
         == (if keys[i] !in other then found + [m[keys[i]]] else found) + Missing(keys[i + 1..], m, other)
  {
    assert keys[i..][1..] == keys[i + 1..];
  }

  lemma FieldStep(found: seq<Change>, id: int, j: nat, base: Record, cur: Record)
    requires j < |FIELDS|
    ensures var f := FIELDS[j];
      found + FieldChanges(id, FIELDS[j..], base, cur)
      == (if Get(cur, f) != Get(base, f) then found + [Change(id, f, Get(base, f), Get(cur, f))] else found)
         + FieldChanges(id, FIELDS[j + 1..], base, cur)
  {
    assert FIELDS[j..][1..] == FIELDS[j + 1..];
  }

  lemma ModifiedStep(found: seq<Change>, keys: seq<int>, i: nat, current: Records, baseline: Records)
    requires i < |keys| && forall j :: 0 <= j < |keys| ==> keys[j] in baseline
    ensures found + Modified(keys[i..], current, baseline)
         == (found + (if keys[i] in current
                      then FieldChanges(keys[i], FIELDS, baseline[keys[i]], current[keys[i]]) else []))
            + Modified(keys[i + 1..], current, baseline)
  {
    assert keys[i..][1..] == keys[i + 1..];
  }

  /** The inner loop over the four fields. */
  method CompareFields(id: int, base: Record, cur: Record) returns (changes: seq<Change>)
    ensures changes == FieldChanges(id, FIELDS, base, cur)
  {
    changes := [];
    assert FIELDS[0..] == FIELDS;
    for j := 0 to |FIELDS|
      invariant changes + FieldChanges(id, FIELDS[j..], base, cur) == FieldChanges(id, FIELDS, base, cur)
    {
      var f := FIELDS[j];
      FieldStep(changes, id, j, base, cur);
      if Get(cur, f) != Get(base, f) {
        changes := changes + [Change(id, f, Get(base, f), Get(cur, f))];
      }
    }
  }

  /** The first loop. */
  method FindAdded(current: Records, keys: seq<int>, baseline: Records) returns (added: seq<Record>)
    requires forall i :: 0 <= i < |keys| ==> keys[i] in current
    ensures added == Missing(keys, current, baseline)
  {
    added := [];
    assert keys[0..] == keys;
    for i := 0 to |keys|
      invariant added + Missing(keys[i..], current, baseline) == Missing(keys, current, baseline)
    {
      var rid := keys[i];
      MissingStep(added, keys, i, current, baseline);
      if rid !in baseline {
        added := added + [current[rid]];
      }
    }
  }

  /** The second loop. */
  method FindRemovedAndModified(current: Records, baseline: Records, keys: seq<int>)
    returns (removed: seq<Record>, modified: seq<Change>)
    requires forall i :: 0 <= i < |keys| ==> keys[i] in baseline
    ensures removed == Missing(keys, baseline, current) && modified == Modified(keys, current, baseline)
  {
    removed, modified := [], [];
    assert keys[0..] == keys;
    for i := 0 to |keys|
      invariant removed + Missing(keys[i..], baseline, current) == Missing(keys, baseline, current)
      invariant modified + Modified(keys[i..], current, baseline) == Modified(keys, current, baseline)
    {
      var rid := keys[i];
      MissingStep(removed, keys, i, baseline, current);
      ModifiedStep(modified, keys, i, current, baseline);
      if rid !in current {
        removed := removed + [baseline[rid]];
        assert modified + [] == modified;
      } else {
        var changes := CompareFields(rid, baseline[rid], current[rid]);
        modified := modified + changes;
      }
    }
  }

  method ComputeDiff(current: Records, currentKeys: seq<int>, baseline: Records, baselineKeys: seq<int>)
    returns (added: seq<Record>, removed: seq<Record>, modified: seq<Change>)
    requires Enumerates(currentKeys, current) && Enumerates(baselineKeys, baseline)
    ensures added == Missing(currentKeys, current, baseline)
    ensures removed == Missing(baselineKeys, baseline, current)
    ensures modified == Modified(baselineKeys, current, baseline)
  {
    added := FindAdded(current, currentKeys, baseline);
    removed, modified := FindRemovedAndModified(current, baseline, baselineKeys);
  }

  // ---- The diff as a patch ----

  function Without(m: Records, recs: seq<Record>): Records
    decreases |recs|
  {
    if recs == [] then m else Without(m - {recs[0].id}, recs[1..])
  }

  function With(m: Records, recs: seq<Record>): Records
    decreases |recs|
  {
    if recs == [] then m else With(m[recs[0].id := recs[0]], recs[1..])
  }

  function SetField(r: Record, f: Field, v: Option<string>): Record {
    r.(values := r.values[f := v])
  }

  function Changed(m: Records, changes: seq<Change>): Records
    decreases |changes|
  {
    if changes == [] then m
    else
      var c := changes[0];
      Changed(if c.id in m then m[c.id := SetField(m[c.id], c.field, c.current)] else m, changes[1..])
  }

  /** The baseline with the reported differences put in. */
  function Patched(baseline: Records, added: seq<Record>, removed: seq<Record>, modified: seq<Change>): Records {
    With(Changed(Without(baseline, removed), modified), added)
  }

  predicate Agree(m: Records, n: Records) {
    m.Keys == n.Keys && forall k :: k in m ==> SameFields(m[k], n[k])
  }

  predicate Lists(recs: seq<Record>, k: int) {
    exists i :: 0 <= i < |recs| && recs[i].id == k
  }

  lemma ListsCons(r: Record, rest: seq<Record>, k: int)
    ensures Lists([r] + rest, k) <==> r.id == k || Lists(rest, k)
  {
    var all := [r] + rest;
    assert all[0] == r;
    assert forall i :: 0 <= i < |rest| ==> all[i + 1] == rest[i];
    assert forall i :: 0 < i < |all| ==> all[i] == rest[i - 1];
  }

  lemma {:induction false} MissingAre(keys: seq<int>, m: Records, other: Records, k: int)
    requires Keyed(m) && forall i :: 0 <= i < |keys| ==> keys[i] in m
    ensures Lists(Missing(keys, m, other), k) <==> k in keys && k !in other
    ensures forall i :: 0 <= i < |Missing(keys, m, other)| ==>
              var r := Missing(keys, m, other)[i]; r.id in m && m[r.id] == r
    decreases |keys|
  {
    if keys != [] {
      var all, rest := Missing(keys, m, other), Missing(keys[1..], m, other);
      MissingAre(keys[1..], m, other, k);
      assert keys == [keys[0]] + keys[1..];
      if keys[0] !in other {
        var r := m[keys[0]];
        assert r.id == keys[0];
        ListsCons(r, rest, k);
        assert all == [r] + rest;
        forall i | 0 <= i < |all| ensures all[i].id in m && m[all[i].id] == all[i] {
          assert all[i] == if i == 0 then r else rest[i - 1];
        }
      } else {
        assert all == [] + rest == rest;
      }
    }
  }

  lemma {:induction false} WithoutIs(m: Records, recs: seq<Record>, k: int)
    ensures k in Without(m, recs) <==> k in m && !Lists(recs, k)
    ensures k in Without(m, recs) ==> Without(m, recs)[k] == m[k]
    decreases |recs|
  {
    if recs != [] {
      WithoutIs(m - {recs[0].id}, recs[1..], k);
      assert forall i :: 0 <= i < |recs[1..]| ==> recs[1..][i] == recs[i + 1];
      assert forall i :: 0 < i < |recs| ==> recs[i] == recs[1..][i - 1];
    }
  }

  lemma {:induction false} WithIs(m: Records, recs: seq<Record>, k: int, r: Record)
    requires forall i :: 0 <= i < |recs| && recs[i].id == k ==> recs[i] == r
    ensures k in With(m, recs) <==> k in m || Lists(recs, k)
    ensures Lists(recs, k) ==> With(m, recs)[k] == r
    ensures !Lists(recs, k) && k in m ==> With(m, recs)[k] == m[k]
    decreases |recs|
  {
    if recs != [] {
      assert forall i :: 0 <= i < |recs[1..]| ==> recs[1..][i] == recs[i + 1];
      assert forall i :: 0 < i < |recs| ==> recs[i] == recs[1..][i - 1];
      WithIs(m[recs[0].id := recs[0]], recs[1..], k, r);
    }
  }

  // ---- Modified fields ----

  lemma {:induction false} ChangedJoin(m: Records, a: seq<Change>, b: seq<Change>)
    ensures Changed(m, a + b) == Changed(Changed(m, a), b)
    decreases |a|
  {
    if a == [] {
      assert a + b == b;
    } else {
      var c := a[0];
      assert (a + b)[1..] == a[1..] + b;
      ChangedJoin(if c.id in m then m[c.id := SetField(m[c.id], c.field, c.current)] else m, a[1..], b);
    }
  }

  lemma SetFieldIs(r: Record, f: Field, v: Option<string>, g: Field)
    ensures Get(SetField(r, f, v), g) == if g == f then v else Get(r, g)
  {
  }

  /** The changes listed for one record bring these fields of it up to date, and touch no other record. */
  lemma {:induction false} FieldsAreChanged(m: Records, id: int, fields: seq<Field>, base: Record, cur: Record)
    requires id in m && forall i, j :: 0 <= i < j < |fields| ==> fields[i] != fields[j]
    requires forall i :: 0 <= i < |fields| ==> Get(m[id], fields[i]) == Get(base, fields[i])
    ensures var n := Changed(m, FieldChanges(id, fields, base, cur));
      && n.Keys == m.Keys
      && (forall k :: k in m && k != id ==> n[k] == m[k])
      && (forall f :: Get(n[id], f) == if f in fields then Get(cur, f) else Get(m[id], f))
    decreases |fields|
  {
    if fields != [] {
      var f, rest := fields[0], fields[1..];
      var tail := FieldChanges(id, rest, base, cur);
      assert fields == [f] + rest;
      if Get(cur, f) != Get(base, f) {
        var c := Change(id, f, Get(base, f), Get(cur, f));
        var m1 := m[id := SetField(m[id], f, c.current)];
        forall g ensures Get(m1[id], g) == if g == f then c.current else Get(m[id], g) {
          SetFieldIs(m[id], f, c.current, g);
        }
        assert ([c] + tail)[1..] == tail;
        FieldsAreChanged(m1, id, rest, base, cur);
      } else {
        assert [] + tail == tail;
        FieldsAreChanged(m, id, rest, base, cur);
      }
    }
  }

  lemma FieldsAreAll(f: Field)
    ensures f in FIELDS && forall i, j :: 0 <= i < j < |FIELDS| ==> FIELDS[i] != FIELDS[j]
  {
    assert FIELDS[0] == StandardNumber && FIELDS[1] == SourceSite && FIELDS[2] == CachedAt && FIELDS[3] == Source;
  }

  lemma RecordIsChanged(m: Records, id: int, base: Record, cur: Record)
    requires id in m && SameFields(m[id], base)
    ensures var n := Changed(m, FieldChanges(id, FIELDS, base, cur));
      n.Keys == m.Keys && (forall k :: k in m && k != id ==> n[k] == m[k]) && SameFields(n[id], cur)
  {
    FieldsAreAll(Source);
    FieldsAreChanged(m, id, FIELDS, base, cur);
    var n := Changed(m, FieldChanges(id, FIELDS, base, cur));
    forall f ensures Get(n[id], f) == Get(cur, f) {
      FieldsAreAll(f);
    }
  }

  /** The order of the keys does not matter: every common record is brought up to date, all others stay. */
  lemma {:induction false} ModifiedIs(m: Records, keys: seq<int>, current: Records, baseline: Records, k: int)
    requires forall i :: 0 <= i < |keys| ==> keys[i] in baseline
    requires forall i, j :: 0 <= i < j < |keys| ==> keys[i] != keys[j]
    requires forall i :: 0 <= i < |keys| && keys[i] in current ==>
               keys[i] in m && SameFields(m[keys[i]], baseline[keys[i]])
    requires k in m
    ensures var n := Changed(m, Modified(keys, current, baseline));
      n.Keys == m.Keys
      && (k in keys && k in current ==> SameFields(n[k], current[k]))
      && (k !in keys || k !in current ==> n[k] == m[k])
    decreases |keys|
  {
    if keys != [] {
      var id, rest := keys[0], keys[1..];
      assert forall i :: 0 <= i < |rest| ==> rest[i] == keys[i + 1];
      assert keys == [id] + rest;
      assert id !in rest;
      var first := if id in current then FieldChanges(id, FIELDS, baseline[id], current[id]) else [];
      var m1 := Changed(m, first);
      ChangedJoin(m, first, Modified(rest, current, baseline));
      if id in current {
        RecordIsChanged(m, id, baseline[id], current[id]);
      }
      ModifiedIs(m1, rest, current, baseline, k);
    }
  }

  /** Taking the removed records out of the baseline, bringing the modified fields up to date and putting the added
      records in gives the current table. */
  lemma PatchGivesCurrent(current: Records, currentKeys: seq<int>, baseline: Records, baselineKeys: seq<int>)
    requires Enumerates(currentKeys, current) && Enumerates(baselineKeys, baseline)
    requires Keyed(current) && Keyed(baseline)
    ensures Agree(current, Patched(baseline, Missing(currentKeys, current, baseline),
                                   Missing(baselineKeys, baseline, current), Modified(baselineKeys, current, baseline)))
  {
    var added, removed := Missing(currentKeys, current, baseline), Missing(baselineKeys, baseline, current);
    var m1 := Without(baseline, removed);
    forall k ensures k in m1 <==> k in baseline && k in current
             ensures k in m1 ==> m1[k] == baseline[k]
    {
      MissingAre(baselineKeys, baseline, current, k);
      WithoutIs(baseline, removed, k);
    }
    var m2 := Changed(m1, Modified(baselineKeys, current, baseline));
    forall k | k in m1 ensures k in m2 && SameFields(m2[k], current[k]) {
      ModifiedIs(m1, baselineKeys, current, baseline, k);
    }
    forall k | k in m2 ensures k in m1 {
      KeysStay(m1, Modified(baselineKeys, current, baseline));
    }
    var m3 := With(m2, added);
    forall k ensures k in m3 <==> k in current
             ensures k in m3 ==> SameFields(current[k], m3[k])
    {
      MissingAre(currentKeys, current, baseline, k);
      var r := if k in current then current[k] else Record(k, map[]);
      WithIs(m2, added, k, r);
    }
  }

  lemma {:induction false} KeysStay(m: Records, changes: seq<Change>)
    ensures Changed(m, changes).Keys == m.Keys
    decreases |changes|
  {
    if changes != [] {
      var c := changes[0];
      KeysStay(if c.id in m then m[c.id := SetField(m[c.id], c.field, c.current)] else m, changes[1..]);
    }
  }

  // ---- When nothing is reported ----

  lemma {:induction false} NoFieldChangesIff(id: int, fields: seq<Field>, base: Record, cur: Record)
    ensures FieldChanges(id, fields, base, cur) == [] <==> forall f :: f in fields ==> Get(cur, f) == Get(base, f)
    decreases |fields|
  {
    if fields != [] {
      NoFieldChangesIff(id, fields[1..], base, cur);
      assert fields == [fields[0]] + fields[1..];
    }
  }

  lemma {:induction false} NoneModifiedIff(keys: seq<int>, current: Records, baseline: Records)
    requires forall i :: 0 <= i < |keys| ==> keys[i] in baseline
    ensures Modified(keys, current, baseline) == []
            <==> forall k :: k in keys && k in current ==> k in baseline && SameFields(current[k], baseline[k])
    decreases |keys|
  {
    if keys != [] {
      NoneModifiedIff(keys[1..], current, baseline);
      assert keys == [keys[0]] + keys[1..];
      var k := keys[0];
      if k in current {
        NoFieldChangesIff(k, FIELDS, baseline[k], current[k]);
        forall f ensures f in FIELDS {
          FieldsAreAll(f);
        }
      }
    }
  }

  lemma NoneMissingIff(keys: seq<int>, m: Records, other: Records)
    requires Keyed(m) && Enumerates(keys, m)
    ensures Missing(keys, m, other) == [] <==> m.Keys <= other.Keys
  {
    var all := Missing(keys, m, other);
    if all != [] {
      MissingAre(keys, m, other, all[0].id);
      assert Lists(all, all[0].id);
    }
    forall k | k in m && k !in other ensures all != [] {
      MissingAre(keys, m, other, k);
    }
  }

  /** Nothing is reported exactly when the two have the same records with the same four fields. */
  lemma NothingReportedIff(current: Records, currentKeys: seq<int>, baseline: Records, baselineKeys: seq<int>)
    requires Enumerates(currentKeys, current) && Enumerates(baselineKeys, baseline)
    requires Keyed(current) && Keyed(baseline)
    ensures Missing(currentKeys, current, baseline) == [] && Missing(baselineKeys, baseline, current) == []
            && Modified(baselineKeys, current, baseline) == []
            <==> Agree(current, baseline)
  {
    NoneMissingIff(currentKeys, current, baseline);
    NoneMissingIff(baselineKeys, baseline, current);
    NoneModifiedIff(baselineKeys, current, baseline);
  }

  // ---- The verdict ----

  function WithSite(m: Records, site: Option<string>): set<int> {
    set k | k in m && Get(m[k], SourceSite) == site
  }

  function Sites(m: Records): set<Option<string>> {
    set k | k in m :: Get(m[k], SourceSite)
  }

  /** How many records each source site has; sites without records are absent. */
  function SiteCounts(m: Records): map<Option<string>, nat> {
    map s | s in Sites(m) :: |WithSite(m, s)|
  }

  /** `sources[site] = sources.get(site, 0) + 1`. */
  function Counted(counts: map<Option<string>, nat>, r: Record): map<Option<string>, nat> {
    var site := Get(r, SourceSite);
    counts[site := (if site in counts then counts[site] else 0) + 1]
  }

  lemma NewSiteHasNoRecords(m: Records, site: Option<string>)
    requires site !in Sites(m)
    ensures WithSite(m, site) == {}
  {
    forall k | k in m ensures Get(m[k], SourceSite) in Sites(m) {
    }
  }

  lemma SitesGrow(m: Records, r: Record)
    requires r.id !in m
    ensures Sites(m[r.id := r]) == Sites(m) + {Get(r, SourceSite)}
  {
    var n := m[r.id := r];
    assert n[r.id] == r && r.id in n;
    forall s | s in Sites(m) ensures s in Sites(n) {
      var k :| k in m && Get(m[k], SourceSite) == s;
      assert k in n && n[k] == m[k];
    }
  }

  lemma WithSiteGrows(m: Records, r: Record, s: Option<string>)
    requires r.id !in m
    ensures WithSite(m[r.id := r], s) == if s == Get(r, SourceSite) then WithSite(m, s) + {r.id} else WithSite(m, s)
    ensures r.id !in WithSite(m, s)
  {
  }

  lemma OneMoreRecord(m: Records, r: Record)
    requires r.id !in m
    ensures SiteCounts(m[r.id := r]) == Counted(SiteCounts(m), r)
  {
    SitesGrow(m, r);
    if Get(r, SourceSite) !in Sites(m) {
      NewSiteHasNoRecords(m, Get(r, SourceSite));
    }
    forall s | s in SiteCounts(m[r.id := r])
      ensures s in Counted(SiteCounts(m), r) && SiteCounts(m[r.id := r])[s] == Counted(SiteCounts(m), r)[s]
    {
      WithSiteGrows(m, r, s);
    }
  }

  predicate DistinctIds(rows: seq<Record>) {
    forall i, j :: 0 <= i < j < |rows| ==> rows[i].id != rows[j].id
  }

  /** The records of the first `n` rows by their ids. */
  function ByKey(rows: seq<Record>, n: nat): Records
    requires n <= |rows|
  {
    if n == 0 then map[] else ByKey(rows, n - 1)[rows[n - 1].id := rows[n - 1]]
  }

  lemma {:induction false} ByKeyIs(rows: seq<Record>, n: nat, k: int)
    requires n <= |rows| && DistinctIds(rows)
    ensures k in ByKey(rows, n) <==> exists j :: 0 <= j < n && rows[j].id == k
    ensures k in ByKey(rows, n) ==> ByKey(rows, n)[k].id == k
    ensures |ByKey(rows, n)| == n
  {
    if n > 0 {
      ByKeyIs(rows, n - 1, k);
      ByKeyIs(rows, n - 1, rows[n - 1].id);
      if k == rows[n - 1].id {
        assert rows[n - 1].id == k;
      }
    }
  }

  /** The loop over the rows of the table. */
  method LoadRows(rows: seq<Record>) returns (total: nat, sources: map<Option<string>, nat>, records: Records)
    requires DistinctIds(rows)
    ensures records == ByKey(rows, |rows|)
    ensures total == |records| && sources == SiteCounts(records)
  {
    total, sources, records := |rows|, map[], map[];
    for i := 0 to |rows|
      invariant records == ByKey(rows, i) && sources == SiteCounts(records)
    {
      var r := rows[i];
      var site := Get(r, SourceSite);
      ByKeyIs(rows, i, r.id);
      OneMoreRecord(records, r);
      sources := sources[site := (if site in sources then sources[site] else 0) + 1];
      records := records[r.id := r];
    }
    ByKeyIs(rows, |rows|, 0);
  }

  /** The exit decision. */
  predicate HasDiff(total: nat, blTotal: nat, sources: map<Option<string>, nat>, blSources: map<Option<string>, nat>,
                    added: seq<Record>, removed: seq<Record>, modified: seq<Change>)
  {
    total != blTotal || sources != blSources || added != [] || removed != [] || modified != []
  }

  lemma AgreeingCounts(m: Records, n: Records)
    requires Agree(m, n)
    ensures |m| == |n| && SiteCounts(m) == SiteCounts(n)
  {
    assert |m.Keys| == |m| && |n.Keys| == |n|;
    forall k | k in m ensures Get(m[k], SourceSite) == Get(n[k], SourceSite) {
      assert SameFields(m[k], n[k]);
    }
    forall s ensures WithSite(m, s) == WithSite(n, s) {
    }
    forall s ensures s in Sites(m) <==> s in Sites(n) {
      if s in Sites(m) {
        var k :| k in m && Get(m[k], SourceSite) == s;
        assert k in n && Get(n[k], SourceSite) == s;
      }
      if s in Sites(n) {
        var k :| k in n && Get(n[k], SourceSite) == s;
        assert k in m && Get(m[k], SourceSite) == s;
      }
    }
  }

  /** Against any report the check fails exactly when the records differ in a key or in one of the four fields, or the
      report's total or site counts are not those of its own records. */
  lemma VerdictIff(current: Records, currentKeys: seq<int>, baseline: Records, baselineKeys: seq<int>,
                   blTotal: nat, blSources: map<Option<string>, nat>)
    requires Enumerates(currentKeys, current) && Enumerates(baselineKeys, baseline)
    requires Keyed(current) && Keyed(baseline)
    ensures HasDiff(|current|, blTotal, SiteCounts(current), blSources,
                    Missing(currentKeys, current, baseline), Missing(baselineKeys, baseline, current),
                    Modified(baselineKeys, current, baseline))
            <==> !(Agree(current, baseline) && blTotal == |baseline| && blSources == SiteCounts(baseline))
  {
    NothingReportedIff(current, currentKeys, baseline, baselineKeys);
    if Agree(current, baseline) {
      AgreeingCounts(current, baseline);
    }
  }
}
