/** Editing and approving announcement records (docker/api/announce_detail.py): `update_record` and
    `batch_approve` over the table `announcement_record`. */
module AnnouncementRecords {
  import opened Basics

  /** A row. A column that is NULL has no entry in `fields`. */
  datatype Record = Record(
    id: int, status: string, fields: map<string, string>, approvedAt: Option<string>, updatedAt: Option<string>)

  type Rows = seq<Record>

  const EDITABLE: set<string> :=
    {"standard_number", "std_name", "publish_date", "implement_date", "expiry_date", "superseded_by"}

  predicate Distinct(rows: Rows) {
    forall i, j :: 0 <= i < j < |rows| ==> rows[i].id != rows[j].id
  }

  /** The columns of the table's unique key. */
  const KEY: set<string> := {"source_site", "pid", "standard_number", "language"}

  /** What a unique key counts as equal: no column is NULL, and all agree. */
  predicate SameKey(a: map<string, string>, b: map<string, string>) {
    forall c :: c in KEY ==> c in a && c in b && a[c] == b[c]
  }

  predicate UniqueKeys(rows: Rows) {
    forall i, j :: 0 <= i < j < |rows| ==> !SameKey(rows[i].fields, rows[j].fields)
  }

  predicate Given(r: Record, field: string) {
    field in r.fields && r.fields[field] != ""
  }

  predicate Complete(r: Record) {
    Given(r, "standard_number") && Given(r, "std_name")
  }

  datatype UpdateReply = NotFound | NotEditable | NothingToUpdate | Refused | Updated(status: string)

  datatype ApproveReply = NothingChosen | NoneFound | Incomplete(ids: seq<int>) | Approved(count: nat)

  // ---- SQL statements ----

  /** Where the row with this id is. */
  function Find(rows: Rows, id: int): (i: Option<nat>)
    ensures i.Some? ==> i.value < |rows| && rows[i.value].id == id
    ensures i.None? ==> forall j :: 0 <= j < |rows| ==> rows[j].id != id
  {
    if rows == [] then None
    else if rows[|rows| - 1].id == id then Some(|rows| - 1)
    else Find(rows[..|rows| - 1], id)
  }

  /** SELECT ... WHERE id IN (...), in the order of the table. */
  function Select(rows: Rows, ids: seq<int>): seq<Record> {
    if rows == [] then []
    else (if rows[0].id in ids then [rows[0]] else []) + Select(rows[1..], ids)
  }

  function SetFields(r: Record, updates: map<string, string>, status: string, now: string): Record {
    r.(fields := r.fields + updates, status := status, updatedAt := Some(now))
  }

  function SetApproved(r: Record, now: string): Record {
    r.(status := "approved", approvedAt := Some(now), updatedAt := Some(now))
  }

  /** UPDATE ... SET status = 'approved' ... WHERE id IN (...). */
  function ApproveRows(rows: Rows, ids: seq<int>, now: string): (r: Rows)
    ensures |r| == |rows|
  {
    seq(|rows|, i requires 0 <= i < |rows| => if rows[i].id in ids then SetApproved(rows[i], now) else rows[i])
  }

  /** UPDATE ... SET ... WHERE id = ?. */
  function EditRows(rows: Rows, id: int, updates: map<string, string>, status: string, now: string): (r: Rows)
    ensures |r| == |rows|
  {
    seq(|rows|, i requires 0 <= i < |rows| =>
      if rows[i].id == id then SetFields(rows[i], updates, status, now) else rows[i])
  }

  /** The new key of the row is that of another row, so that the database refuses the UPDATE. */
  predicate Collides(rows: Rows, id: int, updates: map<string, string>) {
    && "standard_number" in updates
    && exists i, j :: 0 <= i < |rows| && 0 <= j < |rows| && i != j
                      && rows[i].id == id && SameKey(rows[i].fields + updates, rows[j].fields)
  }

  // ---- What the two calls do ----

  /** The values of a request that are taken: editable columns, and no nulls. */
  function Updates(data: map<string, Option<string>>): map<string, string> {
    map k | k in data && k in EDITABLE && data[k].Some? :: data[k].value
  }

  /** What the edit makes of the row it has read: the refusal, or the status it is going to write. */
  function Checked(rows: Rows, id: int, data: map<string, Option<string>>): (reply: UpdateReply)
    ensures !reply.Refused?
  {
    var i := Find(rows, id);
    if i.None? then NotFound
    else if rows[i.value].status == "approved" then NotEditable
    else if Updates(data) == map[] then NothingToUpdate
    else Updated(if rows[i.value].status == "draft" then "pending_review" else rows[i.value].status)
  }

  function UpdateReplyFor(rows: Rows, id: int, data: map<string, Option<string>>): UpdateReply {
    var reply := Checked(rows, id, data);
    if reply.Updated? && Collides(rows, id, Updates(data)) then Refused else reply
  }

  function AfterUpdate(rows: Rows, id: int, data: map<string, Option<string>>, now: string): Rows {
    var reply := UpdateReplyFor(rows, id, data);
    if reply.Updated? then EditRows(rows, id, Updates(data), reply.status, now) else rows
  }

  predicate Blocked(r: Record) {
    r.status != "approved" && !Complete(r)
  }

  predicate Ready(r: Record) {
    r.status != "approved" && Complete(r)
  }

  function IdsBlocked(chosen: seq<Record>): seq<int> {
    if chosen == [] then [] else (if Blocked(chosen[0]) then [chosen[0].id] else []) + IdsBlocked(chosen[1..])
  }

  function IdsReady(chosen: seq<Record>): seq<int> {
    if chosen == [] then [] else (if Ready(chosen[0]) then [chosen[0].id] else []) + IdsReady(chosen[1..])
  }

  function ApproveReplyFor(rows: Rows, ids: seq<int>): ApproveReply {
    var chosen := Select(rows, ids);
    if ids == [] then NothingChosen
    else if chosen == [] then NoneFound
    else if IdsBlocked(chosen) != [] then Incomplete(IdsBlocked(chosen))
    else Approved(|IdsReady(chosen)|)
  }

  function AfterApprove(rows: Rows, ids: seq<int>, now: string): Rows {
    if ApproveReplyFor(rows, ids).Approved? then ApproveRows(rows, IdsReady(Select(rows, ids)), now) else rows
  }

  lemma BlockedStep(chosen: seq<Record>, i: nat, found: seq<int>)
    requires i < |chosen|
    ensures found + IdsBlocked(chosen[i..])
         == (if Blocked(chosen[i]) then found + [chosen[i].id] else found) + IdsBlocked(chosen[i + 1..])
  {
    assert chosen[i..][1..] == chosen[i + 1..];
  }

  lemma ReadyStep(chosen: seq<Record>, i: nat, found: seq<int>)
    requires i < |chosen|
    ensures found + IdsReady(chosen[i..])
         == (if Ready(chosen[i]) then found + [chosen[i].id] else found) + IdsReady(chosen[i + 1..])
  {
    assert chosen[i..][1..] == chosen[i + 1..];
  }

  class RecordTable {
    var rows: Rows

    constructor (rows: Rows)
      ensures this.rows == rows
    {
      this.rows := rows;
    }

    method UpdateRecord(id: int, data: map<string, Option<string>>, now: string) returns (reply: UpdateReply)
      modifies this
      ensures reply == UpdateReplyFor(old(rows), id, data)
      ensures rows == AfterUpdate(old(rows), id, data, now)
    {
      var at := Find(rows, id);
      if at.None? {
        return NotFound;
      }
      var status := rows[at.value].status;
      if status == "approved" {
        return NotEditable;
      }
      var updates := Updates(data);
      if updates == map[] {
        return NothingToUpdate;
      }
      if status == "draft" {
        status := "pending_review";
      }
      if Collides(rows, id, updates) {
        return Refused;
      }
      rows := EditRows(rows, id, updates, status, now);
      return Updated(status);
    }

    method BatchApprove(ids: seq<int>, now: string) returns (reply: ApproveReply)
      modifies this
      ensures reply == ApproveReplyFor(old(rows), ids)
      ensures rows == AfterApprove(old(rows), ids, now)
    {
      if ids == [] {
        return NothingChosen;
      }
      var records := Select(rows, ids);
      if records == [] {
        return NoneFound;
      }
      var errors: seq<int>, toApprove: seq<int> := [], [];
      for i := 0 to |records|
        invariant rows == old(rows)
        invariant errors + IdsBlocked(records[i..]) == IdsBlocked(records)
        invariant toApprove + IdsReady(records[i..]) == IdsReady(records)
      {
        var r := records[i];
        BlockedStep(records, i, errors);
        ReadyStep(records, i, toApprove);
        if r.status == "approved" {
          continue;
        }
        if !Given(r, "standard_number") || !Given(r, "std_name") {
          errors := errors + [r.id];
          continue;
        }
        toApprove := toApprove + [r.id];
      }
      assert errors == IdsBlocked(records) && toApprove == IdsReady(records);
      if errors != [] {
        return Incomplete(errors);
      }
      if toApprove == [] {
        assert ApproveRows(rows, toApprove, now) == rows;
        return Approved(0);
      }
      rows := ApproveRows(rows, toApprove, now);
      return Approved(|toApprove|);
    }
  }

  // ---- What one approval does to each row ----

  lemma {:induction false} SelectedRows(rows: Rows, ids: seq<int>, r: Record)
    ensures r in Select(rows, ids) <==> r in rows && r.id in ids
    decreases |rows|
  {
    if rows != [] {
      SelectedRows(rows[1..], ids, r);
      assert rows == [rows[0]] + rows[1..];
    }
  }

  lemma {:induction false} BlockedIds(chosen: seq<Record>)
    ensures IdsBlocked(chosen) == [] <==> forall r :: r in chosen ==> !Blocked(r)
    decreases |chosen|
  {
    if chosen != [] {
      BlockedIds(chosen[1..]);
      assert chosen == [chosen[0]] + chosen[1..];
    }
  }

  lemma {:induction false} ReadyIds(chosen: seq<Record>, id: int)
    ensures id in IdsReady(chosen) <==> exists r :: r in chosen && Ready(r) && r.id == id
    decreases |chosen|
  {
    if chosen != [] {
      ReadyIds(chosen[1..], id);
      assert chosen == [chosen[0]] + chosen[1..];
    }
  }

  lemma ReadyRow(rows: Rows, ids: seq<int>, i: nat)
    requires Distinct(rows) && i < |rows|
    ensures rows[i].id in IdsReady(Select(rows, ids)) <==> rows[i].id in ids && Ready(rows[i])
  {
    ReadyIds(Select(rows, ids), rows[i].id);
    SelectedRows(rows, ids, rows[i]);
    forall r | r in Select(rows, ids) && r.id == rows[i].id ensures r == rows[i] {
      SelectedRows(rows, ids, r);
    }
  }

  /** All or nothing: the call approves every chosen row that was not approved yet, if each of them has a number and a
      name; otherwise it changes nothing. */
  lemma ApprovalIsAllOrNothing(rows: Rows, ids: seq<int>, now: string)
    requires Distinct(rows)
    ensures var after := AfterApprove(rows, ids, now);
      var fine := forall j :: 0 <= j < |rows| && rows[j].id in ids ==> !Blocked(rows[j]);
      |after| == |rows|
      && forall i :: 0 <= i < |rows| ==>
           after[i] == if fine && rows[i].id in ids && rows[i].status != "approved" then SetApproved(rows[i], now)
                       else rows[i]
  {
    var chosen := Select(rows, ids);
    BlockedIds(chosen);
    forall j | 0 <= j < |rows| ensures rows[j] in chosen <==> rows[j].id in ids {
      SelectedRows(rows, ids, rows[j]);
    }
    forall r | r in chosen ensures r in rows {
      SelectedRows(rows, ids, r);
    }
    forall i | 0 <= i < |rows| ensures rows[i].id in IdsReady(chosen) <==> rows[i].id in ids && Ready(rows[i]) {
      ReadyRow(rows, ids, i);
    }
    var fine := forall j :: 0 <= j < |rows| && rows[j].id in ids ==> !Blocked(rows[j]);
    assert fine <==> IdsBlocked(chosen) == [];
  }

  /** How many rows differ between two states of the table. */
  function Changes(before: Rows, after: Rows): nat
    requires |before| == |after|
  {
    if before == [] then 0 else (if before[0] != after[0] then 1 else 0) + Changes(before[1..], after[1..])
  }

  lemma ReadyHead(rows: Rows, ids: seq<int>)
    requires rows != []
    ensures |IdsReady(Select(rows, ids))|
         == (if rows[0].id in ids && Ready(rows[0]) then 1 else 0) + |IdsReady(Select(rows[1..], ids))|
  {
    var rest := Select(rows[1..], ids);
    if rows[0].id in ids {
      assert Select(rows, ids)[1..] == rest;
    } else {
      assert Select(rows, ids) == rest;
    }
  }

  lemma {:induction false} ReadyCount(rows: Rows, ids: seq<int>, after: Rows)
    requires |after| == |rows|
    requires forall i :: 0 <= i < |rows| ==> (after[i] != rows[i] <==> rows[i].id in ids && Ready(rows[i]))
    ensures |IdsReady(Select(rows, ids))| == Changes(rows, after)
    decreases |rows|
  {
    if rows != [] {
      ReadyHead(rows, ids);
      assert forall i :: 0 <= i < |rows[1..]| ==> rows[1..][i] == rows[i + 1] && after[1..][i] == after[i + 1];
      ReadyCount(rows[1..], ids, after[1..]);
    }
  }

  /** The count in the reply is the number of rows that changed. */
  lemma ApprovedCountIsTrue(rows: Rows, ids: seq<int>, now: string)
    requires Distinct(rows) && ApproveReplyFor(rows, ids).Approved?
    ensures |AfterApprove(rows, ids, now)| == |rows|
    ensures ApproveReplyFor(rows, ids).count == Changes(rows, AfterApprove(rows, ids, now))
  {
    var after := AfterApprove(rows, ids, now);
    forall i | 0 <= i < |rows| ensures after[i] != rows[i] <==> rows[i].id in ids && Ready(rows[i]) {
      ReadyRow(rows, ids, i);
    }
    ReadyCount(rows, ids, after);
  }

  // ---- Runs ----

  datatype Call =
    | Update(id: int, data: map<string, Option<string>>, now: string)
    | Approve(ids: seq<int>, now: string)

  function Next(rows: Rows, c: Call): Rows {
    match c
    case Update(id, data, now) => AfterUpdate(rows, id, data, now)
    case Approve(ids, now) => AfterApprove(rows, ids, now)
  }

  function Run(rows: Rows, calls: seq<Call>): Rows
    decreases |calls|
  {
    if calls == [] then rows else Run(Next(rows, calls[0]), calls[1..])
  }

  /** What one call may do to one row. */
  ghost predicate Allowed(r: Record, s: Record) {
    || s == r
    || (r.status != "approved" && s == r.(fields := s.fields, status := s.status, updatedAt := s.updatedAt)
        && s.status == (if r.status == "draft" then "pending_review" else r.status)
        && forall k :: k !in EDITABLE ==> (k in s.fields <==> k in r.fields) && (k in s.fields ==> s.fields[k] == r.fields[k]))
    || (r.status != "approved" && Complete(r) && s.status == "approved" && s.fields == r.fields && s.id == r.id)
  }

  lemma StepIsAllowed(rows: Rows, c: Call)
    requires Distinct(rows)
    ensures |Next(rows, c)| == |rows| && Distinct(Next(rows, c))
    ensures forall i :: 0 <= i < |rows| ==> Allowed(rows[i], Next(rows, c)[i])
  {
    match c
    case Update(id, data, now) =>
      var at := Find(rows, id);
      if UpdateReplyFor(rows, id, data).Updated? {
        assert forall i :: 0 <= i < |rows| && rows[i].id == id ==> i == at.value;
      }
    case Approve(ids, now) => ApprovalIsAllOrNothing(rows, ids, now);
  }

  /** Approval is final: over any sequence of calls an approved row keeps its status, its fields and both its times. */
  lemma {:induction false} ApprovedRowsNeverChange(rows: Rows, calls: seq<Call>, i: nat)
    requires Distinct(rows) && i < |rows| && rows[i].status == "approved"
    ensures |Run(rows, calls)| == |rows| && Run(rows, calls)[i] == rows[i]
    decreases |calls|
  {
    if calls != [] {
      StepIsAllowed(rows, calls[0]);
      assert Allowed(rows[i], Next(rows, calls[0])[i]);
      ApprovedRowsNeverChange(Next(rows, calls[0]), calls[1..], i);
    }
  }

  lemma EditKeepsKeys(rows: Rows, id: int, data: map<string, Option<string>>, now: string)
    requires Distinct(rows) && UniqueKeys(rows)
    ensures UniqueKeys(AfterUpdate(rows, id, data, now))
  {
    var next, updates := AfterUpdate(rows, id, data, now), Updates(data);
    if UpdateReplyFor(rows, id, data).Updated? {
      forall i, j | 0 <= i < j < |next| ensures !SameKey(next[i].fields, next[j].fields) {
        assert !SameKey(rows[i].fields, rows[j].fields);
        if "standard_number" in updates {
          assert rows[i].id == id ==> !SameKey(rows[i].fields + updates, rows[j].fields);
          assert rows[j].id == id ==> !SameKey(rows[j].fields + updates, rows[i].fields);
        } else {
          UpdatesKeepKey(rows[i].fields, data);
          UpdatesKeepKey(rows[j].fields, data);
        }
      }
    }
  }

  /** An edit that leaves the number alone leaves the whole key alone. */
  lemma UpdatesKeepKey(fields: map<string, string>, data: map<string, Option<string>>)
    requires "standard_number" !in Updates(data)
    ensures forall c :: c in KEY ==> (c in fields + Updates(data) <==> c in fields)
                                     && (c in fields ==> (fields + Updates(data))[c] == fields[c])
  {
    assert forall c :: c in KEY ==> c !in Updates(data);
  }

  /** No call breaks the table's unique key. */
  lemma {:induction false} KeysStayUnique(rows: Rows, calls: seq<Call>)
    requires Distinct(rows) && UniqueKeys(rows)
    ensures UniqueKeys(Run(rows, calls))
    decreases |calls|
  {
    if calls != [] {
      StepIsAllowed(rows, calls[0]);
      match calls[0] {
        case Update(id, data, now) => EditKeepsKeys(rows, id, data, now);
        case Approve(ids, now) => ApprovalIsAllOrNothing(rows, ids, now);
      }
      assert UniqueKeys(Next(rows, calls[0]));
      KeysStayUnique(Next(rows, calls[0]), calls[1..]);
    }
  }

  predicate ApprovedAreComplete(rows: Rows) {
    forall i :: 0 <= i < |rows| && rows[i].status == "approved" ==> Complete(rows[i])
  }

  /** Every approved row has a number and a name, if that held at the start. */
  lemma {:induction false} ApprovedStayComplete(rows: Rows, calls: seq<Call>)
    requires Distinct(rows) && ApprovedAreComplete(rows)
    ensures ApprovedAreComplete(Run(rows, calls))
    decreases |calls|
  {
    if calls != [] {
      var next := Next(rows, calls[0]);
      StepIsAllowed(rows, calls[0]);
      forall i | 0 <= i < |next| && next[i].status == "approved" ensures Complete(next[i]) {
        assert Allowed(rows[i], next[i]);
      }
      ApprovedStayComplete(next, calls[1..]);
    }
  }

  // ---- Two calls at once ----

  /** The second statement of `update_record`, with what its first one read some time before. */
  function LateEdit(rows: Rows, seen: Rows, id: int, data: map<string, Option<string>>, now: string): Rows {
    var reply := Checked(seen, id, data);
    if reply.Updated? && !Collides(rows, id, Updates(data)) then EditRows(rows, id, Updates(data), reply.status, now)
    else rows
  }

  /** An approval takes no part in a collision. */
  lemma CollidesAlike(rows: Rows, other: Rows, id: int, updates: map<string, string>)
    requires |rows| == |other|
    requires forall i :: 0 <= i < |rows| ==> rows[i].id == other[i].id && rows[i].fields == other[i].fields
    ensures Collides(rows, id, updates) ==> Collides(other, id, updates)
  {
    if Collides(rows, id, updates) {
      var i, j :| 0 <= i < |rows| && 0 <= j < |rows| && i != j
                  && rows[i].id == id && SameKey(rows[i].fields + updates, rows[j].fields);
      assert other[i].id == id && SameKey(other[i].fields + updates, other[j].fields);
    }
  }

  /** An approval between the two statements of an edit is undone: its row leaves `approved` again, whatever its
      status was before. The edit is harmless to an approval exactly when it has nothing to write, or writes a number
      that the table's unique key refuses. */
  lemma LateEditUndoesApproval(rows: Rows, i: nat, ids: seq<int>, data: map<string, Option<string>>, now: string)
    requires Distinct(rows) && i < |rows| && rows[i].id in ids && rows[i].status != "approved"
    requires forall j :: 0 <= j < |rows| && rows[j].id in ids ==> !Blocked(rows[j])
    ensures var approved := AfterApprove(rows, ids, now);
      && |approved| == |rows| && approved[i].status == "approved"
      && (LateEdit(approved, rows, rows[i].id, data, now)[i].status == "approved"
          <==> Updates(data) == map[] || Collides(rows, rows[i].id, Updates(data)))
  {
    var approved := AfterApprove(rows, ids, now);
    ApprovalIsAllOrNothing(rows, ids, now);
    CollidesAlike(rows, approved, rows[i].id, Updates(data));
    CollidesAlike(approved, rows, rows[i].id, Updates(data));
    assert Find(rows, rows[i].id) == Some(i);
  }

  /** The second statement of `batch_approve`, with what its first one read some time before. */
  function LateApproval(rows: Rows, seen: Rows, ids: seq<int>, now: string): Rows {
    if ApproveReplyFor(seen, ids).Approved? then ApproveRows(rows, IdsReady(Select(seen, ids)), now) else rows
  }

  predicate Empties(data: map<string, Option<string>>, field: string) {
    field in data && data[field] == Some("")
  }

  lemma EditedRow(rows: Rows, i: nat, data: map<string, Option<string>>, now: string)
    requires Distinct(rows) && i < |rows| && rows[i].status != "approved" && Complete(rows[i])
    ensures var r := AfterUpdate(rows, rows[i].id, data, now)[i];
      r.id == rows[i].id
      && (Complete(r)
          <==> Collides(rows, rows[i].id, Updates(data))
               || (!Empties(data, "std_name") && !Empties(data, "standard_number")))
  {
    assert Find(rows, rows[i].id) == Some(i);
    var updates := Updates(data);
    forall field | field == "std_name" || field == "standard_number"
      ensures field in updates <==> field in data && data[field].Some?
      ensures Empties(data, field) <==> field in updates && updates[field] == ""
    {
    }
    if updates != map[] && !Collides(rows, rows[i].id, updates) {
      var f := (rows[i].fields + updates);
      assert AfterUpdate(rows, rows[i].id, data, now)[i].fields == f;
    }
  }

  lemma ChosenIsReady(rows: Rows, i: nat, ids: seq<int>)
    requires Distinct(rows) && i < |rows| && rows[i].id in ids && rows[i].status != "approved"
    requires forall j :: 0 <= j < |rows| && rows[j].id in ids ==> !Blocked(rows[j])
    ensures ApproveReplyFor(rows, ids).Approved? && rows[i].id in IdsReady(Select(rows, ids))
  {
    BlockedIds(Select(rows, ids));
    SelectedRows(rows, ids, rows[i]);
    forall r | r in Select(rows, ids) ensures !Blocked(r) {
      SelectedRows(rows, ids, r);
    }
    ReadyRow(rows, ids, i);
  }

  /** An edit between the two statements of an approval gets through unchecked, and the row is approved all the
      same. It is then still complete exactly when the edit empties neither its name nor its number, or was refused
      by the table's unique key. */
  lemma LateApprovalIsCompleteIff(
    rows: Rows, i: nat, ids: seq<int>, data: map<string, Option<string>>, edited: string, now: string)
    requires Distinct(rows) && i < |rows| && rows[i].id in ids && rows[i].status != "approved"
    requires forall j :: 0 <= j < |rows| && rows[j].id in ids ==> !Blocked(rows[j])
    ensures var late := LateApproval(AfterUpdate(rows, rows[i].id, data, edited), rows, ids, now);
      && |late| == |rows| && late[i].status == "approved"
      && (Complete(late[i])
          <==> Collides(rows, rows[i].id, Updates(data))
               || (!Empties(data, "std_name") && !Empties(data, "standard_number")))
  {
    ChosenIsReady(rows, i, ids);
    EditedRow(rows, i, data, edited);
  }

  // ---- What the calls write ----

  /** The request gives a value for this column. */
  predicate Gives(data: map<string, Option<string>>, column: string) {
    column in EDITABLE && column in data && data[column].Some?
  }

  /** An accepted edit stores every value that the request gives for an editable column, keeps all other columns,
      stamps the time of the edit alone, and leaves all other rows as they are. */
  lemma EditStoresValues(rows: Rows, i: nat, data: map<string, Option<string>>, now: string)
    requires Distinct(rows) && i < |rows| && UpdateReplyFor(rows, rows[i].id, data).Updated?
    ensures var after := AfterUpdate(rows, rows[i].id, data, now);
      && |after| == |rows|
      && (forall c :: Gives(data, c) ==> c in after[i].fields && after[i].fields[c] == data[c].value)
      && (forall c :: !Gives(data, c) ==> (c in after[i].fields <==> c in rows[i].fields)
                                          && (c in rows[i].fields ==> after[i].fields[c] == rows[i].fields[c]))
      && after[i].status == (if rows[i].status == "draft" then "pending_review" else rows[i].status)
      && after[i].updatedAt == Some(now) && after[i].approvedAt == rows[i].approvedAt && after[i].id == rows[i].id
      && forall j :: 0 <= j < |rows| && j != i ==> after[j] == rows[j]
  {
    assert Find(rows, rows[i].id) == Some(i);
    forall c ensures Gives(data, c) <==> c in Updates(data) {
    }
  }

  /** An approval stamps both times and leaves all columns as they are. */
  lemma ApprovalStampsTimes(rows: Rows, ids: seq<int>, now: string, i: nat)
    requires Distinct(rows) && i < |rows| && AfterApprove(rows, ids, now)[i] != rows[i]
    ensures var r := AfterApprove(rows, ids, now)[i];
      && r == Record(rows[i].id, "approved", rows[i].fields, Some(now), Some(now))
      && rows[i].id in ids && rows[i].status != "approved"
  {
    ApprovalIsAllOrNothing(rows, ids, now);
  }
}
