/** The pages of an announcement's records (docker/api/announce_detail.py): a client asks for page after page while
    `hasMore` holds. The query orders by standard number alone, so each query may order equal numbers as it likes. */
module RecordPages {
  /** `number` is the place of the standard number in the database's collation order, NULL first. */
  datatype Record = Record(id: int, number: int)

  datatype Reply = Rejected | Reply(items: seq<Record>, total: nat, hasMore: bool)

  function Min(a: nat, b: nat): nat {
    if a <= b then a else b
  }

  /** LIMIT `size` OFFSET `offset`. */
  function Slice(rows: seq<Record>, offset: nat, size: nat): seq<Record> {
    rows[Min(offset, |rows|)..Min(offset + size, |rows|)]
  }

  /** `get_announcement_records_paginated` for the rows in the order this query gives them. */
  method GetPage(rows: seq<Record>, page: int, pageSize: int) returns (r: Reply)
    ensures r.Rejected? <==> page < 1 || pageSize < 1 || pageSize > 200
    ensures r.Reply? ==> r.total == |rows| && r.items == Slice(rows, (page - 1) * pageSize, pageSize)
    ensures r.Reply? ==> (r.hasMore <==> page * pageSize < |rows|)
  {
    if page < 1 || pageSize < 1 || pageSize > 200 {
      return Rejected;
    }
    var offset := (page - 1) * pageSize;
    assert page * pageSize == offset + pageSize;
    var items := Slice(rows, offset, pageSize);
    return Reply(items, |rows|, offset + |items| < |rows|);
  }

  predicate Sorted(rows: seq<Record>) {
    forall i, j :: 0 <= i < j < |rows| ==> rows[i].number <= rows[j].number
  }

  predicate NoRepeats(rows: seq<Record>) {
    forall i, j :: 0 <= i < j < |rows| ==> rows[i] != rows[j]
  }

  /** An order in which a query may give these records. */
  predicate Ordered(rows: seq<Record>, records: set<Record>) {
    Sorted(rows) && NoRepeats(rows) && (forall i :: 0 <= i < |rows| ==> rows[i] in records)
    && (forall r :: r in records ==> r in rows)
  }

  /** What a client has collected that starts at page `page` and goes on while there is more. */
  function Walk(orders: nat -> seq<Record>, page: nat, size: nat, offset: nat, total: nat): seq<Record>
    requires size > 0
    decreases if offset < total then total - offset else 0
  {
    Slice(orders(page), offset, size)
    + if offset + size < total then Walk(orders, page + 1, size, offset + size, total) else []
  }

  predicate DistinctNumbers(records: set<Record>) {
    forall r, s :: r in records && s in records && r.number == s.number ==> r == s
  }

  /** If every query gives the same order, the pages make up that order exactly. */
  lemma {:induction false} PagesMakeUpTheRows(orders: nat -> seq<Record>, rows: seq<Record>, page: nat, size: nat, offset: nat)
    requires size > 0 && offset <= |rows|
    requires forall p: nat :: p >= page ==> orders(p) == rows
    ensures Walk(orders, page, size, offset, |rows|) == rows[offset..]
    decreases |rows| - offset
  {
    assert orders(page) == rows;
    if offset + size < |rows| {
      PagesMakeUpTheRows(orders, rows, page + 1, size, offset + size);
      assert rows[offset..] == rows[offset..offset + size] + rows[offset + size..];
    }
  }

  lemma TailIsOrdered(rows: seq<Record>, records: set<Record>)
    requires rows != [] && Ordered(rows, records)
    ensures Ordered(rows[1..], records - {rows[0]})
  {
    var rest := rows[1..];
    assert forall i :: 0 <= i < |rest| ==> rest[i] == rows[i + 1];
    forall r | r in records - {rows[0]} ensures r in rest {
      var i :| 0 <= i < |rows| && rows[i] == r;
      assert rest[i - 1] == r;
    }
  }

  /** With distinct numbers there is only one order. */
  lemma {:induction false} OrderIsUnique(a: seq<Record>, b: seq<Record>, records: set<Record>)
    requires Ordered(a, records) && Ordered(b, records) && DistinctNumbers(records)
    ensures a == b
    decreases |a|
  {
    assert b != [] ==> b[0] in records;
    if a != [] {
      assert a[0] in records && a[0] in b;
      assert b[0] in records && b[0] in a;
      var i :| 0 <= i < |a| && a[i] == b[0];
      var j :| 0 <= j < |b| && b[j] == a[0];
      assert a[0].number <= a[i].number && b[0].number <= b[j].number;
      TailIsOrdered(a, records);
      TailIsOrdered(b, records);
      OrderIsUnique(a[1..], b[1..], records - {a[0]});
    }
  }

  /** Whatever order each query picks, the client gets every record once. */
  ghost predicate PagingIsExact(records: set<Record>, total: nat) {
    forall orders: nat -> seq<Record>, size: nat ::
      1 <= size <= 200 && (forall p: nat :: Ordered(orders(p), records)) ==>
        Ordered(Walk(orders, 1, size, 0, total), records)
  }

  lemma OneRecordPage(rows: seq<Record>, offset: nat, size: nat)
    requires size == 1 && offset < |rows|
    ensures Slice(rows, offset, size) == [rows[offset]]
  {
  }

  lemma WalkStep(orders: nat -> seq<Record>, page: nat, size: nat, offset: nat, total: nat)
    requires size == 1 && offset < total == |orders(page)|
    ensures Walk(orders, page, size, offset, total)
         == [orders(page)[offset]] + if offset + 1 < total then Walk(orders, page + 1, size, offset + 1, total) else []
  {
    OneRecordPage(orders(page), offset, size);
  }

  lemma Behind(x: Record, rest: seq<Record>, n: nat)
    requires 0 < n <= |rest|
    ensures ([x] + rest)[n] == rest[n - 1]
  {
  }

  /** With pages of one record, what a page shows is what its own query has at that place. */
  lemma {:induction false} WalkByOnes(orders: nat -> seq<Record>, page: nat, size: nat, offset: nat, total: nat, n: nat)
    requires size == 1 && offset + n < total && forall p: nat :: |orders(p)| == total
    ensures var got := Walk(orders, page, size, offset, total);
      n < |got| && got[n] == orders(page + n)[offset + n]
    decreases n
  {
    assert |orders(page)| == total;
    WalkStep(orders, page, size, offset, total);
    if n > 0 {
      WalkByOnes(orders, page + 1, size, offset + 1, total, n - 1);
      Behind(orders(page)[offset], Walk(orders, page + 1, size, offset + 1, total), n);
    }
  }

  function Swapped(rows: seq<Record>, i: nat): (r: seq<Record>)
    requires i + 1 < |rows|
    ensures |r| == |rows|
  {
    rows[i := rows[i + 1]][i + 1 := rows[i]]
  }

  lemma SwappedIsSorted(rows: seq<Record>, i: nat)
    requires Sorted(rows) && i + 1 < |rows| && rows[i].number == rows[i + 1].number
    ensures Sorted(Swapped(rows, i))
  {
    var b := Swapped(rows, i);
    forall j, k | 0 <= j < k < |b| ensures b[j].number <= b[k].number {
      assert b[j].number == rows[j].number && b[k].number == rows[k].number;
    }
  }

  lemma SwappedHasNoRepeats(rows: seq<Record>, i: nat)
    requires NoRepeats(rows) && i + 1 < |rows|
    ensures NoRepeats(Swapped(rows, i))
  {
    var b := Swapped(rows, i);
    forall j, k | 0 <= j < k < |b| ensures b[j] != b[k] {
      var j', k' := if j == i then i + 1 else if j == i + 1 then i else j, if k == i then i + 1 else if k == i + 1 then i else k;
      assert b[j] == rows[j'] && b[k] == rows[k'] && j' != k';
    }
  }

  lemma SwappedIsOrdered(rows: seq<Record>, records: set<Record>, i: nat)
    requires Ordered(rows, records) && i + 1 < |rows| && rows[i].number == rows[i + 1].number
    ensures Ordered(Swapped(rows, i), records)
  {
    var b := Swapped(rows, i);
    SwappedIsSorted(rows, i);
    SwappedHasNoRepeats(rows, i);
    forall r | r in records ensures r in b {
      var k :| 0 <= k < |rows| && rows[k] == r;
      assert b[if k == i then i + 1 else if k == i + 1 then i else k] == r;
    }
  }

  lemma OneRecordTwice(orders: nat -> seq<Record>, page: nat, size: nat, offset: nat, total: nat, n: nat)
    requires size == 1 && offset + n + 1 < total && forall p: nat :: |orders(p)| == total
    requires orders(page + n)[offset + n] == orders(page + (n + 1))[offset + (n + 1)]
    ensures !NoRepeats(Walk(orders, page, size, offset, total))
  {
    WalkByOnes(orders, page, size, offset, total, n);
    WalkByOnes(orders, page, size, offset, total, n + 1);
  }

  lemma TwoOrdersClash(orders: nat -> seq<Record>, rows: seq<Record>, records: set<Record>, i: nat, size: nat, offset: nat)
    requires Ordered(rows, records) && i + 1 < |rows| && rows[i].number == rows[i + 1].number
    requires size == 1 && offset == 0
    requires forall p: nat :: orders(p) == if p == i + 1 then rows else Swapped(rows, i)
    ensures forall p: nat :: Ordered(orders(p), records)
    ensures !Ordered(Walk(orders, 1, size, offset, |rows|), records)
  {
    SwappedIsOrdered(rows, records, i);
    OneRecordTwice(orders, 1, size, offset, |rows|, i);
  }

  lemma InexactOrders(orders: nat -> seq<Record>, size: nat, offset: nat, records: set<Record>, total: nat)
    requires 1 <= size <= 200 && offset == 0 && forall p: nat :: Ordered(orders(p), records)
    requires !Ordered(Walk(orders, 1, size, offset, total), records)
    ensures !PagingIsExact(records, total)
  {
  }

  function TwoOrders(rows: seq<Record>, swapped: seq<Record>, i: nat): nat -> seq<Record> {
    (p: nat) => if p == i + 1 then rows else swapped
  }

  /** Two records with one number: a query may show on one page a record that another showed on the page before. */
  lemma EqualNumbersCanRepeat(rows: seq<Record>, records: set<Record>, i: nat)
    requires Ordered(rows, records) && i + 1 < |rows| && rows[i].number == rows[i + 1].number
    ensures !PagingIsExact(records, |rows|)
  {
    var orders := TwoOrders(rows, Swapped(rows, i), i);
    TwoOrdersClash(orders, rows, records, i, 1, 0);
    InexactOrders(orders, 1, 0, records, |rows|);
  }

  lemma EqualNumbersAreNeighbours(rows: seq<Record>, records: set<Record>, r: Record, s: Record) returns (i: nat)
    requires Ordered(rows, records) && r in records && s in records && r != s && r.number == s.number
    ensures i + 1 < |rows| && rows[i].number == rows[i + 1].number
  {
    var j :| 0 <= j < |rows| && rows[j] == r;
    var k :| 0 <= k < |rows| && rows[k] == s;
    i := if j < k then j else k;
    assert rows[i].number <= rows[i + 1].number;
    assert i + 1 < (if j < k then k else j) ==> rows[i + 1].number <= r.number;
  }

  /** Going through the pages is sure to give every record once exactly when no two records share a standard
      number. */
  lemma PagingIsExactIff(rows: seq<Record>, records: set<Record>)
    requires Ordered(rows, records)
    ensures PagingIsExact(records, |rows|) <==> DistinctNumbers(records)
  {
    if DistinctNumbers(records) {
      forall orders: nat -> seq<Record>, size: nat | 1 <= size <= 200 && (forall p: nat :: Ordered(orders(p), records))
        ensures Ordered(Walk(orders, 1, size, 0, |rows|), records)
      {
        forall p: nat ensures orders(p) == rows {
          OrderIsUnique(orders(p), rows, records);
        }
        PagesMakeUpTheRows(orders, rows, 1, size, 0);
        assert rows[0..] == rows;
      }
    } else {
      var r, s :| r in records && s in records && r.number == s.number && r != s;
      var i := EqualNumbersAreNeighbours(rows, records, r, s);
      EqualNumbersCanRepeat(rows, records, i);
    }
  }
}
