/** `_split_cols` (scripts/_sql_schema_parser.py): splits a column list at its top-level commas. */
module ColumnSplitter {

  function Delta(c: char): int {
    if c == '(' || c == '[' then 1 else if c == ')' || c == ']' then -1 else 0
  }

  /** Opening minus closing brackets; a text may close more than it opens. */
  function Depth(s: string): int {
    if s == "" then 0 else Depth(s[..|s| - 1]) + Delta(s[|s| - 1])
  }

  /** No comma stands outside all brackets. */
  predicate NoTopComma(s: string) {
    s == "" || (NoTopComma(s[..|s| - 1]) && !(s[|s| - 1] == ',' && Depth(s[..|s| - 1]) == 0))
  }

  /** A part that a top-level comma may follow. */
  predicate Closed(part: string) {
    NoTopComma(part) && Depth(part) == 0
  }

  ghost predicate AllClosed(parts: seq<string>) {
    forall i :: 0 <= i < |parts| ==> Closed(parts[i])
  }

  /** Every part followed by a comma. */
  function Terminated(parts: seq<string>): string {
    if parts == [] then "" else parts[0] + "," + Terminated(parts[1..])
  }

  /** The meaning of a split: closed parts, each ended by a comma, and a rest that is listed unless it is
      empty. */
  ghost predicate IsSplit(s: string, parts: seq<string>) {
    || (AllClosed(parts) && s == Terminated(parts))
    || (parts != []
        && var n := |parts| - 1;
           AllClosed(parts[..n]) && parts[n] != "" && NoTopComma(parts[n]) && s == Terminated(parts[..n]) + parts[n])
  }

  /** The loop has read `i` characters into closed parts and the current one. */
  ghost predicate Reading(s: string, i: nat, parts: seq<string>, current: string, depth: int) {
    i <= |s| && AllClosed(parts) && NoTopComma(current) && depth == Depth(current)
    && s[..i] == Terminated(parts) + current
  }

  lemma CharacterRead(s: string, i: nat, parts: seq<string>, current: string, depth: int)
    requires i < |s| && Reading(s, i, parts, current, depth) && !(s[i] == ',' && depth == 0)
    ensures Reading(s, i + 1, parts, current + [s[i]], depth + Delta(s[i]))
  {
    assert (current + [s[i]])[..|current|] == current;
    assert s[..i + 1] == s[..i] + [s[i]] == Terminated(parts) + (current + [s[i]]);
  }

  lemma PartRead(s: string, i: nat, parts: seq<string>, current: string, depth: int)
    requires i < |s| && Reading(s, i, parts, current, depth) && s[i] == ',' && depth == 0
    ensures Reading(s, i + 1, parts + [current], "", 0)
  {
    TerminatedAppend(parts, current);
    assert s[..i + 1] == s[..i] + [s[i]] == Terminated(parts + [current]) + "";
  }

  lemma AllRead(s: string, parts: seq<string>, current: string, depth: int)
    requires Reading(s, |s|, parts, current, depth)
    ensures IsSplit(s, if current == "" then parts else parts + [current])
  {
    assert s[..|s|] == s;
    if current == "" {
      assert Terminated(parts) + "" == Terminated(parts);
    } else {
      assert (parts + [current])[..|parts|] == parts;
    }
  }

  method SplitCols(s: string) returns (parts: seq<string>)
    ensures IsSplit(s, parts)
  {
    parts := [];
    var depth := 0;
    var current := "";
    for i := 0 to |s|
      invariant Reading(s, i, parts, current, depth)
    {
      var ch := s[i];
      if ch == ',' && depth == 0 {
        PartRead(s, i, parts, current, depth);
      } else {
        CharacterRead(s, i, parts, current, depth);
      }
      if ch == '(' || ch == '[' {
        depth := depth + 1;
        current := current + [ch];
      } else if ch == ')' || ch == ']' {
        depth := depth - 1;
        current := current + [ch];
      } else if ch == ',' && depth == 0 {
        parts := parts + [current];
        current := "";
      } else {
        current := current + [ch];
      }
    }
    AllRead(s, parts, current, depth);
    if current != "" {
      parts := parts + [current];
    }
  }

  lemma {:induction false} TerminatedAppend(parts: seq<string>, part: string)
    ensures Terminated(parts + [part]) == Terminated(parts) + part + ","
  {
    if parts != [] {
      TerminatedAppend(parts[1..], part);
      assert (parts + [part])[1..] == parts[1..] + [part];
    }
  }

  lemma {:induction false} TopCommaInside(s: string, n: nat)
    requires n < |s| && s[n] == ',' && Depth(s[..n]) == 0
    ensures !NoTopComma(s)
  {
    var m := |s| - 1;
    if n < m {
      assert s[..m][..n] == s[..n];
      TopCommaInside(s[..m], n);
    }
  }

  /** A text that goes on with a comma after a closed part has that part as its only first part. */
  lemma FirstPart(p: string, x: string, q: string, y: string)
    requires Closed(p) && NoTopComma(q) && p + "," + x == q + y
    ensures |q| <= |p|
  {
    if |p| < |q| {
      var s := p + "," + x;
      assert s[..|p|] == p && s[|p|] == ',' && s[..|q|] == q;
      assert q[..|p|] == p && q[|p|] == ',';
      TopCommaInside(q, |p|);
    }
  }

  lemma NoLongerFirstPart(p: string, u: string, q: string, v: string)
    requires Closed(p) && NoTopComma(q) && p + "," + u == q + "," + v
    ensures |q| <= |p|
  {
    assert q + "," + v == q + ("," + v);
    FirstPart(p, u, q, "," + v);
  }

  lemma TerminatedHead(p: seq<string>, x: string)
    requires p != []
    ensures Terminated(p) + x == p[0] + "," + (Terminated(p[1..]) + x)
  {
  }

  lemma FirstPartsAgree(p: seq<string>, x: string, q: seq<string>, y: string)
    requires p != [] && q != [] && Closed(p[0]) && Closed(q[0])
    requires Terminated(p) + x == Terminated(q) + y
    ensures p[0] == q[0] && Terminated(p[1..]) + x == Terminated(q[1..]) + y
  {
    TerminatedHead(p, x);
    TerminatedHead(q, y);
    SameFirstPart(p[0], Terminated(p[1..]) + x, q[0], Terminated(q[1..]) + y);
  }

  lemma SameFirstPart(p: string, u: string, q: string, v: string)
    requires Closed(p) && Closed(q) && p + "," + u == q + "," + v
    ensures p == q && u == v
  {
    NoLongerFirstPart(p, u, q, v);
    NoLongerFirstPart(q, v, p, u);
    SameCut(p, u, q, v);
  }

  /** The closed parts and the rest of a text are determined by the text. */
  lemma {:induction false} PartsAreDetermined(p: seq<string>, x: string, q: seq<string>, y: string)
    requires AllClosed(p) && AllClosed(q) && NoTopComma(x) && NoTopComma(y)
    requires Terminated(p) + x == Terminated(q) + y
    ensures p == q && x == y
  {
    if p == [] && q == [] {
      assert "" + x == x && "" + y == y;
    } else if p == [] {
      NotARest(q, y, x);
    } else if q == [] {
      NotARest(p, x, y);
    } else {
      FirstPartsAgree(p, x, q, y);
      PartsAreDetermined(p[1..], x, q[1..], y);
      assert p == [p[0]] + p[1..] && q == [q[0]] + q[1..];
    }
  }

  lemma SameCut(a: string, u: string, b: string, v: string)
    requires a + "," + u == b + "," + v && |a| == |b|
    ensures a == b && u == v
  {
    var s := a + "," + u;
    assert a == s[..|a|] == b && u == s[|a| + 1..] == v;
  }

  lemma NotARest(p: seq<string>, x: string, rest: string)
    requires p != [] && AllClosed(p) && NoTopComma(rest)
    ensures Terminated(p) + x != "" + rest
  {
    if Terminated(p) + x == "" + rest {
      var u := Terminated(p[1..]) + x;
      assert Terminated(p) + x == p[0] + "," + u;
      assert rest + "" == "" + rest;
      FirstPart(p[0], u, rest, "");
    }
  }

  /** A text has only one split. */
  lemma SplitIsUnique(s: string, p: seq<string>, q: seq<string>)
    requires IsSplit(s, p) && IsSplit(s, q)
    ensures p == q
  {
    var ps, x := SplitParts(s, p);
    var qs, y := SplitParts(s, q);
    PartsAreDetermined(ps, x, qs, y);
  }

  lemma SplitParts(s: string, p: seq<string>) returns (closed: seq<string>, rest: string)
    requires IsSplit(s, p)
    ensures AllClosed(closed) && NoTopComma(rest) && Terminated(closed) + rest == s
    ensures p == if rest == "" then closed else closed + [rest]
  {
    if AllClosed(p) && s == Terminated(p) {
      closed, rest := p, "";
    } else {
      closed, rest := p[..|p| - 1], p[|p| - 1];
    }
  }

  /** `",".join(parts)`. */
  function JoinCommas(parts: seq<string>): string {
    if parts == [] then ""
    else if |parts| == 1 then parts[0]
    else parts[0] + "," + JoinCommas(parts[1..])
  }

  lemma {:induction false} TerminatedIsJoin(parts: seq<string>)
    requires parts != []
    ensures Terminated(parts) == JoinCommas(parts) + ","
  {
    if |parts| > 1 {
      TerminatedIsJoin(parts[1..]);
    }
  }

  lemma {:induction false} JoinWithRest(parts: seq<string>, rest: string)
    ensures JoinCommas(parts + [rest]) == Terminated(parts) + rest
  {
    if parts != [] {
      assert (parts + [rest])[1..] == parts[1..] + [rest];
      JoinWithRest(parts[1..], rest);
    }
  }

  /** Joining the parts with commas gives the text back, or the text without one final top-level comma;
      the latter exactly when every part is followed by a comma. */
  lemma JoinGivesTextBack(s: string, parts: seq<string>)
    requires IsSplit(s, parts)
    ensures JoinCommas(parts) == s || JoinCommas(parts) + "," == s
    ensures JoinCommas(parts) + "," == s <==> parts != [] && AllClosed(parts) && s == Terminated(parts)
    ensures forall i :: 0 <= i < |parts| ==> NoTopComma(parts[i])
    ensures forall i :: 0 <= i < |parts| - 1 ==> Depth(parts[i]) == 0
  {
    var closed, rest := SplitParts(s, parts);
    if parts != [] {
      TerminatedIsJoin(parts);
    }
    if rest == "" {
      assert Terminated(closed) + "" == Terminated(closed);
    } else {
      JoinWithRest(closed, rest);
      assert forall i :: 0 <= i < |closed| ==> parts[i] == closed[i];
    }
  }
}
