/** The rewriter of CREATE TABLE statements (scripts/sync_test_schema.py). A statement's span is found by counting
    brackets; due spans are spliced from the last to the first. */
module SchemaRewriter {
  import opened Basics
  import opened Characters
  import opened TableHeaders

  datatype Column = Column(name: string, kind: string, notNull: bool, preset: Option<string>, pk: nat)

  type Schema = map<string, seq<Column>>

  datatype Span = Span(start: nat, end: nat, name: string)

  // ---- Where a statement ends ----

  function Step(c: char, depth: nat): nat
    requires depth > 0
  {
    if c == '(' then depth + 1 else if c == ')' then depth - 1 else depth
  }

  /** The scan from `i` until the depth is zero or the text ends. */
  function Close(s: string, i: nat, depth: nat): (n: nat)
    requires i <= |s|
    ensures i <= n <= |s|
    decreases |s| - i
  {
    if i < |s| && depth > 0 then Close(s, i + 1, Step(s[i], depth)) else i
  }

  /** The scan meets its closing bracket. */
  predicate Closes(s: string, i: nat, depth: nat)
    requires i <= |s|
    decreases |s| - i
  {
    depth == 0 || (i < |s| && Closes(s, i + 1, Step(s[i], depth)))
  }

  predicate Trailing(c: char) {
    c == ' ' || c == '\t' || c == '\n' || c == '\r' || c == ';'
  }

  function SkipTrailing(s: string, i: nat): (n: nat)
    requires i <= |s|
    ensures i <= n <= |s|
    ensures n < |s| ==> !Trailing(s[n])
    decreases |s| - i
  {
    if i < |s| && Trailing(s[i]) then SkipTrailing(s, i + 1) else i
  }

  function Bracket(s: string): (n: nat)
    requires Header(s).Some?
    ensures Header(s).value.end <= n <= |s|
  {
    Close(s, Header(s).value.end, 1)
  }

  predicate Closed(s: string)
    requires Header(s).Some?
  {
    Closes(s, Header(s).value.end, 1)
  }

  /** The end of the statement at the start of a text. */
  function SpanEnd(s: string): (n: nat)
    requires Header(s).Some?
    ensures Header(s).value.end <= Bracket(s) <= n <= |s|
    ensures n < |s| ==> !Trailing(s[n])
  {
    SkipTrailing(s, Bracket(s))
  }

  // ---- The generated statement ----

  predicate AllDigits(s: string) {
    s != "" && forall i :: 0 <= i < |s| ==> IsDigit(s[i])
  }

  function WithoutDots(s: string): string {
    if s == "" then "" else (if s[0] == '.' then "" else [s[0]]) + WithoutDots(s[1..])
  }

  function Quoted(val: string): string {
    if (val != "" && (val[0] == '\'' || val[0] == '"')) || AllDigits(val) || AllDigits(WithoutDots(val)) then val
    else "'" + val + "'"
  }

  function Upper(s: string): (r: string)
    ensures |r| == |s|
  {
    seq(|s|, i requires 0 <= i < |s| => UpperChar(s[i]))
  }

  function Definition(c: Column): string {
    "    " + c.name + " " + Upper(c.kind)
    + (if c.notNull && c.pk == 0 then " NOT NULL" else "")
    + (if c.preset.Some? then " DEFAULT " + Quoted(c.preset.value) else "")
  }

  function Body(columns: seq<Column>): string {
    if columns == [] then ""
    else if |columns| == 1 then Definition(columns[0])
    else Definition(columns[0]) + ",\n" + Body(columns[1..])
  }

  function Spaced(word: string, rest: string): string {
    word + (" " + rest)
  }

  /** `CREATE TABLE IF NOT EXISTS `. */
  function Preamble(): (r: string)
    ensures |r| == 27
  {
    Spaced("CREATE", Spaced("TABLE", Spaced("IF", Spaced("NOT", Spaced("EXISTS", "")))))
  }

  function Statement(name: string, body: string): string {
    Preamble() + name + " (\n" + body + "\n);"
  }

  function Generated(name: string, columns: seq<Column>): string {
    Statement(name, Body(columns))
  }

  // ---- The program ----

  /** `s[:n]` and `s[n:]`, which never fail. */
  function Take(s: string, n: nat): string {
    if n <= |s| then s[..n] else s
  }

  function Drop(s: string, n: nat): string {
    if n <= |s| then s[n..] else ""
  }

  /** The statement at `p`, if one starts there. */
  function SpanAt(s: string, p: nat): (r: Option<Span>)
    requires p <= |s|
    ensures r.Some? ==> p == r.value.start < r.value.end <= |s|
  {
    if Header(s[p..]).None? then None else Some(Span(p, p + SpanEnd(s[p..]), TableName(s[p..])))
  }

  /** Where the search goes on after `p`. */
  function After(s: string, p: nat): (n: nat)
    requires p < |s|
    ensures p < n <= |s|
  {
    if Header(s[p..]).None? then p + 1 else p + Header(s[p..]).value.end
  }

  /** All statements from `p` on. */
  function Spans(s: string, p: nat): seq<Span>
    requires p <= |s|
    decreases |s| - p
  {
    if p == |s| then []
    else (if SpanAt(s, p).Some? then [SpanAt(s, p).value] else []) + Spans(s, After(s, p))
  }

  predicate Due(content: string, m: Span, ref: Schema) {
    m.name in ref && Strip(Drop(Take(content, m.end), m.start)) != Strip(Generated(m.name, ref[m.name]))
  }

  function Splice(result: string, m: Span, ddl: string): string {
    Take(result, m.start) + ddl + Drop(result, m.end)
  }

  function SpliceBack(content: string, ms: seq<Span>, ref: Schema): string {
    if ms == [] then content
    else
      var r := SpliceBack(content, ms[1..], ref);
      if Due(content, ms[0], ref) then Splice(r, ms[0], Generated(ms[0].name, ref[ms[0].name])) else r
  }

  function DueCount(content: string, ms: seq<Span>, ref: Schema): nat {
    if ms == [] then 0 else (if Due(content, ms[0], ref) then 1 else 0) + DueCount(content, ms[1..], ref)
  }

  /** Counting brackets in a text is counting them in any of its tails. */
  lemma {:induction false} CloseShifted(s: string, p: nat, i: nat, depth: nat)
    requires p <= i <= |s|
    ensures Close(s[p..], i - p, depth) == Close(s, i, depth) - p
    decreases |s| - i
  {
    if i < |s| && depth > 0 {
      CloseShifted(s, p, i + 1, Step(s[i], depth));
    }
  }

  lemma {:induction false} SkipTrailingShifted(s: string, p: nat, i: nat)
    requires p <= i <= |s|
    ensures SkipTrailing(s[p..], i - p) == SkipTrailing(s, i) - p
    decreases |s| - i
  {
    if i < |s| && Trailing(s[i]) {
      SkipTrailingShifted(s, p, i + 1);
    }
  }

  lemma SpanEndShifted(s: string, p: nat)
    requires p <= |s| && Header(s[p..]).Some?
    ensures p + Header(s[p..]).value.end <= |s|
    ensures p + SpanEnd(s[p..]) == SkipTrailing(s, Close(s, p + Header(s[p..]).value.end, 1))
  {
    var from := p + Header(s[p..]).value.end;
    CloseShifted(s, p, from, 1);
    SkipTrailingShifted(s, p, Close(s, from, 1));
  }

  /** The two scans behind a header that ends at `from`. */
  method FindEnd(content: string, from: nat) returns (end: nat)
    requires from <= |content|
    ensures end == SkipTrailing(content, Close(content, from, 1))
  {
    var depth, pos := 1, from;
    while pos < |content| && depth > 0
      invariant from <= pos <= |content| && 0 <= depth
      invariant Close(content, pos, depth) == Close(content, from, 1)
    {
      var ch := content[pos];
      if ch == '(' {
        depth := depth + 1;
      } else if ch == ')' {
        depth := depth - 1;
      }
      pos := pos + 1;
    }
    end := pos;
    while end < |content| && Trailing(content[end])
      invariant pos <= end <= |content|
      invariant SkipTrailing(content, end) == SkipTrailing(content, pos)
    {
      end := end + 1;
    }
  }

  /** One step of the search: the statement found at `p`, and where the search goes on. */
  method MatchAt(content: string, p: nat) returns (m: Option<Span>, next: nat)
    requires p < |content|
    ensures m == SpanAt(content, p) && next == After(content, p)
  {
    var h := Header(content[p..]);
    if h.None? {
      return None, p + 1;
    }
    SpanEndShifted(content, p);
    var end := FindEnd(content, p + h.value.end);
    return Some(Span(p, end, TableName(content[p..]))), p + h.value.end;
  }

  lemma SpansStep(s: string, p: nat, found: seq<Span>)
    requires p < |s|
    ensures found + Spans(s, p)
         == (if SpanAt(s, p).Some? then found + [SpanAt(s, p).value] else found) + Spans(s, After(s, p))
  {
    var rest := Spans(s, After(s, p));
    if SpanAt(s, p).Some? {
      assert found + ([SpanAt(s, p).value] + rest) == (found + [SpanAt(s, p).value]) + rest;
    } else {
      assert [] + rest == rest;
    }
  }

  method FindCreateTableMatches(content: string) returns (matches: seq<Span>)
    ensures matches == Spans(content, 0)
  {
    matches := [];
    var p := 0;
    while p < |content|
      invariant p <= |content|
      invariant matches + Spans(content, p) == Spans(content, 0)
    {
      var m, next := MatchAt(content, p);
      SpansStep(content, p, matches);
      if m.Some? {
        matches := matches + [m.value];
      }
      p := next;
    }
  }

  method FixFile(content: string, ref: Schema) returns (result: string, changes: nat)
    ensures result == SpliceBack(content, Spans(content, 0), ref)
    ensures changes == DueCount(content, Spans(content, 0), ref)
  {
    var matches := FindCreateTableMatches(content);
    result, changes := content, 0;
    for k := |matches| downto 0
      invariant result == SpliceBack(content, matches[k..], ref)
      invariant changes == DueCount(content, matches[k..], ref)
    {
      var m := matches[k];
      assert matches[k..][0] == m && matches[k..][1..] == matches[k + 1..];
      if m.name in ref {
        var newDdl := Generated(m.name, ref[m.name]);
        var oldText := Drop(Take(content, m.end), m.start);
        if Strip(oldText) != Strip(newDdl) {
          result := Take(result, m.start) + newDdl + Drop(result, m.end);
          changes := changes + 1;
        }
      }
    }
  }

  // ---- Depth: the scan stops at the first balance ----

  function Weight(c: char): int {
    if c == '(' then 1 else if c == ')' then -1 else 0
  }

  /** Opening minus closing brackets in `s[i..j]`. */
  function Net(s: string, i: nat, j: nat): int
    requires i <= j <= |s|
    decreases j - i
  {
    if i == j then 0 else Weight(s[i]) + Net(s, i + 1, j)
  }

  /** The span closes at the first position where the depth is back at zero, or at the end of the text. */
  lemma {:induction false} ClosesAtFirstBalance(s: string, i: nat, depth: nat)
    requires i <= |s|
    ensures forall j :: i <= j < Close(s, i, depth) ==> depth + Net(s, i, j) > 0
    ensures Closes(s, i, depth) <==> depth + Net(s, i, Close(s, i, depth)) == 0
    ensures !Closes(s, i, depth) ==> Close(s, i, depth) == |s|
    decreases |s| - i
  {
    if i < |s| && depth > 0 {
      var d := Step(s[i], depth);
      ClosesAtFirstBalance(s, i + 1, d);
      forall j | i <= j < Close(s, i, depth) ensures depth + Net(s, i, j) > 0 {
        if i < j {
          assert d + Net(s, i + 1, j) > 0;
        }
      }
    }
  }

  /** A position with these two properties is where the scan stops. */
  lemma {:induction false} FirstBalanceCloses(s: string, i: nat, depth: nat, n: nat)
    requires i <= n <= |s|
    requires forall j :: i <= j < n ==> depth + Net(s, i, j) > 0
    requires depth + Net(s, i, n) == 0
    ensures Close(s, i, depth) == n && Closes(s, i, depth)
    decreases n - i
  {
    if i < n {
      assert depth + Net(s, i, i) > 0;
      var d, k := Step(s[i], depth), i + 1;
      forall j | k <= j < n ensures d + Net(s, k, j) > 0 {
        assert depth + Net(s, i, j) > 0;
      }
      FirstBalanceCloses(s, k, d, n);
    }
  }

  lemma {:induction false} ClosesOnBracket(s: string, i: nat, depth: nat)
    requires i <= |s| && depth > 0 && Closes(s, i, depth)
    ensures i < Close(s, i, depth) && s[Close(s, i, depth) - 1] == ')'
    decreases |s| - i
  {
    if Step(s[i], depth) > 0 {
      ClosesOnBracket(s, i + 1, Step(s[i], depth));
    }
  }

  lemma {:induction false} CloseIsLocal(s: string, t: string, i: nat, depth: nat)
    requires i <= |s| && i <= |t| && Closes(s, i, depth) && Close(s, i, depth) <= |t|
    requires forall j :: i <= j < Close(s, i, depth) ==> s[j] == t[j]
    ensures Closes(t, i, depth) && Close(t, i, depth) == Close(s, i, depth)
    decreases |s| - i
  {
    if depth > 0 {
      assert s[i] == t[i];
      CloseIsLocal(s, t, i + 1, Step(s[i], depth));
    }
  }

  lemma {:induction false} SkipTrailingTo(s: string, t: string, i: nat)
    requires i <= |s| && SkipTrailing(s, i) <= |t|
    requires forall j :: i <= j < SkipTrailing(s, i) ==> s[j] == t[j]
    requires SkipTrailing(s, i) < |t| ==> !Trailing(t[SkipTrailing(s, i)])
    ensures SkipTrailing(t, i) == SkipTrailing(s, i)
    decreases |s| - i
  {
    if i < SkipTrailing(s, i) {
      SkipTrailingTo(s, t, i + 1);
    }
  }

  lemma {:induction false} SkippedAreTrailing(s: string, i: nat, j: nat)
    requires i <= |s| && i <= j < SkipTrailing(s, i)
    ensures j < |s| && Trailing(s[j])
    decreases |s| - i
  {
    if i < j {
      SkippedAreTrailing(s, i + 1, j);
    }
  }

  // ---- A span keeps its shape whatever comes after it ----

  /** No other header starts inside the statement. */
  predicate Lone(s: string)
    requires Header(s).Some?
  {
    forall q :: 0 < q < SpanEnd(s) ==> Header(s[q..]).None?
  }

  /** What may follow: anything that is not swallowed with the statement; nothing, if it never closes. */
  predicate Follows(s: string, rest: string)
    requires Header(s).Some?
  {
    (rest == "" || !Trailing(rest[0])) && (Closed(s) || rest == "")
  }

  lemma UnclosedReachesEnd(s: string)
    requires Header(s).Some? && !Closed(s)
    ensures SpanEnd(s) == |s|
  {
    ClosesAtFirstBalance(s, Header(s).value.end, 1);
  }

  lemma HeaderStays(s: string, n: nat, rest: string)
    requires Header(s).Some? && Header(s).value.end <= n <= |s|
    ensures Header(s[..n] + rest) == Header(s)
  {
    var t, e := s[..n] + rest, Header(s).value.end;
    assert s[..e] == t[..e];
    HeaderIsLocal(s, t);
  }

  lemma SpanStays(s: string, rest: string)
    requires Header(s).Some? && Follows(s, rest)
    ensures var t := s[..SpanEnd(s)] + rest; Header(t) == Header(s) && SpanEnd(t) == SpanEnd(s)
  {
    var n, e := SpanEnd(s), Header(s).value.end;
    var t := s[..n] + rest;
    HeaderStays(s, n, rest);
    if Closed(s) {
      CloseIsLocal(s, t, e, 1);
      SkipTrailingTo(s, t, Bracket(s));
    } else {
      UnclosedReachesEnd(s);
      assert t == s;
    }
  }

  lemma HeaderStartsWithC(s: string)
    requires Header(s).Some?
    ensures UpperChar(s[0]) == 'C'
  {
    assert UpperChar(s[0 + 0]) == "CREATE"[0];
  }

  lemma HeaderEndsBeforeBracket(s: string, k: nat)
    requires Header(s).Some? && k < |s| && s[k] == ')'
    ensures Header(s).value.end <= k
  {
    HeaderShape(s);
  }

  lemma SlicesAgree(s: string, t: string, n: nat, q: nat, m: nat)
    requires n <= |s| && n <= |t| && s[..n] == t[..n] && q + m <= n
    ensures s[q..][..m] == t[q..][..m]
  {
    assert s[q..][..m] == s[..n][q..q + m];
    assert t[q..][..m] == t[..n][q..q + m];
  }

  /** A header before the closing bracket of a statement is there whatever follows the statement. */
  lemma HeaderBeforeBracket(s: string, t: string, q: nat, k: nat)
    requires q <= k < |s| && k < |t| && s[..k + 1] == t[..k + 1] && s[k] == ')' && Header(t[q..]).Some?
    ensures Header(s[q..]).Some?
  {
    var m := Header(t[q..]).value.end;
    assert t[..k + 1][k] == ')';
    HeaderEndsBeforeBracket(t[q..], k - q);
    SlicesAgree(s, t, k + 1, q, m);
    HeaderIsLocal(t[q..], s[q..]);
  }

  lemma NoHeaderAmongTrailing(s: string, q: nat)
    requires q < |s| && Trailing(s[q])
    ensures Header(s[q..]).None?
  {
    if Header(s[q..]).Some? {
      HeaderStartsWithC(s[q..]);
    }
  }

  lemma NoHeaderBeforeBracket(s: string, t: string, q: nat, k: nat)
    requires q <= k < |s| && k < |t| && s[..k + 1] == t[..k + 1] && s[k] == ')' && Header(s[q..]).None?
    ensures Header(t[q..]).None?
  {
    if Header(t[q..]).Some? {
      HeaderBeforeBracket(s, t, q, k);
    }
  }

  lemma NoHeaderInside(s: string, rest: string, q: nat)
    requires Header(s).Some? && Follows(s, rest) && 0 < q < SpanEnd(s) && Header(s[q..]).None?
    ensures Header((s[..SpanEnd(s)] + rest)[q..]).None?
  {
    var n, b := SpanEnd(s), Bracket(s);
    var t := s[..n] + rest;
    if !Closed(s) {
      UnclosedReachesEnd(s);
      assert t == s;
    } else if q < b {
      assert s[..b] == t[..b];
      ClosesOnBracket(s, Header(s).value.end, 1);
      NoHeaderBeforeBracket(s, t, q, b - 1);
    } else {
      SkippedAreTrailing(s, b, q);
      assert t[q] == s[q];
      NoHeaderAmongTrailing(t, q);
    }
  }

  // ---- Simultaneous substitution ----

  /** The statement at the start of a text is one the program rewrites. */
  predicate Rewrites(s: string, ref: Schema) {
    && Header(s).Some?
    && TableName(s) in ref
    && Strip(s[..SpanEnd(s)]) != Strip(Generated(TableName(s), ref[TableName(s)]))
  }

  function Replacement(s: string, ref: Schema): string
    requires Header(s).Some?
  {
    if Rewrites(s, ref) then Generated(TableName(s), ref[TableName(s)]) else s[..SpanEnd(s)]
  }

  /** Every due statement replaced in one pass from left to right, all other text as it is. */
  function Substituted(s: string, ref: Schema): string
    decreases |s|
  {
    if s == "" then ""
    else if Header(s).Some? then Replacement(s, ref) + Substituted(s[SpanEnd(s)..], ref)
    else [s[0]] + Substituted(s[1..], ref)
  }

  /** No statement starts inside another one. */
  predicate Disjoint(s: string) {
    forall p :: 0 <= p <= |s| && Header(s[p..]).Some? ==> Lone(s[p..])
  }

  lemma DueIsRewrites(s: string, p: nat, ref: Schema)
    requires p <= |s| && SpanAt(s, p).Some?
    ensures Due(s, SpanAt(s, p).value, ref) == Rewrites(s[p..], ref)
  {
    var m := SpanAt(s, p).value;
    assert Drop(Take(s, m.end), p) == s[p..][..SpanEnd(s[p..])];
  }

  lemma {:induction false} SpansSkip(s: string, a: nat, b: nat)
    requires a <= b <= |s| && forall p :: a <= p < b ==> SpanAt(s, p).None?
    ensures Spans(s, a) == Spans(s, b)
    decreases b - a
  {
    if a < b {
      assert SpanAt(s, a).None?;
      SpansSkip(s, a + 1, b);
    }
  }

  lemma SpansAt(s: string, p: nat)
    requires p < |s|
    ensures SpanAt(s, p).Some? ==> Spans(s, p) == [SpanAt(s, p).value] + Spans(s, After(s, p))
    ensures SpanAt(s, p).None? ==> Spans(s, p) == Spans(s, After(s, p))
  {
    var rest := Spans(s, After(s, p));
    assert [] + rest == rest;
  }

  lemma NoHeaderInHeader(t: string, k: nat, u: string)
    requires Header(t).Some? && 0 < k < Header(t).value.end && u == t[k..]
    ensures Header(u).None?
  {
    HeadersDoNotOverlap(t, k);
  }

  lemma NothingStartsInHeader(s: string, p: nat, q: nat)
    requires p < q < |s| && q < After(s, p)
    ensures SpanAt(s, q).None?
  {
    assert s[q..] == s[p..][q - p..];
    NoHeaderInHeader(s[p..], q - p, s[q..]);
  }

  /** The search misses no statement. */
  lemma {:induction false} EveryStatementIsFound(s: string, p: nat, q: nat)
    requires p <= q < |s| && SpanAt(s, q).Some?
    ensures SpanAt(s, q).value in Spans(s, p)
    decreases q - p
  {
    SpansAt(s, p);
    if p < q {
      if q < After(s, p) {
        NothingStartsInHeader(s, p, q);
      }
      EveryStatementIsFound(s, After(s, p), q);
    }
  }

  lemma NoSpanInside(s: string, p: nat, q: nat)
    requires Disjoint(s) && p < q < |s| && SpanAt(s, p).Some? && q < SpanAt(s, p).value.end
    ensures SpanAt(s, q).None?
  {
    assert Lone(s[p..]);
    assert s[p..][q - p..] == s[q..];
  }

  /** The search after a statement may as well go on behind the whole statement. */
  lemma SpansAfterStatement(s: string, p: nat)
    requires Disjoint(s) && p < |s| && SpanAt(s, p).Some?
    ensures After(s, p) <= SpanAt(s, p).value.end
    ensures Spans(s, After(s, p)) == Spans(s, SpanAt(s, p).value.end)
  {
    var e := SpanAt(s, p).value.end;
    forall q | After(s, p) <= q < e ensures SpanAt(s, q).None? {
      NoSpanInside(s, p, q);
    }
    SpansSkip(s, After(s, p), e);
  }

  lemma SubstitutedStep(s: string, p: nat, ref: Schema)
    requires p < |s|
    ensures SpanAt(s, p).None? ==> Substituted(s[p..], ref) == [s[p]] + Substituted(s[p + 1..], ref)
    ensures SpanAt(s, p).Some? ==>
              Substituted(s[p..], ref) == Replacement(s[p..], ref) + Substituted(s[SpanAt(s, p).value.end..], ref)
  {
    assert s[p..][1..] == s[p + 1..];
    if SpanAt(s, p).Some? {
      assert s[p..][SpanEnd(s[p..])..] == s[SpanAt(s, p).value.end..];
    }
  }

  lemma SpliceText(s: string, m: Span, tail: string, ddl: string)
    requires m.start <= m.end <= |s|
    ensures Splice(s[..m.end] + tail, m, ddl) == s[..m.start] + (ddl + tail)
    ensures s[..m.end] + tail == s[..m.start] + (s[m.start..m.end] + tail)
  {
    var r := s[..m.end] + tail;
    assert Take(r, m.start) == s[..m.start] && Drop(r, m.end) == tail;
  }

  lemma ReplacementAt(s: string, p: nat, ref: Schema)
    requires p < |s| && SpanAt(s, p).Some?
    ensures var m := SpanAt(s, p).value;
      Replacement(s[p..], ref) == if Due(s, m, ref) then Generated(m.name, ref[m.name]) else s[m.start..m.end]
  {
    DueIsRewrites(s, p, ref);
  }

  lemma SpansHead(s: string, p: nat)
    requires Disjoint(s) && p < |s| && SpanAt(s, p).Some?
    ensures Spans(s, p) == [SpanAt(s, p).value] + Spans(s, SpanAt(s, p).value.end)
  {
    SpansAfterStatement(s, p);
  }

  lemma SpliceBackStep(s: string, m: Span, rest: seq<Span>, ref: Schema)
    ensures var r := SpliceBack(s, rest, ref);
      SpliceBack(s, [m] + rest, ref) == if Due(s, m, ref) then Splice(r, m, Generated(m.name, ref[m.name])) else r
  {
    assert ([m] + rest)[1..] == rest;
  }

  lemma SpliceAtStatement(s: string, p: nat, ref: Schema)
    requires Disjoint(s) && p < |s| && SpanAt(s, p).Some?
    requires var e := SpanAt(s, p).value.end; SpliceBack(s, Spans(s, e), ref) == s[..e] + Substituted(s[e..], ref)
    ensures SpliceBack(s, Spans(s, p), ref) == s[..p] + Substituted(s[p..], ref)
  {
    var m := SpanAt(s, p).value;
    SubstitutedStep(s, p, ref);
    ReplacementAt(s, p, ref);
    SpansHead(s, p);
    SpliceBackStep(s, m, Spans(s, m.end), ref);
    SpliceText(s, m, Substituted(s[m.end..], ref), Replacement(s[p..], ref));
  }

  lemma CharacterJoins(s: string, p: nat, tail: string)
    requires p < |s|
    ensures s[..p + 1] + tail == s[..p] + ([s[p]] + tail)
  {
    assert s[..p + 1] == s[..p] + [s[p]];
  }

  lemma SpliceAtText(s: string, p: nat, ref: Schema)
    requires p < |s| && SpanAt(s, p).None?
    requires SpliceBack(s, Spans(s, p + 1), ref) == s[..p + 1] + Substituted(s[p + 1..], ref)
    ensures SpliceBack(s, Spans(s, p), ref) == s[..p] + Substituted(s[p..], ref)
  {
    SubstitutedStep(s, p, ref);
    SpansSkip(s, p, p + 1);
    CharacterJoins(s, p, Substituted(s[p + 1..], ref));
  }

  lemma {:induction false} SpliceFrom(s: string, p: nat, ref: Schema)
    requires Disjoint(s) && p <= |s|
    ensures SpliceBack(s, Spans(s, p), ref) == s[..p] + Substituted(s[p..], ref)
    decreases |s| - p
  {
    if p < |s| && SpanAt(s, p).None? {
      SpliceFrom(s, p + 1, ref);
      SpliceAtText(s, p, ref);
    } else if p < |s| {
      SpliceFrom(s, SpanAt(s, p).value.end, ref);
      SpliceAtStatement(s, p, ref);
    }
  }

  /** When no statement starts inside another, splicing from the last to the first is the substitution. */
  lemma SplicingIsSubstitution(s: string, ref: Schema)
    requires Disjoint(s)
    ensures SpliceBack(s, Spans(s, 0), ref) == Substituted(s, ref)
  {
    SpliceFrom(s, 0, ref);
    assert s[0..] == s;
  }

  // ---- A second run ----

  predicate IsName(s: string) {
    s != "" && forall i :: 0 <= i < |s| ==> IsWord(s[i])
  }

  /** The text is one statement for this table, from its first character to its last. */
  predicate OneStatement(name: string, ddl: string) {
    Header(ddl).Some? && TableName(ddl) == name && Lone(ddl) && Closed(ddl) && SpanEnd(ddl) == |ddl|
  }

  predicate SoundSchema(ref: Schema) {
    forall name | name in ref :: IsName(name) ==> OneStatement(name, Generated(name, ref[name]))
  }

  /** Statements may start inside this one, but they end inside it, and the program does not rewrite them. */
  predicate Quiet(s: string, ref: Schema)
    requires Header(s).Some?
  {
    forall q :: 0 < q < SpanEnd(s) && Header(s[q..]).Some? ==>
      Closed(s[q..]) && q + SpanEnd(s[q..]) < SpanEnd(s) && !Rewrites(s[q..], ref)
  }

  /** The text is a statement for this table, up to its last character, and quiet. */
  predicate QuietStatement(name: string, ddl: string, ref: Schema) {
    Header(ddl).Some? && TableName(ddl) == name && Closed(ddl) && SpanEnd(ddl) == |ddl| && Quiet(ddl, ref)
  }

  predicate QuietSchema(ref: Schema) {
    forall name | name in ref :: IsName(name) ==> QuietStatement(name, Generated(name, ref[name]), ref)
  }

  lemma SoundIsQuiet(ref: Schema)
    requires SoundSchema(ref)
    ensures QuietSchema(ref)
  {
    forall name | name in ref && IsName(name) ensures QuietStatement(name, Generated(name, ref[name]), ref) {
      assert OneStatement(name, Generated(name, ref[name]));
    }
  }

  predicate Settled(t: string, ref: Schema) {
    forall q :: 0 <= q <= |t| ==> !Rewrites(t[q..], ref)
  }

  lemma TableNameIsName(s: string)
    requires Header(s).Some?
    ensures IsName(TableName(s))
  {
    HeaderShape(s);
    var h := Header(s).value;
    forall i | 0 <= i < |TableName(s)| ensures IsWord(TableName(s)[i]) {
      assert TableName(s)[i] == s[h.nameStart + i];
    }
  }

  lemma RewritesStays(s: string, rest: string, ref: Schema)
    requires Header(s).Some? && Follows(s, rest)
    ensures Rewrites(s[..SpanEnd(s)] + rest, ref) == Rewrites(s, ref)
  {
    var n := SpanEnd(s);
    var t := s[..n] + rest;
    SpanStays(s, rest);
    assert t[..n] == s[..n];
    assert TableName(t) == t[..n][Header(s).value.nameStart..Header(s).value.nameEnd] == TableName(s);
  }

  lemma TailOfJoin(a: string, b: string, q: nat)
    requires |a| <= q <= |a| + |b|
    ensures (a + b)[q..] == b[q - |a|..]
  {
  }

  /** The text from `q` on, where a statement starts at `q` that ends before `n`. */
  lemma InnerText(s: string, rest: string, q: nat, n: nat, k: nat)
    requires q + k < n <= |s|
    ensures (s[..n] + rest)[q..] == s[q..][..k] + (s[q + k..n] + rest)
    ensures (s[q + k..n] + rest)[0] == s[q..][k]
  {
  }

  lemma NothingRewrittenInside(s: string, rest: string, q: nat, ref: Schema)
    requires Header(s).Some? && Quiet(s, ref) && Follows(s, rest) && 0 < q < SpanEnd(s)
    ensures !Rewrites((s[..SpanEnd(s)] + rest)[q..], ref)
  {
    var u, n := s[q..], SpanEnd(s);
    if Header(u).None? {
      NoHeaderInside(s, rest, q);
    } else {
      var k := SpanEnd(u);
      InnerText(s, rest, q, n, k);
      RewritesStays(u, s[q + k..n] + rest, ref);
    }
  }

  lemma StatementThenSettled(s: string, rest: string, ref: Schema)
    requires Header(s).Some? && Quiet(s, ref) && Follows(s, rest) && !Rewrites(s, ref) && Settled(rest, ref)
    ensures Settled(s[..SpanEnd(s)] + rest, ref)
  {
    var n := SpanEnd(s);
    var t := s[..n] + rest;
    RewritesStays(s, rest, ref);
    assert t[0..] == t;
    assert !Rewrites(t[0..], ref);
    forall q | 0 < q < n ensures !Rewrites(t[q..], ref) {
      NothingRewrittenInside(s, rest, q, ref);
    }
    forall q | n <= q <= |t| ensures !Rewrites(t[q..], ref) {
      TailOfJoin(s[..n], rest, q);
    }
  }

  lemma TextThenSettled(c: char, rest: string, ref: Schema)
    requires Header([c] + rest).None? && Settled(rest, ref)
    ensures Settled([c] + rest, ref)
  {
    var t := [c] + rest;
    assert t[0..] == t;
    forall q | 0 <= q <= |t| ensures !Rewrites(t[q..], ref) {
      if 0 < q {
        assert t[q..] == rest[q - 1..];
      }
    }
  }

  lemma TailIsDisjoint(s: string, k: nat)
    requires Disjoint(s) && k <= |s|
    ensures Disjoint(s[k..])
  {
    var t := s[k..];
    forall p | 0 <= p <= |t| && Header(t[p..]).Some? ensures Lone(t[p..]) {
      assert t[p..] == s[k + p..];
    }
  }

  /** The statement that stands in the new text where `s` starts with one. */
  lemma ReplacementIsSettled(s: string, ref: Schema) returns (u: string)
    requires Header(s).Some? && Lone(s) && QuietSchema(ref)
    ensures Header(u).Some? && Quiet(u, ref) && !Rewrites(u, ref)
    ensures u[..SpanEnd(u)] == Replacement(s, ref)
    ensures Closed(u) || (u == s && !Closed(s))
  {
    if Rewrites(s, ref) {
      TableNameIsName(s);
      u := Generated(TableName(s), ref[TableName(s)]);
      assert u[..|u|] == u;
    } else {
      u := s;
    }
  }

  lemma SubstitutedHead(s: string, ref: Schema)
    requires Header(s).Some? && Lone(s) && QuietSchema(ref)
    ensures Header(Substituted(s, ref)).Some?
  {
    var u := ReplacementIsSettled(s, ref);
    HeaderIsLocal(u, Substituted(s, ref));
  }

  lemma SubstitutedFollows(s: string, ref: Schema)
    requires Disjoint(s) && QuietSchema(ref) && (s == "" || !Trailing(s[0]))
    ensures var t := Substituted(s, ref); t == "" || !Trailing(t[0])
  {
    if s != "" && Header(s).Some? {
      assert s[0..] == s;
      SubstitutedHead(s, ref);
      HeaderStartsWithC(Substituted(s, ref));
    }
  }

  // ---- Text between statements ----

  /** Where the next statement starts. */
  function NextHeader(s: string): (n: nat)
    ensures n <= |s|
  {
    if s == "" || Header(s).Some? then 0 else 1 + NextHeader(s[1..])
  }

  lemma HeadJoins(s: string, n: nat, tail: string)
    requires 0 < n <= |s|
    ensures s[1..][n - 1..] == s[n..]
    ensures [s[0]] + (s[1..][..n - 1] + tail) == s[..n] + tail
  {
  }

  lemma {:induction false} TextIsKept(s: string, ref: Schema)
    ensures Substituted(s, ref) == s[..NextHeader(s)] + Substituted(s[NextHeader(s)..], ref)
    ensures NextHeader(s) == |s| || Header(s[NextHeader(s)..]).Some?
    decreases |s|
  {
    var n := NextHeader(s);
    if n == 0 {
      assert s[0..] == s;
    } else {
      TextIsKept(s[1..], ref);
      HeadJoins(s, n, Substituted(s[n..], ref));
    }
  }

  /** A header in front of another one lies wholly before it. */
  lemma HeaderInText(s: string, t: string, n: nat)
    requires 0 < n <= |s| && n <= |t| && s[..n] == t[..n] && Header(t[n..]).Some? && Header(t).Some?
    ensures Header(s).Some?
  {
    var e := Header(t).value.end;
    if n < e {
      HeadersDoNotOverlap(t, n);
    } else {
      SlicesAgree(s, t, n, 0, e);
      assert s[0..] == s && t[0..] == t;
      HeaderIsLocal(t, s);
    }
  }

  /** No header appears in front of text that had none there. */
  lemma NoNewHeader(s: string, ref: Schema)
    requires Disjoint(s) && QuietSchema(ref) && s != "" && Header(s).None?
    ensures Header(Substituted(s, ref)).None?
  {
    var t, n := Substituted(s, ref), NextHeader(s);
    TextIsKept(s, ref);
    assert t[n..] == Substituted(s[n..], ref);
    if n == |s| {
      assert t == s;
    } else if Header(t).Some? {
      TailIsDisjoint(s, n);
      assert s[n..][0..] == s[n..];
      SubstitutedHead(s[n..], ref);
      HeaderInText(s, t, n);
      assert false;
    }
  }

  lemma {:induction false} SubstitutedIsSettled(s: string, ref: Schema)
    requires Disjoint(s) && QuietSchema(ref)
    ensures Settled(Substituted(s, ref), ref)
    decreases |s|
  {
    if s == "" {
    } else if Header(s).None? {
      TailIsDisjoint(s, 1);
      SubstitutedIsSettled(s[1..], ref);
      NoNewHeader(s, ref);
      TextThenSettled(s[0], Substituted(s[1..], ref), ref);
    } else {
      assert s[0..] == s;
      var n := SpanEnd(s);
      TailIsDisjoint(s, n);
      SubstitutedIsSettled(s[n..], ref);
      SubstitutedFollows(s[n..], ref);
      var u := ReplacementIsSettled(s, ref);
      if !Closed(u) {
        UnclosedReachesEnd(s);
      }
      StatementThenSettled(u, Substituted(s[n..], ref), ref);
    }
  }

  lemma DueCountStep(s: string, m: Span, rest: seq<Span>, ref: Schema)
    ensures DueCount(s, [m] + rest, ref) == (if Due(s, m, ref) then 1 else 0) + DueCount(s, rest, ref)
  {
    assert ([m] + rest)[1..] == rest;
  }

  lemma {:induction false} NothingIsDue(t: string, p: nat, ref: Schema)
    requires Settled(t, ref) && p <= |t|
    ensures SpliceBack(t, Spans(t, p), ref) == t && DueCount(t, Spans(t, p), ref) == 0
    decreases |t| - p
  {
    if p < |t| {
      NothingIsDue(t, After(t, p), ref);
      SpansAt(t, p);
      if SpanAt(t, p).Some? {
        DueIsRewrites(t, p, ref);
        SpliceBackStep(t, SpanAt(t, p).value, Spans(t, After(t, p)), ref);
        DueCountStep(t, SpanAt(t, p).value, Spans(t, After(t, p)), ref);
      }
    }
  }

  /** A second run over the file that the program has written makes no change. */
  predicate SecondRunIsIdle(s: string, ref: Schema) {
    var t := SpliceBack(s, Spans(s, 0), ref);
    SpliceBack(t, Spans(t, 0), ref) == t && DueCount(t, Spans(t, 0), ref) == 0
  }

  /** That is so if no statement starts inside another, and the generated statements are quiet. */
  lemma SecondRunChangesNothing(s: string, ref: Schema)
    requires Disjoint(s) && QuietSchema(ref)
    ensures SecondRunIsIdle(s, ref)
  {
    SplicingIsSubstitution(s, ref);
    SubstitutedIsSettled(s, ref);
    NothingIsDue(Substituted(s, ref), 0, ref);
  }
}
