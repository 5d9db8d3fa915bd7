/** What a header is, letter by letter, without any recourse to how the search of scripts/sync_test_schema.py reads it,
    and that the search reports exactly the statements of such headers. */
module HeaderTexts {
  import opened Basics
  import opened Characters
  import opened Letters
  import opened TableHeaders
  import opened SchemaRewriter

  // ---- Headers ----

  /** Where the second and the third word of the guard start. */
  datatype Guard = Guard(notWord: nat, exists_: nat)

  /** Where the parts of a header start: `TABLE`, what comes behind it, the name, the white space behind the name, and
      the bracket. */
  datatype Cuts = Cuts(table: nat, behind: nat, guard: Option<Guard>, name: nat, nameEnd: nat, bracket: nat)

  /** The text starts with `CREATE TABLE`, perhaps `IF NOT EXISTS`, a name and an opening bracket: the words in any
      case, with white space of any length behind each of them, the name of word characters, and perhaps white space
      before the bracket. */
  predicate HeaderStands(t: string, c: Cuts) {
    && WordAndGap(t, 0, "CREATE", c.table) && WordAndGap(t, c.table, "TABLE", c.behind)
    && GuardStands(t, c.behind, c.guard, c.name) && NameStands(t, c.name, c.nameEnd, c.bracket)
  }

  predicate GuardStands(t: string, i: nat, g: Option<Guard>, j: nat) {
    if g.None? then i == j
    else
      && WordAndGap(t, i, "IF", g.value.notWord) && WordAndGap(t, g.value.notWord, "NOT", g.value.exists_)
      && WordAndGap(t, g.value.exists_, "EXISTS", j)
  }

  predicate NameStands(t: string, i: nat, e: nat, o: nat) {
    && i < e <= |t| && (forall k :: i <= k < e ==> IsWord(t[k]))
    && Blank(t, e, o) && o < |t| && t[o] == '('
  }

  // ---- Such headers are read, and only such ----

  lemma SpacedIsToken(t: string, i: nat, word: string, j: nat)
    requires Capital(word) && WordAndGap(t, i, word, j) && j < |t| && !IsSpace(t[j])
    ensures Token(t, i, word) == Some(j)
  {
    WordStandsIff(t, i, word);
    SkipSpacesTo(t, i + |word|, j);
  }

  lemma TokenIsSpaced(t: string, i: nat, word: string)
    requires Capital(word) && Token(t, i, word).Some?
    ensures WordAndGap(t, i, word, Token(t, i, word).value)
  {
    WordStandsIff(t, i, word);
    SpacesArePlain(t, i + |word|);
  }

  lemma NameIsRead(t: string, i: nat, e: nat, o: nat)
    requires NameStands(t, i, e, o)
    ensures NameAt(t, i) == Some(Head(i, e, o + 1)) && !IsSpace(t[i])
  {
    SkipWordTo(t, i, e);
    SkipSpacesTo(t, e, o);
  }

  lemma ReadIsName(t: string, i: nat)
    requires i <= |t| && NameAt(t, i).Some?
    ensures var h := NameAt(t, i).value; NameStands(t, i, h.nameEnd, h.end - 1)
  {
    NameShape(t, i);
  }

  function AfterGuard(t: string, i: nat): nat {
    if GuardAt(t, i).Some? then GuardAt(t, i).value else i
  }

  lemma GuardIsRead(t: string, i: nat, g: Option<Guard>, j: nat)
    requires GuardStands(t, i, g, j) && j < |t| && !IsSpace(t[j]) && NameAt(t, j).Some?
    ensures AfterGuard(t, i) == j && i < |t| && !IsSpace(t[i])
  {
    if g.Some? {
      var a, b := g.value.notWord, g.value.exists_;
      WordStandsIff(t, i, "IF");
      WordStandsIff(t, a, "NOT");
      WordStandsIff(t, b, "EXISTS");
      SpacedIsToken(t, i, "IF", a);
      SpacedIsToken(t, a, "NOT", b);
      SpacedIsToken(t, b, "EXISTS", j);
    } else {
      NoGuardAtName(t, i);
    }
  }

  lemma ReadIsGuard(t: string, i: nat) returns (g: Option<Guard>)
    ensures GuardStands(t, i, g, AfterGuard(t, i))
  {
    g := None;
    if GuardAt(t, i).Some? {
      var a := Token(t, i, "IF").value;
      var b := Token(t, a, "NOT").value;
      g := Some(Guard(a, b));
      TokenIsSpaced(t, i, "IF");
      TokenIsSpaced(t, a, "NOT");
      TokenIsSpaced(t, b, "EXISTS");
    }
  }

  lemma OpeningIsRead(t: string, a: nat, b: nat)
    requires WordAndGap(t, 0, "CREATE", a) && WordAndGap(t, a, "TABLE", b) && b < |t| && !IsSpace(t[b])
    ensures Opening(t) == Some(b)
  {
    WordStandsIff(t, a, "TABLE");
    SpacedIsToken(t, 0, "CREATE", a);
    SpacedIsToken(t, a, "TABLE", b);
  }

  lemma ReadIsOpening(t: string) returns (a: nat, b: nat)
    requires Opening(t).Some?
    ensures WordAndGap(t, 0, "CREATE", a) && WordAndGap(t, a, "TABLE", b) && Opening(t) == Some(b)
  {
    a := Token(t, 0, "CREATE").value;
    b := Opening(t).value;
    TokenIsSpaced(t, 0, "CREATE");
    TokenIsSpaced(t, a, "TABLE");
  }

  lemma HeaderFrom(t: string, b: nat, n: nat, head: Head)
    requires Opening(t) == Some(b) && AfterGuard(t, b) == n && n <= |t| && NameAt(t, n) == Some(head)
    ensures Header(t) == Some(head)
  {
  }

  lemma HeaderIsRead(t: string, c: Cuts)
    requires HeaderStands(t, c)
    ensures Header(t) == Some(Head(c.name, c.nameEnd, c.bracket + 1))
  {
    NameIsRead(t, c.name, c.nameEnd, c.bracket);
    GuardIsRead(t, c.behind, c.guard, c.name);
    OpeningIsRead(t, c.table, c.behind);
    HeaderFrom(t, c.behind, c.name, Head(c.name, c.nameEnd, c.bracket + 1));
  }

  lemma HeaderParts(t: string) returns (b: nat, n: nat)
    requires Header(t).Some?
    ensures Opening(t) == Some(b) && AfterGuard(t, b) == n && n <= |t| && NameAt(t, n) == Header(t)
  {
    b := Opening(t).value;
    n := AfterGuard(t, b);
  }

  lemma FrontStands(t: string, b: nat, n: nat) returns (a: nat, guard: Option<Guard>)
    requires Opening(t) == Some(b) && AfterGuard(t, b) == n
    ensures WordAndGap(t, 0, "CREATE", a) && WordAndGap(t, a, "TABLE", b) && GuardStands(t, b, guard, n)
  {
    var b';
    a, b' := ReadIsOpening(t);
    guard := ReadIsGuard(t, b);
  }

  lemma PartsAreHeader(t: string, b: nat, n: nat, h: Head) returns (c: Cuts)
    requires Opening(t) == Some(b) && AfterGuard(t, b) == n && n <= |t| && NameAt(t, n) == Some(h)
    ensures HeaderStands(t, c) && h == Head(c.name, c.nameEnd, c.bracket + 1)
  {
    var a, guard := FrontStands(t, b, n);
    ReadIsName(t, n);
    c := Cuts(a, b, guard, n, h.nameEnd, h.end - 1);
  }

  lemma ReadIsHeader(t: string) returns (c: Cuts)
    requires Header(t).Some?
    ensures HeaderStands(t, c) && Header(t) == Some(Head(c.name, c.nameEnd, c.bracket + 1))
  {
    var b, n := HeaderParts(t);
    c := PartsAreHeader(t, b, n, Header(t).value);
  }

  // ---- What the search reports ----

  /** A header stands at the start of the span, which bears its name and ends behind the first balance behind the
      bracket, and behind blanks, line ends and semicolons there. */
  predicate StatementIs(stands: (string, Cuts) -> bool, s: string, c: Cuts, m: Span) {
    m.start <= |s| && stands(s[m.start..], c) && SpanFits(s, s[m.start..], c.name, c.nameEnd, c.bracket, m)
  }

  function Standing(): (string, Cuts) -> bool {
    (t, c) => HeaderStands(t, c)
  }

  /** Such headers are read as what they are. */
  ghost predicate AreRead(stands: (string, Cuts) -> bool) {
    forall t, c :: stands(t, c) ==> Header(t) == Some(Head(c.name, c.nameEnd, c.bracket + 1))
  }

  lemma StandingAreRead()
    ensures AreRead(Standing())
  {
    forall t, c | HeaderStands(t, c) ensures Header(t) == Some(Head(c.name, c.nameEnd, c.bracket + 1)) {
      HeaderIsRead(t, c);
    }
  }

  predicate SpanFits(s: string, u: string, name: nat, nameEnd: nat, bracket: nat, m: Span) {
    && name <= nameEnd <= |u| && m.name == u[name..nameEnd]
    && m.start + bracket < |s| && EndsAt(s, Close(s, m.start + bracket + 1, 1), m.end)
  }

  const TRAILING: string := " \t\n\r;"

  /** Blanks, tabs, line ends and semicolons reach from `n` to `end` and no further. */
  predicate EndsAt(s: string, n: nat, end: nat) {
    n <= end <= |s| && (forall k :: n <= k < end ==> s[k] in TRAILING) && (end < |s| ==> s[end] !in TRAILING)
  }

  lemma {:induction false} TrailingIff(s: string, n: nat, end: nat)
    requires n <= |s|
    ensures EndsAt(s, n, end) <==> end == SkipTrailing(s, n)
    decreases |s| - n
  {
    assert n < |s| ==> (Trailing(s[n]) <==> s[n] in TRAILING);
    if n < |s| && Trailing(s[n]) {
      TrailingIff(s, n + 1, end);
    }
  }

  lemma {:induction false} SpansComeFromPositions(s: string, p: nat, m: Span)
    requires p <= |s| && m in Spans(s, p)
    ensures p <= m.start < |s| && SpanAt(s, m.start) == Some(m)
    decreases |s| - p
  {
    SpansAt(s, p);
    if SpanAt(s, p) != Some(m) {
      SpansComeFromPositions(s, After(s, p), m);
    }
  }

  lemma SpanOfHeader(s: string, p: nat, u: string, h: Head)
    requires p <= |s| && u == s[p..] && Header(u) == Some(h)
    ensures p + h.end <= |s|
    ensures SpanAt(s, p) == Some(Span(p, SkipTrailing(s, Close(s, p + h.end, 1)), u[h.nameStart..h.nameEnd]))
  {
    SpanEndShifted(s, p);
  }

  lemma SpanOfHead(s: string, u: string, h: Head, m: Span)
    requires m.start <= |s| && u == s[m.start..] && Header(u) == Some(h)
    requires SpanFits(s, u, h.nameStart, h.nameEnd, h.end - 1, m)
    ensures m.start < |s| && SpanAt(s, m.start) == Some(m)
  {
    assert m.end == SkipTrailing(s, Close(s, m.start + h.end, 1)) by {
      TrailingIff(s, Close(s, m.start + h.end, 1), m.end);
    }
    SpanOfHeader(s, m.start, u, h);
  }

  lemma StandingHasSpan(stands: (string, Cuts) -> bool, s: string, u: string, c: Cuts, m: Span)
    requires AreRead(stands) && m.start <= |s| && u == s[m.start..] && stands(u, c)
    requires SpanFits(s, u, c.name, c.nameEnd, c.bracket, m)
    ensures m.start < |s| && SpanAt(s, m.start) == Some(m)
  {
    SpanOfHead(s, u, Head(c.name, c.nameEnd, c.bracket + 1), m);
  }

  lemma SpanIsFound(s: string, m: Span)
    requires m.start < |s| && SpanAt(s, m.start) == Some(m)
    ensures m in Spans(s, 0)
  {
    EveryStatementIsFound(s, 0, m.start);
  }

  /** Wherever a header stands in a text, with anything before and behind it, the search reports its statement: this
      needs of the headers only that each is read as what it is. */
  lemma StandingHeaderIsFound(stands: (string, Cuts) -> bool, s: string, c: Cuts, m: Span)
    requires AreRead(stands) && StatementIs(stands, s, c, m)
    ensures m in Spans(s, 0)
  {
    StandingHasSpan(stands, s, s[m.start..], c, m);
    SpanIsFound(s, m);
  }

  lemma HeadOfSpan(s: string, m: Span) returns (u: string, h: Head)
    requires m.start <= |s| && SpanAt(s, m.start) == Some(m)
    ensures u == s[m.start..] && Header(u) == Some(h)
    ensures SpanFits(s, u, h.nameStart, h.nameEnd, h.end - 1, m)
  {
    u := s[m.start..];
    h := Header(u).value;
    SpanOfHeader(s, m.start, u, h);
    TrailingIff(s, Close(s, m.start + h.end, 1), m.end);
  }

  lemma SpanHasHeader(s: string, m: Span) returns (c: Cuts)
    requires m.start <= |s| && SpanAt(s, m.start) == Some(m)
    ensures StatementIs(Standing(), s, c, m)
  {
    var u, h := HeadOfSpan(s, m);
    c := HeaderOfHead(u, h);
  }

  lemma HeaderOfHead(u: string, h: Head) returns (c: Cuts)
    requires Header(u) == Some(h)
    ensures HeaderStands(u, c) && c.name == h.nameStart && c.nameEnd == h.nameEnd && c.bracket + 1 == h.end
  {
    c := ReadIsHeader(u);
  }

  /** Whatever the search reports is the statement of a header that stands there. */
  lemma FoundHeaderStands(s: string, m: Span) returns (c: Cuts)
    requires m in Spans(s, 0)
    ensures StatementIs(Standing(), s, c, m)
  {
    SpansComeFromPositions(s, 0, m);
    c := SpanHasHeader(s, m);
  }

  lemma {:induction false} SpansAscend(s: string, p: nat)
    requires p <= |s|
    ensures forall i, j :: 0 <= i < j < |Spans(s, p)| ==> Spans(s, p)[i].start < Spans(s, p)[j].start
    decreases |s| - p
  {
    if p < |s| {
      var rest := Spans(s, After(s, p));
      SpansAscend(s, After(s, p));
      SpansAt(s, p);
      forall m | m in rest ensures p < m.start {
        SpansComeFromPositions(s, After(s, p), m);
      }
      forall j | 0 <= j < |rest| ensures rest[j] in rest {
      }
    }
  }

  /** So the list that the search returns is determined: the statements of all headers that stand in the text, and no
      others, in the order in which they start. */
  lemma SearchIsExact(s: string)
    ensures forall m :: m in Spans(s, 0) <==> exists c :: StatementIs(Standing(), s, c, m)
    ensures forall i, j :: 0 <= i < j < |Spans(s, 0)| ==> Spans(s, 0)[i].start < Spans(s, 0)[j].start
  {
    forall m | m in Spans(s, 0) ensures exists c :: StatementIs(Standing(), s, c, m) {
      var c := FoundHeaderStands(s, m);
    }
    StandingAreRead();
    forall m, c | StatementIs(Standing(), s, c, m) ensures m in Spans(s, 0) {
      StandingHeaderIsFound(Standing(), s, c, m);
    }
    SpansAscend(s, 0);
  }
}
