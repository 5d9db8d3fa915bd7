/** Running the rewriter again (scripts/sync_test_schema.py): exactly for which schemas a second run is idle, and what
    further runs do for the others. */
module SchemaRuns {
  import opened Basics
  import opened Characters
  import opened TableHeaders
  import opened SchemaRewriter
  import opened SchemaStatements

  /** One run of the program over a text. */
  function Fixed(s: string, ref: Schema): string {
    SpliceBack(s, Spans(s, 0), ref)
  }

  /** No statement inside this one is one that the program rewrites. */
  predicate NothingDueInside(ddl: string, ref: Schema) {
    forall q :: 0 < q <= |ddl| ==> !Rewrites(ddl[q..], ref)
  }

  predicate BalancedBodies(ref: Schema) {
    forall name | name in ref :: IsName(name) ==> Balanced(Body(ref[name]))
  }

  predicate NothingDueInBodies(ref: Schema) {
    forall name | name in ref :: IsName(name) ==> NothingDueInside(Generated(name, ref[name]), ref)
  }

  predicate HeaderFreeBodies(ref: Schema) {
    forall name | name in ref :: IsName(name) ==> HeaderFree(Body(ref[name]))
  }

  // ---- Matched brackets suffice ----

  /** A bracket opened inside a balanced body closes inside it. */
  lemma InnerCloses(u: string, body: string, d: nat, e: nat)
    requires Balanced(body) && 0 < e && d + e <= |body| < d + |u|
    requires u[e - 1] == '(' && forall k :: 0 <= k < |body| - d ==> u[k] == body[k + d]
    ensures Closes(u, e, 1) && Close(u, e, 1) <= |body| - d
  {
    var m := |body| - d;
    ClosesAtFirstBalance(u, e, 1);
    NetShifted(u, body, e, m, d);
    NetSplits(body, 0, d + e - 1, |body|);
    NetSplits(body, d + e - 1, d + e, |body|);
    assert Net(body, 0, d + e - 1) >= 0;
    assert Net(body, d + e - 1, d + e) == 1;
  }

  /** The rest of the body, its newline and the closing bracket, seen from inside the body. */
  lemma TailOfWrap(t: string, h: nat, body: string, d: nat, u: string)
    requires Wraps(t, h, body) && d <= |body| && u == t[h + 1 + d..]
    ensures |u| == |body| - d + 3 && u[|u| - 2] == ')' && forall k :: 0 <= k < |body| - d ==> u[k] == body[k + d]
  {
    forall k | 0 <= k < |body| - d ensures u[k] == body[k + d] {
      assert body[k + d] == t[k + d + (h + 1)];
    }
  }

  lemma EndsBeforeBracket(u: string, c: nat)
    requires Header(u).Some? && Bracket(u) <= c < |u| && u[c] == ')'
    ensures SpanEnd(u) <= c
  {
    if c < SpanEnd(u) {
      SkippedAreTrailing(u, Bracket(u), c);
    }
  }

  lemma InnerSpan(t: string, name: string, body: string, q: nat, u: string)
    requires Written(t, name, body) && Balanced(body) && 0 < q <= |t| && u == t[q..] && Header(u).Some?
    ensures Closed(u) && q + SpanEnd(u) < |t|
  {
    HeaderInBody(t, name, body, q, u);
    var d := q - (30 + |name|);
    TailOfWrap(t, 29 + |name|, body, d, u);
    InnerEnd(u, body, d);
  }

  lemma InnerEnd(u: string, body: string, d: nat)
    requires Header(u).Some? && Balanced(body) && d + Header(u).value.end <= |body|
    requires |u| == |body| - d + 3 && u[|u| - 2] == ')' && forall k :: 0 <= k < |body| - d ==> u[k] == body[k + d]
    ensures Closed(u) && SpanEnd(u) < |u|
  {
    HeaderEndsOpen(u);
    InnerCloses(u, body, d, Header(u).value.end);
    EndsBeforeBracket(u, |u| - 2);
  }

  lemma HeaderEndsOpen(u: string)
    requires Header(u).Some?
    ensures u[Header(u).value.end - 1] == '('
  {
    HeaderShape(u);
  }

  lemma BalancedIsQuiet(t: string, name: string, body: string, ref: Schema)
    requires Written(t, name, body) && Balanced(body) && NothingDueInside(t, ref)
    ensures QuietStatement(name, t, ref)
  {
    BalancedCloses(t, 29 + |name|, body);
    forall q | 0 < q < SpanEnd(t) && Header(t[q..]).Some?
      ensures Closed(t[q..]) && q + SpanEnd(t[q..]) < SpanEnd(t) && !Rewrites(t[q..], ref)
    {
      InnerSpan(t, name, body, q, t[q..]);
    }
  }

  lemma BalancedSchemaIsQuiet(ref: Schema)
    requires BalancedBodies(ref) && NothingDueInBodies(ref)
    ensures QuietSchema(ref)
  {
    forall name | name in ref && IsName(name) ensures QuietStatement(name, Generated(name, ref[name]), ref) {
      StatementIsWritten(name, Body(ref[name]));
      BalancedIsQuiet(Generated(name, ref[name]), name, Body(ref[name]), ref);
    }
  }

  // ---- They are needed ----

  lemma {:induction false} DueIsCounted(t: string, ms: seq<Span>, m: Span, ref: Schema)
    requires m in ms && Due(t, m, ref)
    ensures DueCount(t, ms, ref) > 0
  {
    if ms[0] != m {
      DueIsCounted(t, ms[1..], m, ref);
    }
  }

  /** In a file that a run leaves alone no statement is one that the program rewrites. */
  lemma IdleIsSettled(t: string, ref: Schema, q: nat)
    requires DueCount(t, Spans(t, 0), ref) == 0 && q < |t|
    ensures !Rewrites(t[q..], ref)
  {
    if Rewrites(t[q..], ref) {
      EveryStatementIsFound(t, 0, q);
      DueIsRewrites(t, q, ref);
      DueIsCounted(t, Spans(t, 0), SpanAt(t, q).value, ref);
    }
  }

  lemma NoHeaderNoChange(s: string, ref: Schema)
    requires HeaderFree(s)
    ensures Substituted(s, ref) == s
  {
    TextIsKept(s, ref);
  }

  /** The statement at the start of `t`, with no other header in the text, is replaced if its text is not the one
      that is generated. */
  lemma OneStatementReplaced(t: string, name: string, ref: Schema)
    requires Header(t).Some? && TableName(t) == name && name in ref
    requires forall q :: 0 < q <= |t| ==> Header(t[q..]).None?
    ensures Strip(t[..SpanEnd(t)]) != Strip(Generated(name, ref[name])) ==>
              Fixed(t, ref) == Generated(name, ref[name]) + t[SpanEnd(t)..] && DueCount(t, Spans(t, 0), ref) > 0
  {
    var e := SpanEnd(t);
    assert t[0..] == t;
    assert Disjoint(t);
    forall q | 0 <= q <= |t[e..]| ensures Header(t[e..][q..]).None? {
      assert t[e..][q..] == t[e + q..];
    }
    NoHeaderNoChange(t[e..], ref);
    SplicingIsSubstitution(t, ref);
    if Rewrites(t, ref) && DueCount(t, Spans(t, 0), ref) == 0 {
      IdleIsSettled(t, ref, 0);
    }
  }

  /** A file that the program turns into the statement of this table and one letter: an empty table and the letter. */
  function EmptyTable(name: string): string {
    Statement(name, "") + "x"
  }

  lemma EmptyTableText(name: string, d: string, s: string)
    requires IsName(name) && d == Statement(name, "") && s == d + "x"
    ensures Header(s).Some? && TableName(s) == name && SpanEnd(s) == |d| && Disjoint(s)
    ensures forall q :: 0 < q <= |s| ==> Header(s[q..]).None?
  {
    assert Balanced("") && HeaderFree("") by {
      NoLetterCNoHeader("");
    }
    StatementIsWritten(name, "");
    SoundBody(d, name, "");
    NoLetterCNoHeader("x");
    OneStatementOnly(d, name, "", "x", s);
    HeaderOfJoin(d, "x");
    assert d[..|d|] == d;
    SpanStays(d, "x");
  }

  lemma EmptyTableIsFixed(name: string, ref: Schema)
    requires IsName(name) && name in ref && Body(ref[name]) != ""
    ensures Disjoint(EmptyTable(name)) && Fixed(EmptyTable(name), ref) == Generated(name, ref[name]) + "x"
  {
    var d, s := Statement(name, ""), EmptyTable(name);
    EmptyTableText(name, d, s);
    StripsToItself(name, "");
    StripsToItself(name, Body(ref[name]));
    assert s[..|d|] == d && s[|d|..] == "x";
    assert |d| != |Generated(name, ref[name])|;
    OneStatementReplaced(s, name, ref);
  }

  /** If the statement is read back to its own end before other text, its brackets are matched. */
  lemma ReadBackIsBalanced(d: string, name: string, body: string, t: string)
    requires Written(d, name, body) && t == d + "x"
    requires Header(t) == Header(d) && SpanEnd(t) == |d|
    ensures Balanced(body)
  {
    var h := Header(d).value.end;
    if !Closed(t) {
      UnclosedReachesEnd(t);
    }
    CloseIsLocal(t, d, h, 1);
    SkipTrailingTo(t, d, Bracket(t));
    ClosesOnlyBalanced(d, 29 + |name|, body);
  }

  lemma OtherEndOtherText(d: string, t: string, e: nat)
    requires t == d + "x" && e <= |t| && e != |d| && Strip(d) == d && Strip(t) == t
    ensures Strip(t[..e]) != d
  {
    assert t[..|t|] == t;
    assert |Strip(t[..e])| <= e;
  }

  lemma UnbalancedReadsOtherText(name: string, body: string)
    requires IsName(name) && !Balanced(body)
    ensures var d := Statement(name, body);
      Header(d + "x").Some? && TableName(d + "x") == name
      && SpanEnd(d + "x") != |d| && Strip((d + "x")[..SpanEnd(d + "x")]) != Strip(d)
  {
    var d := Statement(name, body);
    var t := d + "x";
    StatementIsWritten(name, body);
    HeaderOfJoin(d, "x");
    if SpanEnd(t) == |d| {
      ReadBackIsBalanced(d, name, body, t);
    }
    StripsToItself(name, body);
    NothingToStrip(name, body, "x");
    OtherEndOtherText(d, t, SpanEnd(t));
  }

  /** Brackets that do not match make the second run write. */
  lemma UnbalancedIsNotIdle(name: string, ref: Schema)
    requires IsName(name) && name in ref && !Balanced(Body(ref[name]))
    ensures Disjoint(EmptyTable(name)) && !SecondRunIsIdle(EmptyTable(name), ref)
  {
    assert Body(ref[name]) != "";
    EmptyTableIsFixed(name, ref);
    UnbalancedReadsOtherText(name, Body(ref[name]));
    var t := Generated(name, ref[name]) + "x";
    assert t[0..] == t;
    if SecondRunIsIdle(EmptyTable(name), ref) {
      IdleIsSettled(t, ref, 0);
    }
  }

  /** So does a statement inside a generated one that is itself due. */
  lemma DueInsideIsNotIdle(name: string, ref: Schema, q: nat)
    requires IsName(name) && name in ref && Balanced(Body(ref[name]))
    requires var d := Generated(name, ref[name]); 0 < q <= |d| && Rewrites(d[q..], ref)
    ensures Disjoint(EmptyTable(name)) && !SecondRunIsIdle(EmptyTable(name), ref)
  {
    var d := Generated(name, ref[name]);
    StatementIsWritten(name, Body(ref[name]));
    InnerSpan(d, name, Body(ref[name]), q, d[q..]);
    HeaderInBody(d, name, Body(ref[name]), q, d[q..]);
    EmptyTableIsFixed(name, ref);
    InnerStaysDue(d, d + "x", d[q..], q, ref);
    if SecondRunIsIdle(EmptyTable(name), ref) {
      IdleIsSettled(d + "x", ref, q);
    }
  }

  lemma InnerStaysDue(d: string, t: string, u: string, q: nat, ref: Schema)
    requires t == d + "x" && q <= |d| && u == d[q..] && Rewrites(u, ref) && Closed(u) && q + SpanEnd(u) < |d|
    ensures Rewrites(t[q..], ref)
  {
    var k := SpanEnd(u);
    var rest := d[q + k..] + "x";
    InnerTail(d, t, q, k);
    StaysDue(u, rest, t[q..], ref);
  }

  lemma InnerTail(d: string, t: string, q: nat, k: nat)
    requires t == d + "x" && q + k < |d|
    ensures t[q..] == d[q..][..k] + (d[q + k..] + "x") && (d[q + k..] + "x")[0] == d[q..][k]
  {
  }

  lemma StaysDue(u: string, rest: string, v: string, ref: Schema)
    requires Rewrites(u, ref) && Follows(u, rest) && v == u[..SpanEnd(u)] + rest
    ensures Rewrites(v, ref)
  {
    RewritesStays(u, rest, ref);
  }

  /** The exact condition: over every file without nested statements the second run is idle, if and only if the body
      of every table has matched brackets and no statement that starts inside a generated one is itself due. */
  lemma SecondRunIsIdleIff(ref: Schema)
    ensures (forall s | Disjoint(s) :: SecondRunIsIdle(s, ref)) <==> BalancedBodies(ref) && NothingDueInBodies(ref)
  {
    if BalancedBodies(ref) && NothingDueInBodies(ref) {
      BalancedSchemaIsQuiet(ref);
      forall s | Disjoint(s) ensures SecondRunIsIdle(s, ref) {
        SecondRunChangesNothing(s, ref);
      }
    }
    if forall s | Disjoint(s) :: SecondRunIsIdle(s, ref) {
      forall name | name in ref && IsName(name)
        ensures Balanced(Body(ref[name])) && NothingDueInside(Generated(name, ref[name]), ref)
      {
        IdleNeedsBoth(name, ref);
      }
    }
  }

  lemma IdleNeedsBoth(name: string, ref: Schema)
    requires IsName(name) && name in ref && forall s | Disjoint(s) :: SecondRunIsIdle(s, ref)
    ensures Balanced(Body(ref[name])) && NothingDueInside(Generated(name, ref[name]), ref)
  {
    if !Balanced(Body(ref[name])) {
      UnbalancedIsNotIdle(name, ref);
    }
    forall q | 0 < q <= |Generated(name, ref[name])| ensures !Rewrites(Generated(name, ref[name])[q..], ref) {
      if Rewrites(Generated(name, ref[name])[q..], ref) {
        DueInsideIsNotIdle(name, ref, q);
      }
    }
  }

  // ---- Bodies without headers ----

  /** A statement whose body has no header, in front of text that has none: what the next run makes of it. */
  lemma NextRunOverStatement(name: string, ref: Schema, rest: string, t: string)
    requires IsName(name) && name in ref && HeaderFree(Body(ref[name])) && HeaderFree(rest)
    requires t == Generated(name, ref[name]) + rest
    ensures Header(t).Some? && TableName(t) == name && Header(t) == Header(Generated(name, ref[name]))
    ensures Strip(t[..SpanEnd(t)]) != Generated(name, ref[name]) ==>
              Fixed(t, ref) == Generated(name, ref[name]) + t[SpanEnd(t)..] && DueCount(t, Spans(t, 0), ref) > 0
  {
    var d := Generated(name, ref[name]);
    StatementIsWritten(name, Body(ref[name]));
    OneStatementOnly(d, name, Body(ref[name]), rest, t);
    HeaderOfJoin(d, rest);
    StripsToItself(name, Body(ref[name]));
    OneStatementReplaced(t, name, ref);
  }

  /** Without headers in its body, a table whose brackets do not match makes the second run change the text. */
  lemma UnbalancedChangesText(name: string, ref: Schema)
    requires IsName(name) && name in ref && HeaderFree(Body(ref[name])) && !Balanced(Body(ref[name]))
    ensures var s := EmptyTable(name); Disjoint(s) && Fixed(Fixed(s, ref), ref) != Fixed(s, ref)
  {
    var d := Generated(name, ref[name]);
    assert Body(ref[name]) != "";
    EmptyTableIsFixed(name, ref);
    UnbalancedReadsOtherText(name, Body(ref[name]));
    StripsToItself(name, Body(ref[name]));
    NoLetterCNoHeader("x");
    NextRunOverStatement(name, ref, "x", d + "x");
    assert |Fixed(d + "x", ref)| == |d| + (|d| + 1 - SpanEnd(d + "x"));
  }

  /** When no body has a header in it, matched brackets alone decide, and they decide about the text. */
  lemma SecondRunKeepsTextIff(ref: Schema)
    requires HeaderFreeBodies(ref)
    ensures (forall s | Disjoint(s) :: Fixed(Fixed(s, ref), ref) == Fixed(s, ref)) <==> BalancedBodies(ref)
    ensures (forall s | Disjoint(s) :: SecondRunIsIdle(s, ref)) <==> BalancedBodies(ref)
  {
    if BalancedBodies(ref) {
      SoundSchemaIff(ref);
      SoundIsQuiet(ref);
      forall s | Disjoint(s) ensures SecondRunIsIdle(s, ref) {
        SecondRunChangesNothing(s, ref);
      }
    } else {
      var name :| name in ref && IsName(name) && !Balanced(Body(ref[name]));
      UnbalancedChangesText(name, ref);
    }
  }

  // ---- Brackets that close too early ----

  /** A body that somewhere has closed more brackets than it has opened. */
  predicate Overclosed(body: string) {
    exists j :: 0 <= j <= |body| && Net(body, 0, j) < 0
  }

  /** Brackets fail to match in one of two ways. */
  lemma UnbalancedIff(body: string)
    ensures !Balanced(body) <==> Unclosed(body) || Overclosed(body)
    ensures !(Unclosed(body) && Overclosed(body))
  {
  }

  /** Its statement is read back short of its closing bracket. */
  lemma OverclosedIsReadShort(d: string, name: string, body: string)
    requires Written(d, name, body) && Overclosed(body)
    ensures Closed(d) && SpanEnd(d) < |d| - 1
  {
    var h, c := 29 + |name|, |d| - 2;
    var j :| 0 <= j <= |body| && Net(body, 0, j) < 0;
    NetInside(d, h, body, j);
    ClosesAtFirstBalance(d, h, 1);
    EndsBeforeBracket(d, c);
  }

  lemma ShortSpanStays(d: string, rest: string, t: string, e: nat)
    requires Header(d).Some? && Closed(d) && e == SpanEnd(d) < |d| && t == d + rest
    ensures Header(t) == Header(d) && SpanEnd(t) == e && t[..e] == d[..e] && t[e..] == d[e..] + rest
  {
    assert d[..e] + (d[e..] + rest) == t;
    SpanStays(d, d[e..] + rest);
  }

  /** What the statement leaves over has no header, nor has it with header-free text behind. */
  lemma LeftOverIsPlain(d: string, name: string, body: string, rest: string, e: nat)
    requires Written(d, name, body) && HeaderFree(body) && HeaderFree(rest) && 0 < e <= |d|
    ensures HeaderFree(d[e..] + rest)
  {
    var t, u := d + rest, d[e..] + rest;
    OneStatementOnly(d, name, body, rest, t);
    assert u == t[e..];
    forall q | 0 <= q <= |u| ensures Header(u[q..]).None? {
      assert u[q..] == t[e + q..];
    }
  }

  /** The next run writes the whole statement in front of what it left over: the file grows. */
  lemma NextRunRepeatsTheTail(name: string, ref: Schema, rest: string)
    requires IsName(name) && name in ref && HeaderFree(rest)
    requires Overclosed(Body(ref[name])) && HeaderFree(Body(ref[name]))
    ensures var d := Generated(name, ref[name]);
      && Header(d).Some? && 0 < SpanEnd(d) < |d|
      && Fixed(d + rest, ref) == d + (d[SpanEnd(d)..] + rest)
      && DueCount(d + rest, Spans(d + rest, 0), ref) > 0
      && HeaderFree(d[SpanEnd(d)..] + rest)
  {
    var d := Generated(name, ref[name]);
    var e := (StatementIsWritten(name, Body(ref[name])); SpanEnd(d));
    OverclosedIsReadShort(d, name, Body(ref[name]));
    ShortSpanStays(d, rest, d + rest, e);
    LeftOverIsPlain(d, name, Body(ref[name]), rest, e);
    NextRunOverStatement(name, ref, rest, d + rest);
    assert |Strip(d[..e])| <= e;
  }

  function Runs(s: string, ref: Schema, n: nat): string
    decreases n
  {
    if n == 0 then s else Runs(Fixed(s, ref), ref, n - 1)
  }

  function Times(n: nat, tail: string): (r: string)
    ensures |r| == n * |tail|
  {
    if n == 0 then "" else Times(n - 1, tail) + tail
  }

  lemma TimesJoin(n: nat, tail: string, rest: string)
    requires n > 0
    ensures Times(n - 1, tail) + (tail + rest) == Times(n, tail) + rest
  {
  }

  /** A run over this text, with any plain text behind it, puts the tail in between. */
  ghost predicate Repeats(d: string, tail: string, ref: Schema) {
    forall rest :: HeaderFree(rest) ==> Fixed(d + rest, ref) == d + (tail + rest) && HeaderFree(tail + rest)
  }

  lemma {:induction false} RepeatedRuns(d: string, tail: string, ref: Schema, rest: string, n: nat)
    requires Repeats(d, tail, ref) && HeaderFree(rest)
    ensures Runs(d + rest, ref, n) == d + (Times(n, tail) + rest)
    decreases n
  {
    if n == 0 {
      assert "" + rest == rest;
    } else {
      RepeatedRuns(d, tail, ref, tail + rest, n - 1);
      TimesJoin(n, tail, rest);
    }
  }

  /** So every further run adds the same piece once more. */
  lemma EveryRunAddsTheTail(name: string, ref: Schema, rest: string, n: nat)
    requires IsName(name) && name in ref && HeaderFree(rest)
    requires Overclosed(Body(ref[name])) && HeaderFree(Body(ref[name]))
    ensures var d := Generated(name, ref[name]);
      && Header(d).Some? && 0 < SpanEnd(d) < |d|
      && Runs(d + rest, ref, n) == d + (Times(n, d[SpanEnd(d)..]) + rest)
  {
    var d := Generated(name, ref[name]);
    NextRunRepeatsTheTail(name, ref, rest);
    var tail := d[SpanEnd(d)..];
    forall r | HeaderFree(r) ensures Fixed(d + r, ref) == d + (tail + r) && HeaderFree(tail + r) {
      NextRunRepeatsTheTail(name, ref, r);
    }
    RepeatedRuns(d, tail, ref, rest, n);
  }

  lemma FirstBracketCloses(s: string, p: nat)
    requires p < |s| && s[p] == ')' && forall k :: 0 <= k < p ==> Weight(s[k]) == 0
    ensures Overclosed(s)
  {
    NoBracketNoNet(s, 0, p);
    NetSplits(s, 0, p, p + 1);
    assert Net(s, 0, p + 1) == -1;
  }

  /** A text column whose default is a closing bracket in quotes. */
  function OverclosedColumn(): Column {
    Column("x", "text", false, Some("')'"), 0)
  }

  lemma OverclosedColumnText()
    ensures Definition(OverclosedColumn()) == "    x TEXT DEFAULT ')'"
  {
    assert Upper("text") == "TEXT";
    assert Quoted("')'") == "')'";
  }

  /** Its statement closes too early and has no header inside. */
  lemma OverclosedColumnCloses()
    ensures Overclosed(Body([OverclosedColumn()])) && HeaderFree(Body([OverclosedColumn()]))
  {
    var s := Definition(OverclosedColumn());
    OverclosedColumnText();
    assert Body([OverclosedColumn()]) == s;
    FirstBracketCloses(s, 20);
    NoLetterCNoHeader(s);
  }

  // ---- Nested statements ----

  lemma OneMoreSemicolon(d: string, t: string)
    requires Header(d).Some? && Closed(d) && SpanEnd(d) == |d| && t == d + ";"
    ensures Header(t).Some? && TableName(t) == TableName(d) && SpanEnd(t) == |t|
  {
    var h := Header(d).value.end;
    HeaderOfJoin(d, ";");
    CloseIsLocal(d, t, h, 1);
    var e := SpanEnd(t);
    if e < |d| {
      SkippedAreTrailing(d, Bracket(d), e);
    }
  }

  /** That no statement starts inside another is needed: over a file with an unclosed statement in front of another,
      whose new text is one character longer than the old one, the first run leaves a semicolon behind, and the second
      run removes it. */
  lemma NestedStatementsTakeTwoRuns(a: string, open: string, b: string, body: string, ref: Schema)
    requires IsName(a) && IsName(b) && Unclosed(open) && HeaderFree(open) && Balanced(body) && HeaderFree(body)
    requires a in ref && Statement(a, open) + Statement(b, body) != Generated(a, ref[a])
    requires b in ref && |Generated(b, ref[b])| == |Statement(b, body)| + 1 && QuietSchema(ref)
    ensures var s := Statement(a, open) + Statement(b, body);
      Fixed(s, ref) == Generated(a, ref[a]) + ";" && !SecondRunIsIdle(s, ref)
  {
    var d, e, ga, gb := Statement(a, open), Statement(b, body), Generated(a, ref[a]), Generated(b, ref[b]);
    var s := d + e;
    NestedStatementsAreFound(a, open, b, body);
    NestedAreDue(a, open, b, body, ref);
    FixedNested(s, Span(0, |s|, a), Span(|d|, |s|, b), ref);
    StatementWraps(b, Body(ref[b]));
    NestedSpliceText(d, e, ga, gb, s);
    SemicolonIsDue(a, ref, ga + ";");
    if SecondRunIsIdle(s, ref) {
      IdleIsSettled(ga + ";", ref, 0);
    }
  }

  lemma FixedNested(s: string, outer: Span, inner: Span, ref: Schema)
    requires Spans(s, 0) == [outer, inner] && Due(s, outer, ref) && Due(s, inner, ref)
    ensures Fixed(s, ref)
         == Splice(Splice(s, inner, Generated(inner.name, ref[inner.name])), outer, Generated(outer.name, ref[outer.name]))
  {
    SpliceBackStep(s, inner, [], ref);
    SpliceBackStep(s, outer, [inner], ref);
    assert [outer] + [inner] == [outer, inner] && [inner] + [] == [inner];
  }

  lemma NestedSpliceText(d: string, e: string, ga: string, gb: string, s: string)
    requires s == d + e && |gb| == |e| + 1 && gb[|gb| - 1] == ';'
    ensures Splice(Splice(s, Span(|d|, |s|, ""), gb), Span(0, |s|, ""), ga) == ga + ";"
  {
    assert Splice(s, Span(|d|, |s|, ""), gb) == d + gb;
    assert (d + gb)[|s|..] == ";";
  }

  lemma SemicolonIsDue(a: string, ref: Schema, t: string)
    requires a in ref && IsName(a) && QuietStatement(a, Generated(a, ref[a]), ref) && t == Generated(a, ref[a]) + ";"
    ensures Rewrites(t[0..], ref)
  {
    OneMoreSemicolon(Generated(a, ref[a]), t);
    NothingToStrip(a, Body(ref[a]), ";");
    StripsToItself(a, Body(ref[a]));
    assert t[0..] == t && t[..|t|] == t;
  }
}
