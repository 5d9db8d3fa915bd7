/** The statement that `_generate_create_table` writes (scripts/sync_test_schema.py), and exactly when a later run
    reads it back as one statement. */
module SchemaStatements {
  import opened Basics
  import opened Characters
  import opened TableHeaders
  import opened SchemaRewriter

  function Joined(definitions: seq<string>): string {
    if definitions == [] then ""
    else if |definitions| == 1 then definitions[0]
    else definitions[0] + ",\n" + Joined(definitions[1..])
  }

  lemma {:induction false} BodyIsJoined(columns: seq<Column>, definitions: seq<string>)
    requires |definitions| == |columns| && forall i :: 0 <= i < |columns| ==> definitions[i] == Definition(columns[i])
    ensures Joined(definitions) == Body(columns)
  {
    if |columns| > 1 {
      BodyIsJoined(columns[1..], definitions[1..]);
    }
  }

  /** The parts of one column, joined with spaces. */
  method ColumnLine(c: Column) returns (line: string)
    ensures line == Definition(c)
  {
    line := "    " + c.name + " " + Upper(c.kind);
    assert line + "" == line;
    if c.notNull && c.pk == 0 {
      line := line + " NOT NULL";
    }
    assert line + "" == line;
    if c.preset.Some? {
      line := line + (" DEFAULT " + Quoted(c.preset.value));
    }
  }

  method GenerateCreateTable(tableName: string, columns: seq<Column>) returns (ddl: string)
    ensures ddl == Generated(tableName, columns)
  {
    var colDefs: seq<string> := [];
    for i := 0 to |columns|
      invariant |colDefs| == i && forall k :: 0 <= k < i ==> colDefs[k] == Definition(columns[k])
    {
      var line := ColumnLine(columns[i]);
      colDefs := colDefs + [line];
    }
    BodyIsJoined(columns, colDefs);
    ddl := Statement(tableName, Joined(colDefs));
  }

  // ---- The header of a generated statement ----

  lemma TokenThere(s: string, i: nat, word: string)
    requires WordAt(s, i, word) && i + |word| + 1 < |s| && s[i + |word|] == ' ' && !IsSpace(s[i + |word| + 1])
    ensures Token(s, i, word) == Some(i + |word| + 1)
  {
    SkipSpacesTo(s, i + |word|, i + |word| + 1);
  }

  /** The words of the header, and the spaces after them. */
  predicate Opened(t: string) {
    && |t| > 27
    && WordAt(t, 0, "CREATE") && t[6] == ' ' && WordAt(t, 7, "TABLE") && t[12] == ' '
    && WordAt(t, 13, "IF") && t[15] == ' ' && WordAt(t, 16, "NOT") && t[19] == ' '
    && WordAt(t, 20, "EXISTS") && t[26] == ' '
    && !IsSpace(t[7]) && !IsSpace(t[13]) && !IsSpace(t[16]) && !IsSpace(t[20])
  }

  lemma SpacedWord(t: string, p: string, i: nat, word: string, rest: string)
    requires |p| <= |t| && t[..|p|] == p && i <= |p| && p[i..] == Spaced(word, rest)
    requires word != "" && forall j :: 0 <= j < |word| ==> UpperChar(word[j]) == word[j] && !IsSpace(word[j])
    ensures WordAt(t, i, word) && t[i + |word|] == ' ' && !IsSpace(t[i])
    ensures i + |word| + 1 <= |p| && p[i + |word| + 1..] == rest
  {
    forall j | 0 <= j <= |word| ensures t[i + j] == Spaced(word, rest)[j] {
      assert t[i + j] == t[..|p|][i + j] == p[i..][j];
    }
    assert p[i + |word| + 1..] == p[i..][|word| + 1..];
    assert t[i + 0] == word[0];
    forall j | 0 <= j < |word| ensures UpperChar(t[i + j]) == word[j] {
      assert t[i + j] == Spaced(word, rest)[j];
    }
    assert t[i + |word|] == Spaced(word, rest)[|word|];
  }

  lemma FirstWords(t: string, p: string, rest: string)
    requires |p| <= |t| && t[..|p|] == p && p == Spaced("CREATE", Spaced("TABLE", rest))
    ensures |p| >= 13 && p[13..] == rest && WordAt(t, 0, "CREATE") && t[6] == ' '
    ensures WordAt(t, 7, "TABLE") && t[12] == ' ' && !IsSpace(t[7])
  {
    assert p[0..] == p;
    SpacedWord(t, p, 0, "CREATE", Spaced("TABLE", rest));
    SpacedWord(t, p, 7, "TABLE", rest);
  }

  lemma GuardWords(t: string, p: string)
    requires |p| <= |t| && t[..|p|] == p && |p| == 27
    requires p[13..] == Spaced("IF", Spaced("NOT", Spaced("EXISTS", "")))
    ensures WordAt(t, 13, "IF") && t[15] == ' ' && WordAt(t, 16, "NOT") && t[19] == ' '
    ensures WordAt(t, 20, "EXISTS") && t[26] == ' ' && !IsSpace(t[13]) && !IsSpace(t[16]) && !IsSpace(t[20])
  {
    SpacedWord(t, p, 13, "IF", Spaced("NOT", Spaced("EXISTS", "")));
    SpacedWord(t, p, 16, "NOT", Spaced("EXISTS", ""));
    SpacedWord(t, p, 20, "EXISTS", "");
  }

  lemma PrefixOpens(t: string)
    requires |t| > 27 && t[..27] == Preamble()
    ensures Opened(t)
  {
    FirstWords(t, Preamble(), Spaced("IF", Spaced("NOT", Spaced("EXISTS", ""))));
    GuardWords(t, Preamble());
  }

  lemma HeaderFromWords(t: string, e: nat)
    requires Opened(t) && 27 < e && e + 1 < |t| && t[e] == ' ' && t[e + 1] == '('
    requires forall j :: 27 <= j < e ==> IsWord(t[j])
    ensures Header(t) == Some(Head(27, e, e + 2))
  {
    assert IsWord(t[27]);
    TokenThere(t, 0, "CREATE");
    TokenThere(t, 7, "TABLE");
    TokenThere(t, 13, "IF");
    TokenThere(t, 16, "NOT");
    TokenThere(t, 20, "EXISTS");
    SkipWordTo(t, 27, e);
    SkipSpacesTo(t, e, e + 1);
  }

  lemma StatementHeader(name: string, body: string)
    requires IsName(name)
    ensures Header(Statement(name, body)) == Some(Head(27, 27 + |name|, 29 + |name|))
  {
    var t, e := Statement(name, body), 27 + |name|;
    assert t[..27] == Preamble();
    PrefixOpens(t);
    forall j | 27 <= j < e ensures IsWord(t[j]) {
      assert t[j] == name[j - 27];
    }
    HeaderFromWords(t, e);
  }

  /** The text from `h` on is a newline, the body, and the end of a generated statement. */
  predicate Wraps(t: string, h: nat, body: string) {
    && |t| == h + |body| + 4
    && t[h] == '\n' && t[h + |body| + 1] == '\n' && t[h + |body| + 2] == ')' && t[h + |body| + 3] == ';'
    && forall j :: 0 <= j < |body| ==> body[j] == t[j + (h + 1)]
  }

  lemma StatementWraps(name: string, body: string)
    ensures Wraps(Statement(name, body), 29 + |name|, body)
  {
  }

  /** What the proofs below use of the text of a generated statement. */
  predicate Written(t: string, name: string, body: string) {
    Header(t) == Some(Head(27, 27 + |name|, 29 + |name|)) && TableName(t) == name && Wraps(t, 29 + |name|, body)
  }

  lemma StatementIsWritten(name: string, body: string)
    requires IsName(name)
    ensures Written(Statement(name, body), name, body)
  {
    StatementHeader(name, body);
    StatementWraps(name, body);
    assert Statement(name, body)[27..27 + |name|] == name;
  }

  // ---- When it is one statement ----

  /** Every bracket of the text is matched inside it. */
  predicate Balanced(s: string) {
    (forall j :: 0 <= j <= |s| ==> Net(s, 0, j) >= 0) && Net(s, 0, |s|) == 0
  }

  predicate HeaderFree(s: string) {
    forall q :: 0 <= q <= |s| ==> Header(s[q..]).None?
  }

  lemma {:induction false} NetSplits(s: string, i: nat, k: nat, j: nat)
    requires i <= k <= j <= |s|
    ensures Net(s, i, j) == Net(s, i, k) + Net(s, k, j)
    decreases k - i
  {
    if i < k {
      NetSplits(s, i + 1, k, j);
    }
  }

  lemma {:induction false} NetShifted(s: string, t: string, i: nat, j: nat, d: nat)
    requires i <= j <= |s| && j + d <= |t| && forall k :: i <= k < j ==> s[k] == t[k + d]
    ensures Net(s, i, j) == Net(t, i + d, j + d)
    decreases j - i
  {
    if i < j {
      NetShifted(s, t, i + 1, j, d);
    }
  }

  /** The depth inside the brackets is that inside the body. */
  lemma NetInside(t: string, h: nat, body: string, j: nat)
    requires Wraps(t, h, body) && j <= |body|
    ensures Net(t, h, h + 1 + j) == Net(body, 0, j)
  {
    NetShifted(body, t, 0, j, h + 1);
  }

  lemma NetBehind(t: string, h: nat, body: string)
    requires Wraps(t, h, body)
    ensures Net(t, h, h + |body| + 2) == Net(body, 0, |body|)
    ensures Net(t, h, h + |body| + 3) == Net(t, h, h + |body| + 4) == Net(body, 0, |body|) - 1
  {
    var c := h + |body| + 2;
    NetInside(t, h, body, |body|);
    NetSplits(t, h, c - 1, c);
    NetSplits(t, h, c, c + 1);
    NetSplits(t, h, c + 1, c + 2);
  }

  lemma BalancedCloses(t: string, h: nat, body: string)
    requires Wraps(t, h, body) && Balanced(body)
    ensures Closes(t, h, 1) && SkipTrailing(t, Close(t, h, 1)) == |t|
  {
    var c := h + |body| + 2;
    NetBehind(t, h, body);
    forall j | h <= j < c + 1 ensures 1 + Net(t, h, j) > 0 {
      if h < j < c {
        NetInside(t, h, body, j - h - 1);
        assert Net(body, 0, j - h - 1) >= 0;
      }
    }
    FirstBalanceCloses(t, h, 1, c + 1);
  }

  lemma ClosesOnlyBalanced(t: string, h: nat, body: string)
    requires Wraps(t, h, body) && Closes(t, h, 1) && SkipTrailing(t, Close(t, h, 1)) == |t|
    ensures Balanced(body)
  {
    var c, n := h + |body| + 2, Close(t, h, 1);
    NetBehind(t, h, body);
    ClosesOnBracket(t, h, 1);
    if n <= c {
      SkippedAreTrailing(t, n, c);
      assert false;
    }
    assert n == c + 1;
    ClosesAtFirstBalance(t, h, 1);
    forall j | 0 <= j <= |body| ensures Net(body, 0, j) >= 0 {
      NetInside(t, h, body, j);
      assert 1 + Net(t, h, h + 1 + j) > 0;
    }
  }

  /** A text that is the same in two places has its headers in both. */
  lemma HeaderMoves(s: string, t: string, d: nat)
    requires Header(s).Some? && d + Header(s).value.end <= |t|
    requires forall j :: 0 <= j < Header(s).value.end ==> s[j] == t[d + j]
    ensures Header(t[d..]).Some?
  {
    assert s[..Header(s).value.end] == t[d..][..Header(s).value.end];
    HeaderIsLocal(s, t[d..]);
  }

  /** A header in a generated statement, other than its own, starts and ends in the body. */
  lemma HeaderInBody(t: string, name: string, body: string, q: nat, u: string)
    requires Written(t, name, body) && 0 < q <= |t| && u == t[q..] && Header(u).Some?
    ensures 30 + |name| <= q && q + Header(u).value.end <= 30 + |name| + |body|
  {
    var h, c := 29 + |name|, 31 + |name| + |body|;
    HeaderStartsWithC(u);
    if q < h {
      HeadersDoNotOverlap(t, q);
    } else {
      assert h < q < c - 1;
      HeaderShape(u);
      HeaderEndsBeforeBracket(u, c - q);
      assert u[c - 1 - q] == '\n';
    }
  }

  lemma NoHeaderInStatement(t: string, name: string, body: string, q: nat)
    requires Written(t, name, body) && HeaderFree(body) && 0 < q <= |t|
    ensures Header(t[q..]).None?
  {
    var u := t[q..];
    if Header(u).Some? {
      HeaderInBody(t, name, body, q, u);
      HeaderMoves(u, body, q - (30 + |name|));
    }
  }

  lemma PartIsThere(t: string, body: string, d: nat, k: nat, n: nat)
    requires k + n <= |body| && d + |body| <= |t| && forall j :: 0 <= j < |body| ==> body[j] == t[d + j]
    ensures forall j :: 0 <= j < n ==> body[k..][j] == t[d + k + j]
  {
    forall j | 0 <= j < n ensures body[k..][j] == t[d + k + j] {
      assert body[k + j] == t[d + (k + j)];
    }
  }

  lemma HeaderOfPart(t: string, body: string, d: nat, k: nat)
    requires k <= |body| && d + |body| <= |t| && Header(body[k..]).Some?
    requires forall j :: 0 <= j < |body| ==> body[j] == t[d + j]
    ensures Header(t[d + k..]).Some?
  {
    PartIsThere(t, body, d, k, Header(body[k..]).value.end);
    HeaderMoves(body[k..], t, d + k);
  }

  lemma SoundBody(t: string, name: string, body: string)
    requires Written(t, name, body) && Balanced(body) && HeaderFree(body)
    ensures OneStatement(name, t)
  {
    BalancedCloses(t, 29 + |name|, body);
    forall q | 0 < q < SpanEnd(t) ensures Header(t[q..]).None? {
      NoHeaderInStatement(t, name, body, q);
    }
  }

  lemma BodyHasNoHeader(t: string, name: string, body: string, k: nat)
    requires Written(t, name, body) && OneStatement(name, t) && k <= |body|
    ensures Header(body[k..]).None?
  {
    if Header(body[k..]).Some? {
      HeaderOfPart(t, body, 30 + |name|, k);
    }
  }

  lemma WholeStatementIsSound(t: string, name: string, body: string)
    requires Written(t, name, body) && OneStatement(name, t)
    ensures Balanced(body) && HeaderFree(body)
  {
    ClosesOnlyBalanced(t, 29 + |name|, body);
    forall k | 0 <= k <= |body| ensures Header(body[k..]).None? {
      BodyHasNoHeader(t, name, body, k);
    }
  }

  /** A generated statement is read back whole exactly when its body has matched brackets and no header of its
      own. */
  lemma OneStatementIff(name: string, body: string)
    requires IsName(name)
    ensures OneStatement(name, Statement(name, body)) <==> Balanced(body) && HeaderFree(body)
  {
    var t := Statement(name, body);
    StatementIsWritten(name, body);
    if Balanced(body) && HeaderFree(body) {
      SoundBody(t, name, body);
    }
    if OneStatement(name, t) {
      WholeStatementIsSound(t, name, body);
    }
  }

  /** A schema is sound exactly when the body of every table has matched brackets and no header. */
  lemma SoundSchemaIff(ref: Schema)
    ensures SoundSchema(ref) <==>
            forall name | name in ref :: IsName(name) ==> Balanced(Body(ref[name])) && HeaderFree(Body(ref[name]))
  {
    forall name | name in ref && IsName(name)
      ensures OneStatement(name, Generated(name, ref[name]))
              <==> Balanced(Body(ref[name])) && HeaderFree(Body(ref[name]))
    {
      OneStatementIff(name, Body(ref[name]));
    }
  }

  lemma BalancedJoin(a: string, b: string)
    requires Balanced(a) && Balanced(b)
    ensures Balanced(a + b)
  {
    var s := a + b;
    NetShifted(a, s, 0, |a|, 0);
    forall j | 0 <= j <= |s| ensures Net(s, 0, j) >= 0 && (j == |s| ==> Net(s, 0, j) == 0) {
      if j <= |a| {
        NetShifted(a, s, 0, j, 0);
        assert Net(a, 0, j) >= 0;
      }
      if j >= |a| {
        NetSplits(s, 0, |a|, j);
        NetShifted(b, s, 0, j - |a|, |a|);
        assert Net(b, 0, j - |a|) >= 0;
      }
    }
  }

  /** Matched brackets in every column are matched brackets in the body. */
  lemma {:induction false} BodyIsBalanced(columns: seq<Column>)
    requires forall i :: 0 <= i < |columns| ==> Balanced(Definition(columns[i]))
    ensures Balanced(Body(columns))
  {
    if |columns| > 1 {
      BodyIsBalanced(columns[1..]);
      assert Balanced(",\n") by {
        assert Net(",\n", 0, 0) == Net(",\n", 0, 1) == Net(",\n", 0, 2) == 0;
      }
      BalancedJoin(Definition(columns[0]), ",\n");
      BalancedJoin(Definition(columns[0]) + ",\n", Body(columns[1..]));
    }
  }

  // ---- Where the program goes wrong ----

  /** Inside an unclosed statement the depth stays above zero. */
  lemma DepthStaysUp(t: string, h: nat, body: string, j: nat)
    requires forall i :: 0 <= i <= |body| ==> Net(body, 0, i) >= 0
    requires Net(body, 0, |body|) > 0 && Wraps(t, h, body) && h <= j <= |t|
    ensures 1 + Net(t, h, j) > 0
  {
    var c := h + |body| + 2;
    NetBehind(t, h, body);
    if h < j < c {
      NetInside(t, h, body, j - h - 1);
      assert Net(body, 0, j - h - 1) >= 0;
    }
  }

  lemma NetOfJoin(d: string, rest: string, h: nat, n: nat)
    requires h <= |d| && h <= n <= |d| + |rest|
    ensures Net(d + rest, h, n)
         == if n <= |d| then Net(d, h, n) else Net(d, h, |d|) + Net(rest, 0, n - |d|)
  {
    var t := d + rest;
    if n <= |d| {
      NetShifted(d, t, h, n, 0);
    } else {
      NetSplits(t, h, |d|, n);
      NetShifted(d, t, h, |d|, 0);
      NetShifted(rest, t, 0, n - |d|, |d|);
    }
  }

  lemma NeverCloses(d: string, rest: string, h: nat)
    requires h <= |d| && forall j :: h <= j <= |d| ==> 1 + Net(d, h, j) > 0
    requires forall j :: 0 <= j <= |rest| ==> 1 + Net(d, h, |d|) + Net(rest, 0, j) > 0
    ensures !Closes(d + rest, h, 1)
  {
    var n := Close(d + rest, h, 1);
    ClosesAtFirstBalance(d + rest, h, 1);
    NetOfJoin(d, rest, h, n);
    assert n <= |d| ==> 1 + Net(d, h, n) > 0;
    assert n > |d| ==> 1 + Net(d, h, |d|) + Net(rest, 0, n - |d|) > 0;
  }

  /** A body that opens more brackets than it closes. */
  predicate Unclosed(body: string) {
    (forall j :: 0 <= j <= |body| ==> Net(body, 0, j) >= 0) && Net(body, 0, |body|) > 0
  }

  /** Text that closes fewer brackets than the body has left open. */
  predicate LeavesOpen(body: string, rest: string) {
    forall j :: 0 <= j <= |rest| ==> Net(body, 0, |body|) + Net(rest, 0, j) > 0
  }

  lemma WrapStaysOpen(d: string, h: nat, body: string, rest: string)
    requires Wraps(d, h, body) && Unclosed(body) && LeavesOpen(body, rest)
    ensures !Closes(d + rest, h, 1)
  {
    NetBehind(d, h, body);
    forall j | h <= j <= |d| ensures 1 + Net(d, h, j) > 0 {
      DepthStaysUp(d, h, body, j);
    }
    NeverCloses(d, rest, h);
  }

  lemma HeaderOfJoin(d: string, rest: string)
    requires Header(d).Some?
    ensures Header(d + rest) == Header(d) && TableName(d + rest) == TableName(d)
  {
    var h := Header(d).value;
    var t := d + rest;
    assert d[..h.end] == t[..h.end];
    HeaderIsLocal(d, t);
    assert t[h.nameStart..h.nameEnd] == d[h.nameStart..h.nameEnd];
  }

  lemma OpenSpan(d: string, rest: string, t: string)
    requires Header(d).Some? && t == d + rest && !Closes(t, Header(d).value.end, 1)
    ensures Header(t).Some? && TableName(t) == TableName(d) && SpanEnd(t) == |t|
  {
    HeaderOfJoin(d, rest);
    UnclosedReachesEnd(t);
  }

  /** A statement that never closes takes in all that follows it while its brackets stay open. */
  lemma UnclosedStatementTakesTheRest(d: string, name: string, body: string, rest: string, t: string)
    requires Written(d, name, body) && Unclosed(body) && LeavesOpen(body, rest) && t == d + rest
    ensures Header(t).Some? && TableName(t) == name && SpanEnd(t) == |t|
  {
    WrapStaysOpen(d, 29 + |name|, body, rest);
    OpenSpan(d, rest, t);
  }

  /** No header but the first one, if neither the body nor what follows has one. */
  lemma OnlyHeader(d: string, name: string, body: string, t: string, q: nat)
    requires Written(d, name, body) && HeaderFree(body) && 0 < q < |d| <= |t| && t[..|d|] == d
    ensures Header(t[q..]).None?
  {
    var c := |d| - 2;
    assert forall k :: 0 <= k < |d| ==> t[..|d|][k] == t[k];
    NoHeaderInStatement(d, name, body, q);
    if q <= c {
      assert d[..c + 1] == t[..c + 1];
      NoHeaderBeforeBracket(d, t, q, c);
    } else {
      assert t[q] == ';';
      NoHeaderAmongTrailing(t, q);
    }
  }

  lemma TextBehind(d: string, rest: string, q: nat)
    requires |d| <= q <= |d| + |rest|
    ensures (d + rest)[q..] == rest[q - |d|..]
  {
  }

  lemma OneStatementOnly(d: string, name: string, body: string, rest: string, t: string)
    requires Written(d, name, body) && HeaderFree(body) && HeaderFree(rest) && t == d + rest
    ensures Disjoint(t) && forall q :: 0 < q <= |t| ==> Header(t[q..]).None?
  {
    forall q | 0 < q <= |t| ensures Header(t[q..]).None? {
      if q < |d| {
        assert t[..|d|] == d;
        OnlyHeader(d, name, body, t, q);
      } else {
        TextBehind(d, rest, q);
      }
    }
    assert t[0..] == t;
  }

  /** A text from a letter to something that is no white space. */
  lemma NothingToStrip(name: string, body: string, rest: string)
    requires rest == "" || !IsSpace(rest[|rest| - 1])
    ensures Strip(Statement(name, body) + rest) == Statement(name, body) + rest
  {
    var t := Statement(name, body) + rest;
    StatementWraps(name, body);
    assert t[0] == 'C';
    assert t[|t| - 1] == if rest == "" then ';' else rest[|rest| - 1];
  }

  /** The second run then overwrites what follows: of the statement and the text behind it only the statement is
      left. */
  lemma NextRunLosesTheRest(name: string, ref: Schema, rest: string)
    requires IsName(name) && name in ref
    requires var body := Body(ref[name]); Unclosed(body) && HeaderFree(body) && LeavesOpen(body, rest)
    requires rest != "" && HeaderFree(rest) && !IsSpace(rest[|rest| - 1])
    ensures var ddl := Generated(name, ref[name]);
      SpliceBack(ddl + rest, Spans(ddl + rest, 0), ref) == ddl
      && DueCount(ddl + rest, Spans(ddl + rest, 0), ref) == 1
  {
    var body := Body(ref[name]);
    var ddl := Statement(name, body);
    var t := ddl + rest;
    StatementIsWritten(name, body);
    UnclosedStatementTakesTheRest(ddl, name, body, rest, t);
    OneStatementOnly(ddl, name, body, rest, t);
    NothingToStrip(name, body, rest);
    NothingToStrip(name, body, "");
    assert ddl + "" == ddl;
    SplicingIsSubstitution(t, ref);
    WholeTextReplaced(t, ref, name);
    OneDueStatement(t, ref);
  }

  lemma WholeTextReplaced(t: string, ref: Schema, name: string)
    requires Header(t).Some? && SpanEnd(t) == |t| && TableName(t) == name && name in ref
    requires Strip(t) != Strip(Generated(name, ref[name]))
    ensures Rewrites(t, ref) && Substituted(t, ref) == Generated(name, ref[name])
  {
    assert t[..|t|] == t && t[|t|..] == "";
    assert Generated(name, ref[name]) + "" == Generated(name, ref[name]);
  }

  lemma OneDueStatement(t: string, ref: Schema)
    requires Header(t).Some? && SpanEnd(t) == |t| && Disjoint(t) && Rewrites(t, ref)
    ensures DueCount(t, Spans(t, 0), ref) == 1
  {
    assert t[0..] == t;
    SpansHead(t, 0);
    DueIsRewrites(t, 0, ref);
    DueCountStep(t, SpanAt(t, 0).value, [], ref);
  }

  // ---- A column that does it ----

  /** A text column whose default is an opening bracket in quotes. */
  function OpenColumn(): Column {
    Column("x", "text", false, Some("'('"), 0)
  }

  lemma {:induction false} NoBracketNoNet(s: string, i: nat, j: nat)
    requires i <= j <= |s| && forall k :: i <= k < j ==> Weight(s[k]) == 0
    ensures Net(s, i, j) == 0
    decreases j - i
  {
    if i < j {
      NoBracketNoNet(s, i + 1, j);
    }
  }

  /** One bracket, which opens. */
  lemma OneBracketIsUnclosed(s: string, p: nat)
    requires p < |s| && s[p] == '(' && forall k :: 0 <= k < |s| && k != p ==> Weight(s[k]) == 0
    ensures Unclosed(s)
  {
    forall j | 0 <= j <= |s| ensures Net(s, 0, j) == if j <= p then 0 else 1 {
      if j <= p {
        NoBracketNoNet(s, 0, j);
      } else {
        NoBracketNoNet(s, 0, p);
        NoBracketNoNet(s, p + 1, j);
        NetSplits(s, 0, p, j);
      }
    }
  }

  lemma NoLetterCNoHeader(s: string)
    requires forall k :: 0 <= k < |s| ==> UpperChar(s[k]) != 'C'
    ensures HeaderFree(s)
  {
    forall q | 0 <= q <= |s| ensures Header(s[q..]).None? {
      assert q < |s| ==> s[q..][0] == s[q];
      if Header(s[q..]).Some? {
        HeaderStartsWithC(s[q..]);
      }
    }
  }

  lemma OpenColumnText()
    ensures Definition(OpenColumn()) == "    x TEXT DEFAULT '('"
  {
    assert Upper("text") == "TEXT";
    assert Quoted("'('") == "'('";
  }

  /** Its statement is unclosed and has no header inside. */
  lemma OpenColumnIsUnclosed()
    ensures Unclosed(Body([OpenColumn()])) && HeaderFree(Body([OpenColumn()]))
  {
    var s := Definition(OpenColumn());
    OpenColumnText();
    assert Body([OpenColumn()]) == s;
    OneBracketIsUnclosed(s, 20);
    NoLetterCNoHeader(s);
  }

  lemma NestedText(s: string, outer: Span, inner: Span, a: string, b: string)
    requires outer.start < inner.start <= inner.end <= outer.end <= |s|
    ensures Splice(Splice(s, inner, b), outer, a) == Splice(s, outer, a)
            <==> |b| == inner.end - inner.start || (|b| < inner.end - inner.start && outer.end == |s|)
  {
    var r := Splice(s, inner, b);
    var x, y := Drop(r, outer.end), Drop(s, outer.end);
    assert Take(r, outer.start) == Take(s, outer.start);
    assert Splice(r, outer, a)[outer.start + |a|..] == x && Splice(s, outer, a)[outer.start + |a|..] == y;
    if |b| == inner.end - inner.start {
      assert x == y;
    }
  }

  /** Two due statements, one inside the other: the splice of the inner one moves the text under the outer one's
      end. The result is that of the outer splice alone exactly when the inner text keeps its length, or shrinks
      with nothing after the outer statement. */
  lemma NestedSplices(s: string, outer: Span, inner: Span, ref: Schema)
    requires outer.start < inner.start <= inner.end <= outer.end <= |s|
    requires Due(s, outer, ref) && Due(s, inner, ref)
    ensures SpliceBack(s, [outer, inner], ref) == Splice(s, outer, Generated(outer.name, ref[outer.name]))
            <==> var k := |Generated(inner.name, ref[inner.name])|;
                 k == inner.end - inner.start || (k < inner.end - inner.start && outer.end == |s|)
  {
    SpliceBackStep(s, inner, [], ref);
    SpliceBackStep(s, outer, [inner], ref);
    assert [outer] + [inner] == [outer, inner] && [inner] + [] == [inner];
    NestedText(s, outer, inner, Generated(outer.name, ref[outer.name]), Generated(inner.name, ref[inner.name]));
  }

  // ---- A file with nested statements ----

  predicate NoBracket(s: string) {
    forall k :: 0 <= k < |s| ==> Weight(s[k]) == 0
  }

  lemma SpacedHasNoBracket(word: string, rest: string)
    requires NoBracket(word) && NoBracket(rest)
    ensures NoBracket(Spaced(word, rest))
  {
  }

  lemma PreambleHasNoBracket()
    ensures NoBracket(Preamble())
  {
    SpacedHasNoBracket("EXISTS", "");
    SpacedHasNoBracket("NOT", Spaced("EXISTS", ""));
    SpacedHasNoBracket("IF", Spaced("NOT", Spaced("EXISTS", "")));
    SpacedHasNoBracket("TABLE", Spaced("IF", Spaced("NOT", Spaced("EXISTS", ""))));
    SpacedHasNoBracket("CREATE", Spaced("TABLE", Spaced("IF", Spaced("NOT", Spaced("EXISTS", "")))));
  }

  /** The header of a generated statement opens one bracket, at its end. */
  predicate OpensAt(d: string, h: nat) {
    0 < h <= |d| && d[h - 1] == '(' && forall k :: 0 <= k < h - 1 ==> Weight(d[k]) == 0
  }

  lemma StatementOpens(name: string, body: string)
    requires IsName(name)
    ensures OpensAt(Statement(name, body), 29 + |name|)
  {
    var d, p := Statement(name, body), Preamble();
    PreambleHasNoBracket();
    forall k | 0 <= k < 28 + |name| ensures Weight(d[k]) == 0 {
      assert d[k] == if k < 27 then p[k] else if k < 27 + |name| then name[k - 27] else ' ';
    }
  }

  lemma WrapIsBalanced(d: string, h: nat, body: string)
    requires OpensAt(d, h) && Wraps(d, h, body) && Balanced(body)
    ensures Balanced(d)
  {
    NetBehind(d, h, body);
    forall j | 0 <= j <= |d| ensures Net(d, 0, j) >= 0 && (j == |d| ==> Net(d, 0, j) == 0) {
      if j < h {
        NoBracketNoNet(d, 0, j);
      } else {
        NoBracketNoNet(d, 0, h - 1);
        NetSplits(d, 0, h - 1, j);
        if h < j < h + |body| + 2 {
          NetInside(d, h, body, j - h - 1);
          assert Net(body, 0, j - h - 1) >= 0;
        }
      }
    }
  }

  lemma StatementLeavesOpen(open: string, name: string, body: string)
    requires Unclosed(open) && IsName(name) && Balanced(body)
    ensures LeavesOpen(open, Statement(name, body))
  {
    var d := Statement(name, body);
    StatementOpens(name, body);
    StatementWraps(name, body);
    WrapIsBalanced(d, 29 + |name|, body);
    assert forall j :: 0 <= j <= |d| ==> Net(d, 0, j) >= 0;
  }

  /** What the search finds from the first statement on, when nothing but the second one follows. */
  lemma TwoSpans(s: string, m: Span, n: Span)
    requires n.start < |s| && SpanAt(s, 0) == Some(m) && SpanAt(s, n.start) == Some(n) && m.start < n.start
    requires forall q :: 0 < q < |s| && q != n.start ==> SpanAt(s, q).None?
    ensures Spans(s, 0) == [m, n]
  {
    var p := n.start;
    SpansAt(s, 0);
    SpansAt(s, p);
    if p < After(s, 0) {
      NothingStartsInHeader(s, 0, p);
    }
    SpansSkip(s, After(s, 0), p);
    SpansSkip(s, After(s, p), |s|);
  }

  lemma WholeSpan(t: string, name: string)
    requires Header(t).Some? && TableName(t) == name && SpanEnd(t) == |t|
    ensures SpanAt(t, 0) == Some(Span(0, |t|, name))
  {
    assert t[0..] == t;
  }

  lemma LastSpan(s: string, p: nat, e: string, name: string)
    requires p <= |s| && s[p..] == e && OneStatement(name, e)
    ensures SpanAt(s, p) == Some(Span(p, p + |e|, name))
  {
  }

  lemma NoOtherSpan(d: string, a: string, open: string, e: string, s: string, q: nat)
    requires Written(d, a, open) && HeaderFree(open) && Header(e).Some? && SpanEnd(e) == |e| && Lone(e)
    requires s == d + e && 0 < q < |s| && q != |d|
    ensures SpanAt(s, q).None?
  {
    if q < |d| {
      assert s[..|d|] == d;
      OnlyHeader(d, a, open, s, q);
    } else {
      TextBehind(d, e, q);
    }
  }

  lemma NoOtherSpans(d: string, a: string, open: string, e: string, s: string)
    requires Written(d, a, open) && HeaderFree(open) && Header(e).Some? && SpanEnd(e) == |e| && Lone(e) && s == d + e
    ensures forall q :: 0 < q < |s| && q != |d| ==> SpanAt(s, q).None?
  {
    forall q | 0 < q < |s| && q != |d| ensures SpanAt(s, q).None? {
      NoOtherSpan(d, a, open, e, s, q);
    }
  }

  lemma JoinTail(d: string, e: string)
    ensures (d + e)[|d|..] == e
  {
  }

  lemma SecondSpan(d: string, e: string, b: string, s: string)
    requires OneStatement(b, e) && s == d + e
    ensures SpanAt(s, |d|) == Some(Span(|d|, |s|, b))
  {
    JoinTail(d, e);
    LastSpan(s, |d|, e, b);
  }

  /** A file of two statements, of which the first one is unclosed: both are found, the second inside the first. */
  lemma NestedStatementsAreFound(a: string, open: string, b: string, body: string)
    requires IsName(a) && IsName(b) && Unclosed(open) && HeaderFree(open) && Balanced(body) && HeaderFree(body)
    ensures var s, p := Statement(a, open) + Statement(b, body), |Statement(a, open)|;
      Spans(s, 0) == [Span(0, |s|, a), Span(p, |s|, b)]
  {
    var d, e := Statement(a, open), Statement(b, body);
    StatementIsWritten(a, open);
    StatementIsWritten(b, body);
    StatementLeavesOpen(open, b, body);
    SoundBody(e, b, body);
    SpansOfJoin(d, a, open, b, e, d + e);
  }

  lemma SpansOfJoin(d: string, a: string, open: string, b: string, e: string, s: string)
    requires Written(d, a, open) && Unclosed(open) && LeavesOpen(open, e) && HeaderFree(open)
    requires OneStatement(b, e) && s == d + e
    ensures Spans(s, 0) == [Span(0, |s|, a), Span(|d|, |s|, b)]
  {
    UnclosedStatementTakesTheRest(d, a, open, e, s);
    WholeSpan(s, a);
    SecondSpan(d, e, b, s);
    NoOtherSpans(d, a, open, e, s);
    TwoSpans(s, Span(0, |s|, a), Span(|d|, |s|, b));
  }

  /** On such a file, where both statements are due, the program writes what rewriting the first one gives if and
      only if the new second statement is no longer than the old one; else a piece of it stays behind. */
  lemma NestedStatementsSpliceIff(a: string, open: string, b: string, body: string, ref: Schema)
    requires IsName(a) && IsName(b) && Unclosed(open) && HeaderFree(open) && Balanced(body) && HeaderFree(body)
    requires a in ref && Statement(a, open) + Statement(b, body) != Generated(a, ref[a])
    requires b in ref && Statement(b, body) != Generated(b, ref[b])
    ensures var s := Statement(a, open) + Statement(b, body);
      SpliceBack(s, Spans(s, 0), ref) == Generated(a, ref[a])
      <==> |Generated(b, ref[b])| <= |Statement(b, body)|
  {
    var d, e := Statement(a, open), Statement(b, body);
    var s := d + e;
    var outer, inner := Span(0, |s|, a), Span(|d|, |s|, b);
    NestedStatementsAreFound(a, open, b, body);
    NestedAreDue(a, open, b, body, ref);
    NestedSplices(s, outer, inner, ref);
    assert Splice(s, outer, Generated(a, ref[a])) == Generated(a, ref[a]);
  }

  lemma NestedAreDue(a: string, open: string, b: string, body: string, ref: Schema)
    requires a in ref && Statement(a, open) + Statement(b, body) != Generated(a, ref[a])
    requires b in ref && Statement(b, body) != Generated(b, ref[b])
    ensures var s, p := Statement(a, open) + Statement(b, body), |Statement(a, open)|;
      Due(s, Span(0, |s|, a), ref) && Due(s, Span(p, |s|, b), ref)
  {
    var d, e := Statement(a, open), Statement(b, body);
    StatementWraps(b, body);
    NothingToStrip(a, open, e);
    StripsToItself(b, body);
    StripsToItself(a, Body(ref[a]));
    StripsToItself(b, Body(ref[b]));
    assert (d + e)[..|d + e|][0..] == d + e && (d + e)[..|d + e|][|d|..] == e;
  }

  lemma StripsToItself(name: string, body: string)
    ensures Strip(Statement(name, body)) == Statement(name, body)
  {
    NothingToStrip(name, body, "");
    assert Statement(name, body) + "" == Statement(name, body);
  }

  // ---- What a definition keeps of a column ----

  predicate OnlyDigits(v: string) {
    forall i :: 0 <= i < |v| ==> IsDigit(v[i])
  }

  predicate OnlyDigitsAndDots(v: string) {
    forall i :: 0 <= i < |v| ==> IsDigit(v[i]) || v[i] == '.'
  }

  lemma {:induction false} DotsDropped(v: string)
    ensures OnlyDigits(WithoutDots(v)) <==> OnlyDigitsAndDots(v)
    ensures WithoutDots(v) == "" <==> forall i :: 0 <= i < |v| ==> v[i] == '.'
  {
    if v != "" {
      var rest := WithoutDots(v[1..]);
      DotsDropped(v[1..]);
      assert OnlyDigitsAndDots(v) <==> (IsDigit(v[0]) || v[0] == '.') && OnlyDigitsAndDots(v[1..]) by {
        assert forall i :: 0 < i < |v| ==> v[i] == v[1..][i - 1];
        assert forall i :: 0 <= i < |v[1..]| ==> v[1..][i] == v[i + 1];
      }
      assert (forall i :: 0 <= i < |v| ==> v[i] == '.') <==> v[0] == '.' && forall i :: 0 <= i < |v[1..]| ==> v[1..][i] == '.' by {
        assert forall i :: 0 < i < |v| ==> v[i] == v[1..][i - 1];
        assert forall i :: 0 <= i < |v[1..]| ==> v[1..][i] == v[i + 1];
      }
      if v[0] == '.' {
        assert WithoutDots(v) == rest;
      } else {
        assert WithoutDots(v) == [v[0]] + rest;
        DigitThenDigits(v[0], rest);
      }
    }
  }

  lemma DigitThenDigits(c: char, rest: string)
    ensures OnlyDigits([c] + rest) <==> IsDigit(c) && OnlyDigits(rest)
  {
    var s := [c] + rest;
    assert s[0] == c;
    assert forall i :: 0 <= i < |rest| ==> rest[i] == s[i + 1];
  }

  /** Digits and dots, with one digit at least. */
  predicate IsNumeral(v: string) {
    OnlyDigitsAndDots(v) && exists i :: 0 <= i < |v| && IsDigit(v[i])
  }

  /** A default is written as it is exactly when it starts with a quote or is a numeral; anything else is put in quotes,
      so that an expression becomes a text. */
  lemma DefaultIsQuotedIff(v: string)
    ensures var kept := (v != "" && (v[0] == '\'' || v[0] == '"')) || IsNumeral(v);
      Quoted(v) == if kept then v else "'" + v + "'"
  {
    DotsDropped(v);
    if AllDigits(v) {
      assert IsDigit(v[0]);
    }
    if OnlyDigitsAndDots(v) && WithoutDots(v) != "" {
      var i :| 0 <= i < |v| && v[i] != '.';
      assert IsDigit(v[i]);
    }
  }

  /** The column, but neither a key nor, if it was one, bound to have a value. */
  function WithoutKey(c: Column): Column {
    if c.pk > 0 then Column(c.name, c.kind, false, c.preset, 0) else c
  }

  /** The generated statement is the same whether or not the columns are keys: of the primary key nothing is left. */
  lemma {:induction false} PrimaryKeyIsLost(name: string, columns: seq<Column>, others: seq<Column>)
    requires |columns| == |others| && forall i :: 0 <= i < |columns| ==> others[i] == WithoutKey(columns[i])
    ensures Generated(name, columns) == Generated(name, others) && Body(columns) == Body(others)
  {
    if columns != [] {
      assert Definition(columns[0]) == Definition(others[0]);
      PrimaryKeyIsLost(name, columns[1..], others[1..]);
    }
  }

  /** Two columns with names and one-word types have the same definition exactly when they agree in name, in type but
      for case, in whether `NOT NULL` is due, and in the default as it is written. */
  lemma DefinitionKeepsIff(c: Column, d: Column)
    requires ' ' !in c.name && ' ' !in d.name && ' ' !in c.kind && ' ' !in d.kind
    ensures Definition(c) == Definition(d)
            <==> c.name == d.name && Upper(c.kind) == Upper(d.kind)
                 && (c.notNull && c.pk == 0 <==> d.notNull && d.pk == 0)
                 && c.preset.Some? == d.preset.Some?
                 && (c.preset.Some? ==> Quoted(c.preset.value) == Quoted(d.preset.value))
  {
    DefinitionText(c);
    DefinitionText(d);
    if Definition(c) == Definition(d) {
      SameFirstWord("    ", c.name, Rest(c), d.name, Rest(d));
      UpperHasNoSpace(c.kind);
      UpperHasNoSpace(d.kind);
      SameSecondWord(c, d);
      SameOptions(c, d);
    }
  }

  /** What follows the name. */
  function Rest(c: Column): string {
    " " + (Upper(c.kind) + Options(c))
  }

  function Options(c: Column): string {
    (if c.notNull && c.pk == 0 then " NOT NULL" else "") + Default(c)
  }

  function Default(c: Column): string {
    if c.preset.Some? then " DEFAULT " + Quoted(c.preset.value) else ""
  }

  lemma DefinitionText(c: Column)
    ensures Definition(c) == "    " + (c.name + Rest(c))
  {
    JoinFive("    ", c.name, Upper(c.kind), if c.notNull && c.pk == 0 then " NOT NULL" else "", Default(c));
  }

  lemma JoinFive(a: string, b: string, c: string, d: string, e: string)
    ensures a + b + " " + c + d + e == a + (b + (" " + (c + (d + e))))
  {
  }

  lemma NoLongerWord(a: string, r: string, b: string, q: string)
    requires a + r == b + q && ' ' !in b && (r == "" || r[0] == ' ')
    ensures |b| <= |a|
  {
    assert forall k :: 0 <= k < |b| ==> (b + q)[k] == b[k];
    assert r != "" ==> (a + r)[|a|] == r[0];
  }

  /** Words without spaces that end at a space or at the end of the text are the same if the texts are. */
  lemma SameFirstWord(front: string, a: string, r: string, b: string, q: string)
    requires front + (a + r) == front + (b + q) && ' ' !in a && ' ' !in b
    requires (r == "" || r[0] == ' ') && (q == "" || q[0] == ' ')
    ensures a == b && r == q
  {
    var s, t := a + r, b + q;
    assert s == (front + s)[|front|..] && t == (front + t)[|front|..];
    NoLongerWord(a, r, b, q);
    NoLongerWord(b, q, a, r);
    assert a == s[..|a|] && b == t[..|b|] && r == s[|a|..] && q == t[|b|..];
  }

  lemma UpperHasNoSpace(s: string)
    requires ' ' !in s
    ensures ' ' !in Upper(s)
  {
    forall i | 0 <= i < |s| ensures Upper(s)[i] != ' ' {
      assert s[i] in s;
    }
  }

  lemma OptionsStart(c: Column)
    ensures Options(c) == "" || Options(c)[0] == ' '
    ensures Options(c) != "" ==> |Options(c)| > 8 && (Options(c)[1] == 'N' <==> c.notNull && c.pk == 0)
    ensures !(c.notNull && c.pk == 0) ==> Options(c) == Default(c)
    ensures c.notNull && c.pk == 0 ==> Options(c) == " NOT NULL" + Default(c)
  {
  }

  lemma SameSecondWord(c: Column, d: Column)
    requires Rest(c) == Rest(d) && ' ' !in Upper(c.kind) && ' ' !in Upper(d.kind)
    ensures Upper(c.kind) == Upper(d.kind) && Options(c) == Options(d)
  {
    OptionsStart(c);
    OptionsStart(d);
    SameFirstWord(" ", Upper(c.kind), Options(c), Upper(d.kind), Options(d));
  }

  lemma SameTails(front: string, a: string, b: string)
    requires front + a == front + b
    ensures a == b
  {
    assert a == (front + a)[|front|..] && b == (front + b)[|front|..];
  }

  lemma SameOptions(c: Column, d: Column)
    requires Options(c) == Options(d)
    ensures c.notNull && c.pk == 0 <==> d.notNull && d.pk == 0
    ensures c.preset.Some? == d.preset.Some?
    ensures c.preset.Some? ==> Quoted(c.preset.value) == Quoted(d.preset.value)
  {
    OptionsStart(c);
    OptionsStart(d);
    if c.notNull && c.pk == 0 && d.notNull && d.pk == 0 {
      SameTails(" NOT NULL", Default(c), Default(d));
    }
    if Default(c) == Default(d) && c.preset.Some? && d.preset.Some? {
      SameTails(" DEFAULT ", Quoted(c.preset.value), Quoted(d.preset.value));
    }
  }
}
