/** What `_clean_column` (scripts/_sql_schema_parser.py) makes of the forms that columns take in SQL: calls, aliases,
    table prefixes, comparisons, conditions, arithmetic and concatenations. */
module ColumnForms {
  import opened Basics
  import opened Characters
  import opened Letters
  import opened TableHeaders
  import opened ColumnCleaner

  predicate AllBlank(s: string) {
    forall i :: 0 <= i < |s| ==> IsSpace(s[i])
  }

  predicate NoBraces(s: string) {
    '{' !in s && '}' !in s
  }

  /** White space, `AS` in any case, and white space again, at `i`. */
  predicate AliasWordAt(s: string, i: nat) {
    i + 3 < |s| && IsSpace(s[i]) && EitherCase(s[i + 1], 'A') && EitherCase(s[i + 2], 'S') && IsSpace(s[i + 3])
  }

  predicate AliasFree(s: string) {
    forall i :: 0 <= i < |s| ==> !AliasWordAt(s, i)
  }

  // ---- Cuts ----

  lemma {:induction false} FirstKeptIs(s: string, i: nat, n: nat)
    requires i <= n <= |s| && Blank(s, i, n) && (n < |s| ==> !IsSpace(s[n]))
    ensures FirstKept(s, Spaces, i) == n
    decreases n - i
  {
    if i < n {
      FirstKeptIs(s, i + 1, n);
    }
  }

  lemma {:induction false} LastKeptIs(s: string, i: nat, m: nat, n: nat)
    requires i <= m <= n <= |s| && Blank(s, m, n) && (i < m ==> !IsSpace(s[m - 1]))
    ensures LastKept(s, Spaces, i, n) == m
    decreases n - m
  {
    if m < n {
      LastKeptIs(s, i, m, n - 1);
    }
  }

  /** `strip` gives the piece between the white space at both ends. */
  lemma StripIs(s: string, i: nat, j: nat)
    requires i < j <= |s| && Blank(s, 0, i) && Blank(s, j, |s|) && !IsSpace(s[i]) && !IsSpace(s[j - 1])
    ensures Strip(s) == s[i..j]
  {
    FirstKeptIs(s, 0, i);
    LastKeptIs(s, i, j, |s|);
  }

  /** A name, and white space behind it. */
  lemma StripBehindName(x: string, gap: string)
    requires IsIdentifier(x) && AllBlank(gap)
    ensures Strip(x + gap) == x
  {
    var s := x + gap;
    assert forall k :: |x| <= k < |s| ==> s[k] == gap[k - |x|];
    IdentifierEnds(x);
    StripIs(s, 0, |x|);
    assert s[0..|x|] == x;
  }

  lemma {:induction false} AliasStartIs(s: string, i: nat, n: nat)
    requires i <= n <= |s| && (n < |s| ==> AliasAt(s, n)) && forall k :: i <= k < n ==> !AliasAt(s, k)
    ensures AliasStart(s, i) == n
    decreases n - i
  {
    if i < n {
      assert !AliasAt(s, i);
      AliasStartIs(s, i + 1, n);
    }
  }

  lemma AliasNeedsWord(s: string, i: nat)
    requires i <= |s| && AliasAt(s, i)
    ensures exists k :: i <= k && k + 1 == SkipSpaces(s, i) && AliasWordAt(s, k)
  {
    var n := SkipSpaces(s, i);
    SkippedIsBlank(s, i);
    assert IsSpace(s[n - 1]) && AliasWordAt(s, n - 1);
  }

  lemma NoAliasToStrip(s: string)
    requires AliasFree(s)
    ensures StripAsAlias(s) == Strip(s)
  {
    forall k | 0 <= k < |s| ensures !AliasAt(s, k) {
      if AliasAt(s, k) {
        AliasNeedsWord(s, k);
      }
    }
    AliasStartIs(s, 0, |s|);
    assert s[..|s|] == s;
  }

  // ---- Calls ----

  /** A call with its arguments as they stand. */
  function CallText(f: string, gap: string, args: string): string {
    f + (gap + ("(" + (args + ")")))
  }

  lemma CallShape(f: string, gap: string, args: string, call: string)
    requires call == CallText(f, gap, args)
    ensures |call| == |f| + |gap| + |args| + 2
    ensures call[..|f|] == f && (forall k :: |f| <= k < |f| + |gap| ==> call[k] == gap[k - |f|])
    ensures call[|f| + |gap|] == '(' && call[|call| - 1] == ')'
    ensures call[|f| + |gap| + 1..|call| - 1] == args
  {
  }

  /** The places of the parts of a call. */
  predicate IsCall(call: string, n: nat, o: nat, args: string) {
    && 0 < n <= o && |call| == o + |args| + 2
    && IsLetter(call[0]) && (forall k :: 0 <= k < n ==> IsWord(call[k]))
    && (forall k :: n <= k < o ==> IsSpace(call[k]))
    && call[o] == '(' && call[|call| - 1] == ')' && call[o + 1..|call| - 1] == args
  }

  lemma CallTextIsCall(f: string, gap: string, args: string, call: string)
    requires IsIdentifier(f) && AllBlank(gap) && call == CallText(f, gap, args)
    ensures IsCall(call, |f|, |f| + |gap|, args) && call[..|f|] == f
  {
    CallShape(f, gap, args, call);
    forall k | 0 <= k < |f| ensures call[k] == f[k] {
      assert call[..|f|][k] == call[k];
    }
  }

  lemma ArgumentsInCall(call: string, n: nat, o: nat, args: string, k: nat)
    requires IsCall(call, n, o, args) && k < |args|
    ensures call[o + 1 + k] == args[k]
  {
    assert call[o + 1..|call| - 1][k] == call[o + 1 + k];
  }

  lemma CallIsAliasFree(call: string, n: nat, o: nat, args: string)
    requires IsCall(call, n, o, args) && AliasFree(args)
    ensures AliasFree(call)
  {
    forall k | 0 <= k < |call| ensures !AliasWordAt(call, k) {
      if AliasWordAt(call, k) && k > o {
        AliasInArguments(call, n, o, args, k);
      }
    }
  }

  lemma AliasInArguments(call: string, n: nat, o: nat, args: string, k: nat)
    requires IsCall(call, n, o, args) && AliasWordAt(call, k) && k > o
    ensures AliasWordAt(args, k - o - 1)
  {
    assert call[k + 3] != ')';
    ArgumentsInCall(call, n, o, args, k - o - 1);
    ArgumentsInCall(call, n, o, args, k - o);
    ArgumentsInCall(call, n, o, args, k - o + 1);
    ArgumentsInCall(call, n, o, args, k - o + 2);
  }

  lemma CallIsPeeled(call: string, n: nat, o: nat, args: string)
    requires IsCall(call, n, o, args) && AliasFree(args)
    ensures Strip(call) == call && Peel(call) == if NoBraces(call) then Some(call) else None
  {
    CallIsAliasFree(call, n, o, args);
    NoAliasToStrip(call);
  }

  lemma CallIsSeen(call: string, n: nat, o: nat, args: string)
    requires IsCall(call, n, o, args)
    ensures SkipWord(call, 0) == n && CallAt(call) == Some(o)
  {
    SkipWordTo(call, 0, n);
    SkipSpacesTo(call, n, o);
  }

  lemma BraceInCall(call: string, n: nat, o: nat, args: string, c: char)
    requires IsCall(call, n, o, args) && (c == '{' || c == '}')
    ensures c in call <==> c in args
  {
    if c in call {
      var k :| 0 <= k < |call| && call[k] == c;
      assert o < k < |call| - 1;
      ArgumentsInCall(call, n, o, args, k - o - 1);
    }
    if c in args {
      var k :| 0 <= k < |args| && args[k] == c;
      ArgumentsInCall(call, n, o, args, k);
    }
  }

  lemma BracesInCall(call: string, n: nat, o: nat, args: string)
    requires IsCall(call, n, o, args)
    ensures NoBraces(call) <==> NoBraces(args)
  {
    BraceInCall(call, n, o, args, '{');
    BraceInCall(call, n, o, args, '}');
  }

  lemma BracesAreKept(s: string)
    requires !NoBraces(s)
    ensures !NoBraces(Strip(s)) && Peel(s).None?
  {
    var k :| 0 <= k < |s| && (s[k] == '{' || s[k] == '}');
    InnerStays(s, k);
  }

  lemma InnerStays(s: string, k: nat)
    requires k < |s| && !IsSpace(s[k])
    ensures s[k] in Strip(s)
  {
    var i := FirstKept(s, Spaces, 0);
    BeforeFirstKept(s, 0, k);
    BehindLastKept(s, i, |s|, k);
    var j := LastKept(s, Spaces, i, |s|);
    assert Strip(s) == s[i..j] && i <= k < j;
    assert s[i..j][k - i] == s[k];
  }

  lemma {:induction false} BeforeFirstKept(s: string, i: nat, k: nat)
    requires i <= k < |s| && !IsSpace(s[k])
    ensures FirstKept(s, Spaces, i) <= k
    decreases k - i
  {
    if i < k {
      BeforeFirstKept(s, i + 1, k);
    }
  }

  lemma {:induction false} BehindLastKept(s: string, i: nat, n: nat, k: nat)
    requires i <= k < n <= |s| && !IsSpace(s[k])
    ensures k < LastKept(s, Spaces, i, n)
    decreases n - k
  {
    if k < n - 1 {
      BehindLastKept(s, i, n - 1, k);
    }
  }

  /** The function is one that the parser knows. */
  predicate Known(names: Names, f: string) {
    Upper(f) in names.keywords || Upper(f) in names.functions
  }

  predicate OnePlainArgument(args: string) {
    args != "" && args != "*" && ',' !in args && '\n' !in args
  }

  lemma ArgumentIsTaken(names: Names, f: string, call: string, n: nat, o: nat, args: string)
    requires IsCall(call, n, o, args) && call[..n] == f
    ensures CallAt(call).Some?
    ensures SingleArgument(names, call) == if Known(names, f) && OnePlainArgument(args) then Some(args) else None
  {
    CallIsSeen(call, n, o, args);
  }

  /** Cleaning a call of a known function with one plain argument is cleaning the argument; any other call, of an
      unknown function, with several arguments, with none, with `*` or over several lines, gives nothing. */
  lemma CallIsCleaned(names: Names, f: string, gap: string, args: string)
    requires IsIdentifier(f) && AllBlank(gap) && AliasFree(args)
    ensures CleanColumn(names, CallText(f, gap, args))
         == if Known(names, f) && OnePlainArgument(args) then CleanColumn(names, args) else ""
  {
    var call, n, o := CallText(f, gap, args), |f|, |f| + |gap|;
    CallTextIsCall(f, gap, args, call);
    CallIsPeeled(call, n, o, args);
    BracesInCall(call, n, o, args);
    ArgumentIsTaken(names, f, call, n, o, args);
    if !NoBraces(args) {
      BracesAreKept(args);
    }
  }

  // ---- White space around a column, and aliases ----

  lemma BlankBeyond(pre: string, s: string, post: string, t: string, i: nat, j: nat)
    requires AllBlank(pre) && AllBlank(post) && t == pre + s + post
    requires i <= j <= |s| && Blank(s, 0, i) && Blank(s, j, |s|)
    ensures Blank(t, 0, |pre| + i) && Blank(t, |pre| + j, |t|) && t[|pre| + i..|pre| + j] == s[i..j]
  {
    forall k | 0 <= k < |t| ensures t[k] == if k < |pre| then pre[k]
                                            else if k < |pre| + |s| then s[k - |pre|] else post[k - |pre| - |s|] {
    }
  }

  lemma StripOfPiece(s: string, t: string, d: nat, i: nat, j: nat)
    requires i <= j <= |s| && d + j <= |t| && t[d + i..d + j] == s[i..j] && Blank(t, 0, d + i) && Blank(t, d + j, |t|)
    requires i < j ==> !IsSpace(s[i]) && !IsSpace(s[j - 1])
    ensures Strip(t) == s[i..j]
  {
    if i < j {
      assert t[d + i] == t[d + i..d + j][0] && s[i] == s[i..j][0];
      assert t[d + j - 1] == t[d + i..d + j][j - i - 1] && s[j - 1] == s[i..j][j - i - 1];
      StripIs(t, d + i, d + j);
    } else {
      AllBlankIsStripped(t);
    }
  }

  lemma StripAround(pre: string, s: string, post: string, t: string)
    requires AllBlank(pre) && AllBlank(post) && t == pre + s + post
    ensures Strip(t) == Strip(s)
  {
    var i := FirstKept(s, Spaces, 0);
    var j := LastKept(s, Spaces, i, |s|);
    KeptIsBlank(s, i);
    BlankBeyond(pre, s, post, t, i, j);
    StripOfPiece(s, t, |pre|, i, j);
  }

  lemma {:induction false} FirstKeptIsBlank(s: string, i: nat)
    requires i <= |s|
    ensures Blank(s, i, FirstKept(s, Spaces, i))
    decreases |s| - i
  {
    if i < |s| && IsSpace(s[i]) {
      FirstKeptIsBlank(s, i + 1);
    }
  }

  lemma {:induction false} LastKeptIsBlank(s: string, i: nat, n: nat)
    requires i <= n <= |s|
    ensures Blank(s, LastKept(s, Spaces, i, n), n)
    decreases n - i
  {
    if i < n && IsSpace(s[n - 1]) {
      LastKeptIsBlank(s, i, n - 1);
    }
  }

  lemma KeptIsBlank(s: string, i: nat)
    requires i == FirstKept(s, Spaces, 0)
    ensures var j := LastKept(s, Spaces, i, |s|);
      Blank(s, 0, i) && Blank(s, j, |s|) && (i < j ==> !IsSpace(s[i]) && !IsSpace(s[j - 1]))
    ensures i == LastKept(s, Spaces, i, |s|) ==> AllBlank(s)
  {
    FirstKeptIsBlank(s, 0);
    LastKeptIsBlank(s, i, |s|);
  }

  lemma AllBlankIsStripped(t: string)
    requires AllBlank(t)
    ensures Strip(t) == ""
  {
    FirstKeptIs(t, 0, |t|);
  }

  /** White space around a column does not matter. */
  lemma BlanksDoNotMatter(names: Names, pre: string, s: string, post: string)
    requires AllBlank(pre) && AllBlank(post)
    ensures CleanColumn(names, pre + s + post) == CleanColumn(names, s)
  {
    StripAround(pre, s, post, pre + s + post);
  }

  /** What stands behind a column as its alias. */
  function AliasText(gap1: string, word: string, gap2: string, name: string): string {
    gap1 + (word + (gap2 + name))
  }

  predicate ProperAlias(gap1: string, word: string, gap2: string, name: string) {
    && gap1 != "" && AllBlank(gap1) && |word| == 2 && EitherCase(word[0], 'A') && EitherCase(word[1], 'S')
    && gap2 != "" && AllBlank(gap2) && name != "" && !IsSpace(name[|name| - 1])
  }

  /** Text with an alias from `n` on, whose word stands at `m`, and no other before it. */
  predicate HasFirstAlias(s: string, n: nat, m: nat) {
    && 0 < n < m && m + 2 < |s| && !IsSpace(s[0]) && !IsSpace(s[n - 1]) && !IsSpace(s[|s| - 1])
    && Blank(s, n, m) && EitherCase(s[m], 'A') && EitherCase(s[m + 1], 'S') && IsSpace(s[m + 2])
    && forall k :: 0 <= k < n ==> !AliasWordAt(s, k)
  }

  lemma {:induction false} SkipStops(s: string, k: nat, n: nat)
    requires k <= n < |s| && !IsSpace(s[n])
    ensures SkipSpaces(s, k) <= n
    decreases n - k
  {
    if k < n {
      SkipStops(s, k + 1, n);
    }
  }

  lemma FirstAliasIsFound(s: string, n: nat, m: nat)
    requires HasFirstAlias(s, n, m)
    ensures AliasStart(s, 0) == n
  {
    BlankIsSkipped(s, n, m);
    forall k | 0 <= k < n ensures !AliasAt(s, k) {
      SkipStops(s, k, n - 1);
      if AliasAt(s, k) {
        AliasNeedsWord(s, k);
      }
    }
    AliasStartIs(s, 0, n);
  }

  lemma AliasTextIsAlias(x: string, gap1: string, word: string, gap2: string, name: string, s: string)
    requires x != "" && !IsSpace(x[0]) && !IsSpace(x[|x| - 1]) && AliasFree(x + " ")
    requires ProperAlias(gap1, word, gap2, name) && s == x + AliasText(gap1, word, gap2, name)
    ensures HasFirstAlias(s, |x|, |x| + |gap1|) && s[..|x|] == x
  {
    var n, m := |x|, |x| + |gap1|;
    assert forall k :: 0 <= k < |gap1| ==> s[n + k] == gap1[k];
    assert forall k :: n <= k < m ==> s[k] == gap1[k - n];
    assert s[m] == word[0] && s[m + 1] == word[1] && s[m + 2] == gap2[0] && s[|s| - 1] == name[|name| - 1];
    forall k | 0 <= k < n ensures !AliasWordAt(s, k) {
      assert !AliasWordAt(x + " ", k);
      assert forall j :: k <= j < n ==> s[j] == (x + " ")[j];
      assert IsSpace(s[n]) && IsSpace((x + " ")[n]);
    }
  }

  lemma AliasIsPeeled(x: string, s: string, m: nat)
    requires HasFirstAlias(s, |x|, m) && s[..|x|] == x && AliasFree(x)
    ensures Peel(s) == if NoBraces(s) then Peel(x) else None
  {
    FirstAliasIsFound(s, |x|, m);
    assert x[0] == s[..|x|][0] == s[0] && x[|x| - 1] == s[..|x|][|x| - 1] == s[|x| - 1];
    NoAliasToStrip(x);
    assert Strip(s) == s && Strip(x) == x;
    if NoBraces(s) {
      BracesOfPiece(s, |x|);
    }
  }

  lemma BracesOfPiece(s: string, n: nat)
    requires n <= |s| && NoBraces(s)
    ensures NoBraces(s[..n])
  {
  }

  lemma AliasFreeFront(x: string)
    requires AliasFree(x + " ")
    ensures AliasFree(x)
  {
    forall k | 0 <= k < |x| ensures !AliasWordAt(x, k) {
      assert !AliasWordAt(x + " ", k);
    }
  }

  /** An alias is dropped: the column is what stands before it. */
  lemma AliasIsDropped(names: Names, x: string, gap1: string, word: string, gap2: string, name: string)
    requires x != "" && !IsSpace(x[0]) && !IsSpace(x[|x| - 1]) && AliasFree(x + " ")
    requires ProperAlias(gap1, word, gap2, name)
    ensures var s := x + AliasText(gap1, word, gap2, name);
      CleanColumn(names, s) == if NoBraces(s) then CleanColumn(names, x) else ""
  {
    var s := x + AliasText(gap1, word, gap2, name);
    AliasFreeFront(x);
    AliasTextIsAlias(x, gap1, word, gap2, name, s);
    AliasIsPeeled(x, s, |x| + |gap1|);
  }

  // ---- Names in expressions ----

  /** The keywords are words, as all of SQL's are. */
  ghost predicate WordKeywords(names: Names) {
    forall k :: k in names.keywords ==> forall i :: 0 <= i < |k| ==> IsWord(k[i])
  }

  /** What stands behind a name in an expression: it starts with something that is neither part of the name nor, behind
      any white space, the bracket of a call. */
  predicate Tail(tail: string) {
    && tail != "" && !IsWord(tail[0]) && !IsSpace(tail[|tail| - 1])
    && SkipSpaces(tail, 0) < |tail| && tail[SkipSpaces(tail, 0)] != '('
    && '.' !in tail && NoBraces(tail)
  }

  lemma {:induction false} SkipSpacesBehind(x: string, tail: string, s: string, i: nat)
    requires s == x + tail && i <= |tail|
    ensures SkipSpaces(s, |x| + i) == |x| + SkipSpaces(tail, i)
    decreases |tail| - i
  {
    if i < |tail| && IsSpace(tail[i]) {
      SkipSpacesBehind(x, tail, s, i + 1);
    }
  }

  lemma NameWithTail(x: string, tail: string, s: string)
    requires IsIdentifier(x) && Tail(tail) && s == x + tail
    ensures CallAt(s).None? && '.' !in s && NoBraces(s) && s[..|x|] == x && !IsWord(s[|x|])
    ensures s != "" && IsLetter(s[0]) && !IsSpace(s[|s| - 1])
  {
    assert forall c :: c in x ==> IsWord(c);
    assert forall k :: 0 <= k < |x| ==> s[k] == x[k];
    assert s[|x|] == tail[0] && s[|s| - 1] == tail[|tail| - 1];
    SkipWordTo(s, 0, |x|);
    SkipSpacesBehind(x, tail, s, 0);
  }

  lemma NoKeyword(names: Names, s: string, n: nat)
    requires WordKeywords(names) && n < |s| && !IsWord(s[n]) && Strip(s) == s
    ensures Upper(s) !in names.keywords && Upper(s) !in PYTHON_BUILTINS && Strip(Upper(s)) == Upper(s)
  {
    UpperKeepsClasses(s[0]);
    UpperKeepsClasses(s[|s| - 1]);
    UpperKeepsClasses(s[n]);
    assert !IsWord(Upper(s)[n]);
    assert forall b :: b in PYTHON_BUILTINS ==> forall i :: 0 <= i < |b| ==> IsWord(b[i]);
    assert s != "" && !IsSpace(s[0]) && !IsSpace(s[|s| - 1]);
  }

  lemma UpperKeepsClasses(c: char)
    ensures IsSpace(UpperChar(c)) == IsSpace(c) && IsWord(UpperChar(c)) == IsWord(c)
  {
  }

  lemma PeelIs(s: string)
    requires s != "" && IsLetter(s[0]) && !IsSpace(s[|s| - 1]) && NoBraces(s) && AliasFree(s)
    ensures Strip(s) == s && Peel(s) == Some(s)
  {
    NoAliasToStrip(s);
  }

  lemma NameIsCut(names: Names, x: string, s: string, n: nat)
    requires WordKeywords(names) && IsIdentifier(x) && !Reserved(names, x)
    requires '.' !in s && n < |s| && !IsWord(s[n]) && Strip(s) == s && SplitExpression(names, s) == x
    ensures CleanName(names, s) == x
  {
    NoKeyword(names, s, n);
    IdentifierPassesFinalCheck(names, x);
  }

  /** If the expression is cut behind the name, the name is what is left. */
  lemma NameIsLeft(names: Names, x: string, tail: string)
    requires WordKeywords(names) && IsIdentifier(x) && !Reserved(names, x) && Tail(tail) && AliasFree(x + tail)
    requires SplitExpression(names, x + tail) == x
    ensures CleanColumn(names, x + tail) == x
  {
    var s := x + tail;
    NameWithTail(x, tail, s);
    PeelIs(s);
    NameIsCut(names, x, s, |x|);
  }

  // ---- The separators ----

  predicate OccursAt(s: string, p: string, k: nat) {
    k + |p| <= |s| && s[k..k + |p|] == p
  }

  /** The text occurs first at `n`. */
  predicate FirstAt(s: string, p: string, n: nat) {
    OccursAt(s, p, n) && forall k :: 0 <= k < n ==> !OccursAt(s, p, k)
  }

  predicate Occurs(p: string, s: string) {
    exists k :: 0 <= k <= |s| && OccursAt(s, p, k)
  }

  lemma {:induction false} FindFrom(s: string, p: string, i: nat, n: nat)
    requires i <= n && FirstAt(s, p, n)
    ensures Find(s, p, i) == Some(n)
    decreases n - i
  {
    if i < n {
      assert !OccursAt(s, p, i);
      FindFrom(s, p, i + 1, n);
    }
  }

  lemma {:induction false} NotFound(s: string, p: string, i: nat)
    requires i <= |s| && !Occurs(p, s)
    ensures Find(s, p, i).None?
    decreases |s| - i
  {
    assert !OccursAt(s, p, i);
    if i + |p| <= |s| && i < |s| {
      NotFound(s, p, i + 1);
    }
  }

  lemma {:induction false} CutAtFirst(text: string, ops: seq<string>, from: nat, k: nat, n: nat)
    requires k < |ops| && from <= n && Find(text, ops[k], 0) == Some(n)
    requires forall j :: 0 <= j < k ==> Find(text, ops[j], 0).None?
    ensures FirstCut(text, ops, from) == Some(n)
    decreases k
  {
    if k > 0 {
      assert Find(text, ops[0], 0).None?;
      assert forall j :: 0 <= j < k - 1 ==> ops[1..][j] == ops[j + 1];
      CutAtFirst(text, ops[1..], from, k - 1, n);
    }
  }

  /** No separator of the list occurs. */
  predicate NoneOccurs(ops: seq<string>, text: string) {
    forall j :: 0 <= j < |ops| ==> !Occurs(ops[j], text)
  }

  lemma {:induction false} NoCut(text: string, ops: seq<string>, from: nat)
    requires NoneOccurs(ops, text)
    ensures FirstCut(text, ops, from).None?
  {
    if ops != [] {
      NotFound(text, ops[0], 0);
      assert forall i :: 0 <= i < |ops[1..]| ==> ops[1..][i] == ops[i + 1];
      NoCut(text, ops[1..], from);
    }
  }

  lemma NoOccurrenceWithout(s: string, p: string, i: nat)
    requires i < |p| && p[i] !in s
    ensures !Occurs(p, s)
  {
    forall k: nat | k <= |s| ensures !OccursAt(s, p, k) {
      if OccursAt(s, p, k) {
        OccursHere(s, p, k, i);
      }
    }
  }

  lemma OccursHere(s: string, p: string, k: nat, i: nat)
    requires OccursAt(s, p, k) && i < |p|
    ensures s[k + i] == p[i]
  {
    assert s[k..k + |p|][i] == s[k + i];
  }

  lemma NameIsUncut(x: string)
    requires IsIdentifier(x)
    ensures FirstCut(Upper(x), KEYWORD_CUTS, 1).None? && FirstCut(x, ARITHMETIC, 0).None?
  {
    assert forall c :: c in x ==> IsWord(c);
    assert ' ' !in Upper(x);
    NoCutWithout(Upper(x), KEYWORD_CUTS, 1);
    NoCutWithout(x, ARITHMETIC, 0);
  }

  // ---- Table prefixes ----

  lemma {:induction false} AfterDotIs(s: string, n: nat, p: nat)
    requires 0 < p <= n <= |s| && s[p - 1] == '.' && forall k :: p <= k < n ==> s[k] != '.'
    ensures AfterDot(s, n) == p
  {
    if p < n {
      AfterDotIs(s, n - 1, p);
    }
  }

  /** The name of a table, or of a schema and a table. */
  predicate IsPrefix(table: string) {
    table != "" && IsLetter(table[0]) && forall k :: 0 <= k < |table| ==> IsWord(table[k]) || table[k] == '.'
  }

  lemma DottedText(table: string, x: string, s: string)
    requires IsPrefix(table) && IsIdentifier(x) && s == table + ("." + x)
    ensures s != "" && IsLetter(s[0]) && !IsSpace(s[|s| - 1]) && s[|table|] == '.' && s[|table| + 1..] == x
    ensures forall c :: c in s ==> IsWord(c) || c == '.'
    ensures AfterDot(s, |s|) == |table| + 1
  {
    var n := |table| + 1;
    assert forall k :: n <= k < |s| ==> s[k] == x[k - n];
    assert forall k :: 0 <= k < |table| ==> s[k] == table[k];
    AfterDotIs(s, |s|, n);
  }

  lemma DottedIsNoCall(s: string)
    requires forall c :: c in s ==> IsWord(c) || c == '.'
    ensures CallAt(s).None? && AliasFree(s) && NoBraces(s)
  {
    assert forall k :: 0 <= k < |s| ==> s[k] in s;
    var w := SkipWord(s, 0);
    if w < |s| {
      assert SkipSpaces(s, w) == w;
    }
  }

  lemma CleanNameFrom(names: Names, s: string, u: string, x: string)
    requires Strip(Upper(s)) !in names.keywords && Strip(Upper(s)) !in PYTHON_BUILTINS
    requires Qualified(s) == u && SplitExpression(names, u) == x && FinalCheck(names, x) == x
    ensures CleanName(names, s) == x
  {
  }

  lemma QualifiedIs(s: string, n: nat, x: string)
    requires IsIdentifier(x) && n < |s| && s[n] == '.' && AfterDot(s, |s|) == n + 1 && s[n + 1..] == x
    ensures Qualified(s) == x
  {
    IdentifierEnds(x);
    NothingToTrim(x);
  }

  lemma PeeledName(names: Names, s: string, x: string)
    requires Peel(s) == Some(s) && CallAt(s).None? && CleanName(names, s) == x
    ensures CleanColumn(names, s) == x
  {
  }

  lemma DottedIsName(names: Names, s: string, n: nat, x: string)
    requires WordKeywords(names) && IsIdentifier(x) && !Reserved(names, x) && Strip(s) == s
    requires n < |s| && !IsWord(s[n]) && Qualified(s) == x
    ensures CleanName(names, s) == x
  {
    assert Strip(Upper(s)) !in names.keywords && Strip(Upper(s)) !in PYTHON_BUILTINS by {
      NoKeyword(names, s, n);
    }
    assert SplitExpression(names, x) == x && FinalCheck(names, x) == x by {
      IdentifierIsNoExpression(names, x);
      IdentifierPassesFinalCheck(names, x);
    }
    CleanNameFrom(names, s, x, x);
  }

  lemma DottedIsPeeled(table: string, x: string, s: string)
    requires IsPrefix(table) && IsIdentifier(x) && s == table + ("." + x)
    ensures Strip(s) == s && Peel(s) == Some(s) && CallAt(s).None?
  {
    DottedText(table, x, s);
    DottedIsNoCall(s);
    PeelIs(s);
  }

  lemma DottedIsSplit(table: string, x: string, s: string)
    requires IsPrefix(table) && IsIdentifier(x) && s == table + ("." + x)
    ensures |table| < |s| && !IsWord(s[|table|]) && Qualified(s) == x
  {
    DottedText(table, x, s);
    QualifiedIs(s, |table|, x);
  }

  /** A table prefix is dropped. */
  lemma PrefixIsDropped(names: Names, table: string, x: string)
    requires WordKeywords(names) && IsPrefix(table) && IsIdentifier(x) && !Reserved(names, x)
    ensures CleanColumn(names, table + ("." + x)) == x
  {
    var s := table + ("." + x);
    assert Strip(s) == s && Peel(s) == Some(s) && CallAt(s).None? by {
      DottedIsPeeled(table, x, s);
    }
    assert CleanName(names, s) == x by {
      DottedIsSplit(table, x, s);
      DottedIsName(names, s, |table|, x);
    }
    PeeledName(names, s, x);
  }

  // ---- Comparisons ----

  const OPERATOR_CHARACTERS: string := "<>=!"

  /** Text without operators, dots and braces. */
  predicate PlainText(y: string) {
    && (forall c :: c in OPERATOR_CHARACTERS ==> c !in y) && '|' !in y && '.' !in y && NoBraces(y)
    && (y != "" ==> !IsSpace(y[|y| - 1]))
  }

  lemma OwnCharacter(j: nat, k: nat) returns (i: nat)
    requires j < k < |COMPARISONS|
    ensures i < |COMPARISONS[j]| && COMPARISONS[j][i] in OPERATOR_CHARACTERS && COMPARISONS[j][i] !in COMPARISONS[k]
  {
    var p, q := COMPARISONS[j], COMPARISONS[k];
    assert p[0] in OPERATOR_CHARACTERS && (|p| == 2 ==> p[1] in OPERATOR_CHARACTERS);
    i := if p[0] !in q then 0 else 1;
  }

  predicate ComparedText(x: string, gap: string, op: string, y: string, s: string) {
    IsIdentifier(x) && AllBlank(gap) && PlainText(y) && s == x + (gap + (op + y))
  }

  lemma ComparedParts(x: string, gap: string, op: string, y: string, s: string)
    requires ComparedText(x, gap, op, y, s)
    ensures OccursAt(s, op, |x| + |gap|) && s[..|x| + |gap|] == x + gap
    ensures forall k :: 0 <= k < |x| + |gap| ==> IsWord(s[k]) || IsSpace(s[k])
    ensures forall k :: |x| + |gap| + |op| <= k < |s| ==> s[k] in y
  {
    var n := |x| + |gap|;
    assert s == (x + gap) + (op + y);
    forall k | 0 <= k < n ensures IsWord(s[k]) || IsSpace(s[k]) {
      assert s[k] == if k < |x| then x[k] else gap[k - |x|];
    }
    forall k | n + |op| <= k < |s| ensures s[k] in y {
      assert s[k] == y[k - n - |op|];
    }
  }

  /** The only operator characters are those of the operator itself. */
  lemma OperatorsAreOwn(x: string, gap: string, k: nat, y: string, s: string, c: char)
    requires k < |COMPARISONS| && ComparedText(x, gap, COMPARISONS[k], y, s)
    requires (c in OPERATOR_CHARACTERS && c !in COMPARISONS[k]) || c == '|' || c == '{' || c == '}' || c == '.'
    ensures c !in s
  {
    var n, op := |x| + |gap|, COMPARISONS[k];
    ComparedParts(x, gap, op, y, s);
    assert c !in op;
    forall i | 0 <= i < |s| ensures s[i] != c {
      assert n <= i < n + |op| ==> s[i] == s[n..n + |op|][i - n];
    }
  }

  lemma ComparisonIsFound(x: string, gap: string, k: nat, y: string, s: string)
    requires k < |COMPARISONS| && ComparedText(x, gap, COMPARISONS[k], y, s)
    ensures FirstCut(s, COMPARISONS, 0) == Some(|x| + |gap|)
  {
    var n, op := |x| + |gap|, COMPARISONS[k];
    ComparedParts(x, gap, op, y, s);
    forall i: nat | i < n ensures !OccursAt(s, op, i) {
      if OccursAt(s, op, i) {
        OccursHere(s, op, i, 0);
      }
    }
    FindFrom(s, op, 0, n);
    forall j | 0 <= j < k ensures Find(s, COMPARISONS[j], 0).None? {
      var i := OwnCharacter(j, k);
      OperatorsAreOwn(x, gap, k, y, s, COMPARISONS[j][i]);
      NoOccurrenceWithout(s, COMPARISONS[j], i);
      NotFound(s, COMPARISONS[j], 0);
    }
    CutAtFirst(s, COMPARISONS, 0, k, n);
  }

  /** The first separator stands behind the name, and white space. */
  lemma CutLeavesName(names: Names, s: string, n: nat, x: string, gap: string)
    requires IsIdentifier(x) && AllBlank(gap) && n <= |s| && s[..n] == x + gap
    requires Find(s, "||", 0).None? && FirstCut(s, COMPARISONS, 0) == Some(n)
    ensures SplitExpression(names, s) == x
  {
    StripBehindName(x, gap);
    NameIsUncut(x);
  }

  lemma ComparedIsCut(names: Names, x: string, gap: string, k: nat, y: string, s: string)
    requires k < |COMPARISONS| && ComparedText(x, gap, COMPARISONS[k], y, s)
    ensures SplitExpression(names, s) == x
  {
    ComparedParts(x, gap, COMPARISONS[k], y, s);
    ComparisonIsFound(x, gap, k, y, s);
    OperatorsAreOwn(x, gap, k, y, s, '|');
    NotFoundWithout(s, "||", 0);
    CutLeavesName(names, s, |x| + |gap|, x, gap);
  }

  lemma ComparedTail(x: string, gap: string, k: nat, y: string, tail: string)
    requires k < |COMPARISONS| && ComparedText(x, gap, COMPARISONS[k], y, x + tail) && tail == gap + (COMPARISONS[k] + y)
    ensures Tail(tail)
  {
    var op := COMPARISONS[k];
    assert op[0] in OPERATOR_CHARACTERS && op[|op| - 1] in OPERATOR_CHARACTERS;
    assert tail[|gap|] == op[0] && tail[|tail| - 1] == if y == "" then op[|op| - 1] else y[|y| - 1];
    assert forall i :: 0 <= i < |gap| ==> tail[i] == gap[i];
    SkipSpacesTo(tail, 0, |gap|);
    OperatorsAreOwn(x, gap, k, y, x + tail, '.');
    OperatorsAreOwn(x, gap, k, y, x + tail, '{');
    OperatorsAreOwn(x, gap, k, y, x + tail, '}');
  }

  /** Of a comparison the column is its left side, whatever plain text is on the right. */
  lemma ComparisonIsCut(names: Names, x: string, gap: string, k: nat, y: string)
    requires WordKeywords(names) && IsIdentifier(x) && !Reserved(names, x) && AllBlank(gap)
    requires k < |COMPARISONS| && PlainText(y) && AliasFree(x + (gap + (COMPARISONS[k] + y)))
    ensures CleanColumn(names, x + (gap + (COMPARISONS[k] + y))) == x
  {
    var tail := gap + (COMPARISONS[k] + y);
    ComparedTail(x, gap, k, y, tail);
    ComparedIsCut(names, x, gap, k, y, x + tail);
    NameIsLeft(names, x, tail);
  }

  // ---- Conditions and arithmetic ----

  /** A name with a separator that starts with a space behind it, and plain text. */
  predicate SpacedText(x: string, op: string, y: string, s: string) {
    && IsIdentifier(x) && PlainText(y) && s == x + (op + y)
    && |op| > 2 && op[0] == ' ' && !IsSpace(op[1]) && op[1] != '('
    && (forall c :: c in OPERATOR_CHARACTERS ==> c !in op) && '|' !in op && '.' !in op && NoBraces(op)
  }

  lemma SpacedParts(x: string, op: string, y: string, s: string)
    requires SpacedText(x, op, y, s)
    ensures s[..|x|] == x && OccursAt(s, op, |x|) && s[|x|] == ' '
    ensures forall c :: c in OPERATOR_CHARACTERS || c == '|' || c == '.' || c == '{' || c == '}' ==> c !in s
    ensures forall k :: 0 <= k < |x| ==> IsWord(s[k])
  {
    forall i | 0 <= i < |s|
      ensures s[i] == if i < |x| then x[i] else if i < |x| + |op| then op[i - |x|] else y[i - |x| - |op|]
    {
    }
    assert forall c :: c in x ==> IsWord(c);
  }

  lemma SpacedTail(x: string, op: string, y: string, tail: string)
    requires SpacedText(x, op, y, x + tail) && tail == op + y && (y == "" ==> !IsSpace(op[|op| - 1]))
    ensures Tail(tail)
  {
    assert tail[0] == ' ' && tail[1] == op[1] && tail[|tail| - 1] == if y == "" then op[|op| - 1] else y[|y| - 1];
    SkipSpacesTo(tail, 0, 1);
    SpacedParts(x, op, y, x + tail);
  }

  lemma NoComparison(s: string)
    requires forall c :: c in OPERATOR_CHARACTERS || c == '|' ==> c !in s
    ensures Find(s, "||", 0).None? && FirstCut(s, COMPARISONS, 0).None?
  {
    NotFoundWithout(s, "||", 0);
    assert forall j :: 0 <= j < |COMPARISONS| ==> COMPARISONS[j][0] in OPERATOR_CHARACTERS;
    NoCutWithout(s, COMPARISONS, 0);
  }

  lemma KeywordCutLeavesName(names: Names, s: string, x: string)
    requires IsIdentifier(x) && |x| <= |s| && s[..|x|] == x
    requires Find(s, "||", 0).None? && FirstCut(s, COMPARISONS, 0).None?
    requires FirstCut(Upper(s), KEYWORD_CUTS, 1) == Some(|x|)
             || (FirstCut(Upper(s), KEYWORD_CUTS, 1).None? && FirstCut(s, ARITHMETIC, 0) == Some(|x|))
    ensures SplitExpression(names, s) == x
  {
    IdentifierEnds(x);
    NothingToTrim(x);
    NameIsUncut(x);
  }

  /** A separator in any case. */
  lemma UpperOccurs(s: string, p: string, i: nat)
    requires forall k :: 0 <= k < |p| ==> !('a' <= p[k] <= 'z')
    ensures OccursAt(Upper(s), p, i) <==> WordStands(s, i, p)
  {
    if i + |p| <= |s| {
      var q := Upper(s)[i..i + |p|];
      forall k | 0 <= k < |p| ensures q[k] == p[k] <==> EitherCase(s[i + k], p[k]) {
        assert q[k] == Upper(s)[i + k];
      }
    }
  }

  lemma KeywordsAreCapital(j: nat)
    requires j < |KEYWORD_CUTS|
    ensures forall k :: 0 <= k < |KEYWORD_CUTS[j]| ==> KEYWORD_CUTS[j][k] == ' ' || 'A' <= KEYWORD_CUTS[j][k] <= 'Z'
    ensures |KEYWORD_CUTS[j]| > 2 && KEYWORD_CUTS[j][0] == ' ' && KEYWORD_CUTS[j][1] != ' '
  {
  }

  /** None of the first `n` keyword separators stands in the text, in any case. */
  predicate NoKeywordStands(s: string, n: nat) {
    forall j, i :: 0 <= j < n && j < |KEYWORD_CUTS| && 0 <= i <= |s| ==> !WordStands(s, i, KEYWORD_CUTS[j])
  }

  lemma KeywordDoesNotOccur(s: string, n: nat, j: nat)
    requires NoKeywordStands(s, n) && j < n && j < |KEYWORD_CUTS|
    ensures !Occurs(KEYWORD_CUTS[j], Upper(s))
  {
    KeywordsAreCapital(j);
    forall i: nat | i <= |Upper(s)| ensures !OccursAt(Upper(s), KEYWORD_CUTS[j], i) {
      UpperOccurs(s, KEYWORD_CUTS[j], i);
    }
  }

  lemma KeywordIsFound(x: string, k: nat, s: string)
    requires IsIdentifier(x) && k < |KEYWORD_CUTS| && |x| <= |s| && s[..|x|] == x
    requires WordStands(s, |x|, KEYWORD_CUTS[k]) && NoKeywordStands(s, k)
    ensures FirstCut(Upper(s), KEYWORD_CUTS, 1) == Some(|x|)
  {
    var p := KEYWORD_CUTS[k];
    KeywordsAreCapital(k);
    UpperOccurs(s, p, |x|);
    forall i: nat | i < |x| ensures !OccursAt(Upper(s), p, i) {
      assert s[..|x|][i] == s[i];
      if OccursAt(Upper(s), p, i) {
        OccursHere(Upper(s), p, i, 0);
      }
    }
    FindFrom(Upper(s), p, 0, |x|);
    forall j | 0 <= j < k ensures Find(Upper(s), KEYWORD_CUTS[j], 0).None? {
      KeywordDoesNotOccur(s, k, j);
      NotFound(Upper(s), KEYWORD_CUTS[j], 0);
    }
    CutAtFirst(Upper(s), KEYWORD_CUTS, 1, k, |x|);
  }

  /** The keyword with its spaces, in any case. */
  predicate IsKeywordText(op: string, k: nat) {
    k < |KEYWORD_CUTS| && |op| == |KEYWORD_CUTS[k]| && WordStands(op, 0, KEYWORD_CUTS[k])
  }

  lemma KeywordTextIsSpaced(op: string, k: nat)
    requires IsKeywordText(op, k)
    ensures |op| > 2 && op[0] == ' ' && !IsSpace(op[1]) && op[1] != '('
    ensures (forall c :: c in OPERATOR_CHARACTERS ==> c !in op) && '|' !in op && '.' !in op && NoBraces(op)
  {
    KeywordsAreCapital(k);
    forall i | 0 <= i < |op| ensures op[i] == ' ' || IsLetter(op[i]) {
      assert EitherCase(op[0 + i], KEYWORD_CUTS[k][i]);
    }
    assert EitherCase(op[0 + 0], KEYWORD_CUTS[k][0]) && EitherCase(op[0 + 1], KEYWORD_CUTS[k][1]);
  }

  lemma KeywordStandsThere(x: string, op: string, k: nat, y: string, s: string)
    requires IsKeywordText(op, k) && OccursAt(s, op, |x|)
    ensures WordStands(s, |x|, KEYWORD_CUTS[k])
  {
    forall i | 0 <= i < |op| ensures EitherCase(s[|x| + i], KEYWORD_CUTS[k][i]) {
      assert s[|x|..|x| + |op|][i] == s[|x| + i];
      assert EitherCase(op[0 + i], KEYWORD_CUTS[k][i]);
    }
  }

  /** Of a condition with `IS`, `IN`, `NOT`, `LIKE`, `GLOB` or `BETWEEN` the column is its left side, if no separator
      stands anywhere in it that comes earlier in the program's list. */
  lemma ConditionIsCut(names: Names, x: string, op: string, k: nat, y: string)
    requires WordKeywords(names) && IsIdentifier(x) && !Reserved(names, x) && IsKeywordText(op, k)
    requires y != "" && PlainText(y) && AliasFree(x + (op + y)) && NoKeywordStands(x + (op + y), k)
    ensures CleanColumn(names, x + (op + y)) == x
  {
    var s := x + (op + y);
    KeywordTextIsSpaced(op, k);
    SpacedParts(x, op, y, s);
    SpacedTail(x, op, y, op + y);
    NoComparison(s);
    KeywordStandsThere(x, op, k, y, s);
    KeywordIsFound(x, k, s);
    KeywordCutLeavesName(names, s, x);
    NameIsLeft(names, x, op + y);
  }

  lemma ArithmeticIsFound(x: string, k: nat, s: string)
    requires IsIdentifier(x) && k < |ARITHMETIC| && |x| <= |s| && s[..|x|] == x && OccursAt(s, ARITHMETIC[k], |x|)
    requires forall j :: 0 <= j < k ==> !Occurs(ARITHMETIC[j], s)
    ensures FirstCut(s, ARITHMETIC, 0) == Some(|x|)
  {
    forall i: nat | i < |x| ensures !OccursAt(s, ARITHMETIC[k], i) {
      assert s[..|x|][i] == s[i];
      if OccursAt(s, ARITHMETIC[k], i) {
        OccursHere(s, ARITHMETIC[k], i, 0);
      }
    }
    FindFrom(s, ARITHMETIC[k], 0, |x|);
    forall j | 0 <= j < k ensures Find(s, ARITHMETIC[j], 0).None? {
      NotFound(s, ARITHMETIC[j], 0);
    }
    CutAtFirst(s, ARITHMETIC, 0, k, |x|);
  }

  lemma ArithmeticIsSpaced(k: nat)
    requires k < |ARITHMETIC|
    ensures var op := ARITHMETIC[k];
      && |op| > 2 && op[0] == ' ' && !IsSpace(op[1]) && op[1] != '('
      && (forall c :: c in OPERATOR_CHARACTERS ==> c !in op) && '|' !in op && '.' !in op && NoBraces(op)
  {
  }

  /** Of arithmetic the column is the left operand, if no condition and no earlier operator of the list stands in the
      text. */
  lemma ArithmeticIsCut(names: Names, x: string, k: nat, y: string)
    requires WordKeywords(names) && IsIdentifier(x) && !Reserved(names, x) && k < |ARITHMETIC|
    requires y != "" && PlainText(y) && AliasFree(x + (ARITHMETIC[k] + y))
    requires NoKeywordStands(x + (ARITHMETIC[k] + y), |KEYWORD_CUTS|)
    requires forall j :: 0 <= j < k ==> !Occurs(ARITHMETIC[j], x + (ARITHMETIC[k] + y))
    ensures CleanColumn(names, x + (ARITHMETIC[k] + y)) == x
  {
    var op := ARITHMETIC[k];
    var s := x + (op + y);
    ArithmeticIsSpaced(k);
    SpacedParts(x, op, y, s);
    SpacedTail(x, op, y, op + y);
    NoComparison(s);
    forall j | 0 <= j < |KEYWORD_CUTS| ensures !Occurs(KEYWORD_CUTS[j], Upper(s)) {
      KeywordDoesNotOccur(s, |KEYWORD_CUTS|, j);
    }
    NoCut(Upper(s), KEYWORD_CUTS, 1);
    ArithmeticIsFound(x, k, s);
    KeywordCutLeavesName(names, s, x);
    NameIsLeft(names, x, op + y);
  }

  // ---- Concatenations ----

  lemma ConcatenatedParts(x: string, gap: string, y: string, s: string)
    requires IsIdentifier(x) && AllBlank(gap) && s == x + (gap + ("||" + y))
    ensures Find(s, "||", 0) == Some(|x| + |gap|) && s[..|x| + |gap|] == x + gap
  {
    var n := |x| + |gap|;
    assert s == (x + gap) + ("||" + y);
    assert s[n..n + 2] == "||";
    forall i: nat | i < n ensures !OccursAt(s, "||", i) {
      assert s[i] == if i < |x| then x[i] else gap[i - |x|];
      if OccursAt(s, "||", i) {
        OccursHere(s, "||", i, 0);
      }
    }
    FindFrom(s, "||", 0, n);
  }

  lemma ConcatenatedTail(gap: string, y: string, tail: string)
    requires AllBlank(gap) && tail == gap + ("||" + y) && '.' !in y && NoBraces(y) && (y != "" ==> !IsSpace(y[|y| - 1]))
    ensures Tail(tail)
  {
    assert forall i :: 0 <= i < |gap| ==> tail[i] == gap[i];
    assert tail[|gap|] == '|' && tail[|tail| - 1] == if y == "" then '|' else y[|y| - 1];
    SkipSpacesTo(tail, 0, |gap|);
  }

  /** Of a concatenation that starts with a column, the column is that one. */
  lemma ConcatenationIsCut(names: Names, x: string, gap: string, y: string)
    requires WordKeywords(names) && IsIdentifier(x) && !Reserved(names, x) && AllBlank(gap)
    requires '.' !in y && NoBraces(y) && (y != "" ==> !IsSpace(y[|y| - 1])) && AliasFree(x + (gap + ("||" + y)))
    ensures CleanColumn(names, x + (gap + ("||" + y))) == x
  {
    var tail := gap + ("||" + y);
    ConcatenatedParts(x, gap, y, x + tail);
    ConcatenatedTail(gap, y, tail);
    FirstPartIsTaken(names, x, gap, x + tail);
    NameIsLeft(names, x, tail);
  }

  lemma FirstPartIsTaken(names: Names, x: string, gap: string, s: string)
    requires IsIdentifier(x) && !Reserved(names, x) && AllBlank(gap)
    requires Find(s, "||", 0) == Some(|x| + |gap|) && s[..|x| + |gap|] == x + gap
    ensures SplitExpression(names, s) == x
  {
    UnquotedName(x, gap);
    OperandIs(names, s, x + gap, x);
  }

  lemma UnquotedName(x: string, gap: string)
    requires IsIdentifier(x) && AllBlank(gap)
    ensures Unquoted(x + gap) == x
  {
    StripBehindName(x, gap);
    IdentifierEnds(x);
    NothingToTrim(x);
  }

  lemma OperandIs(names: Names, s: string, part: string, x: string)
    requires Find(s, "||", 0).Some? && s[..Find(s, "||", 0).value] == part
    requires Unquoted(part) == x && x != "" && Upper(x) !in names.keywords
    ensures SplitExpression(names, s) == x
  {
    assert FirstPart(s).0 == part;
  }

  // ---- What gives nothing ----

  /** Literals, placeholders and keywords give nothing. */
  lemma NoColumn(names: Names, s: string)
    requires s != "" && !IsSpace(s[0]) && !IsSpace(s[|s| - 1])
    ensures IsQuote(s[0]) || IsDigit(s[0]) || !NoBraces(s) ==> CleanColumn(names, s) == ""
    ensures IsIdentifier(s) && Reserved(names, s) ==> CleanColumn(names, s) == ""
  {
    if IsIdentifier(s) && Reserved(names, s) {
      IdentifierIsPeeled(s);
      IdentifierIsNoCall(s);
      IdentifierEnds(s);
      WordEndsStay(Upper(s), Spaces);
    }
  }

  // ---- An alias inside a call ----

  /** A call without its closing bracket. */
  predicate IsOpenCall(s: string, n: nat, o: nat) {
    && 0 < n <= o < |s| && IsLetter(s[0]) && (forall k :: 0 <= k < n ==> IsWord(s[k]))
    && (forall k :: n <= k < o ==> IsSpace(s[k])) && s[o] == '(' && s[|s| - 1] != ')' && !IsSpace(s[|s| - 1])
  }

  lemma OpenCallGivesNothing(names: Names, s: string, n: nat, o: nat)
    requires IsOpenCall(s, n, o) && AliasFree(s)
    ensures CleanColumn(names, s) == ""
  {
    assert CallAt(s) == Some(o) by {
      SkipWordTo(s, 0, n);
      SkipSpacesTo(s, n, o);
    }
    assert Peel(s) == Some(s) || Peel(s) == None by {
      NoAliasToStrip(s);
    }
    assert SingleArgument(names, s).None?;
  }

  lemma OpenCallText(f: string, gap: string, front: string, s: string)
    requires IsIdentifier(f) && AllBlank(gap) && s == f + (gap + ("(" + front))
    requires front != "" && front[|front| - 1] != ')' && !IsSpace(front[|front| - 1])
    ensures IsOpenCall(s, |f|, |f| + |gap|)
  {
    forall k | 0 <= k < |s|
      ensures s[k] == if k < |f| then f[k]
                      else if k < |f| + |gap| then gap[k - |f|]
                      else if k == |f| + |gap| then '(' else front[k - |f| - |gap| - 1]
    {
    }
  }

  /** The alias is looked for first, and an alias inside a call, as in `CAST(x AS TEXT)`, cuts the call open: it gives
      nothing, although its argument alone would give a column. */
  lemma AliasInCallIsLost(
    names: Names, f: string, gap: string, front: string, gap1: string, word: string, gap2: string, name: string)
    requires IsIdentifier(f) && AllBlank(gap) && front != "" && front[|front| - 1] != ')' && !IsSpace(front[|front| - 1])
    requires ProperAlias(gap1, word, gap2, name) && AliasFree(f + (gap + ("(" + front)) + " ")
    ensures CleanColumn(names, f + (gap + ("(" + front)) + AliasText(gap1, word, gap2, name)) == ""
  {
    var s := f + (gap + ("(" + front));
    OpenCallText(f, gap, front, s);
    AliasFreeFront(s);
    AliasIsDropped(names, s, gap1, word, gap2, name);
    OpenCallGivesNothing(names, s, |f|, |f| + |gap|);
  }

  // ---- All operands of a concatenation ----

  /** The operands with bars between them. */
  function Concatenated(parts: seq<string>): string
    requires parts != []
  {
    if |parts| == 1 then parts[0] else parts[0] + ("||" + Concatenated(parts[1..]))
  }

  /** What an operand comes to: without white space and quotes around it, something that is no keyword. */
  predicate Offers(names: Names, part: string, x: string) {
    Unquoted(part) == x && x != "" && Upper(x) !in names.keywords
  }

  predicate OffersNothing(names: Names, part: string) {
    Unquoted(part) == "" || Upper(Unquoted(part)) in names.keywords
  }

  lemma BarIsFound(part: string, rest: string, s: string)
    requires '|' !in part && s == part + ("||" + rest)
    ensures FirstPart(s) == (part, Some(rest))
  {
    var n := |part|;
    assert s[n..n + 2] == "||" && s[..n] == part && s[n + 2..] == rest;
    forall i: nat | i < n ensures !OccursAt(s, "||", i) {
      assert s[i] == part[i];
      if OccursAt(s, "||", i) {
        OccursHere(s, "||", i, 0);
      }
    }
    FindFrom(s, "||", 0, n);
  }

  lemma OperandStep(names: Names, s: string, part: string, rest: string)
    requires FirstPart(s) == (part, Some(rest))
    ensures OffersNothing(names, part) ==> FirstOperand(names, s) == FirstOperand(names, rest)
    ensures !OffersNothing(names, part) ==> FirstOperand(names, s) == Unquoted(part)
  {
  }

  lemma LastOperand(names: Names, part: string)
    requires '|' !in part
    ensures FirstOperand(names, part) == if OffersNothing(names, part) then "" else Unquoted(part)
  {
    NotFoundWithout(part, "||", 0);
  }

  lemma ConcatenatedStep(names: Names, parts: seq<string>)
    requires |parts| > 1 && '|' !in parts[0]
    ensures FirstOperand(names, Concatenated(parts))
         == if OffersNothing(names, parts[0]) then FirstOperand(names, Concatenated(parts[1..])) else Unquoted(parts[0])
  {
    BarIsFound(parts[0], Concatenated(parts[1..]), Concatenated(parts));
    OperandStep(names, Concatenated(parts), parts[0], Concatenated(parts[1..]));
  }

  predicate NoBars(parts: seq<string>) {
    forall i :: 0 <= i < |parts| ==> '|' !in parts[i]
  }

  predicate NoneOffers(names: Names, parts: seq<string>, k: nat)
    requires k <= |parts|
  {
    forall i :: 0 <= i < k ==> OffersNothing(names, parts[i])
  }

  lemma RestOfOperands(names: Names, parts: seq<string>, k: nat)
    requires NoBars(parts) && 0 < k <= |parts| && NoneOffers(names, parts, k)
    ensures NoBars(parts[1..]) && NoneOffers(names, parts[1..], k - 1) && OffersNothing(names, parts[0])
  {
  }

  /** A concatenation comes to its first operand that offers something, and to nothing if none does. */
  lemma {:induction false} FirstOfferIsTaken(names: Names, parts: seq<string>, k: nat, x: string)
    requires parts != [] && NoBars(parts) && k <= |parts| && NoneOffers(names, parts, k)
    requires k < |parts| ==> Offers(names, parts[k], x)
    ensures FirstOperand(names, Concatenated(parts)) == if k < |parts| then x else ""
    decreases |parts|
  {
    if k == 0 {
      FirstOperandOffers(names, parts, x);
    } else {
      RestOfOperands(names, parts, k);
      if |parts| == 1 {
        LastOperand(names, parts[0]);
      } else {
        ConcatenatedStep(names, parts);
        FirstOfferIsTaken(names, parts[1..], k - 1, x);
      }
    }
  }

  lemma FirstOperandOffers(names: Names, parts: seq<string>, x: string)
    requires parts != [] && '|' !in parts[0] && Offers(names, parts[0], x)
    ensures FirstOperand(names, Concatenated(parts)) == x
  {
    if |parts| == 1 {
      LastOperand(names, parts[0]);
    } else {
      ConcatenatedStep(names, parts);
    }
  }
}
