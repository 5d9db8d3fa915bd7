/** What a debt marker is, letter by letter, and that the patterns of scripts/check_g_030_tech_debt.py match exactly the
    texts that hold one. */
module MarkerTexts {
  import opened Basics
  import opened Characters
  import opened Letters
  import opened DiffReader

  /** White space, perhaps none, and the word, which ends at `j`. */
  predicate WordBehind(s: string, i: nat, word: string, j: nat) {
    |word| <= j && Blank(s, i, j - |word|) && WordStands(s, j - |word|, word)
  }

  /** `# TECH-DEBT :`, the word in any case, with any or no white space between the parts; `a` is the end of the word. */
  predicate TechDebtStands(s: string, i: nat, a: nat, end: nat) {
    WordStands(s, i, "#") && WordBehind(s, i + 1, "TECH-DEBT", a) && WordBehind(s, a, ":", end)
  }

  /** `# TODO ( debt ) :`, likewise. */
  predicate TodoDebtStands(s: string, i: nat, a: nat, b: nat, c: nat, d: nat, end: nat) {
    TodoStands(s, i, a, b) && DebtStands(s, b, c, d, end)
  }

  predicate TodoStands(s: string, i: nat, a: nat, b: nat) {
    WordStands(s, i, "#") && WordBehind(s, i + 1, "TODO", a) && WordBehind(s, a, "(", b)
  }

  predicate DebtStands(s: string, b: nat, c: nat, d: nat, end: nat) {
    WordBehind(s, b, "DEBT", c) && WordBehind(s, c, ")", d) && WordBehind(s, d, ":", end)
  }

  lemma StandingIsRead(s: string, i: nat, word: string, j: nat)
    requires Capital(word) && WordBehind(s, i, word, j)
    ensures Behind(s, i, word) == Some(j)
  {
    WordStandsIff(s, j - |word|, word);
    BlankIsSkipped(s, i, j - |word|);
  }

  lemma ReadStands(s: string, i: nat, word: string)
    requires i <= |s| && Capital(word) && Behind(s, i, word).Some?
    ensures WordBehind(s, i, word, Behind(s, i, word).value)
  {
    WordStandsIff(s, SkipSpaces(s, i), word);
    SkippedIsBlank(s, i);
  }

  lemma HashStands(s: string, i: nat)
    ensures WordStands(s, i, "#") <==> i < |s| && s[i] == '#'
  {
    assert i < |s| ==> (EitherCase(s[i + 0], "#"[0]) <==> s[i] == '#');
  }

  lemma TechDebtIsRead(s: string, i: nat, a: nat, end: nat)
    requires TechDebtStands(s, i, a, end)
    ensures i < |s| && TechDebtAt(s, i)
  {
    HashStands(s, i);
    StandingIsRead(s, i + 1, "TECH-DEBT", a);
    StandingIsRead(s, a, ":", end);
  }

  lemma ReadIsTechDebt(s: string, i: nat) returns (a: nat, end: nat)
    requires i < |s| && TechDebtAt(s, i)
    ensures TechDebtStands(s, i, a, end)
  {
    a := Behind(s, i + 1, "TECH-DEBT").value;
    end := Behind(s, a, ":").value;
    HashStands(s, i);
    ReadStands(s, i + 1, "TECH-DEBT");
    ReadStands(s, a, ":");
  }

  /** A line matches the first pattern exactly when such a marker stands somewhere in it. */
  lemma HasTechDebtIff(s: string)
    ensures HasTechDebt(s) <==> exists i, a, end :: TechDebtStands(s, i, a, end)
  {
    forall i, a, end | TechDebtStands(s, i, a, end) ensures HasTechDebt(s) {
      TechDebtIsRead(s, i, a, end);
    }
    if HasTechDebt(s) {
      var i: nat :| i < |s| && TechDebtAt(s, i);
      var a, end := ReadIsTechDebt(s, i);
    }
  }

  lemma TodoDebtIsRead(s: string, i: nat, a: nat, b: nat, c: nat, d: nat, end: nat)
    requires TodoDebtStands(s, i, a, b, c, d, end)
    ensures i < |s| && TodoDebtAt(s, i)
  {
    TodoIsRead(s, i, a, b);
    DebtIsRead(s, b, c, d, end);
  }

  lemma TodoIsRead(s: string, i: nat, a: nat, b: nat)
    requires TodoStands(s, i, a, b)
    ensures i < |s| && s[i] == '#' && b <= |s| && Behind(s, i + 1, "TODO") == Some(a) && Behind(s, a, "(") == Some(b)
  {
    HashStands(s, i);
    StandingIsRead(s, i + 1, "TODO", a);
    StandingIsRead(s, a, "(", b);
  }

  lemma DebtIsRead(s: string, b: nat, c: nat, d: nat, end: nat)
    requires DebtStands(s, b, c, d, end) && b <= |s|
    ensures Behind(s, b, "DEBT") == Some(c) && Behind(s, c, ")") == Some(d) && Behind(s, d, ":") == Some(end)
  {
    StandingIsRead(s, b, "DEBT", c);
    StandingIsRead(s, c, ")", d);
    StandingIsRead(s, d, ":", end);
  }

  lemma TodoDebtParts(s: string, i: nat) returns (a: nat, b: nat, c: nat, d: nat, end: nat)
    requires i < |s| && TodoDebtAt(s, i)
    ensures s[i] == '#' && a <= |s| && b <= |s| && c <= |s| && d <= |s|
    ensures Behind(s, i + 1, "TODO") == Some(a) && Behind(s, a, "(") == Some(b) && Behind(s, b, "DEBT") == Some(c)
    ensures Behind(s, c, ")") == Some(d) && Behind(s, d, ":") == Some(end)
  {
    a := Behind(s, i + 1, "TODO").value;
    b := Behind(s, a, "(").value;
    c := Behind(s, b, "DEBT").value;
    d := Behind(s, c, ")").value;
    end := Behind(s, d, ":").value;
  }

  lemma ReadIsTodoDebt(s: string, i: nat) returns (a: nat, b: nat, c: nat, d: nat, end: nat)
    requires i < |s| && TodoDebtAt(s, i)
    ensures TodoDebtStands(s, i, a, b, c, d, end)
  {
    a, b, c, d, end := TodoDebtParts(s, i);
    ReadIsTodo(s, i, a, b);
    ReadIsDebt(s, b, c, d, end);
  }

  lemma ReadIsTodo(s: string, i: nat, a: nat, b: nat)
    requires i < |s| && s[i] == '#' && Behind(s, i + 1, "TODO") == Some(a) && Behind(s, a, "(") == Some(b)
    ensures TodoStands(s, i, a, b)
  {
    HashStands(s, i);
    ReadStands(s, i + 1, "TODO");
    ReadStands(s, a, "(");
  }

  lemma ReadIsDebt(s: string, b: nat, c: nat, d: nat, end: nat)
    requires b <= |s| && Behind(s, b, "DEBT") == Some(c) && Behind(s, c, ")") == Some(d) && Behind(s, d, ":") == Some(end)
    ensures DebtStands(s, b, c, d, end)
  {
    ReadStands(s, b, "DEBT");
    ReadStands(s, c, ")");
    ReadStands(s, d, ":");
  }

  /** The second pattern likewise. */
  lemma HasTodoDebtIff(s: string)
    ensures HasTodoDebt(s) <==> exists i, a, b, c, d, end :: TodoDebtStands(s, i, a, b, c, d, end)
  {
    forall i, a, b, c, d, end | TodoDebtStands(s, i, a, b, c, d, end) ensures HasTodoDebt(s) {
      TodoDebtIsRead(s, i, a, b, c, d, end);
    }
    if HasTodoDebt(s) {
      var i: nat :| i < |s| && TodoDebtAt(s, i);
      var a, b, c, d, end := ReadIsTodoDebt(s, i);
    }
  }

  /** The path starts with this directory; a backslash counts as a slash. */
  predicate Below(path: string, dir: string) {
    |dir| <= |path| && forall k :: 0 <= k < |dir| ==> path[k] == dir[k] || (dir[k] == '/' && path[k] == '\\')
  }

  lemma SlashedBelow(path: string, dir: string)
    requires '\\' !in dir
    ensures dir <= Slashed(path) <==> Below(path, dir)
  {
    if |dir| <= |path| {
      forall k | 0 <= k < |dir|
        ensures Slashed(path)[k] == dir[k] <==> path[k] == dir[k] || (dir[k] == '/' && path[k] == '\\')
      {
      }
    }
  }

  /** Exactly the files below the three source directories are watched. */
  lemma WatchedIff(path: string)
    ensures Watched(path) <==> Below(path, "pilotstd/") || Below(path, "docker/") || Below(path, "web/src/")
  {
    ExclusionsAreIdle(path);
    SlashedBelow(path, "pilotstd/");
    SlashedBelow(path, "docker/");
    SlashedBelow(path, "web/src/");
  }

  lemma MatchingDebt(content: string)
    ensures Matching(DebtGate().patterns, content)
         == (if HasTechDebt(content) then 1 else 0) + (if HasTodoDebt(content) then 1 else 0)
  {
    var p := DebtGate().patterns;
    assert p[0](content) == HasTechDebt(content) && p[1](content) == HasTodoDebt(content);
    assert p[1..] == [p[1]] && [p[1]][1..] == [];
    assert Matching([p[1]], content) == if p[1](content) then 1 else 0;
  }

  /** What an added line comes to: one report for each kind of marker in it, and none elsewhere. */
  lemma LineIsMarkedIff(file: string, line: int, content: string)
    ensures var tech := exists i, a, end :: TechDebtStands(content, i, a, end);
      var todo := exists i, a, b, c, d, end :: TodoDebtStands(content, i, a, b, c, d, end);
      Marks(DebtGate(), file, line, content)
      == seq(if Below(file, "pilotstd/") || Below(file, "docker/") || Below(file, "web/src/")
             then (if tech then 1 else 0) + (if todo then 1 else 0) else 0,
             _ => Marker(file, line, Strip(content)))
  {
    HasTechDebtIff(content);
    HasTodoDebtIff(content);
    WatchedIff(file);
    MatchingDebt(content);
  }

  // ---- The number in a hunk header ----

  /** A plus sign at `p` with all the digits behind it, up to `n`. */
  predicate NumberStands(s: string, p: nat, n: nat) {
    && p + 1 < n <= |s| && s[p] == '+' && (forall k :: p < k < n ==> IsDigit(s[k])) && (n < |s| ==> !IsDigit(s[n]))
  }

  predicate PlusDigit(s: string, p: nat) {
    p + 1 < |s| && s[p] == '+' && IsDigit(s[p + 1])
  }

  lemma {:induction false} DigitsEnd(s: string, i: nat, n: nat)
    requires i <= n <= |s| && (forall k :: i <= k < n ==> IsDigit(s[k])) && (n < |s| ==> !IsDigit(s[n]))
    ensures SkipDigits(s, i) == n
    decreases n - i
  {
    if i < n {
      DigitsEnd(s, i + 1, n);
    }
  }

  lemma {:induction false} FirstNumberIsRead(s: string, i: nat, p: nat, n: nat)
    requires i <= p && NumberStands(s, p, n) && forall k :: i <= k < p ==> !PlusDigit(s, k)
    ensures PlusNumber(s, i) == Some(Value(s[p + 1..n]))
    decreases p - i
  {
    if i < p {
      assert !PlusDigit(s, i);
      FirstNumberIsRead(s, i + 1, p, n);
    } else {
      DigitsEnd(s, p + 1, n);
    }
  }

  lemma {:induction false} NoNumberIsRead(s: string, i: nat)
    requires i <= |s| && forall k :: i <= k < |s| ==> !PlusDigit(s, k)
    ensures PlusNumber(s, i) == None
    decreases |s| - i
  {
    if i + 1 < |s| {
      assert !PlusDigit(s, i);
      NoNumberIsRead(s, i + 1);
    }
  }

  /** The start line is the number behind the first plus sign that has a digit behind it, with all its digits; there is
      none exactly when no plus sign has one. */
  lemma PlusNumberIs(s: string)
    ensures forall p: nat, n: nat :: NumberStands(s, p, n) && (forall k :: 0 <= k < p ==> !PlusDigit(s, k)) ==>
              PlusNumber(s, 0) == Some(Value(s[p + 1..n]))
    ensures (forall k :: 0 <= k < |s| ==> !PlusDigit(s, k)) ==> PlusNumber(s, 0) == None
  {
    forall p: nat, n: nat | NumberStands(s, p, n) && forall k :: 0 <= k < p ==> !PlusDigit(s, k)
      ensures PlusNumber(s, 0) == Some(Value(s[p + 1..n]))
    {
      FirstNumberIsRead(s, 0, p, n);
    }
    if forall k :: 0 <= k < |s| ==> !PlusDigit(s, k) {
      NoNumberIsRead(s, 0);
    }
  }
}
