/** `_clean_column` and the functions it calls (scripts/_sql_schema_parser.py): reduces one piece of SQL to a
    bare column name, or to nothing. */
module ColumnCleaner {
  import opened Basics
  import opened Characters

  /** What the parser looks names up in, in upper case. */
  datatype Names = Names(keywords: set<string>, functions: set<string>)

  const PYTHON_BUILTINS: set<string> := {"True", "False", "None", "self", "cls"}
  const COMPARISONS: seq<string> := [">=", "<=", "!=", "<>", "=", ">", "<"]
  const KEYWORD_CUTS: seq<string> := [" IS ", " IN ", " NOT ", " LIKE ", " GLOB ", " BETWEEN "]
  const ARITHMETIC: seq<string> := [" + ", " - ", " * ", " / "]

  // ---- Characters and text ----

  predicate IsQuote(c: char) {
    c == '\'' || c == '"'
  }

  function Upper(s: string): (r: string)
    ensures |r| == |s| && forall i :: 0 <= i < |s| ==> r[i] == UpperChar(s[i])
  {
    seq(|s|, i requires 0 <= i < |s| => UpperChar(s[i]))
  }

  predicate NoNewline(s: string) {
    forall i :: 0 <= i < |s| ==> s[i] != '\n'
  }

  /** `s.strip("'").strip('"')`. */
  function StripQuotes(s: string): (r: string)
    ensures |r| <= |s|
  {
    Trim(Trim(s, SingleQuotes), DoubleQuotes)
  }

  /** The first occurrence of `p` at or after `i`. */
  function Find(s: string, p: string, i: nat): (r: Option<nat>)
    requires i <= |s|
    ensures r.Some? ==> i <= r.value && r.value + |p| <= |s| && s[r.value..r.value + |p|] == p
    decreases |s| - i
  {
    if i + |p| > |s| then None
    else if s[i..i + |p|] == p then Some(i)
    else if i == |s| then None
    else Find(s, p, i + 1)
  }

  // ---- The cleaning steps ----

  /** White space, `AS` in any case, and white space again, from position `i`. */
  predicate AliasAt(s: string, i: nat)
    requires i <= |s|
  {
    var n := SkipSpaces(s, i);
    i < n && n + 2 < |s| && UpperChar(s[n]) == 'A' && UpperChar(s[n + 1]) == 'S' && IsSpace(s[n + 2])
  }

  /** Where the first alias starts, or the end. */
  function AliasStart(s: string, i: nat): (n: nat)
    requires i <= |s|
    ensures i <= n <= |s|
    decreases |s| - i
  {
    if i == |s| || AliasAt(s, i) then i else AliasStart(s, i + 1)
  }

  /** `_strip_as_alias`. */
  function StripAsAlias(col: string): (r: string)
    ensures |r| <= |col|
  {
    Strip(col[..AliasStart(col, 0)])
  }

  /** The opening bracket of a call at the start of a text: a word, white space, a bracket. */
  function CallAt(col: string): (open: Option<nat>)
    ensures open.Some? ==> 0 < open.value < |col| && col[open.value] == '('
  {
    var w := SkipWord(col, 0);
    var o := SkipSpaces(col, w);
    if w > 0 && o < |col| && col[o] == '(' then Some(o) else None
  }

  /** The argument of a call of a known function with one plain argument; the argument list may not
      contain a newline and must reach the last character. */
  function SingleArgument(names: Names, col: string): (r: Option<string>)
    requires CallAt(col).Some?
    ensures r.Some? ==> |r.value| < |col|
  {
    var open := CallAt(col).value;
    var func := Upper(col[..SkipWord(col, 0)]);
    if col[|col| - 1] != ')' || open + 1 > |col| - 1 then None
    else
      var args := col[open + 1..|col| - 1];
      if !NoNewline(args) || !(func in names.keywords || func in names.functions) then None
      else if args != "" && args != "*" && ',' !in args then Some(args)
      else None
  }

  /** `_extract_func_arg` for a text that is a call. */
  function ExtractFuncArg(names: Names, col: string): (r: string)
    requires CallAt(col).Some?
    ensures |r| <= |col|
    decreases |col|, 0
  {
    var args := SingleArgument(names, col);
    if args.Some? then CleanColumn(names, args.value) else ""
  }

  /** The first separator of a list that occurs, after position `from`, and where. */
  function FirstCut(text: string, ops: seq<string>, from: nat): (r: Option<nat>)
    ensures r.Some? ==> r.value <= |text|
  {
    if ops == [] then None
    else
      var at := Find(text, ops[0], 0);
      if at.Some? && at.value >= from then at else FirstCut(text, ops[1..], from)
  }

  /** The text before the first separator that occurs. */
  function CutAt(s: string, text: string, ops: seq<string>, from: nat): (r: string)
    requires |text| == |s|
    ensures |r| <= |s|
  {
    var at := FirstCut(text, ops, from);
    if at.Some? then Strip(s[..at.value]) else s
  }

  /** The first part of a concatenation, and what is left behind `||`. */
  function FirstPart(col: string): (r: (string, Option<string>))
    ensures |r.0| <= |col| && (r.1.Some? ==> |r.1.value| < |col|)
  {
    var at := Find(col, "||", 0);
    if at.Some? then (col[..at.value], Some(col[at.value + 2..])) else (col, None)
  }

  function Unquoted(part: string): (r: string)
    ensures |r| <= |part|
  {
    StripQuotes(Strip(part))
  }

  /** The first part of a concatenation that is not a keyword, without quotes. */
  function FirstOperand(names: Names, col: string): (r: string)
    ensures |r| <= |col|
    decreases |col|
  {
    var (part, rest) := FirstPart(col);
    var cleaned := Unquoted(part);
    if cleaned != "" && Upper(cleaned) !in names.keywords then cleaned
    else if rest.Some? then FirstOperand(names, rest.value)
    else ""
  }

  /** `_split_expression`. */
  function SplitExpression(names: Names, col: string): (r: string)
    ensures |r| <= |col|
  {
    if Find(col, "||", 0).Some? then FirstOperand(names, col)
    else
      var a := CutAt(col, col, COMPARISONS, 0);
      var b := CutAt(a, Upper(a), KEYWORD_CUTS, 1);
      CutAt(b, b, ARITHMETIC, 0)
  }

  /** One of the three loops of `_split_expression` that cut a text at the first separator found. */
  method CutLoop(s: string, text: string, ops: seq<string>, from: nat) returns (col: string)
    requires |text| == |s|
    ensures col == CutAt(s, text, ops, from)
  {
    col := s;
    for k := 0 to |ops|
      invariant col == s && FirstCut(text, ops[k..], from) == FirstCut(text, ops, from)
    {
      assert ops[k..][1..] == ops[k + 1..];
      var at := Find(text, ops[k], 0);
      if at.Some? && at.value >= from {
        col := Strip(s[..at.value]);
        return;
      }
    }
  }

  /** The loop of `_split_expression` over the parts of a concatenation. */
  method OperandLoop(names: Names, text: string) returns (col: string)
    ensures col == FirstOperand(names, text)
  {
    var parts := Some(text);
    while parts.Some?
      invariant FirstOperand(names, text) == if parts.Some? then FirstOperand(names, parts.value) else ""
      decreases if parts.Some? then |parts.value| + 1 else 0
    {
      var (part, rest) := FirstPart(parts.value);
      var cleaned := Unquoted(part);
      if cleaned != "" && Upper(cleaned) !in names.keywords {
        return cleaned;
      }
      parts := rest;
    }
    return "";
  }

  /** The loops of `_split_expression`, of which the later ones read what the earlier ones left in `col`. */
  method ComputeSplitExpression(names: Names, text: string) returns (col: string)
    ensures col == SplitExpression(names, text)
  {
    if Find(text, "||", 0).Some? {
      col := OperandLoop(names, text);
      return;
    }
    col := CutLoop(text, text, COMPARISONS, 0);
    col := CutLoop(col, Upper(col), KEYWORD_CUTS, 1);
    col := CutLoop(col, col, ARITHMETIC, 0);
  }

  /** A letter or underscore, then word characters. */
  predicate IsIdentifier(s: string) {
    s != "" && IsLetter(s[0]) && forall i :: 0 <= i < |s| ==> IsWord(s[i])
  }

  /** What the final check accepts: in the pattern, `$` also matches before a last newline. */
  predicate PassesFinalCheck(s: string) {
    IsIdentifier(s) || (|s| > 0 && s[|s| - 1] == '\n' && IsIdentifier(s[..|s| - 1]))
  }

  predicate Reserved(names: Names, s: string) {
    Upper(s) in names.keywords || Upper(s) in PYTHON_BUILTINS
  }

  predicate IsCleanOrEmpty(names: Names, r: string) {
    r == "" || (PassesFinalCheck(r) && !Reserved(names, r))
  }

  /** The last guard of `_clean_column`. */
  predicate Accepted(names: Names, col: string) {
    var c := StripQuotes(Strip(col));
    c != "" && !Reserved(names, c) && PassesFinalCheck(c)
  }

  function FinalCheck(names: Names, col: string): (r: string)
    ensures |r| <= |col|
  {
    if Accepted(names, col) then StripQuotes(Strip(col)) else ""
  }

  /** Where the text after the last dot before `n` starts. */
  function AfterDot(s: string, n: nat): (i: nat)
    requires n <= |s|
    ensures i <= n
  {
    if n == 0 || s[n - 1] == '.' then n else AfterDot(s, n - 1)
  }

  /** The column name behind a table prefix. */
  function Qualified(col: string): (r: string)
    ensures |r| <= |col|
  {
    if '.' in col then Strip(col[AfterDot(col, |col|)..]) else col
  }

  /** The last steps of `_clean_column`, for a text that is not a call. */
  function CleanName(names: Names, col: string): (r: string)
    ensures |r| <= |col|
  {
    if Strip(Upper(col)) in names.keywords || Strip(Upper(col)) in PYTHON_BUILTINS then ""
    else
      FinalCheck(names, SplitExpression(names, Qualified(col)))
  }

  /** The first steps of `_clean_column`: nothing for placeholders and literals, else the text without
      white space around it and without its alias. */
  function Peel(raw: string): (r: Option<string>)
    ensures r.Some? ==> |r.value| <= |raw|
  {
    var col := Strip(raw);
    if col == "" || '{' in col || '}' in col || IsQuote(col[0]) || IsDigit(col[0]) then None
    else Some(StripAsAlias(col))
  }

  /** `_clean_column`. */
  function CleanColumn(names: Names, raw: string): (r: string)
    ensures |r| <= |raw|
    decreases |raw|, 1
  {
    var col := Peel(raw);
    if col.None? then ""
    else if CallAt(col.value).Some? then ExtractFuncArg(names, col.value)
    else CleanName(names, col.value)
  }

  // ---- What the cleaner guarantees ----

  /** The text that reaches the last strip and the final check, if one does. */
  function Reached(names: Names, raw: string): Option<string>
    decreases |raw|
  {
    var col := Peel(raw);
    if col.None? then None
    else if CallAt(col.value).Some? then
      var args := SingleArgument(names, col.value);
      if args.Some? then Reached(names, args.value) else None
    else if Strip(Upper(col.value)) in names.keywords || Strip(Upper(col.value)) in PYTHON_BUILTINS then None
    else Some(SplitExpression(names, Qualified(col.value)))
  }

  lemma {:induction false} CleanIsFinalCheck(names: Names, raw: string)
    ensures var u := Reached(names, raw); CleanColumn(names, raw) == if u.None? then "" else FinalCheck(names, u.value)
    decreases |raw|
  {
    var col := Peel(raw);
    if col.Some? && CallAt(col.value).Some? && SingleArgument(names, col.value).Some? {
      CleanIsFinalCheck(names, SingleArgument(names, col.value).value);
    }
  }

  /** Properties that every piece of a text inherits from it. */
  datatype Property = NoNewlines | NoNewlineBeforeQuote

  predicate Has(p: Property, s: string) {
    match p
    case NoNewlines => NoNewline(s)
    case NoNewlineBeforeQuote => forall i :: 0 <= i < |s| - 1 && s[i] == '\n' ==> !IsQuote(s[i + 1])
  }

  lemma PieceHas(p: Property, s: string, i: nat, j: nat)
    requires i <= j <= |s| && Has(p, s)
    ensures Has(p, s[i..j])
  {
    assert forall k :: 0 <= k < j - i ==> s[i..j][k] == s[i + k];
    if p.NoNewlineBeforeQuote? {
      var t := s[i..j];
      forall k | 0 <= k < |t| - 1 && t[k] == '\n' ensures !IsQuote(t[k + 1]) {
        assert s[i + k] == '\n' && s[(i + k) + 1] == t[k + 1];
      }
    }
  }

  lemma TrimHas(p: Property, s: string, drop: Strippable)
    requires Has(p, s)
    ensures Has(p, Trim(s, drop))
  {
    var i := FirstKept(s, drop, 0);
    PieceHas(p, s, i, LastKept(s, drop, i, |s|));
  }

  lemma QuotesHave(p: Property, s: string)
    requires Has(p, s)
    ensures Has(p, StripQuotes(Strip(s)))
  {
    TrimHas(p, s, Spaces);
    TrimHas(p, Strip(s), SingleQuotes);
    TrimHas(p, Trim(Strip(s), SingleQuotes), DoubleQuotes);
  }

  lemma CutHas(p: Property, s: string, text: string, ops: seq<string>, from: nat)
    requires |text| == |s| && Has(p, s)
    ensures Has(p, CutAt(s, text, ops, from))
  {
    var at := FirstCut(text, ops, from);
    if at.Some? {
      PieceHas(p, s, 0, at.value);
      TrimHas(p, s[..at.value], Spaces);
    }
  }

  lemma PartsHave(p: Property, s: string)
    requires Has(p, s)
    ensures var (part, rest) := FirstPart(s); Has(p, Unquoted(part)) && (rest.Some? ==> Has(p, rest.value))
  {
    var at := Find(s, "||", 0);
    if at.Some? {
      PieceHas(p, s, 0, at.value);
      PieceHas(p, s, at.value + 2, |s|);
    }
    QuotesHave(p, FirstPart(s).0);
  }

  lemma {:induction false} OperandHas(p: Property, names: Names, s: string)
    requires Has(p, s)
    ensures Has(p, FirstOperand(names, s))
    decreases |s|
  {
    PartsHave(p, s);
    var rest := FirstPart(s).1;
    if rest.Some? {
      OperandHas(p, names, rest.value);
    }
  }

  lemma ExpressionHas(p: Property, names: Names, s: string)
    requires Has(p, s)
    ensures Has(p, SplitExpression(names, s))
  {
    if Find(s, "||", 0).Some? {
      OperandHas(p, names, s);
    } else {
      var a := CutAt(s, s, COMPARISONS, 0);
      var b := CutAt(a, Upper(a), KEYWORD_CUTS, 1);
      CutHas(p, s, s, COMPARISONS, 0);
      CutHas(p, a, Upper(a), KEYWORD_CUTS, 1);
      CutHas(p, b, b, ARITHMETIC, 0);
    }
  }

  lemma QualifiedHas(p: Property, s: string)
    requires Has(p, s)
    ensures Has(p, Qualified(s))
  {
    var i := AfterDot(s, |s|);
    PieceHas(p, s, i, |s|);
    TrimHas(p, s[i..], Spaces);
  }

  lemma PeelHas(p: Property, raw: string)
    requires Has(p, raw)
    ensures Peel(raw).Some? ==> Has(p, Peel(raw).value)
  {
    var col := Strip(raw);
    TrimHas(p, raw, Spaces);
    PieceHas(p, col, 0, AliasStart(col, 0));
    TrimHas(p, col[..AliasStart(col, 0)], Spaces);
  }

  lemma ArgumentHas(p: Property, names: Names, col: string)
    requires Has(p, col) && CallAt(col).Some?
    ensures SingleArgument(names, col).Some? ==> Has(p, SingleArgument(names, col).value)
  {
    if SingleArgument(names, col).Some? {
      PieceHas(p, col, CallAt(col).value + 1, |col| - 1);
    }
  }

  /** What reaches the final check is a piece of the input, and so is the result. */
  lemma {:induction false} ReachedHas(p: Property, names: Names, raw: string)
    requires Has(p, raw)
    ensures Reached(names, raw).Some? ==> Has(p, Reached(names, raw).value)
    decreases |raw|
  {
    PeelHas(p, raw);
    var col := Peel(raw);
    if col.Some? {
      if CallAt(col.value).None? {
        QualifiedHas(p, col.value);
        ExpressionHas(p, names, Qualified(col.value));
      } else {
        ArgumentHas(p, names, col.value);
        if SingleArgument(names, col.value).Some? {
          ReachedHas(p, names, SingleArgument(names, col.value).value);
        }
      }
    }
  }

  lemma CleanKeepsNoNewline(names: Names, raw: string)
    requires NoNewline(raw)
    ensures NoNewline(CleanColumn(names, raw))
  {
    CleanIsFinalCheck(names, raw);
    ReachedHas(NoNewlines, names, raw);
    if Reached(names, raw).Some? {
      QuotesHave(NoNewlines, Reached(names, raw).value);
    }
  }

  /** Whatever the input, the result is empty or passes the final check, and is not reserved. */
  lemma {:induction false} CleanPassesFinalCheck(names: Names, raw: string)
    ensures IsCleanOrEmpty(names, CleanColumn(names, raw))
    decreases |raw|
  {
    var col := Peel(raw);
    if col.Some? && CallAt(col.value).Some? && SingleArgument(names, col.value).Some? {
      CleanPassesFinalCheck(names, SingleArgument(names, col.value).value);
    }
  }

  /** For text without newlines the result is empty or an identifier that is not reserved. */
  lemma CleanIsIdentifier(names: Names, raw: string)
    requires NoNewline(raw)
    ensures var r := CleanColumn(names, raw); r == "" || (IsIdentifier(r) && !Reserved(names, r))
  {
    CleanKeepsNoNewline(names, raw);
    CleanPassesFinalCheck(names, raw);
  }

  lemma {:induction false} NoAliasInWord(s: string, i: nat)
    requires i <= |s| && forall k :: i <= k < |s| ==> IsWord(s[k])
    ensures AliasStart(s, i) == |s|
    decreases |s| - i
  {
    if i < |s| {
      NoAliasInWord(s, i + 1);
    }
  }

  lemma {:induction false} WordIsSkipped(s: string, i: nat)
    requires i <= |s| && forall k :: i <= k < |s| ==> IsWord(s[k])
    ensures SkipWord(s, i) == |s|
    decreases |s| - i
  {
    if i < |s| {
      WordIsSkipped(s, i + 1);
    }
  }

  lemma {:induction false} NotFoundWithout(s: string, p: string, i: nat)
    requires i <= |s| && p != "" && p[0] !in s
    ensures Find(s, p, i).None?
    decreases |s| - i
  {
    if i + |p| <= |s| {
      assert s[i..i + |p|][0] == s[i];
      NotFoundWithout(s, p, i + 1);
    }
  }

  /** Every separator starts with a character that the text does not have. */
  ghost predicate Foreign(ops: seq<string>, text: string) {
    forall i :: 0 <= i < |ops| ==> ops[i] != "" && ops[i][0] !in text
  }

  lemma {:induction false} NoCutWithout(text: string, ops: seq<string>, from: nat)
    requires Foreign(ops, text)
    ensures FirstCut(text, ops, from).None?
  {
    if ops != [] {
      NotFoundWithout(text, ops[0], 0);
      assert forall i :: 0 <= i < |ops[1..]| ==> ops[1..][i] == ops[i + 1];
      NoCutWithout(text, ops[1..], from);
    }
  }

  /** A text with no operator character and no space is not an expression. */
  lemma NoOperator(names: Names, s: string)
    requires '|' !in s && '<' !in s && '>' !in s && '!' !in s && '=' !in s && ' ' !in s
    ensures SplitExpression(names, s) == s
  {
    NotFoundWithout(s, "||", 0);
    assert ' ' !in Upper(s);
    NoCutWithout(s, COMPARISONS, 0);
    NoCutWithout(Upper(s), KEYWORD_CUTS, 1);
    NoCutWithout(s, ARITHMETIC, 0);
  }

  lemma WordCharacterStays(drop: Strippable, c: char)
    requires IsWord(c)
    ensures !Dropped(drop, c)
  {
  }

  lemma WordEndsStay(s: string, drop: Strippable)
    requires s != "" && IsWord(s[0]) && IsWord(s[|s| - 1])
    ensures Trim(s, drop) == s
  {
    WordCharacterStays(drop, s[0]);
    WordCharacterStays(drop, s[|s| - 1]);
  }

  lemma NothingToTrim(s: string)
    requires s != "" && IsWord(s[0]) && IsWord(s[|s| - 1])
    ensures Strip(s) == s && StripQuotes(s) == s
  {
    WordEndsStay(s, Spaces);
    WordEndsStay(s, SingleQuotes);
    WordEndsStay(s, DoubleQuotes);
  }

  lemma IdentifierEnds(s: string)
    requires IsIdentifier(s)
    ensures IsWord(s[0]) && IsWord(s[|s| - 1]) && IsWord(Upper(s)[0]) && IsWord(Upper(s)[|s| - 1])
  {
  }

  lemma IdentifierHasNoAlias(s: string)
    requires IsIdentifier(s)
    ensures Strip(s) == s && StripAsAlias(s) == s
  {
    IdentifierEnds(s);
    NothingToTrim(s);
    NoAliasInWord(s, 0);
    assert s[..|s|] == s;
  }

  lemma IdentifierIsPeeled(s: string)
    requires IsIdentifier(s)
    ensures Peel(s) == Some(s)
  {
    IdentifierHasNoAlias(s);
    assert forall c :: c in s ==> IsWord(c);
  }

  lemma IdentifierIsNoCall(s: string)
    requires IsIdentifier(s)
    ensures CallAt(s).None?
  {
    WordIsSkipped(s, 0);
  }

  lemma IdentifierIsNoExpression(names: Names, s: string)
    requires IsIdentifier(s)
    ensures SplitExpression(names, s) == s && '.' !in s
  {
    assert forall c :: c in s ==> IsWord(c);
    NoOperator(names, s);
  }

  lemma IdentifierPassesFinalCheck(names: Names, s: string)
    requires IsIdentifier(s) && !Reserved(names, s)
    ensures FinalCheck(names, s) == s
  {
    IdentifierEnds(s);
    NothingToTrim(s);
  }

  lemma CleanNameKeepsIdentifier(names: Names, s: string)
    requires IsIdentifier(s) && !Reserved(names, s)
    ensures CleanName(names, s) == s
  {
    IdentifierEnds(s);
    WordEndsStay(Upper(s), Spaces);
    IdentifierIsNoExpression(names, s);
    IdentifierPassesFinalCheck(names, s);
  }

  /** An identifier that is not reserved is already clean. */
  lemma IdentifierIsFixed(names: Names, s: string)
    requires IsIdentifier(s) && !Reserved(names, s)
    ensures CleanColumn(names, s) == s
  {
    IdentifierIsPeeled(s);
    IdentifierIsNoCall(s);
    CleanNameKeepsIdentifier(names, s);
  }

  lemma CleanIsNoLonger(names: Names, r: string)
    ensures |CleanColumn(names, r)| <= |Strip(r)|
  {
  }

  lemma StripDropsLast(r: string)
    requires r != "" && IsSpace(r[|r| - 1])
    ensures |Strip(r)| < |r|
  {
  }

  // ---- When cleaning is idempotent ----

  /** Cleaning its own result only drops a newline at the end. */
  lemma SecondCleaning(names: Names, r: string)
    requires IsCleanOrEmpty(names, r)
    ensures CleanColumn(names, r) == r <==> r == "" || r[|r| - 1] != '\n'
  {
    if r == "" {
    } else if IsIdentifier(r) {
      IdentifierIsFixed(names, r);
      assert IsWord(r[|r| - 1]);
    } else {
      StripDropsLast(r);
      CleanIsNoLonger(names, r);
    }
  }

  /** Just past the last character in front of the closing quotes: double ones, and single ones behind them. */
  function QuotedEnd(s: string): (n: nat)
    ensures n <= |s|
  {
    LastKept(s, DoubleQuotes, 0, LastKept(s, SingleQuotes, 0, |s|))
  }

  /** A newline stands directly in front of the closing quotes. */
  predicate NewlineUnderQuotes(s: string) {
    0 < QuotedEnd(s) < |s| && s[QuotedEnd(s) - 1] == '\n'
  }

  lemma {:induction false} LastKeptFrom(s: string, drop: Strippable, i: nat, n: nat)
    requires i <= n <= |s| && i < LastKept(s, drop, i, n)
    ensures LastKept(s, drop, 0, n) == LastKept(s, drop, i, n)
    decreases n - i
  {
    if i < n && Dropped(drop, s[n - 1]) {
      LastKeptFrom(s, drop, i, n - 1);
    }
  }

  lemma {:induction false} LastKeptOfPiece(s: string, v: string, drop: Strippable, i: nat, n: nat)
    requires n <= |v| && i + |v| <= |s| && forall k :: 0 <= k < |v| ==> v[k] == s[i + k]
    requires 0 < LastKept(v, drop, 0, n)
    ensures LastKept(s, drop, 0, i + n) == i + LastKept(v, drop, 0, n)
    decreases n
  {
    if Dropped(drop, v[n - 1]) {
      LastKeptOfPiece(s, v, drop, i, n - 1);
    }
  }

  /** A trimmed text ends where the dropped characters begin. */
  lemma TrimEnd(s: string, drop: Strippable) returns (i: nat, n: nat)
    requires Trim(s, drop) != ""
    ensures n == LastKept(s, drop, 0, |s|) && i < n <= |s| && Trim(s, drop) == s[i..n]
    ensures Trim(s, drop)[|Trim(s, drop)| - 1] == s[n - 1]
  {
    i := FirstKept(s, drop, 0);
    n := LastKept(s, drop, i, |s|);
    LastKeptFrom(s, drop, i, |s|);
  }

  lemma TrimOfPieceEnd(s: string, v: string, i: nat, drop: Strippable)
    requires i + |v| <= |s| && forall k :: 0 <= k < |v| ==> v[k] == s[i + k]
    requires Trim(v, drop) != ""
    ensures var r, n := Trim(v, drop), LastKept(s, drop, 0, i + |v|); 0 < n && r[|r| - 1] == s[n - 1]
  {
    var j, n := TrimEnd(v, drop);
    LastKeptOfPiece(s, v, drop, i, |v|);
    assert v[n - 1] == s[i + (n - 1)];
  }

  lemma StripQuotesEnd(s: string)
    requires StripQuotes(s) != ""
    ensures 0 < QuotedEnd(s) && StripQuotes(s)[|StripQuotes(s)| - 1] == s[QuotedEnd(s) - 1]
  {
    var i, m := TrimEnd(s, SingleQuotes);
    TrimOfPieceEnd(s, s[i..m], i, DoubleQuotes);
  }

  /** What passes the final check ends in a newline exactly when a newline stood in front of closing quotes. */
  lemma FinalNewlineIff(names: Names, u: string)
    requires Accepted(names, u)
    ensures var r := FinalCheck(names, u); r[|r| - 1] == '\n' <==> NewlineUnderQuotes(Strip(u))
  {
    StripQuotesEnd(Strip(u));
    assert !IsSpace(Strip(u)[|Strip(u)| - 1]);
  }

  /** Cleaning twice is cleaning once, except where a text reaches the final check that has a newline in front of
      its closing quotes and is accepted. */
  lemma CleaningIsIdempotentIff(names: Names, raw: string)
    ensures CleanColumn(names, CleanColumn(names, raw)) == CleanColumn(names, raw)
            <==> var u := Reached(names, raw);
                 !(u.Some? && NewlineUnderQuotes(Strip(u.value)) && Accepted(names, u.value))
  {
    var u := Reached(names, raw);
    CleanIsFinalCheck(names, raw);
    CleanPassesFinalCheck(names, raw);
    SecondCleaning(names, CleanColumn(names, raw));
    if u.Some? && Accepted(names, u.value) {
      FinalNewlineIff(names, u.value);
    }
  }

  lemma QuotedEndIsBeforeQuote(s: string)
    requires QuotedEnd(s) < |s|
    ensures IsQuote(s[QuotedEnd(s)])
  {
    var m := LastKept(s, SingleQuotes, 0, |s|);
    if QuotedEnd(s) < m {
      DroppedBehind(s, DoubleQuotes, m);
    } else {
      DroppedBehind(s, SingleQuotes, |s|);
    }
  }

  lemma {:induction false} DroppedBehind(s: string, drop: Strippable, n: nat)
    requires n <= |s| && LastKept(s, drop, 0, n) < n
    ensures Dropped(drop, s[LastKept(s, drop, 0, n)])
    decreases n
  {
    if LastKept(s, drop, 0, n - 1) < n - 1 {
      DroppedBehind(s, drop, n - 1);
    }
  }

  lemma NothingUnderQuotes(s: string)
    requires Has(NoNewlineBeforeQuote, s)
    ensures !NewlineUnderQuotes(s)
  {
    var n := QuotedEnd(s);
    if n < |s| {
      QuotedEndIsBeforeQuote(s);
      assert 0 < n ==> IsQuote(s[(n - 1) + 1]);
    }
  }

  /** In particular it is so for every input without a newline directly in front of a quote. */
  lemma IdempotentWithoutQuotedNewline(names: Names, raw: string)
    requires Has(NoNewlineBeforeQuote, raw)
    ensures CleanColumn(names, CleanColumn(names, raw)) == CleanColumn(names, raw)
  {
    var u := Reached(names, raw);
    CleaningIsIdempotentIff(names, raw);
    ReachedHas(NoNewlineBeforeQuote, names, raw);
    if u.Some? {
      TrimHas(NoNewlineBeforeQuote, u.value, Spaces);
      NothingUnderQuotes(Strip(u.value));
    }
  }

  // ---- A newline that survives ----

  /** A dot, and a quoted name with a newline before its closing quote. */
  function NewlineName(x: string): string {
    ".'" + x + "\n'"
  }

  lemma {:induction false} OneSpaceIsNoAlias(s: string, i: nat)
    requires i <= |s| && forall k :: i <= k < |s| && k != |s| - 2 ==> !IsSpace(s[k])
    ensures AliasStart(s, i) == |s|
    decreases |s| - i
  {
    if i < |s| {
      OneSpaceIsNoAlias(s, i + 1);
    }
  }

  lemma {:induction false} AfterDotIs(s: string, n: nat, i: nat)
    requires 0 < i <= n <= |s| && s[i - 1] == '.' && forall k :: i <= k < n ==> s[k] != '.'
    ensures AfterDot(s, n) == i
    decreases n
  {
    if i < n {
      AfterDotIs(s, n - 1, i);
    }
  }

  lemma NewlineNameIsPeeled(x: string)
    requires IsIdentifier(x)
    ensures Peel(NewlineName(x)) == Some(NewlineName(x)) && CallAt(NewlineName(x)).None?
  {
    var s := NewlineName(x);
    assert s[0] == '.' && s[1] == '\'' && s[|s| - 1] == '\'' && s[|s| - 2] == '\n';
    forall k | 2 <= k < |s| - 2 ensures IsWord(s[k]) {
      assert s[k] == x[k - 2];
    }
    OneSpaceIsNoAlias(s, 0);
    assert s[..|s|] == s;
  }

  lemma NewlineNameIsQualified(x: string)
    requires IsIdentifier(x)
    ensures Qualified(NewlineName(x)) == "'" + x + "\n'"
  {
    var s, name := NewlineName(x), "'" + x + "\n'";
    assert s[0] == '.' && s[1..] == name;
    forall k | 1 <= k < |s| ensures s[k] != '.' {
      assert s[k] == name[k - 1];
    }
    AfterDotIs(s, |s|, 1);
    assert '.' in s;
  }

  lemma NewlineNameIsNoExpression(names: Names, x: string)
    requires IsIdentifier(x)
    ensures SplitExpression(names, "'" + x + "\n'") == "'" + x + "\n'"
  {
    var name := "'" + x + "\n'";
    forall c | c in name ensures c == '\'' || c == '\n' || IsWord(c) {
    }
    NoOperator(names, name);
  }

  lemma NewlineNameUnquoted(x: string)
    requires IsIdentifier(x)
    ensures StripQuotes(Strip("'" + x + "\n'")) == x + "\n"
  {
    var name := "'" + x + "\n'";
    assert name[0] == '\'' && name[1] == x[0] && name[|name| - 1] == '\'' && name[|name| - 2] == '\n';
    assert FirstKept(name, SingleQuotes, 0) == 1 by {
      assert FirstKept(name, SingleQuotes, 1) == 1;
    }
    assert LastKept(name, SingleQuotes, 1, |name|) == |name| - 1;
    assert name[1..|name| - 1] == x + "\n";
  }

  lemma NewlineNameIsAccepted(names: Names, x: string)
    requires IsIdentifier(x) && Upper(x + "\n") !in names.keywords
    ensures Accepted(names, "'" + x + "\n'")
  {
    NewlineNameUnquoted(x);
    NotAPythonName(x + "\n");
    assert (x + "\n")[..|x|] == x;
  }

  /** Such a name comes out with the newline, and without it when it is cleaned again. */
  lemma NewlineSurvives(names: Names, x: string)
    requires IsIdentifier(x) && Upper(x + "\n") !in names.keywords && Upper(NewlineName(x)) !in names.keywords
    ensures CleanColumn(names, NewlineName(x)) == x + "\n"
  {
    var s := NewlineName(x);
    NewlineNameIsPeeled(x);
    NewlineNameIsQualified(x);
    NewlineNameIsNoExpression(names, x);
    NewlineNameIsAccepted(names, x);
    NewlineNameUnquoted(x);
    NotAPythonName(s);
    UpperKeepsEnds(s);
  }

  lemma UpperKeepsEnds(s: string)
    requires s != "" && s[0] == '.' && s[|s| - 1] == '\''
    ensures Strip(Upper(s)) == Upper(s)
  {
  }

  lemma NotAPythonName(s: string)
    ensures Upper(s) !in PYTHON_BUILTINS
  {
    assert forall i :: 0 <= i < |s| ==> !('a' <= Upper(s)[i] <= 'z');
    assert "True"[1] == 'r' && "False"[1] == 'a' && "None"[1] == 'o' && "self"[1] == 'e' && "cls"[1] == 'l';
  }

  /** The check against Python's own names never succeeds: it compares upper-cased text with names that
      contain lower-case letters. So `self`, `None` and the rest are kept as column names. */
  lemma PythonNamesAreKept(names: Names, s: string)
    ensures Upper(s) !in PYTHON_BUILTINS
    ensures s in PYTHON_BUILTINS && Upper(s) !in names.keywords ==> CleanColumn(names, s) == s
  {
    NotAPythonName(s);
    if s in PYTHON_BUILTINS && Upper(s) !in names.keywords {
      IdentifierIsFixed(names, s);
    }
  }
}
