/** The reader of `git diff` output that collects debt markers on added lines
    (scripts/check_g_030_tech_debt.py). */
module DiffReader {
  import opened Basics
  import opened Characters

  datatype Marker = Marker(file: string, line: int, content: string)

  // ---- Markers and paths ----

  /** The upper-case word behind any white space at `i`: the position behind it. */
  function Behind(s: string, i: nat, word: string): (n: Option<nat>)
    requires i <= |s|
    ensures n.Some? ==> n.value <= |s|
  {
    var w := SkipSpaces(s, i);
    if WordAt(s, w, word) then Some(w + |word|) else None
  }

  /** `#\s*TECH-DEBT\s*:` at `i`, in any case. */
  predicate TechDebtAt(s: string, i: nat)
    requires i < |s|
  {
    var a := if s[i] == '#' then Behind(s, i + 1, "TECH-DEBT") else None;
    a.Some? && Behind(s, a.value, ":").Some?
  }

  /** `#\s*TODO\s*\(\s*debt\s*\)\s*:` at `i`, in any case. */
  predicate TodoDebtAt(s: string, i: nat)
    requires i < |s|
  {
    var a := if s[i] == '#' then Behind(s, i + 1, "TODO") else None;
    var b := if a.Some? then Behind(s, a.value, "(") else None;
    var c := if b.Some? then Behind(s, b.value, "DEBT") else None;
    var d := if c.Some? then Behind(s, c.value, ")") else None;
    d.Some? && Behind(s, d.value, ":").Some?
  }

  predicate HasTechDebt(s: string) {
    exists i :: 0 <= i < |s| && TechDebtAt(s, i)
  }

  predicate HasTodoDebt(s: string) {
    exists i :: 0 <= i < |s| && TodoDebtAt(s, i)
  }

  function Slashed(path: string): (r: string)
    ensures |r| == |path|
  {
    seq(|path|, i requires 0 <= i < |path| => if path[i] == '\\' then '/' else path[i])
  }

  predicate IsSourceFile(path: string) {
    var fp := Slashed(path);
    "pilotstd/" <= fp || "docker/" <= fp || "web/src/" <= fp
  }

  predicate IsExcluded(path: string) {
    var fp := Slashed(path);
    "docs/" <= fp || "tests/" <= fp || "scripts/" <= fp || "web/node_modules/" <= fp
  }

  predicate Watched(path: string) {
    IsSourceFile(path) && !IsExcluded(path)
  }

  /** The exclusions never take anything away from the source directories. */
  lemma ExclusionsAreIdle(path: string)
    ensures Watched(path) <==> IsSourceFile(path)
  {
    var fp := Slashed(path);
    assert "docker/" <= fp ==> fp[0] == "docker/"[0] && fp[3] == "docker/"[3];
    assert "docs/" <= fp ==> fp[0] == "docs/"[0] && fp[3] == "docs/"[3];
    assert "web/src/" <= fp ==> fp[0] == "web/src/"[0] && fp[4] == "web/src/"[4];
    assert "web/node_modules/" <= fp ==> fp[0] == "web/node_modules/"[0] && fp[4] == "web/node_modules/"[4];
    assert "pilotstd/" <= fp ==> fp[0] == "pilotstd/"[0];
    assert "tests/" <= fp ==> fp[0] == "tests/"[0];
    assert "scripts/" <= fp ==> fp[0] == "scripts/"[0];
  }

  // ---- The reader ----

  datatype Reader = Reader(file: string, line: int)

  /** The path behind `+++ `. */
  function PathOf(line: string): string
    requires |line| >= 4
  {
    var path := Strip(line[4..]);
    if "b/" <= path then path[2..] else path
  }

  function DigitValue(c: char): nat
    requires IsDigit(c)
  {
    c as nat - '0' as nat
  }

  /** `int(s)` for a text of digits. */
  function Value(s: string): nat
    requires forall i :: 0 <= i < |s| ==> IsDigit(s[i])
  {
    if s == "" then 0 else Value(s[..|s| - 1]) * 10 + DigitValue(s[|s| - 1])
  }

  function SkipDigits(s: string, i: nat): (n: nat)
    requires i <= |s|
    ensures i <= n <= |s|
    ensures forall j :: i <= j < n ==> IsDigit(s[j])
    decreases |s| - i
  {
    if i < |s| && IsDigit(s[i]) then SkipDigits(s, i + 1) else i
  }

  /** `re.search(r"\+(\d+)", s)` from `i` on. */
  function PlusNumber(s: string, i: nat): Option<nat>
    requires i <= |s|
    decreases |s| - i
  {
    if i + 1 >= |s| then None
    else if s[i] == '+' && IsDigit(s[i + 1]) then Some(Value(s[i + 1..SkipDigits(s, i + 1)]))
    else PlusNumber(s, i + 1)
  }

  /** The patterns that are searched for, and the files that are watched. */
  datatype Gate = Gate(patterns: seq<string -> bool>, watched: string -> bool)

  function Matching(patterns: seq<string -> bool>, content: string): nat {
    if patterns == [] then 0 else (if patterns[0](content) then 1 else 0) + Matching(patterns[1..], content)
  }

  /** One found marker for each pattern that matches. */
  function Marks(g: Gate, file: string, line: int, content: string): seq<Marker> {
    if g.watched(file) then seq(Matching(g.patterns, content), _ => Marker(file, line, Strip(content))) else []
  }

  predicate IsAddition(line: string) {
    !("+++ " <= line) && "+" <= line && !("+++" <= line)
  }

  function Next(r: Reader, line: string): Reader {
    if "+++ " <= line then r.(file := PathOf(line))
    else if "@@ " <= line then
      var c := PlusNumber(line, 0);
      if c.Some? then r.(line := c.value - 1) else r
    else if IsAddition(line) || !("-" <= line) then r.(line := r.line + 1)
    else r
  }

  function Hits(g: Gate, r: Reader, line: string): seq<Marker> {
    if IsAddition(line) then Marks(g, r.file, r.line + 1, line[1..]) else []
  }

  /** What the reader finds on these lines. */
  function Read(g: Gate, r: Reader, lines: seq<string>): seq<Marker>
    decreases |lines|
  {
    if lines == [] then [] else Hits(g, r, lines[0]) + Read(g, Next(r, lines[0]), lines[1..])
  }

  function ReadOn(r: Reader, lines: seq<string>): Reader
    decreases |lines|
  {
    if lines == [] then r else ReadOn(Next(r, lines[0]), lines[1..])
  }

  lemma ReadStep(g: Gate, found: seq<Marker>, r: Reader, lines: seq<string>, i: nat)
    requires i < |lines|
    ensures found + Read(g, r, lines[i..]) == (found + Hits(g, r, lines[i])) + Read(g, Next(r, lines[i]), lines[i + 1..])
  {
    assert lines[i..][1..] == lines[i + 1..];
    JoinIsAssociative(found, Hits(g, r, lines[i]), Read(g, Next(r, lines[i]), lines[i + 1..]));
  }

  lemma JoinIsAssociative<T>(a: seq<T>, b: seq<T>, c: seq<T>)
    ensures a + (b + c) == (a + b) + c
  {
  }

  /** `text.split("\n")`. */
  function Lines(text: string): (r: seq<string>)
    ensures r != []
  {
    if text == "" then [""]
    else if text[0] == '\n' then [""] + Lines(text[1..])
    else
      var rest := Lines(text[1..]);
      [[text[0]] + rest[0]] + rest[1..]
  }

  lemma MatchingStep(patterns: seq<string -> bool>, content: string, k: nat)
    requires k < |patterns|
    ensures Matching(patterns[k..], content)
         == (if patterns[k](content) then 1 else 0) + Matching(patterns[k + 1..], content)
  {
    assert patterns[k..][1..] == patterns[k + 1..];
  }

  /** The loop over the patterns. */
  method Search(g: Gate, file: string, line: int, content: string) returns (results: seq<Marker>)
    ensures results == Marks(g, file, line, content)
  {
    results := [];
    ghost var found := 0;
    assert g.patterns[0..] == g.patterns;
    for k := 0 to |g.patterns|
      invariant found + Matching(g.patterns[k..], content) == Matching(g.patterns, content)
      invariant results == if g.watched(file) then seq(found, _ => Marker(file, line, Strip(content))) else []
    {
      MatchingStep(g.patterns, content, k);
      if g.patterns[k](content) {
        if g.watched(file) {
          results := results + [Marker(file, line, Strip(content))];
        }
        found := found + 1;
      }
    }
  }

  /** The body of the loop over the lines. */
  method ReadLine(g: Gate, currentFile: string, currentLine: int, line: string)
    returns (file: string, number: int, results: seq<Marker>)
    ensures Reader(file, number) == Next(Reader(currentFile, currentLine), line)
    ensures results == Hits(g, Reader(currentFile, currentLine), line)
  {
    file, number, results := currentFile, currentLine, [];
    if "+++ " <= line {
      var path := Strip(line[4..]);
      if "b/" <= path {
        path := path[2..];
      }
      file := path;
    } else if "@@ " <= line {
      var m := PlusNumber(line, 0);
      if m.Some? {
        var start: int := m.value;
        number := start - 1;
      }
    } else if "+" <= line && !("+++" <= line) {
      number := number + 1;
      results := Search(g, file, number, line[1..]);
    } else if !("-" <= line) {
      number := number + 1;
    }
  }

  method ReadLines(g: Gate, lines: seq<string>) returns (results: seq<Marker>)
    ensures results == Read(g, Reader("", 0), lines)
  {
    results := [];
    var currentFile, currentLine := "", 0;
    assert lines[0..] == lines;
    for i := 0 to |lines|
      invariant results + Read(g, Reader(currentFile, currentLine), lines[i..]) == Read(g, Reader("", 0), lines)
    {
      ReadStep(g, results, Reader(currentFile, currentLine), lines, i);
      var found;
      currentFile, currentLine, found := ReadLine(g, currentFile, currentLine, lines[i]);
      results := results + found;
    }
  }

  function DebtGate(): Gate {
    Gate([s => HasTechDebt(s), s => HasTodoDebt(s)], path => Watched(path))
  }

  method ExtractNewDebtMarkers(diffText: string) returns (results: seq<Marker>)
    ensures results == Read(DebtGate(), Reader("", 0), Lines(diffText))
  {
    results := ReadLines(DebtGate(), Lines(diffText));
  }
}
