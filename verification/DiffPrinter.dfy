/** A printer of unified diffs as git writes them, and what the reader of scripts/check_g_030_tech_debt.py reports
    on what it prints. */
module DiffPrinter {
  import opened Basics
  import opened Characters
  import opened DiffReader

  // ---- The printer ----

  /** A line of a hunk; `NoEol` is the remark that the line before has no newline at its end. */
  datatype Line = Context(text: string) | Deleted(text: string) | Added(text: string) | NoEol

  /** Line numbers count from 1; the header gives those of the hunk's first lines. */
  datatype Hunk = Hunk(oldStart: nat, start: nat, section: string, lines: seq<Line>)

  /** The file a section leads to: none, a path written as it is, or one that git has to quote. */
  datatype Target = Removed | Plain(name: string) | Quoted(name: string, escaped: string)

  datatype File = File(preamble: seq<string>, oldPath: string, target: Target, hunks: seq<Hunk>)

  function Decimal(n: nat): string {
    (if n < 10 then "" else Decimal(n / 10)) + [('0' as nat + n % 10) as char]
  }

  function PrintTarget(t: Target): string {
    match t
    case Removed => "/dev/null"
    case Plain(name) => "b/" + name + if ' ' in name then "\t" else ""
    case Quoted(_, escaped) => "\"b/" + escaped + "\""
  }

  function PrintLine(l: Line): string {
    match l
    case Context(text) => " " + text
    case Deleted(text) => "-" + text
    case Added(text) => "+" + text
    case NoEol => "\\ No newline at end of file"
  }

  function PrintLines(lines: seq<Line>): seq<string> {
    if lines == [] then [] else [PrintLine(lines[0])] + PrintLines(lines[1..])
  }

  predicate InNew(l: Line) {
    l.Context? || l.Added?
  }

  predicate InOld(l: Line) {
    l.Context? || l.Deleted?
  }

  function NewCount(lines: seq<Line>): nat {
    if lines == [] then 0 else (if InNew(lines[0]) then 1 else 0) + NewCount(lines[1..])
  }

  function OldCount(lines: seq<Line>): nat {
    if lines == [] then 0 else (if InOld(lines[0]) then 1 else 0) + OldCount(lines[1..])
  }

  function Counted(n: nat): string {
    if n == 1 then "" else "," + Decimal(n)
  }

  function PrintHeader(h: Hunk): string {
    "@@ -" + Decimal(h.oldStart) + Counted(OldCount(h.lines))
    + " +" + Decimal(h.start) + Counted(NewCount(h.lines)) + " @@" + h.section
  }

  function PrintHunks(hunks: seq<Hunk>): seq<string> {
    if hunks == [] then [] else [PrintHeader(hunks[0])] + PrintLines(hunks[0].lines) + PrintHunks(hunks[1..])
  }

  function PrintFile(f: File): seq<string> {
    f.preamble + ["--- " + f.oldPath, "+++ " + PrintTarget(f.target)] + PrintHunks(f.hunks)
  }

  function PrintFiles(files: seq<File>): seq<string> {
    if files == [] then [] else PrintFile(files[0]) + PrintFiles(files[1..])
  }

  /** Every line with a newline behind it. */
  function Text(lines: seq<string>): string {
    if lines == [] then "" else lines[0] + "\n" + Text(lines[1..])
  }

  // ---- What the reader sees in a printed diff ----

  /** Lines that say nothing to the reader, as `diff --git`, `index` or `new file mode`. */
  predicate Quiet(line: string) {
    !("+" <= line) && !("@@ " <= line)
  }

  predicate Readable(f: File) {
    && (forall i :: 0 <= i < |f.preamble| ==> Quiet(f.preamble[i]))
    && (f.target.Plain? && f.target.name != "" ==> !IsSpace(f.target.name[|f.target.name| - 1]))
  }

  function PathSeen(t: Target): string {
    if t.Plain? then t.name else PrintTarget(t)
  }

  /** The reader takes an added line that starts with two plus signs and a space for a file header. */
  predicate Lookalike(l: Line) {
    l.Added? && "++ " <= l.text
  }

  /** The file that the reader is in after a line, when it was in `path` before. */
  function PathNext(path: string, l: Line): string {
    if Lookalike(l) then Forged(l.text) else path
  }

  /** The file that a look-alike leads to. */
  function Forged(text: string): string
    requires "++ " <= text
  {
    PathOf("+" + text)
  }

  function PathAfter(path: string, lines: seq<Line>): string
    decreases |lines|
  {
    if lines == [] then path else PathAfter(PathNext(path, lines[0]), lines[1..])
  }

  function SeenAt(g: Gate, path: string, n: int, l: Line): seq<Marker> {
    if l.Added? && !("++" <= l.text) then Marks(g, path, n, l.text) else []
  }

  /** The reader counts every line but deleted ones and look-alikes. */
  function NumberNext(n: int, l: Line): int {
    if l.Deleted? || Lookalike(l) then n else n + 1
  }

  function SeenIn(g: Gate, path: string, n: int, lines: seq<Line>): seq<Marker>
    decreases |lines|
  {
    if lines == [] then []
    else SeenAt(g, path, n, lines[0]) + SeenIn(g, PathNext(path, lines[0]), NumberNext(n, lines[0]), lines[1..])
  }

  function SeenInHunks(g: Gate, path: string, hunks: seq<Hunk>): seq<Marker>
    decreases |hunks|
  {
    if hunks == [] then []
    else
      SeenIn(g, path, hunks[0].start, hunks[0].lines)
      + SeenInHunks(g, PathAfter(path, hunks[0].lines), hunks[1..])
  }

  function Seen(g: Gate, files: seq<File>): seq<Marker> {
    if files == [] then []
    else SeenInHunks(g, PathSeen(files[0].target), files[0].hunks) + Seen(g, files[1..])
  }

  lemma {:induction false} ReadJoin(g: Gate, r: Reader, a: seq<string>, b: seq<string>)
    ensures Read(g, r, a + b) == Read(g, r, a) + Read(g, ReadOn(r, a), b)
    ensures ReadOn(r, a + b) == ReadOn(ReadOn(r, a), b)
    decreases |a|
  {
    if a == [] {
      assert a + b == b;
    } else {
      assert (a + b)[1..] == a[1..] + b;
      ReadJoin(g, Next(r, a[0]), a[1..], b);
    }
  }

  lemma ReadOne(g: Gate, r: Reader, line: string)
    ensures Read(g, r, [line]) == Hits(g, r, line) && ReadOn(r, [line]) == Next(r, line)
  {
    assert [line][1..] == [];
  }

  lemma OtherLine(g: Gate, r: Reader, line: string)
    requires line != "" && line[0] != '+' && line[0] != '-' && line[0] != '@'
    ensures Hits(g, r, line) == [] && Next(r, line) == r.(line := r.line + 1)
  {
  }

  lemma DeletedLine(g: Gate, r: Reader, line: string)
    requires line != "" && line[0] == '-'
    ensures Hits(g, r, line) == [] && Next(r, line) == r
  {
    assert "-" <= line;
  }

  lemma PrefixBehind(c: string, q: string, text: string)
    requires |c| == 1
    ensures c + q <= c + text <==> q <= text
  {
    assert (c + q)[1..] == q && (c + text)[1..] == text;
    if q <= text {
      assert text == q + text[|q|..];
      assert c + text == (c + q) + text[|q|..];
    }
    if c + q <= c + text {
      assert forall i :: 0 <= i < |q| ==> q[i] == (c + q)[i + 1] == (c + text)[i + 1] == text[i];
    }
  }

  lemma PlusLine(text: string)
    ensures "+++ " <= "+" + text <==> "++ " <= text
    ensures "+++" <= "+" + text <==> "++" <= text
    ensures "+" <= "+" + text && !("@@ " <= "+" + text) && !("-" <= "+" + text)
  {
    PrefixBehind("+", "++ ", text);
    PrefixBehind("+", "++", text);
    assert "+" + "++ " == "+++ " && "+" + "++" == "+++";
    assert ("+" + text)[0] == '+';
  }

  lemma Addition(g: Gate, r: Reader, line: string, text: string)
    requires "+" <= line && line[1..] == text && !("+++ " <= line) && !("@@ " <= line)
    requires "+++" <= line <==> "++" <= text
    ensures Hits(g, r, line) == if "++" <= text then [] else Marks(g, r.file, r.line + 1, text)
    ensures !("-" <= line) ==> Next(r, line) == r.(line := r.line + 1)
  {
  }

  lemma AddedLine(g: Gate, r: Reader, text: string)
    requires !("++ " <= text)
    ensures Hits(g, r, "+" + text) == if "++" <= text then [] else Marks(g, r.file, r.line + 1, text)
    ensures Next(r, "+" + text) == r.(line := r.line + 1)
  {
    PlusLine(text);
    Addition(g, r, "+" + text, text);
  }

  lemma TwoPlusSigns(text: string)
    ensures "++ " <= text ==> "++" <= text
  {
    if "++ " <= text {
      assert text[0] == "++ "[0] && text[1] == "++ "[1];
    }
  }

  lemma FileHeadLine(g: Gate, r: Reader, line: string)
    requires "+++ " <= line
    ensures Hits(g, r, line) == [] && Next(r, line) == r.(file := PathOf(line))
  {
  }

  lemma LookalikeLine(g: Gate, r: Reader, text: string)
    requires "++ " <= text
    ensures Hits(g, r, "+" + text) == [] && Next(r, "+" + text) == r.(file := Forged(text))
  {
    PlusLine(text);
    FileHeadLine(g, r, "+" + text);
  }

  /** One printed line: what is found, and where the reader then is. */
  lemma LineIsSeen(g: Gate, r: Reader, l: Line)
    ensures Hits(g, r, PrintLine(l)) == SeenAt(g, r.file, r.line + 1, l)
    ensures Next(r, PrintLine(l)) == Reader(PathNext(r.file, l), NumberNext(r.line + 1, l) - 1)
  {
    match l
    case Context(text) => OtherLine(g, r, " " + text);
    case Deleted(text) => DeletedLine(g, r, "-" + text);
    case Added(text) =>
      if "++ " <= text {
        TwoPlusSigns(text);
        LookalikeLine(g, r, text);
      } else {
        AddedLine(g, r, text);
      }
    case NoEol => OtherLine(g, r, PrintLine(NoEol));
  }

  lemma {:induction false} LinesAreSeen(g: Gate, r: Reader, lines: seq<Line>)
    ensures Read(g, r, PrintLines(lines)) == SeenIn(g, r.file, r.line + 1, lines)
    ensures ReadOn(r, PrintLines(lines)).file == PathAfter(r.file, lines)
    decreases |lines|
  {
    if lines != [] {
      LineIsSeen(g, r, lines[0]);
      assert PrintLines(lines)[1..] == PrintLines(lines[1..]);
      LinesAreSeen(g, Next(r, PrintLine(lines[0])), lines[1..]);
    }
  }

  // ---- Line numbers ----

  lemma {:induction false} DecimalIsRead(n: nat)
    ensures Decimal(n) != "" && forall i :: 0 <= i < |Decimal(n)| ==> IsDigit(Decimal(n)[i])
    ensures Value(Decimal(n)) == n
  {
    var s := Decimal(n);
    if n >= 10 {
      DecimalIsRead(n / 10);
      assert s[..|s| - 1] == Decimal(n / 10);
    } else {
      assert s[..|s| - 1] == "";
    }
  }

  lemma {:induction false} SkipDigitsTo(s: string, i: nat, n: nat)
    requires i <= n < |s| && !IsDigit(s[n]) && forall j :: i <= j < n ==> IsDigit(s[j])
    ensures SkipDigits(s, i) == n
    decreases n - i
  {
    if i < n {
      SkipDigitsTo(s, i + 1, n);
    }
  }

  lemma {:induction false} NoPlusBefore(s: string, i: nat, n: nat)
    requires i <= n < |s| && forall j :: i <= j < n ==> s[j] != '+'
    ensures PlusNumber(s, i) == PlusNumber(s, n)
    decreases n - i
  {
    if i < n {
      NoPlusBefore(s, i + 1, n);
    }
  }

  /** The first number with a plus sign is found whole. */
  lemma NumberIsRead(a: string, n: nat, b: string)
    requires Lacks('+', a) && b != "" && !IsDigit(b[0])
    ensures PlusNumber(a + "+" + Decimal(n) + b, 0) == Some(n)
  {
    DecimalIsRead(n);
    var d := Decimal(n);
    var s, p, e := a + "+" + d + b, |a|, |a| + 1 + |d|;
    assert s[p] == '+' && s[e] == b[0] && s[p + 1..e] == d;
    forall j | p + 1 <= j < e ensures IsDigit(s[j]) {
      assert s[j] == d[j - p - 1];
    }
    NoPlusBefore(s, 0, p);
    SkipDigitsTo(s, p + 1, e);
  }

  lemma HunkLine(g: Gate, r: Reader, line: string, n: nat)
    requires "@@ " <= line && PlusNumber(line, 0) == Some(n)
    ensures Hits(g, r, line) == [] && Next(r, line) == r.(line := n - 1)
  {
    assert line[0] == '@';
  }

  lemma CountedLacks(c: char, n: nat)
    requires !IsDigit(c) && c != ','
    ensures Lacks(c, Counted(n))
    ensures Counted(n) != "" ==> Counted(n)[0] == ','
  {
    DecimalLacks(c, n);
  }

  predicate Lacks(c: char, s: string) {
    forall j :: 0 <= j < |s| ==> s[j] != c
  }

  lemma JoinLacks(c: char, a: string, b: string)
    requires Lacks(c, a) && Lacks(c, b)
    ensures Lacks(c, a + b)
  {
  }

  lemma DecimalLacks(c: char, n: nat)
    requires !IsDigit(c)
    ensures Lacks(c, Decimal(n))
  {
    DecimalIsRead(n);
  }

  /** A header up to the plus sign of its second range. */
  lemma RangeIsPlain(n: nat, c: nat)
    ensures var a := "@@ -" + Decimal(n) + Counted(c) + " "; "@@ " <= a && Lacks('+', a) && Lacks('\n', a)
  {
    var x, d, e := "@@ -", Decimal(n), Counted(c);
    forall ch | ch == '+' || ch == '\n' ensures Lacks(ch, x + d + e + " ") {
      DecimalLacks(ch, n);
      CountedLacks(ch, c);
      JoinLacks(ch, x, d);
      JoinLacks(ch, x + d, e);
      JoinLacks(ch, x + d + e, " ");
    }
  }

  lemma HeaderIsRead(g: Gate, r: Reader, h: Hunk)
    ensures Hits(g, r, PrintHeader(h)) == [] && Next(r, PrintHeader(h)) == r.(line := h.start - 1)
  {
    var a := "@@ -" + Decimal(h.oldStart) + Counted(OldCount(h.lines)) + " ";
    var b := Counted(NewCount(h.lines)) + " @@" + h.section;
    RangeIsPlain(h.oldStart, OldCount(h.lines));
    CountedLacks('+', NewCount(h.lines));
    HeaderText(h);
    NumberIsRead(a, h.start, b);
    HunkLine(g, r, PrintHeader(h), h.start);
  }

  lemma HeaderText(h: Hunk)
    ensures PrintHeader(h) == ("@@ -" + Decimal(h.oldStart) + Counted(OldCount(h.lines)) + " ") + "+" + Decimal(h.start)
                              + (Counted(NewCount(h.lines)) + " @@" + h.section)
  {
  }

  lemma HunkIsSeen(g: Gate, r: Reader, h: Hunk)
    ensures Read(g, r, [PrintHeader(h)] + PrintLines(h.lines)) == SeenIn(g, r.file, h.start, h.lines)
    ensures ReadOn(r, [PrintHeader(h)] + PrintLines(h.lines)).file == PathAfter(r.file, h.lines)
  {
    var header := PrintHeader(h);
    HeaderIsRead(g, r, h);
    HunkLinesAreSeen(g, r, h, header);
  }

  lemma HeaderIsOneLine(h: Hunk)
    requires Lacks('\n', h.section)
    ensures Lacks('\n', PrintHeader(h))
  {
    var a := "@@ -" + Decimal(h.oldStart) + Counted(OldCount(h.lines)) + " ";
    var d, e := Decimal(h.start), Counted(NewCount(h.lines));
    RangeIsPlain(h.oldStart, OldCount(h.lines));
    DecimalLacks('\n', h.start);
    CountedLacks('\n', NewCount(h.lines));
    HeaderText(h);
    JoinLacks('\n', a, "+");
    JoinLacks('\n', a + "+", d);
    JoinLacks('\n', e, " @@");
    JoinLacks('\n', e + " @@", h.section);
    JoinLacks('\n', a + "+" + d, e + " @@" + h.section);
  }

  lemma HunkLinesAreSeen(g: Gate, r: Reader, h: Hunk, header: string)
    requires Hits(g, r, header) == [] && Next(r, header) == r.(line := h.start - 1)
    ensures Read(g, r, [header] + PrintLines(h.lines)) == SeenIn(g, r.file, h.start, h.lines)
    ensures ReadOn(r, [header] + PrintLines(h.lines)).file == PathAfter(r.file, h.lines)
  {
    ReadOne(g, r, header);
    LinesAreSeen(g, Next(r, header), h.lines);
    ReadJoin(g, r, [header], PrintLines(h.lines));
  }

  lemma {:induction false} HunksAreSeen(g: Gate, r: Reader, hunks: seq<Hunk>)
    ensures Read(g, r, PrintHunks(hunks)) == SeenInHunks(g, r.file, hunks)
    decreases |hunks|
  {
    if hunks != [] {
      var first := [PrintHeader(hunks[0])] + PrintLines(hunks[0].lines);
      HunkIsSeen(g, r, hunks[0]);
      ReadJoin(g, r, first, PrintHunks(hunks[1..]));
      HunksAreSeen(g, ReadOn(r, first), hunks[1..]);
    }
  }

  // ---- Files ----

  lemma {:induction false} LastCharacterKept(s: string)
    requires s != "" && !IsSpace(s[0]) && !IsSpace(s[|s| - 1])
    ensures Strip(s) == s && Strip(s + "\t") == s
  {
    var t := s + "\t";
    assert t[0] == s[0] && t[|s|] == '\t' && t[|s| - 1] == s[|s| - 1];
    assert FirstKept(t, Spaces, 0) == 0;
    assert LastKept(t, Spaces, 0, |t|) == LastKept(t, Spaces, 0, |s|) == |s|;
  }

  lemma PlainPathIsRead(name: string)
    requires name != "" ==> !IsSpace(name[|name| - 1])
    ensures Strip("b/" + name) == "b/" + name && Strip("b/" + name + "\t") == "b/" + name
    ensures "b/" <= "b/" + name && ("b/" + name)[2..] == name
  {
    var p := "b/" + name;
    assert p[0] == 'b' && p[|p| - 1] == (if name == "" then '/' else name[|name| - 1]);
    LastCharacterKept(p);
    assert p[2..] == name;
  }

  lemma StrangePathIsRead(t: Target)
    requires !t.Plain?
    ensures Strip(PrintTarget(t)) == PrintTarget(t) && !("b/" <= PrintTarget(t))
  {
    var p := PrintTarget(t);
    assert p[0] == (if t.Removed? then '/' else '"') && p[|p| - 1] == (if t.Removed? then 'l' else '"');
    LastCharacterKept(p);
  }

  lemma PathIsRead(f: File)
    requires Readable(f)
    ensures PathOf("+++ " + PrintTarget(f.target)) == PathSeen(f.target)
  {
    var t := f.target;
    assert ("+++ " + PrintTarget(t))[4..] == PrintTarget(t);
    if t.Plain? {
      PlainPathIsRead(t.name);
      assert ("b/" + t.name) + "" == "b/" + t.name;
    } else {
      StrangePathIsRead(t);
    }
  }

  lemma FileHeadHasPlus(line: string)
    ensures "+++ " <= line ==> "+" <= line
  {
    if "+++ " <= line {
      assert line[0] == "+++ "[0];
    }
  }

  lemma {:induction false} PreambleIsSilent(g: Gate, r: Reader, lines: seq<string>)
    requires forall i :: 0 <= i < |lines| ==> Quiet(lines[i])
    ensures Read(g, r, lines) == []
    decreases |lines|
  {
    if lines != [] {
      assert Quiet(lines[0]);
      FileHeadHasPlus(lines[0]);
      PreambleIsSilent(g, Next(r, lines[0]), lines[1..]);
    }
  }

  lemma FileHeadIsRead(g: Gate, r: Reader, f: File)
    requires Readable(f)
    ensures Read(g, r, ["--- " + f.oldPath, "+++ " + PrintTarget(f.target)]) == []
    ensures ReadOn(r, ["--- " + f.oldPath, "+++ " + PrintTarget(f.target)]).file == PathSeen(f.target)
  {
    var a, b := "--- " + f.oldPath, "+++ " + PrintTarget(f.target);
    DeletedLine(g, r, a);
    assert "+++ " <= b;
    PathIsRead(f);
    ReadOne(g, r, a);
    ReadOne(g, r, b);
    assert [a, b] == [a] + [b];
    ReadJoin(g, r, [a], [b]);
  }

  lemma FileIsSeen(g: Gate, r: Reader, f: File)
    requires Readable(f)
    ensures Read(g, r, PrintFile(f)) == SeenInHunks(g, PathSeen(f.target), f.hunks)
  {
    var head := ["--- " + f.oldPath, "+++ " + PrintTarget(f.target)];
    var r1 := ReadOn(r, f.preamble);
    PreambleIsSilent(g, r, f.preamble);
    FileHeadIsRead(g, r1, f);
    ReadJoin(g, r, f.preamble, head);
    HunksAreSeen(g, ReadOn(r1, head), f.hunks);
    ReadJoin(g, r, f.preamble + head, PrintHunks(f.hunks));
  }

  lemma {:induction false} FilesAreSeen(g: Gate, r: Reader, files: seq<File>)
    requires forall i :: 0 <= i < |files| ==> Readable(files[i])
    ensures Read(g, r, PrintFiles(files)) == Seen(g, files)
    decreases |files|
  {
    if files != [] {
      FileIsSeen(g, r, files[0]);
      ReadJoin(g, r, PrintFile(files[0]), PrintFiles(files[1..]));
      FilesAreSeen(g, ReadOn(r, PrintFile(files[0])), files[1..]);
    }
  }

  // ---- From text to lines and back ----

  lemma {:induction false} FirstLine(line: string, text: string)
    requires '\n' !in line
    ensures Lines(line + "\n" + text) == [line] + Lines(text)
  {
    var t := line + "\n" + text;
    if line == "" {
      assert t == ['\n'] + text && t[1..] == text;
    } else {
      assert t[1..] == line[1..] + "\n" + text && t[0] == line[0];
      FirstLine(line[1..], text);
      var rest := Lines(t[1..]);
      assert rest[0] == line[1..] && rest[1..] == Lines(text);
      assert [line[0]] + line[1..] == line;
    }
  }

  lemma {:induction false} LinesOfText(lines: seq<string>)
    requires forall i :: 0 <= i < |lines| ==> '\n' !in lines[i]
    ensures Lines(Text(lines)) == lines + [""]
    decreases |lines|
  {
    if lines != [] {
      FirstLine(lines[0], Text(lines[1..]));
      LinesOfText(lines[1..]);
      assert [lines[0]] + (lines[1..] + [""]) == lines + [""];
    }
  }

  lemma DiffIsSeen(g: Gate, files: seq<File>)
    requires forall i :: 0 <= i < |files| ==> Readable(files[i])
    requires forall i :: 0 <= i < |PrintFiles(files)| ==> '\n' !in PrintFiles(files)[i]
    ensures Read(g, Reader("", 0), Lines(Text(PrintFiles(files)))) == Seen(g, files)
  {
    var lines := PrintFiles(files);
    LinesOfText(lines);
    ReadJoin(g, Reader("", 0), lines, [""]);
    ReadOne(g, ReadOn(Reader("", 0), lines), "");
    FilesAreSeen(g, Reader("", 0), files);
  }
}
