/** When the reader of scripts/check_g_030_tech_debt.py reports on a printed diff what is there. */
module DiffExactness {
  import opened Basics
  import opened Characters
  import opened DiffReader
  import opened DiffPrinter

  // ---- What there is to find ----

  function MarkersAt(g: Gate, file: string, n: int, l: Line): seq<Marker> {
    if l.Added? then Marks(g, file, n, l.text) else []
  }

  /** The markers on added lines, where `n` is the number of the first new line. */
  function MarkersIn(g: Gate, file: string, n: int, lines: seq<Line>): seq<Marker>
    decreases |lines|
  {
    if lines == [] then []
    else
      MarkersAt(g, file, n, lines[0])
      + MarkersIn(g, file, if InNew(lines[0]) then n + 1 else n, lines[1..])
  }

  function MarkersInHunks(g: Gate, file: string, hunks: seq<Hunk>): seq<Marker> {
    if hunks == [] then []
    else MarkersIn(g, file, hunks[0].start, hunks[0].lines) + MarkersInHunks(g, file, hunks[1..])
  }

  function MarkersInFile(g: Gate, f: File): seq<Marker> {
    if f.target.Removed? then [] else MarkersInHunks(g, f.target.name, f.hunks)
  }

  function Markers(g: Gate, files: seq<File>): seq<Marker> {
    if files == [] then [] else MarkersInFile(g, files[0]) + Markers(g, files[1..])
  }

  // ---- The condition ----

  predicate Marked(g: Gate, path: string, text: string) {
    g.watched(path) && Matching(g.patterns, text) > 0
  }

  /** The file the reader is in before line `i`: the last look-alike before it decides. */
  function PathAt(path: string, lines: seq<Line>, i: nat): string
    requires i <= |lines|
    decreases i
  {
    if i == 0 then path else PathAt(PathNext(path, lines[0]), lines[1..], i - 1)
  }

  /** How far the reader's line number is off after a line. */
  function ShiftOf(l: Line): int {
    if l.NoEol? then 1 else if Lookalike(l) then -1 else 0
  }

  /** Missing-newline remarks less look-alikes before line `i`. */
  function Shift(lines: seq<Line>, i: nat): int
    requires i <= |lines|
    decreases i
  {
    if i == 0 then 0 else ShiftOf(lines[0]) + Shift(lines[1..], i - 1)
  }

  /** One line of the file `name`, met by the reader in the file `path`. A line that starts with two plus signs is
      never looked at, so it must hold no marker. Any other added line that holds one, in the one file or the other,
      must be met in the right file and with its own number. */
  predicate ExactLine(g: Gate, name: string, path: string, shift: int, l: Line) {
    l.Added? ==>
      if "++" <= l.text then !Marked(g, name, l.text)
      else Marked(g, name, l.text) || Marked(g, path, l.text) ==> path == name && shift == 0
  }

  predicate ExactHunk(g: Gate, name: string, path: string, lines: seq<Line>) {
    forall i :: 0 <= i < |lines| ==> ExactLine(g, name, PathAt(path, lines, i), Shift(lines, i), lines[i])
  }

  predicate ExactHunks(g: Gate, name: string, path: string, hunks: seq<Hunk>)
    decreases |hunks|
  {
    hunks == []
    || (ExactHunk(g, name, path, hunks[0].lines)
        && ExactHunks(g, name, PathAfter(path, hunks[0].lines), hunks[1..]))
  }

  /** The name a file's markers belong to; that of a removed file is not watched. */
  function NameOf(t: Target): string {
    if t.Removed? then PrintTarget(t) else t.name
  }

  predicate ExactFile(g: Gate, f: File) {
    ExactHunks(g, NameOf(f.target), PathSeen(f.target), f.hunks)
  }

  predicate ExactFiles(g: Gate, files: seq<File>) {
    forall i :: 0 <= i < |files| ==> ExactFile(g, files[i])
  }

  // ---- Line by line ----

  /** At every line the reader reports the markers that are there. */
  predicate AgreeIn(g: Gate, name: string, path: string, n: int, m: int, lines: seq<Line>)
    decreases |lines|
  {
    lines == []
    || (SeenAt(g, path, m, lines[0]) == MarkersAt(g, name, n, lines[0])
        && AgreeIn(g, name, PathNext(path, lines[0]), if InNew(lines[0]) then n + 1 else n, NumberNext(m, lines[0]),
                   lines[1..]))
  }

  predicate AgreeInHunks(g: Gate, name: string, path: string, hunks: seq<Hunk>)
    decreases |hunks|
  {
    hunks == []
    || (AgreeIn(g, name, path, hunks[0].start, hunks[0].start, hunks[0].lines)
        && AgreeInHunks(g, name, PathAfter(path, hunks[0].lines), hunks[1..]))
  }

  predicate AgreeInFile(g: Gate, f: File) {
    AgreeInHunks(g, NameOf(f.target), PathSeen(f.target), f.hunks)
  }

  predicate AgreeInFiles(g: Gate, files: seq<File>) {
    forall i :: 0 <= i < |files| ==> AgreeInFile(g, files[i])
  }

  lemma MarksShape(g: Gate, path: string, n: int, text: string)
    ensures |Marks(g, path, n, text)| == if g.watched(path) then Matching(g.patterns, text) else 0
    ensures forall m :: m in Marks(g, path, n, text) ==> m.file == path && m.line == n
  {
  }

  lemma MarksEqualIff(g: Gate, p: string, m: int, q: string, n: int, text: string)
    ensures Marks(g, p, m, text) == Marks(g, q, n, text)
            <==> (Marked(g, p, text) || Marked(g, q, text) ==> p == q && m == n)
  {
    var a, b := Marks(g, p, m, text), Marks(g, q, n, text);
    MarksShape(g, p, m, text);
    MarksShape(g, q, n, text);
    if a == b && a != [] {
      assert a[0] in a && b[0] in b;
    }
  }

  lemma LineExactIff(g: Gate, name: string, path: string, n: int, shift: int, l: Line)
    ensures SeenAt(g, path, n + shift, l) == MarkersAt(g, name, n, l) <==> ExactLine(g, name, path, shift, l)
  {
    if l.Added? {
      MarksShape(g, name, n, l.text);
      MarksEqualIff(g, path, n + shift, name, n, l.text);
    }
  }

  /** The condition along the lines, `shift` lines off at the first. */
  predicate ExactFrom(g: Gate, name: string, path: string, shift: int, lines: seq<Line>)
    decreases |lines|
  {
    lines == []
    || (ExactLine(g, name, path, shift, lines[0])
        && ExactFrom(g, name, PathNext(path, lines[0]), shift + ShiftOf(lines[0]), lines[1..]))
  }

  predicate ExactAt(g: Gate, name: string, path: string, shift: int, lines: seq<Line>, i: nat)
    requires i < |lines|
  {
    ExactLine(g, name, PathAt(path, lines, i), shift + Shift(lines, i), lines[i])
  }

  lemma ExactAtNext(g: Gate, name: string, path: string, shift: int, lines: seq<Line>, i: nat)
    requires 0 < i < |lines|
    ensures ExactAt(g, name, path, shift, lines, i)
        <==> ExactAt(g, name, PathNext(path, lines[0]), shift + ShiftOf(lines[0]), lines[1..], i - 1)
  {
    assert lines[1..][i - 1] == lines[i];
  }

  lemma {:induction false} ExactFromIff(g: Gate, name: string, path: string, shift: int, lines: seq<Line>)
    ensures ExactFrom(g, name, path, shift, lines)
        <==> forall i :: 0 <= i < |lines| ==> ExactAt(g, name, path, shift, lines, i)
    decreases |lines|
  {
    if lines != [] {
      var path', shift', rest := PathNext(path, lines[0]), shift + ShiftOf(lines[0]), lines[1..];
      ExactFromIff(g, name, path', shift', rest);
      forall i | 0 < i < |lines|
        ensures ExactAt(g, name, path, shift, lines, i) <==> ExactAt(g, name, path', shift', rest, i - 1)
      {
        ExactAtNext(g, name, path, shift, lines, i);
      }
      if forall i :: 0 <= i < |lines| ==> ExactAt(g, name, path, shift, lines, i) {
        forall j | 0 <= j < |rest| ensures ExactAt(g, name, path', shift', rest, j) {
          assert ExactAt(g, name, path, shift, lines, j + 1);
        }
        assert ExactAt(g, name, path, shift, lines, 0);
      }
      assert ExactAt(g, name, path, shift, lines, 0) <==> ExactLine(g, name, path, shift, lines[0]);
    }
  }

  lemma NumbersShift(n: int, shift: int, l: Line)
    ensures NumberNext(n + shift, l) == (if InNew(l) then n + 1 else n) + (shift + ShiftOf(l))
  {
  }

  lemma {:induction false} LinesAgreeIff(g: Gate, name: string, path: string, n: int, shift: int, lines: seq<Line>)
    ensures AgreeIn(g, name, path, n, n + shift, lines) <==> ExactFrom(g, name, path, shift, lines)
    decreases |lines|
  {
    if lines != [] {
      LineExactIff(g, name, path, n, shift, lines[0]);
      NumbersShift(n, shift, lines[0]);
      LinesAgreeIff(g, name, PathNext(path, lines[0]), if InNew(lines[0]) then n + 1 else n,
                    shift + ShiftOf(lines[0]), lines[1..]);
    }
  }

  lemma HunkAgreesIff(g: Gate, name: string, path: string, h: Hunk)
    ensures AgreeIn(g, name, path, h.start, h.start, h.lines) <==> ExactHunk(g, name, path, h.lines)
  {
    LinesAgreeIff(g, name, path, h.start, 0, h.lines);
    ExactFromIff(g, name, path, 0, h.lines);
    assert forall i :: 0 <= i < |h.lines| ==>
             (ExactAt(g, name, path, 0, h.lines, i)
              <==> ExactLine(g, name, PathAt(path, h.lines, i), Shift(h.lines, i), h.lines[i]));
  }

  lemma {:induction false} HunksAgreeIff(g: Gate, name: string, path: string, hunks: seq<Hunk>)
    ensures AgreeInHunks(g, name, path, hunks) <==> ExactHunks(g, name, path, hunks)
    decreases |hunks|
  {
    if hunks != [] {
      HunkAgreesIff(g, name, path, hunks[0]);
      HunksAgreeIff(g, name, PathAfter(path, hunks[0].lines), hunks[1..]);
    }
  }

  /** For every diff, look-alikes and all: the reader reports at every line the markers that are there if and only if
      every line is exact. */
  lemma ReaderAgreesLineByLineIff(g: Gate, files: seq<File>)
    ensures AgreeInFiles(g, files) <==> ExactFiles(g, files)
  {
    forall i | 0 <= i < |files|
      ensures AgreeInFile(g, files[i]) <==> ExactFile(g, files[i])
    {
      HunksAgreeIff(g, NameOf(files[i].target), PathSeen(files[i].target), files[i].hunks);
    }
  }

  // ---- The whole list ----

  lemma {:induction false} AgreeingLinesJoin(g: Gate, name: string, path: string, n: int, m: int, lines: seq<Line>)
    requires AgreeIn(g, name, path, n, m, lines)
    ensures SeenIn(g, path, m, lines) == MarkersIn(g, name, n, lines)
    decreases |lines|
  {
    if lines != [] {
      AgreeingLinesJoin(g, name, PathNext(path, lines[0]), if InNew(lines[0]) then n + 1 else n,
                        NumberNext(m, lines[0]), lines[1..]);
    }
  }

  lemma {:induction false} AgreeingHunksJoin(g: Gate, name: string, path: string, hunks: seq<Hunk>)
    requires AgreeInHunks(g, name, path, hunks)
    ensures SeenInHunks(g, path, hunks) == MarkersInHunks(g, name, hunks)
    decreases |hunks|
  {
    if hunks != [] {
      var h := hunks[0];
      AgreeingLinesJoin(g, name, path, h.start, h.start, h.lines);
      AgreeingHunksJoin(g, name, PathAfter(path, h.lines), hunks[1..]);
    }
  }

  /** No path is watched that git had to quote, nor the one it gives for a removed file. */
  ghost predicate IgnoresStrangePaths(g: Gate) {
    forall t: Target :: !t.Plain? ==> !g.watched(PathSeen(t))
  }

  lemma {:induction false} NothingThere(g: Gate, name: string, n: int, lines: seq<Line>)
    requires !g.watched(name)
    ensures MarkersIn(g, name, n, lines) == []
    decreases |lines|
  {
    if lines != [] {
      NothingThere(g, name, if InNew(lines[0]) then n + 1 else n, lines[1..]);
    }
  }

  lemma {:induction false} NothingInHunks(g: Gate, name: string, hunks: seq<Hunk>)
    requires !g.watched(name)
    ensures MarkersInHunks(g, name, hunks) == []
    decreases |hunks|
  {
    if hunks != [] {
      NothingThere(g, name, hunks[0].start, hunks[0].lines);
      NothingInHunks(g, name, hunks[1..]);
    }
  }

  lemma MarkersOfFile(g: Gate, f: File)
    requires IgnoresStrangePaths(g)
    ensures MarkersInFile(g, f) == MarkersInHunks(g, NameOf(f.target), f.hunks)
  {
    if f.target.Removed? {
      assert !g.watched(PathSeen(f.target));
      NothingInHunks(g, NameOf(f.target), f.hunks);
    }
  }

  lemma {:induction false} AgreeingFilesJoin(g: Gate, files: seq<File>)
    requires IgnoresStrangePaths(g) && AgreeInFiles(g, files)
    ensures Seen(g, files) == Markers(g, files)
    decreases |files|
  {
    if files != [] {
      var f := files[0];
      assert AgreeInFile(g, f);
      AgreeingHunksJoin(g, NameOf(f.target), PathSeen(f.target), f.hunks);
      MarkersOfFile(g, f);
      assert forall i :: 0 <= i < |files[1..]| ==> files[1..][i] == files[i + 1];
      AgreeingFilesJoin(g, files[1..]);
    }
  }

  /** No look-alike in a file that is not watched leads to one that is. Where that happens a marker can be reported
      for nothing, and the list be right only because another one is missing. */
  predicate HonestLines(g: Gate, name: string, lines: seq<Line>) {
    forall i :: 0 <= i < |lines| && Lookalike(lines[i]) && g.watched(Forged(lines[i].text)) ==> g.watched(name)
  }

  predicate HonestFile(g: Gate, f: File) {
    forall h :: 0 <= h < |f.hunks| ==> HonestLines(g, NameOf(f.target), f.hunks[h].lines)
  }

  lemma PartsAreEqual<T>(a: seq<T>, b: seq<T>, c: seq<T>, d: seq<T>)
    requires |a| <= |c| && |b| <= |d|
    ensures a + b == c + d <==> a == c && b == d
  {
    if a + b == c + d {
      assert a == (a + b)[..|a|] && c == (c + d)[..|a|];
      assert b == (a + b)[|a|..] && d == (c + d)[|a|..];
    }
  }

  lemma HonestStep(g: Gate, name: string, path: string, lines: seq<Line>)
    requires lines != [] && HonestLines(g, name, lines) && (g.watched(path) ==> g.watched(name))
    ensures HonestLines(g, name, lines[1..]) && (g.watched(PathNext(path, lines[0])) ==> g.watched(name))
  {
    assert forall i :: 0 <= i < |lines[1..]| ==> lines[1..][i] == lines[i + 1];
  }

  lemma SeenIsNoLonger(g: Gate, name: string, path: string, n: int, m: int, l: Line)
    requires g.watched(path) ==> g.watched(name)
    ensures |SeenAt(g, path, m, l)| <= |MarkersAt(g, name, n, l)|
  {
    if l.Added? {
      MarksShape(g, path, m, l.text);
      MarksShape(g, name, n, l.text);
    }
  }

  lemma {:induction false} EqualLinesAgree(g: Gate, name: string, path: string, n: int, m: int, lines: seq<Line>)
    requires HonestLines(g, name, lines) && (g.watched(path) ==> g.watched(name))
    ensures |SeenIn(g, path, m, lines)| <= |MarkersIn(g, name, n, lines)|
    ensures SeenIn(g, path, m, lines) == MarkersIn(g, name, n, lines) ==> AgreeIn(g, name, path, n, m, lines)
    ensures g.watched(PathAfter(path, lines)) ==> g.watched(name)
    decreases |lines|
  {
    if lines != [] {
      var l, rest := lines[0], lines[1..];
      var n', m' := if InNew(l) then n + 1 else n, NumberNext(m, l);
      HonestStep(g, name, path, lines);
      SeenIsNoLonger(g, name, path, n, m, l);
      EqualLinesAgree(g, name, PathNext(path, l), n', m', rest);
      PartsAreEqual(SeenAt(g, path, m, l), SeenIn(g, PathNext(path, l), m', rest),
                    MarkersAt(g, name, n, l), MarkersIn(g, name, n', rest));
    }
  }

  lemma {:induction false} EqualHunksAgree(g: Gate, name: string, path: string, hunks: seq<Hunk>)
    requires g.watched(path) ==> g.watched(name)
    requires forall h :: 0 <= h < |hunks| ==> HonestLines(g, name, hunks[h].lines)
    ensures |SeenInHunks(g, path, hunks)| <= |MarkersInHunks(g, name, hunks)|
    ensures SeenInHunks(g, path, hunks) == MarkersInHunks(g, name, hunks) ==> AgreeInHunks(g, name, path, hunks)
    decreases |hunks|
  {
    if hunks != [] {
      var h, rest := hunks[0], hunks[1..];
      var after := PathAfter(path, h.lines);
      EqualLinesAgree(g, name, path, h.start, h.start, h.lines);
      assert forall i :: 0 <= i < |rest| ==> rest[i] == hunks[i + 1];
      EqualHunksAgree(g, name, after, rest);
      PartsAreEqual(SeenIn(g, path, h.start, h.lines), SeenInHunks(g, after, rest),
                    MarkersIn(g, name, h.start, h.lines), MarkersInHunks(g, name, rest));
    }
  }

  lemma EqualFileAgrees(g: Gate, f: File)
    requires IgnoresStrangePaths(g) && HonestFile(g, f)
    ensures |SeenInHunks(g, PathSeen(f.target), f.hunks)| <= |MarkersInFile(g, f)|
    ensures SeenInHunks(g, PathSeen(f.target), f.hunks) == MarkersInFile(g, f) ==>
              AgreeInHunks(g, NameOf(f.target), PathSeen(f.target), f.hunks)
  {
    MarkersOfFile(g, f);
    EqualHunksAgree(g, NameOf(f.target), PathSeen(f.target), f.hunks);
  }

  lemma AgreeInFilesSplit(g: Gate, files: seq<File>)
    requires files != []
    ensures AgreeInFiles(g, files) <==> AgreeInFile(g, files[0]) && AgreeInFiles(g, files[1..])
  {
    var rest := files[1..];
    assert forall i :: 0 <= i < |rest| ==> rest[i] == files[i + 1];
    assert forall i :: 0 < i < |files| ==> files[i] == rest[i - 1];
  }

  lemma {:induction false} EqualFilesAgree(g: Gate, files: seq<File>)
    requires IgnoresStrangePaths(g) && forall i :: 0 <= i < |files| ==> HonestFile(g, files[i])
    ensures |Seen(g, files)| <= |Markers(g, files)|
    ensures Seen(g, files) == Markers(g, files) ==> AgreeInFiles(g, files)
    decreases |files|
  {
    if files != [] {
      var f, rest := files[0], files[1..];
      assert forall i :: 0 <= i < |rest| ==> rest[i] == files[i + 1];
      EqualFileAgrees(g, f);
      EqualFilesAgree(g, rest);
      AgreeInFilesSplit(g, files);
      PartsAreEqual(SeenInHunks(g, PathSeen(f.target), f.hunks), Seen(g, rest), MarkersInFile(g, f), Markers(g, rest));
    }
  }

  lemma SourceStartsWithLetter(path: string)
    ensures IsSourceFile(path) ==> path != "" && (path[0] == 'p' || path[0] == 'd' || path[0] == 'w')
  {
    var fp := Slashed(path);
    assert "pilotstd/" <= fp ==> fp[0] == "pilotstd/"[0];
    assert "docker/" <= fp ==> fp[0] == "docker/"[0];
    assert "web/src/" <= fp ==> fp[0] == "web/src/"[0];
  }

  lemma DebtGateIgnoresStrangePaths()
    ensures IgnoresStrangePaths(DebtGate())
  {
    forall t: Target | !t.Plain? ensures !Watched(PathSeen(t)) {
      assert PathSeen(t)[0] == '/' || PathSeen(t)[0] == '"';
      SourceStartsWithLetter(PathSeen(t));
    }
  }

  /** A diff text that the printer gives for these files. */
  predicate Printed(files: seq<File>, text: string) {
    && (forall i :: 0 <= i < |files| ==> Readable(files[i]))
    && (forall i :: 0 <= i < |PrintFiles(files)| ==> '\n' !in PrintFiles(files)[i])
    && text == Text(PrintFiles(files))
  }

  /** On an exact diff, look-alikes or not, the reader reports exactly the markers on added lines of source files,
      each in its file and at its line. */
  lemma ExactDiffIsRead(files: seq<File>, text: string)
    requires Printed(files, text) && ExactFiles(DebtGate(), files)
    ensures Read(DebtGate(), Reader("", 0), Lines(text)) == Markers(DebtGate(), files)
  {
    DiffIsSeen(DebtGate(), files);
    ReaderAgreesLineByLineIff(DebtGate(), files);
    DebtGateIgnoresStrangePaths();
    AgreeingFilesJoin(DebtGate(), files);
  }

  /** The reader undoes the printer exactly when the diff is exact: unless a look-alike leads from a file that is not
      watched into one that is, the list it reports is that of the markers which are there if and only if every line
      is exact. */
  lemma ReaderInvertsPrinterIff(files: seq<File>, text: string)
    requires Printed(files, text) && forall i :: 0 <= i < |files| ==> HonestFile(DebtGate(), files[i])
    ensures Read(DebtGate(), Reader("", 0), Lines(text)) == Markers(DebtGate(), files)
            <==> ExactFiles(DebtGate(), files)
  {
    DiffIsSeen(DebtGate(), files);
    ReaderAgreesLineByLineIff(DebtGate(), files);
    DebtGateIgnoresStrangePaths();
    EqualFilesAgree(DebtGate(), files);
    if ExactFiles(DebtGate(), files) {
      AgreeingFilesJoin(DebtGate(), files);
    }
  }

  // ---- Diffs that are misreported ----

  /** A diff of one file with one hunk. */
  function OneHunk(name: string, lines: seq<Line>): seq<File> {
    [File([], "a/" + name, Plain(name), [Hunk(1, 1, "", lines)])]
  }

  predicate OneLine(l: Line) {
    l.NoEol? || Lacks('\n', l.text)
  }

  lemma PrintLineIsOneLine(l: Line)
    requires OneLine(l)
    ensures Lacks('\n', PrintLine(l))
  {
    match l
    case Context(text) => JoinLacks('\n', " ", text);
    case Deleted(text) => JoinLacks('\n', "-", text);
    case Added(text) => JoinLacks('\n', "+", text);
    case NoEol =>
  }

  lemma {:induction false} LinesAreOneLine(lines: seq<Line>)
    requires forall i :: 0 <= i < |lines| ==> OneLine(lines[i])
    ensures forall i :: 0 <= i < |PrintLines(lines)| ==> Lacks('\n', PrintLines(lines)[i])
    decreases |lines|
  {
    if lines != [] {
      PrintLineIsOneLine(lines[0]);
      LinesAreOneLine(lines[1..]);
    }
  }

  lemma OneHunkText(name: string, lines: seq<Line>)
    ensures PrintFiles(OneHunk(name, lines))
         == ["--- " + ("a/" + name), "+++ " + PrintTarget(Plain(name)), PrintHeader(Hunk(1, 1, "", lines))]
            + PrintLines(lines)
  {
    var h := Hunk(1, 1, "", lines);
    var f := OneHunk(name, lines)[0];
    assert PrintHunks([h]) == [PrintHeader(h)] + PrintLines(lines) + [];
    assert PrintFiles([f]) == PrintFile(f) + [];
  }

  lemma FileHeadIsOneLine(name: string)
    requires Lacks('\n', name)
    ensures Lacks('\n', "--- " + ("a/" + name)) && Lacks('\n', "+++ " + PrintTarget(Plain(name)))
  {
    JoinLacks('\n', "a/", name);
    JoinLacks('\n', "--- ", "a/" + name);
    JoinLacks('\n', "b/", name);
    var tab := if ' ' in name then "\t" else "";
    JoinLacks('\n', "b/" + name, tab);
    JoinLacks('\n', "+++ ", PrintTarget(Plain(name)));
  }

  lemma OneHunkIsPrinted(name: string, lines: seq<Line>)
    requires Lacks('\n', name) && name != "" && !IsSpace(name[|name| - 1])
    requires forall i :: 0 <= i < |lines| ==> OneLine(lines[i])
    ensures Printed(OneHunk(name, lines), Text(PrintFiles(OneHunk(name, lines))))
  {
    var all := PrintFiles(OneHunk(name, lines));
    OneHunkText(name, lines);
    FileHeadIsOneLine(name);
    HeaderIsOneLine(Hunk(1, 1, "", lines));
    LinesAreOneLine(lines);
    forall i | 0 <= i < |all| ensures '\n' !in all[i] {
      assert i >= 3 ==> all[i] == PrintLines(lines)[i - 3];
      assert Lacks('\n', all[i]);
    }
  }

  lemma InexactHunkIsMisreported(name: string, lines: seq<Line>, i: nat)
    requires Lacks('\n', name) && name != "" && !IsSpace(name[|name| - 1]) && Watched(name)
    requires forall k :: 0 <= k < |lines| ==> OneLine(lines[k])
    requires i < |lines| && lines[i].Added? && Marked(DebtGate(), name, lines[i].text) && Shift(lines, i) != 0
    ensures var files := OneHunk(name, lines);
      Read(DebtGate(), Reader("", 0), Lines(Text(PrintFiles(files)))) != Markers(DebtGate(), files)
  {
    var files := OneHunk(name, lines);
    var g, f := DebtGate(), OneHunk(name, lines)[0];
    OneHunkIsPrinted(name, lines);
    assert !ExactLine(g, name, PathAt(name, lines, i), Shift(lines, i), lines[i]);
    assert !ExactHunk(g, name, name, lines);
    assert !ExactHunks(g, name, name, f.hunks);
    assert !ExactFile(g, files[0]);
    assert HonestFile(g, files[0]);
    ReaderInvertsPrinterIff(files, Text(PrintFiles(files)));
  }

  /** A watched file that had no newline at its end gets a marker there: for every such diff the report is wrong. */
  lemma MissingNewlineIsMisreported(name: string, before: string, text: string)
    requires Lacks('\n', name) && name != "" && !IsSpace(name[|name| - 1])
    requires Lacks('\n', before) && Lacks('\n', text) && Marked(DebtGate(), name, text)
    ensures var files := OneHunk(name, [Deleted(before), NoEol, Added(text)]);
      Read(DebtGate(), Reader("", 0), Lines(Text(PrintFiles(files)))) != Markers(DebtGate(), files)
  {
    var lines := [Deleted(before), NoEol, Added(text)];
    assert lines[1..] == [NoEol, Added(text)] && lines[1..][1..] == [Added(text)];
    assert Shift(lines, 2) == ShiftOf(lines[0]) + (ShiftOf(lines[1]) + Shift(lines[1..][1..], 0));
    InexactHunkIsMisreported(name, lines, 2);
  }

  /** A marker behind an added line that starts with two plus signs and a space: so is it for every such diff. */
  lemma LookalikeIsMisreported(name: string, lookalike: string, text: string)
    requires Lacks('\n', name) && name != "" && !IsSpace(name[|name| - 1])
    requires Lacks('\n', lookalike) && "++ " <= lookalike && Lacks('\n', text) && Marked(DebtGate(), name, text)
    ensures var files := OneHunk(name, [Added(lookalike), Added(text)]);
      Read(DebtGate(), Reader("", 0), Lines(Text(PrintFiles(files)))) != Markers(DebtGate(), files)
  {
    var lines := [Added(lookalike), Added(text)];
    assert lines[1..] == [Added(text)];
    assert Shift(lines, 1) == ShiftOf(lines[0]) + Shift(lines[1..], 0);
    InexactHunkIsMisreported(name, lines, 1);
  }

  lemma MarkerText()
    ensures Matching(DebtGate().patterns, "#TECH-DEBT:") > 0
  {
    var s := "#TECH-DEBT:";
    assert WordAt(s, 1, "TECH-DEBT") && WordAt(s, 10, ":");
    assert Behind(s, 1, "TECH-DEBT") == Some(10) && Behind(s, 10, ":").Some?;
    assert TechDebtAt(s, 0);
    assert DebtGate().patterns[0](s);
  }

  /** There are such files and such texts. */
  lemma AMarkedLine()
    ensures Marked(DebtGate(), "docker/app.py", "#TECH-DEBT:")
  {
    MarkerText();
    var path := "docker/app.py";
    assert Slashed(path) == path;
    assert "docker/" <= path;
    ExclusionsAreIdle(path);
  }
}
