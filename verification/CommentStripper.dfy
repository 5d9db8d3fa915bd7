/** `strip_comments` (scripts/check_i18n_hardcoded.py): blanks comments in place, so that every position and
    every newline stays where it was. */
module CommentStripper {
  import opened Basics

  type Text = seq<char>

  datatype Kind = StringLiteral | LineComment | BlockComment | Other

  predicate IsQuote(c: char) {
    c == '\'' || c == '"' || c == '`'
  }

  predicate At(t: Text, i: nat, c: char) {
    i < |t| && t[i] == c
  }

  predicate HtmlOpen(t: Text, i: nat) {
    At(t, i, '<') && At(t, i + 1, '!') && At(t, i + 2, '-') && At(t, i + 3, '-')
  }

  predicate HtmlClose(t: Text, i: nat) {
    At(t, i, '-') && At(t, i + 1, '-') && At(t, i + 2, '>')
  }

  /** Where an open string ends: after its closing quote, at the newline that ends a single- or
      double-quoted one, or at the end. A backslash takes the next character with it. */
  function StringEnd(t: Text, i: nat, quote: char): (n: nat)
    requires i <= |t|
    ensures i <= n <= |t|
    decreases |t| - i
  {
    if i == |t| then i
    else if t[i] == '\\' && i + 1 < |t| then StringEnd(t, i + 2, quote)
    else if t[i] == quote then i + 1
    else if t[i] == '\n' && quote != '`' then i
    else StringEnd(t, i + 1, quote)
  }

  /** The first newline at or after `i`, or the end. */
  function LineEnd(t: Text, i: nat): (n: nat)
    requires i <= |t|
    ensures i <= n <= |t|
    decreases |t| - i
  {
    if i == |t| || t[i] == '\n' then i else LineEnd(t, i + 1)
  }

  /** Just past the first block comment end at or after `i`, or the end. */
  function BlockEnd(t: Text, i: nat): (n: nat)
    requires i <= |t|
    ensures i <= n <= |t|
    decreases |t| - i
  {
    if i == |t| then i
    else if At(t, i, '*') && At(t, i + 1, '/') then i + 2
    else BlockEnd(t, i + 1)
  }

  /** The token that starts at `i`, outside any string: its kind and where it ends. */
  function TokenAt(t: Text, i: nat): (r: (Kind, nat))
    requires i < |t|
    ensures i < r.1 <= |t|
  {
    if IsQuote(t[i]) then (StringLiteral, StringEnd(t, i + 1, t[i]))
    else if At(t, i, '/') && At(t, i + 1, '/') then (LineComment, LineEnd(t, i + 2))
    else if At(t, i, '/') && At(t, i + 1, '*') then (BlockComment, BlockEnd(t, i + 2))
    else (Other, i + 1)
  }

  function Blanked(c: char): char {
    if c == '\n' then '\n' else ' '
  }

  predicate IsComment(kind: Kind) {
    kind.LineComment? || kind.BlockComment?
  }

  /** Reading tokens from `i` on, is position `p` inside a comment? */
  predicate InComment(t: Text, i: nat, p: nat)
    requires i <= p < |t|
    decreases |t| - i
  {
    var (kind, n) := TokenAt(t, i);
    if p < n then IsComment(kind) else InComment(t, n, p)
  }

  /** The token specification: comments blanked, everything else verbatim. */
  function Strip(t: Text): (r: Text)
    ensures |r| == |t|
  {
    seq(|t|, p requires 0 <= p < |t| => if InComment(t, 0, p) then Blanked(t[p]) else t[p])
  }

  /** Just past the first HTML comment end at or after `i`, if there is one. */
  function HtmlEnd(t: Text, i: nat): (n: Option<nat>)
    requires i <= |t|
    ensures n.Some? ==> i + 3 <= n.value <= |t|
    decreases |t| - i
  {
    if i == |t| then None
    else if HtmlClose(t, i) then Some(i + 3)
    else HtmlEnd(t, i + 1)
  }

  /** Where the HTML comment that starts at `i` ends, if one starts there and ends. */
  function HtmlCommentAt(t: Text, i: nat): (n: Option<nat>)
    ensures n.Some? ==> i + 7 <= n.value <= |t|
  {
    if HtmlOpen(t, i) then HtmlEnd(t, i + 4) else None
  }

  /** Reading from `i` on, is position `p` inside a leftmost, shortest `<!--` ... `-->`? */
  predicate InHtml(t: Text, i: nat, p: nat)
    requires i <= p < |t|
    decreases |t| - i
  {
    var n := HtmlCommentAt(t, i);
    if n.Some? then p < n.value || InHtml(t, n.value, p)
    else p != i && InHtml(t, i + 1, p)
  }

  /** The HTML pass. */
  function BlankHtml(t: Text): (r: Text)
    ensures |r| == |t|
  {
    seq(|t|, p requires 0 <= p < |t| => if InHtml(t, 0, p) then Blanked(t[p]) else t[p])
  }

  function StripComments(t: Text): (r: Text)
    ensures |r| == |t|
  {
    Strip(BlankHtml(t))
  }

  // ---- The loop computes the specification ----

  /** `InComment` for a scanner that is inside a string, or not. */
  predicate Pending(t: Text, i: nat, quote: Option<char>, p: nat)
    requires i <= p < |t|
  {
    if quote.None? then InComment(t, i, p)
    else
      var n := StringEnd(t, i, quote.value);
      p >= n && InComment(t, n, p)
  }

  /** Everything before `i` is written, and the scanner knows what is left. */
  ghost predicate Progress(t: Text, out: Text, i: nat, quote: Option<char>) {
    && i <= |t| && |out| == i
    && (forall p :: 0 <= p < i ==> out[p] == Strip(t)[p])
    && (forall p :: i <= p < |t| ==> InComment(t, 0, p) == Pending(t, i, quote, p))
  }

  /** A piece that is right where it stands, and the scanner state after it. */
  ghost predicate RightPiece(t: Text, i: nat, quote: Option<char>, piece: Text, next: Option<char>) {
    && 0 < |piece| && i + |piece| <= |t|
    && (forall j :: i <= j < i + |piece| ==>
          piece[j - i] == if Pending(t, i, quote, j) then Blanked(t[j]) else t[j])
    && (forall p :: i + |piece| <= p < |t| ==> Pending(t, i, quote, p) == Pending(t, i + |piece|, next, p))
  }

  lemma Extend(t: Text, out: Text, i: nat, quote: Option<char>, piece: Text, next: Option<char>)
    requires Progress(t, out, i, quote) && RightPiece(t, i, quote, piece, next)
    ensures Progress(t, out + piece, i + |piece|, next)
  {
    forall p | 0 <= p < i + |piece| ensures (out + piece)[p] == Strip(t)[p] {
      if p >= i {
        assert InComment(t, 0, p) == Pending(t, i, quote, p);
      }
    }
  }

  /** The character loop, after the HTML pass. */
  method StripLoop(text: Text) returns (out: Text)
    ensures out == Strip(text)
  {
    out := [];
    var quote: Option<char> := None;
    var i := 0;
    while i < |text|
      invariant Progress(text, out, i, quote)
      decreases |text| - i
    {
      var piece, next;
      if quote.Some? {
        piece, next := InString(text, i, quote.value);
      } else {
        piece, next := OutsideString(text, i);
      }
      Extend(text, out, i, quote, piece, next);
      out := out + piece;
      quote := next;
      i := i + |piece|;
    }
  }

  /** The branch of the loop body taken inside a string. */
  method InString(text: Text, i: nat, quote: char) returns (piece: Text, next: Option<char>)
    requires i < |text|
    ensures RightPiece(text, i, Some(quote), piece, next)
  {
    var ch := text[i];
    next := Some(quote);
    if ch == '\\' && i + 1 < |text| {
      return [ch, text[i + 1]], next;
    }
    if ch == quote {
      next := None;
    } else if ch == '\n' && quote != '`' {
      next := None;
    }
    piece := [ch];
  }

  /** The branches of the loop body taken outside any string. */
  method OutsideString(text: Text, i: nat) returns (piece: Text, next: Option<char>)
    requires i < |text|
    ensures RightPiece(text, i, None, piece, next)
  {
    var ch := text[i];
    next := None;
    if IsQuote(ch) {
      next := Some(ch);
      piece := [ch];
    } else if ch == '/' && i + 1 < |text| && text[i + 1] == '/' {
      piece := BlankLineComment(text, i);
    } else if ch == '/' && i + 1 < |text| && text[i + 1] == '*' {
      piece := BlankBlockComment(text, i);
    } else {
      piece := [ch];
    }
  }

  /** The inner loop of a `//` comment. */
  method BlankLineComment(text: Text, start: nat) returns (piece: Text)
    requires start + 2 <= |text| && text[start] == '/' && text[start + 1] == '/'
    ensures |piece| == LineEnd(text, start + 2) - start
    ensures forall j :: start <= j < start + |piece| ==> piece[j - start] == Blanked(text[j])
  {
    piece := [];
    var i := start;
    while i < |text| && text[i] != '\n'
      invariant start <= i <= |text| && |piece| == i - start
      invariant LineEnd(text, start + 2) == LineEnd(text, i)
      invariant forall j :: start <= j < i ==> piece[j - start] == Blanked(text[j])
    {
      piece := piece + [' '];
      i := i + 1;
    }
  }

  /** The inner loop of a block comment, with its opening and closing pairs. */
  method BlankBlockComment(text: Text, start: nat) returns (piece: Text)
    requires start + 2 <= |text| && text[start] == '/' && text[start + 1] == '*'
    ensures |piece| == BlockEnd(text, start + 2) - start
    ensures forall j :: start <= j < start + |piece| ==> piece[j - start] == Blanked(text[j])
  {
    piece := "  ";
    var i := start + 2;
    while i < |text| && !(text[i] == '*' && i + 1 < |text| && text[i + 1] == '/')
      invariant start + 2 <= i <= |text| && |piece| == i - start
      invariant BlockEnd(text, start + 2) == BlockEnd(text, i)
      invariant forall j :: start <= j < i ==> piece[j - start] == Blanked(text[j])
    {
      piece := piece + [if text[i] == '\n' then '\n' else ' '];
      i := i + 1;
    }
    if i < |text| {
      piece := piece + "  ";
    }
  }

  // ---- Positions, newlines, strings and comments ----

  /** Token boundaries: where a scan that starts at `i` looks for its next token. */
  predicate Boundary(t: Text, i: nat, p: nat)
    requires i <= |t|
    decreases |t| - i
  {
    i == p || (i < |t| && Boundary(t, TokenAt(t, i).1, p))
  }

  lemma {:induction false} BoundaryReadsOn(t: Text, i: nat, p: nat, q: nat)
    requires i <= p <= q < |t| && Boundary(t, i, p)
    ensures InComment(t, i, q) == InComment(t, p, q)
    decreases |t| - i
  {
    if i != p {
      BoundaryBound(t, TokenAt(t, i).1, p);
      BoundaryReadsOn(t, TokenAt(t, i).1, p, q);
    }
  }

  lemma {:induction false} BoundaryBound(t: Text, i: nat, p: nat)
    requires i <= |t| && Boundary(t, i, p)
    ensures i <= p <= |t|
    decreases |t| - i
  {
    if i != p {
      BoundaryBound(t, TokenAt(t, i).1, p);
    }
  }

  /** Token by token: a string literal and any other code come out verbatim, a comment comes out blank. */
  lemma TokensRendered(t: Text, p: nat)
    requires p < |t| && Boundary(t, 0, p)
    ensures var (kind, n) := TokenAt(t, p);
            Strip(t)[p..n] == if IsComment(kind) then Blank(t[p..n]) else t[p..n]
  {
    var (kind, n) := TokenAt(t, p);
    forall q | p <= q < n ensures Strip(t)[q] == if IsComment(kind) then Blanked(t[q]) else t[q] {
      BoundaryReadsOn(t, 0, p, q);
    }
  }

  function Blank(s: Text): (r: Text)
    ensures |r| == |s|
  {
    seq(|s|, i requires 0 <= i < |s| => Blanked(s[i]))
  }

  /** `r` is `t` with some characters other than newlines turned into spaces. */
  ghost predicate BlankedFrom(r: Text, t: Text) {
    && |r| == |t|
    && forall p :: 0 <= p < |t| ==> (r[p] == t[p] || r[p] == ' ') && (r[p] == '\n' <==> t[p] == '\n')
  }

  lemma OnlyBlanksInPlace(t: Text)
    ensures BlankedFrom(StripComments(t), t)
    ensures BlankedFrom(BlankHtml(t), t) && BlankedFrom(StripComments(t), BlankHtml(t))
  {
  }

  // ---- Idempotence ----

  /** From `i` on, `r` is what stripping makes of `t`. */
  ghost predicate StrippedFrom(r: Text, t: Text, i: nat) {
    && i <= |t| && |r| == |t|
    && forall p :: i <= p < |t| ==> r[p] == if InComment(t, i, p) then Blanked(t[p]) else t[p]
  }

  lemma {:induction false} StringEndAgrees(r: Text, t: Text, i: nat, quote: char)
    requires i <= |t| && |r| == |t|
    requires forall p :: i <= p < StringEnd(t, i, quote) ==> r[p] == t[p]
    requires forall p :: i <= p < |t| ==> (r[p] == '\n' <==> t[p] == '\n')
    requires var n := StringEnd(t, i, quote); n < |t| ==> r[n] == t[n] || r[n] == ' '
    requires quote != ' '
    ensures StringEnd(r, i, quote) == StringEnd(t, i, quote)
    decreases |t| - i
  {
    if i < |t| {
      if t[i] == '\\' && i + 1 < |t| {
        StringEndAgrees(r, t, i + 2, quote);
      } else if t[i] != quote && !(t[i] == '\n' && quote != '`') {
        StringEndAgrees(r, t, i + 1, quote);
      }
    }
  }

  /** A run of blanks is read one character at a time, outside any comment. */
  lemma {:induction false} BlanksAreNoComment(r: Text, i: nat, n: nat, p: nat)
    requires i <= n <= |r| && i <= p < |r|
    requires forall q :: i <= q < n ==> r[q] == ' ' || r[q] == '\n'
    ensures p < n ==> !InComment(r, i, p)
    ensures p >= n ==> InComment(r, i, p) == InComment(r, n, p)
    decreases n - i
  {
    if i < n && p > i {
      BlanksAreNoComment(r, i + 1, n, p);
    }
  }

  /** A second pass finds nothing but blanks to blank. */
  lemma {:induction false} SecondPassFindsBlanks(r: Text, t: Text, i: nat, p: nat)
    requires i <= p < |t| && StrippedFrom(r, t, i)
    ensures InComment(r, i, p) ==> r[p] == Blanked(r[p])
    decreases |t| - i
  {
    var (kind, n) := TokenAt(t, i);
    assert StrippedFrom(r, t, n);
    if IsComment(kind) {
      BlanksAreNoComment(r, i, n, p);
    } else {
      if kind.StringLiteral? {
        StringEndAgrees(r, t, i + 1, t[i]);
      }
      assert TokenAt(r, i) == (kind, n);
    }
    if p >= n {
      SecondPassFindsBlanks(r, t, n, p);
    }
  }

  lemma StripIsIdempotent(t: Text)
    ensures Strip(Strip(t)) == Strip(t)
  {
    var r := Strip(t);
    forall p | 0 <= p < |t| ensures Strip(r)[p] == r[p] {
      SecondPassFindsBlanks(r, t, 0, p);
    }
  }

  predicate HasHtmlComment(t: Text) {
    exists i :: 0 <= i < |t| && HtmlCommentAt(t, i).Some?
  }

  lemma {:induction false} HtmlEndFinds(t: Text, i: nat, q: nat)
    requires i <= q && HtmlClose(t, q)
    ensures HtmlEnd(t, i).Some?
    decreases q - i
  {
    if i < q {
      HtmlEndFinds(t, i + 1, q);
    }
  }

  lemma {:induction false} HtmlEndIsClose(t: Text, i: nat) returns (q: nat)
    requires i <= |t| && HtmlEnd(t, i).Some?
    ensures i <= q && HtmlClose(t, q)
    decreases |t| - i
  {
    if HtmlClose(t, i) {
      q := i;
    } else {
      q := HtmlEndIsClose(t, i + 1);
    }
  }

  /** Scanning from `i`, an opening that has an end after it is inside some HTML comment. */
  lemma {:induction false} OpeningIsCovered(t: Text, i: nat, k: nat)
    requires i <= k < |t| && HtmlCommentAt(t, k).Some?
    ensures InHtml(t, i, k)
    decreases k - i
  {
    if i < k {
      var n := HtmlCommentAt(t, i);
      if n.Some? && n.value <= k {
        OpeningIsCovered(t, n.value, k);
      } else if n.None? {
        OpeningIsCovered(t, i + 1, k);
      }
    }
  }

  lemma {:induction false} NothingCoveredWithoutComment(t: Text, i: nat, p: nat)
    requires i <= p < |t| && !HasHtmlComment(t)
    ensures !InHtml(t, i, p)
    decreases |t| - i
  {
    if i < p {
      NothingCoveredWithoutComment(t, i + 1, p);
    }
  }

  /** The HTML pass changes a text exactly when the text has an HTML comment. */
  lemma HtmlPassChangesOnlyComments(t: Text)
    ensures BlankHtml(t) == t <==> !HasHtmlComment(t)
  {
    if HasHtmlComment(t) {
      var k :| 0 <= k < |t| && HtmlCommentAt(t, k).Some?;
      OpeningIsCovered(t, 0, k);
      assert BlankHtml(t)[k] == ' ';
    } else {
      forall p | 0 <= p < |t| ensures BlankHtml(t)[p] == t[p] {
        NothingCoveredWithoutComment(t, 0, p);
      }
    }
  }

  /** Blanking anything more after the HTML pass cannot bring an HTML comment back. */
  lemma NoHtmlCommentAfterPass(t: Text, r: Text)
    requires BlankedFrom(r, BlankHtml(t))
    ensures !HasHtmlComment(r)
  {
    if HasHtmlComment(r) {
      var k :| 0 <= k < |r| && HtmlCommentAt(r, k).Some?;
      var q := HtmlEndIsClose(r, k + 4);
      HtmlEndFinds(t, k + 4, q);
      OpeningIsCovered(t, 0, k);
      assert false;
    }
  }

  /** The whole of `strip_comments` is idempotent. */
  lemma StripCommentsIsIdempotent(t: Text)
    ensures StripComments(StripComments(t)) == StripComments(t)
  {
    var html := BlankHtml(t);
    var r := Strip(html);
    NoHtmlCommentAfterPass(t, r);
    HtmlPassChangesOnlyComments(r);
    StripIsIdempotent(html);
  }

  /** How the whole function renders any text: it reads the tokens of the text whose HTML comments are blank; a
      comment comes out blank, any other token as the HTML pass left it. */
  lemma TokensRenderedAlways(t: Text, p: nat)
    requires p < |t| && Boundary(BlankHtml(t), 0, p)
    ensures var (kind, n) := TokenAt(BlankHtml(t), p);
            StripComments(t)[p..n] == if IsComment(kind) then Blank(t[p..n]) else BlankHtml(t)[p..n]
  {
    var html := BlankHtml(t);
    var (kind, n) := TokenAt(html, p);
    TokensRendered(html, p);
    if IsComment(kind) {
      assert forall q :: p <= q < n ==> Blanked(html[q]) == Blanked(t[q]);
    }
  }

  /** Such a token, if it is no comment, is kept verbatim exactly when the HTML comments in it are blank already.
      So a string literal is kept if and only if no HTML comment overlaps it with anything but spaces and
      newlines. */
  lemma TokenIsKeptIff(t: Text, p: nat)
    requires p < |t| && Boundary(BlankHtml(t), 0, p) && !IsComment(TokenAt(BlankHtml(t), p).0)
    ensures var n := TokenAt(BlankHtml(t), p).1;
            StripComments(t)[p..n] == t[p..n] <==> forall q :: p <= q < n && InHtml(t, 0, q) ==> t[q] == Blanked(t[q])
  {
    var n := TokenAt(BlankHtml(t), p).1;
    TokensRenderedAlways(t, p);
    var r, html := StripComments(t), BlankHtml(t);
    forall q | p <= q < n ensures r[q] == html[q] {
      assert r[p..n][q - p] == html[p..n][q - p];
    }
    SlicesEqualIff(r, t, p, n);
  }

  lemma SlicesEqualIff(r: Text, t: Text, p: nat, n: nat)
    requires p <= n <= |r| == |t|
    ensures r[p..n] == t[p..n] <==> forall q :: p <= q < n ==> r[q] == t[q]
  {
    if r[p..n] == t[p..n] {
      forall q | p <= q < n ensures r[q] == t[q] {
        assert r[p..n][q - p] == t[p..n][q - p];
      }
    }
  }

  /** Without an HTML comment the whole function keeps string literals and other code, and blanks comments. */
  lemma TokensRenderedWithoutHtml(t: Text, p: nat)
    requires p < |t| && Boundary(t, 0, p) && !HasHtmlComment(t)
    ensures var (kind, n) := TokenAt(t, p);
            StripComments(t)[p..n] == if IsComment(kind) then Blank(t[p..n]) else t[p..n]
  {
    HtmlPassChangesOnlyComments(t);
    TokensRenderedAlways(t, p);
  }

  /** A string literal is kept verbatim only up to the HTML pass: one that contains an HTML comment loses
      that part of its text. */
  lemma HtmlCommentInStringIsBlanked()
    ensures var t := "'<!---->'";
            && TokenAt(t, 0) == (StringLiteral, |t|)
            && StripComments(t) != t
  {
    var t := "'<!---->'";
    assert StringEnd(t, 5, '\'') == 9 by {
      assert StringEnd(t, 7, '\'') == 9;
    }
    assert StringEnd(t, 3, '\'') == 9;
    assert StringEnd(t, 1, '\'') == 9;
    assert HtmlCommentAt(t, 1) == Some(8);
    OpeningIsCovered(t, 0, 1);
    assert BlankHtml(t)[1] == ' ';
  }

  // ---- Line numbers in `find_hardcoded` ----

  /** Where `str.splitlines` breaks a text that was read with universal newlines (so no carriage return). */
  predicate IsBreak(c: char) {
    c == '\n' || c == '\U{0B}' || c == '\U{0C}' || c == '\U{1C}' || c == '\U{1D}' || c == '\U{1E}'
    || c == '\U{85}' || c == '\U{2028}' || c == '\U{2029}'
  }

  /** The number of line breaks before position `p`: the index of the line that `p` is on. */
  function LineOf(t: Text, p: nat): nat
    requires p <= |t|
  {
    if p == 0 then 0 else LineOf(t, p - 1) + if IsBreak(t[p - 1]) then 1 else 0
  }

  /** A line break that `strip_comments` erases: any but the newline, inside a comment. */
  predicate ErasedBreak(t: Text, p: nat)
    requires p < |t|
  {
    t[p] != '\n' && IsBreak(t[p]) && (InHtml(t, 0, p) || InComment(BlankHtml(t), 0, p))
  }

  function ErasedBefore(t: Text, p: nat): (n: nat)
    requires p <= |t|
    ensures n == 0 <==> forall q :: 0 <= q < p ==> !ErasedBreak(t, q)
  {
    if p == 0 then 0 else ErasedBefore(t, p - 1) + if ErasedBreak(t, p - 1) then 1 else 0
  }

  /** `find_hardcoded` reads line numbers off the stripped text and exemption markers off the raw text.
      At every position the stripped line number falls short by the line breaks that comments before
      it contained (form feeds, line separators, ...). */
  lemma {:induction false} LineNumbersFallShort(t: Text, p: nat)
    requires p <= |t|
    ensures LineOf(StripComments(t), p) == LineOf(t, p) - ErasedBefore(t, p)
  {
    if p > 0 {
      LineNumbersFallShort(t, p - 1);
    }
  }

  /** So the line numbers of a text are right exactly when no comment holds such a break. */
  lemma LineNumbersAgreeIff(t: Text)
    ensures (forall p :: 0 <= p <= |t| ==> LineOf(StripComments(t), p) == LineOf(t, p))
            <==> (forall q :: 0 <= q < |t| ==> !ErasedBreak(t, q))
  {
    LineNumbersFallShort(t, |t|);
    forall p | 0 <= p <= |t| ensures LineOf(StripComments(t), p) == LineOf(t, p) - ErasedBefore(t, p) {
      LineNumbersFallShort(t, p);
    }
  }

  /** A line separator in a comment shifts every later line number down by one. */
  lemma LineSeparatorInCommentShiftsLines()
    ensures var t := "//\U{2028}\nx"; LineOf(StripComments(t), 4) == 1 && LineOf(t, 4) == 2
  {
    var t := "//\U{2028}\nx";
    assert !HasHtmlComment(t);
    HtmlPassChangesOnlyComments(t);
    assert LineEnd(t, 2) == 3;
    assert InComment(t, 0, 0) && InComment(t, 0, 1) && InComment(t, 0, 2);
    var r := StripComments(t);
    assert r[0] == ' ' && r[1] == ' ' && r[2] == ' ' && r[3] == '\n';
    assert LineOf(r, 1) == 0 && LineOf(r, 2) == 0 && LineOf(r, 3) == 0;
    assert LineOf(t, 1) == 0 && LineOf(t, 2) == 0 && LineOf(t, 3) == 1;
  }
}
