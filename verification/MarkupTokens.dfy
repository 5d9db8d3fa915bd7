/** Template text as a list of comments and single characters, what the HTML pass of `strip_comments`
    (scripts/check_i18n_hardcoded.py) makes of it, and what the whole function makes of any text. */
module MarkupTokens {
  import opened Basics
  import opened CommentStripper
  import opened CommentTokens

  // ---- The HTML pass ----

  /** A comment of the template, or one character outside any. */
  datatype HtmlPiece = Markup(body: Text) | Single(c: char)

  function HtmlText(p: HtmlPiece): (r: Text)
    ensures |r| > 0
  {
    match p
    case Markup(body) => ['<', '!', '-', '-'] + (body + ['-', '-', '>'])
    case Single(c) => [c]
  }

  function HtmlPrinted(ps: seq<HtmlPiece>): Text {
    if ps == [] then [] else HtmlText(ps[0]) + HtmlPrinted(ps[1..])
  }

  function HtmlPieceRendered(p: HtmlPiece): Text {
    if p.Markup? then Blank(HtmlText(p)) else HtmlText(p)
  }

  function HtmlRendered(ps: seq<HtmlPiece>): Text {
    if ps == [] then [] else HtmlPieceRendered(ps[0]) + HtmlRendered(ps[1..])
  }

  predicate ArrowAt(s: Text, k: nat) {
    k + 2 < |s| && s[k] == '-' && s[k + 1] == '-' && s[k + 2] == '>'
  }

  /** The text starts with a comment that ends somewhere. */
  predicate StartsMarkup(s: Text) {
    && |s| >= 4 && s[0] == '<' && s[1] == '!' && s[2] == '-' && s[3] == '-'
    && exists k :: 4 <= k <= |s| && ArrowAt(s, k)
  }

  /** The body of a comment does not hold its end; where a single character is read, no comment starts. */
  predicate ProperHtml(p: HtmlPiece, rest: Text) {
    match p
    case Markup(body) => forall k :: 0 <= k <= |body| ==> !ArrowAt(body, k)
    case Single(c) => !StartsMarkup([c] + rest)
  }

  predicate ProperHtmlList(ps: seq<HtmlPiece>)
    decreases |ps|
  {
    ps == [] || (ProperHtml(ps[0], HtmlPrinted(ps[1..])) && ProperHtmlList(ps[1..]))
  }

  lemma ArrowIff(t: Text, i: nat, s: Text, k: nat)
    requires From(t, i, s)
    ensures ArrowAt(s, k) <==> HtmlClose(t, i + k)
  {
    if k + 2 < |s| {
      assert s[k] == t[i..][k] && s[k + 1] == t[i..][k + 1] && s[k + 2] == t[i..][k + 2];
    }
  }

  lemma {:induction false} FirstArrow(t: Text, i: nat, n: nat)
    requires i <= n && HtmlClose(t, n) && forall k :: i <= k < n ==> !HtmlClose(t, k)
    ensures HtmlEnd(t, i) == Some(n + 3)
    decreases n - i
  {
    if i < n {
      FirstArrow(t, i + 1, n);
    }
  }

  lemma MarkupOpens(t: Text, i: nat, s: Text)
    requires From(t, i, ['<', '!', '-', '-'] + s)
    ensures HtmlOpen(t, i) && From(t, i + 4, s)
  {
    FromJoin(t, i, ['<', '!', '-', '-'], s);
    assert t[i + 0] == '<' && t[i + 1] == '!' && t[i + 2] == '-' && t[i + 3] == '-';
  }

  lemma MarkupEnds(t: Text, i: nat, s: Text, n: nat)
    requires From(t, i, s) && ArrowAt(s, n) && forall k :: 0 <= k < n ==> !ArrowAt(s, k)
    ensures HtmlEnd(t, i) == Some(i + n + 3)
  {
    forall k | i <= k < i + n ensures !HtmlClose(t, k) {
      ArrowIff(t, i, s, k - i);
    }
    ArrowIff(t, i, s, n);
    FirstArrow(t, i, i + n);
  }

  lemma MarkupIsRead(t: Text, i: nat, body: Text, rest: Text)
    requires From(t, i, HtmlText(Markup(body)) + rest) && ProperHtml(Markup(body), rest)
    ensures HtmlCommentAt(t, i) == Some(i + |HtmlText(Markup(body))|)
  {
    var s := body + (['-', '-', '>'] + rest);
    assert HtmlText(Markup(body)) + rest == ['<', '!', '-', '-'] + s;
    MarkupOpens(t, i, s);
    ArrowBehindBody(body, rest);
    MarkupEnds(t, i + 4, s, |body|);
  }

  /** The end of a comment is the first one. */
  lemma ArrowBehindBody(body: Text, rest: Text)
    requires forall k :: 0 <= k <= |body| ==> !ArrowAt(body, k)
    ensures var s := body + (['-', '-', '>'] + rest);
      ArrowAt(s, |body|) && forall k :: 0 <= k < |body| ==> !ArrowAt(s, k)
  {
    var s := body + (['-', '-', '>'] + rest);
    forall k | 0 <= k < |body| ensures !ArrowAt(s, k) {
      assert !ArrowAt(body, k);
    }
  }

  lemma StartsMarkupIff(t: Text, i: nat, s: Text)
    requires i < |t| && From(t, i, s)
    ensures StartsMarkup(s) <==> HtmlCommentAt(t, i).Some?
  {
    forall k | 0 <= k < |s| ensures s[k] == t[i + k] {
    }
    if HtmlCommentAt(t, i).Some? {
      var q := HtmlEndIsClose(t, i + 4);
      ArrowIff(t, i, s, q - i);
    }
    if StartsMarkup(s) {
      var k :| 4 <= k <= |s| && ArrowAt(s, k);
      ArrowIff(t, i, s, k);
      HtmlEndFinds(t, i + 4, i + k);
    }
  }

  function HtmlOut(t: Text, i: nat, p: nat): char
    requires i <= p < |t|
  {
    if InHtml(t, i, p) then Blanked(t[p]) else t[p]
  }

  function HtmlOutFrom(t: Text, i: nat): (r: Text)
    requires i <= |t|
    ensures |r| == |t| - i
  {
    seq(|t| - i, k requires 0 <= k < |t| - i => HtmlOut(t, i, i + k))
  }

  lemma HtmlOutJoins(t: Text, i: nat, n: nat, head: Text)
    requires i <= n <= |t| && |head| == n - i
    requires forall p :: i <= p < n ==> HtmlOut(t, i, p) == head[p - i]
    requires forall p :: n <= p < |t| ==> HtmlOut(t, i, p) == HtmlOut(t, n, p)
    ensures HtmlOutFrom(t, i) == head + HtmlOutFrom(t, n)
  {
  }

  lemma HtmlPieceThenRest(t: Text, i: nat, q: HtmlPiece, rest: Text) returns (n: nat)
    requires ProperHtml(q, rest) && From(t, i, HtmlText(q) + rest)
    ensures From(t, n, rest) && HtmlOutFrom(t, i) == HtmlPieceRendered(q) + HtmlOutFrom(t, n)
  {
    n := i + |HtmlText(q)|;
    FromJoin(t, i, HtmlText(q), rest);
    if q.Markup? {
      MarkupIsRead(t, i, q.body, rest);
    } else {
      StartsMarkupIff(t, i, [q.c] + rest);
    }
    HtmlPieceIsOut(t, i, n, HtmlText(q), q.Markup?);
    HtmlOutJoins(t, i, n, HtmlPieceRendered(q));
  }

  lemma HtmlPieceIsOut(t: Text, i: nat, n: nat, text: Text, markup: bool)
    requires i < n <= |t| && |text| == n - i && forall k :: 0 <= k < |text| ==> t[i + k] == text[k]
    requires HtmlCommentAt(t, i) == (if markup then Some(n) else None) && (!markup ==> n == i + 1)
    ensures forall p :: i <= p < n ==> HtmlOut(t, i, p) == (if markup then Blank(text) else text)[p - i]
    ensures forall p :: n <= p < |t| ==> HtmlOut(t, i, p) == HtmlOut(t, n, p)
  {
    forall p | i <= p < n ensures HtmlOut(t, i, p) == (if markup then Blank(text) else text)[p - i] {
      assert t[i + (p - i)] == text[p - i];
    }
  }

  lemma {:induction false} HtmlRenderedFrom(t: Text, i: nat, ps: seq<HtmlPiece>)
    requires ProperHtmlList(ps) && From(t, i, HtmlPrinted(ps))
    ensures HtmlOutFrom(t, i) == HtmlRendered(ps)
    decreases |ps|
  {
    if ps != [] {
      var n := HtmlPieceThenRest(t, i, ps[0], HtmlPrinted(ps[1..]));
      HtmlRenderedFrom(t, n, ps[1..]);
    }
  }

  /** The HTML pass renders every list of template comments and other characters: comments blank, newlines apart. */
  lemma HtmlPrintedIsRendered(ps: seq<HtmlPiece>)
    requires ProperHtmlList(ps)
    ensures BlankHtml(HtmlPrinted(ps)) == HtmlRendered(ps)
  {
    var t := HtmlPrinted(ps);
    assert t[0..] == t;
    HtmlRenderedFrom(t, 0, ps);
    assert BlankHtml(t) == HtmlOutFrom(t, 0);
  }

  lemma {:induction false} HtmlEndIsFirst(t: Text, i: nat)
    requires i <= |t| && HtmlEnd(t, i).Some?
    ensures HtmlClose(t, HtmlEnd(t, i).value - 3) && forall k :: i <= k < HtmlEnd(t, i).value - 3 ==> !HtmlClose(t, k)
    decreases |t| - i
  {
    if !HtmlClose(t, i) {
      HtmlEndIsFirst(t, i + 1);
    }
  }

  lemma MarkupOf(t: Text, i: nat, n: nat) returns (p: HtmlPiece)
    requires i < |t| && HtmlCommentAt(t, i) == Some(n)
    ensures HtmlText(p) == t[i..n] && ProperHtml(p, t[n..])
  {
    HtmlEndIsFirst(t, i + 4);
    var body := t[i + 4..n - 3];
    p := Markup(body);
    assert t[i..n] == t[i..i + 4] + (body + t[n - 3..n]);
    forall k | 0 <= k <= |body| ensures !ArrowAt(body, k) {
      assert k + 2 < |body| ==> !HtmlClose(t, i + 4 + k);
    }
  }

  lemma {:induction false} HtmlPiecesOf(t: Text, i: nat) returns (ps: seq<HtmlPiece>)
    requires i <= |t|
    ensures ProperHtmlList(ps) && HtmlPrinted(ps) == t[i..]
    decreases |t| - i
  {
    if i == |t| {
      ps := [];
    } else {
      var n := if HtmlCommentAt(t, i).Some? then HtmlCommentAt(t, i).value else i + 1;
      var p := Single(t[i]);
      if HtmlCommentAt(t, i).Some? {
        p := MarkupOf(t, i, n);
      } else {
        StartsMarkupIff(t, i, t[i..]);
        assert [t[i]] + t[i + 1..] == t[i..] && t[i..n] == [t[i]];
      }
      var rest := HtmlPiecesOf(t, n);
      ps := [p] + rest;
      assert ps[1..] == rest;
      assert t[i..] == t[i..n] + t[n..];
    }
  }

  /** The whole function on any text: it is the print of template comments and single characters; what the HTML pass
      makes of it is the print of tokens; and the output is those tokens with their comments blank. */
  lemma EveryTextIsRendered(t: Text) returns (html: seq<HtmlPiece>, ps: seq<Piece>)
    ensures ProperHtmlList(html) && HtmlPrinted(html) == t
    ensures ProperList(ps) && Printed(ps) == HtmlRendered(html) && StripComments(t) == Rendered(ps)
  {
    html := HtmlPiecesOf(t, 0);
    assert t[0..] == t;
    HtmlPrintedIsRendered(html);
    ps := EveryTextIsPrinted(BlankHtml(t));
  }

  /** In particular, source text without template comments comes out with exactly its comments blank. */
  lemma SourceIsRendered(ps: seq<Piece>)
    requires ProperList(ps) && forall i :: 0 <= i <= |Printed(ps)| ==> !StartsMarkup(Printed(ps)[i..])
    ensures StripComments(Printed(ps)) == Rendered(ps)
  {
    var t := Printed(ps);
    forall i | 0 <= i < |t| ensures HtmlCommentAt(t, i).None? {
      StartsMarkupIff(t, i, t[i..]);
    }
    HtmlPassChangesOnlyComments(t);
    PrintedIsRendered(ps);
  }
}
