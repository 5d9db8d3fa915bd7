/** Source text as a list of printed tokens, and what `strip_comments` (scripts/check_i18n_hardcoded.py) makes of it,
    without any recourse to how it scans. */
module CommentTokens {
  import opened Basics
  import opened CommentStripper

  // ---- Tokens ----

  /** What a string literal is made of. */
  datatype Bit = Plain(c: char) | Escaped(c: char)

  /** How a literal ends: with its quote, or cut off by a newline or the end of the text, perhaps behind a backslash. */
  datatype Ending = Closed | CutOff | CutOffAtBackslash

  datatype Piece =
    | Literal(quote: char, bits: seq<Bit>, ending: Ending)
    | ToLineEnd(body: Text)
    | Enclosed(body: Text)
    | NeverClosed(body: Text)
    | Code(c: char)

  function BitText(b: Bit): (r: Text)
    ensures |r| > 0
  {
    match b
    case Plain(c) => [c]
    case Escaped(c) => ['\\', c]
  }

  function BitsText(bits: seq<Bit>): Text {
    if bits == [] then [] else BitText(bits[0]) + BitsText(bits[1..])
  }

  function EndingText(quote: char, e: Ending): Text {
    match e
    case Closed => [quote]
    case CutOff => []
    case CutOffAtBackslash => ['\\']
  }

  function PieceText(p: Piece): (r: Text)
    ensures |r| > 0
  {
    match p
    case Literal(quote, bits, ending) => [quote] + (BitsText(bits) + EndingText(quote, ending))
    case ToLineEnd(body) => ['/', '/'] + body
    case Enclosed(body) => ['/', '*'] + (body + ['*', '/'])
    case NeverClosed(body) => ['/', '*'] + body
    case Code(c) => [c]
  }

  function Printed(ps: seq<Piece>): Text {
    if ps == [] then [] else PieceText(ps[0]) + Printed(ps[1..])
  }

  /** The piece with every character but newlines blank, if it is a comment. */
  function PieceRendered(p: Piece): Text {
    if p.ToLineEnd? || p.Enclosed? || p.NeverClosed? then Blank(PieceText(p)) else PieceText(p)
  }

  function Rendered(ps: seq<Piece>): Text {
    if ps == [] then [] else PieceRendered(ps[0]) + Rendered(ps[1..])
  }

  // ---- Which lists print to source text that reads back ----

  /** A plain character of a literal is neither a backslash nor its quote, and a newline only in a template. */
  predicate ProperBit(quote: char, b: Bit) {
    b.Plain? ==> b.c != '\\' && b.c != quote && (b.c == '\n' ==> quote == '`')
  }

  predicate ProperBits(quote: char, bits: seq<Bit>) {
    forall i :: 0 <= i < |bits| ==> ProperBit(quote, bits[i])
  }

  predicate NoClose(body: Text) {
    forall i :: 0 <= i < |body| - 1 ==> !(body[i] == '*' && body[i + 1] == '/')
  }

  predicate ProperPiece(p: Piece) {
    match p
    case Literal(quote, bits, _) => IsQuoteMark(quote) && ProperBits(quote, bits)
    case ToLineEnd(body) => '\n' !in body
    case Enclosed(body) => NoClose(body)
    case NeverClosed(body) => NoClose(body)
    case Code(c) => !IsQuoteMark(c)
  }

  predicate IsQuoteMark(c: char) {
    c in {'\'', '"', '`'}
  }

  predicate Starts(rest: Text, c: char) {
    rest != [] && rest[0] == c
  }

  /** What may stand behind a piece: a newline or nothing behind a line comment; a newline, if it cuts off the literal,
      or nothing behind an open one; and nothing behind a slash that would make a comment of it. */
  predicate Fits(p: Piece, rest: Text) {
    match p
    case Literal(quote, _, Closed) => true
    case Literal(quote, _, CutOff) => rest == [] || (Starts(rest, '\n') && quote != '`')
    case Literal(quote, _, CutOffAtBackslash) => rest == []
    case ToLineEnd(_) => rest == [] || Starts(rest, '\n')
    case Enclosed(_) => true
    case NeverClosed(_) => rest == []
    case Code(c) => c == '/' ==> !Starts(rest, '/') && !Starts(rest, '*')
  }

  predicate ProperList(ps: seq<Piece>)
    decreases |ps|
  {
    ps == [] || (ProperPiece(ps[0]) && Fits(ps[0], Printed(ps[1..])) && ProperList(ps[1..]))
  }

  // ---- Every piece is scanned as such ----

  /** The text from `i` on. */
  predicate From(t: Text, i: nat, s: Text) {
    i <= |t| && t[i..] == s
  }

  lemma FromJoin(t: Text, i: nat, a: Text, b: Text)
    requires From(t, i, a + b)
    ensures From(t, i + |a|, b) && |t| == i + |a| + |b|
    ensures forall k :: 0 <= k < |a| ==> t[i + k] == a[k]
  {
    assert t[i + |a|..] == t[i..][|a|..];
    forall k | 0 <= k < |a| ensures t[i + k] == a[k] {
      assert t[i..][k] == t[i + k];
    }
  }

  lemma BitIsRead(t: Text, i: nat, quote: char, b: Bit, rest: Text)
    requires IsQuoteMark(quote) && ProperBit(quote, b) && From(t, i, BitText(b) + rest)
    ensures From(t, i + |BitText(b)|, rest) && StringEnd(t, i, quote) == StringEnd(t, i + |BitText(b)|, quote)
  {
    FromJoin(t, i, BitText(b), rest);
    assert BitText(b)[0] == if b.Plain? then b.c else '\\';
    assert t[i + 0] == BitText(b)[0];
  }

  lemma EndingIsRead(t: Text, i: nat, quote: char, bits: seq<Bit>, ending: Ending, rest: Text)
    requires IsQuoteMark(quote) && Fits(Literal(quote, bits, ending), rest)
    requires From(t, i, EndingText(quote, ending) + rest)
    ensures StringEnd(t, i, quote) == i + |EndingText(quote, ending)|
  {
    FromJoin(t, i, EndingText(quote, ending), rest);
    assert ending != CutOff ==> t[i + 0] == EndingText(quote, ending)[0];
    assert rest != [] ==> t[i + |EndingText(quote, ending)|..][0] == rest[0];
  }

  lemma FirstBit(bits: seq<Bit>, behind: Text)
    requires bits != []
    ensures BitsText(bits) + behind == BitText(bits[0]) + (BitsText(bits[1..]) + behind)
  {
  }

  lemma {:induction false} LiteralEnds(t: Text, i: nat, quote: char, bits: seq<Bit>, ending: Ending, rest: Text)
    requires IsQuoteMark(quote) && ProperBits(quote, bits) && Fits(Literal(quote, bits, ending), rest)
    requires From(t, i, BitsText(bits) + (EndingText(quote, ending) + rest))
    ensures StringEnd(t, i, quote) == i + |BitsText(bits)| + |EndingText(quote, ending)|
    decreases |bits|
  {
    var behind := EndingText(quote, ending) + rest;
    if bits == [] {
      assert BitsText(bits) + behind == behind;
      EndingIsRead(t, i, quote, bits, ending, rest);
    } else {
      FirstBit(bits, behind);
      BitIsRead(t, i, quote, bits[0], BitsText(bits[1..]) + behind);
      LiteralEnds(t, i + |BitText(bits[0])|, quote, bits[1..], ending, rest);
    }
  }

  lemma {:induction false} LineEnds(t: Text, i: nat, body: Text, rest: Text)
    requires '\n' !in body && (rest == [] || Starts(rest, '\n')) && From(t, i, body + rest)
    ensures LineEnd(t, i) == i + |body|
    decreases |body|
  {
    if body == [] {
      assert body + rest == rest;
      assert rest != [] ==> t[i] == t[i..][0];
    } else {
      assert body + rest == [body[0]] + (body[1..] + rest);
      FromJoin(t, i, [body[0]], body[1..] + rest);
      assert t[i + 0] == body[0];
      LineEnds(t, i + 1, body[1..], rest);
    }
  }

  lemma {:induction false} BlockEnds(t: Text, i: nat, body: Text, rest: Text)
    requires NoClose(body) && From(t, i, body + (['*', '/'] + rest))
    ensures BlockEnd(t, i) == i + |body| + 2
    decreases |body|
  {
    var close := ['*', '/'] + rest;
    if body == [] {
      assert body + close == close;
      FromJoin(t, i, ['*', '/'], rest);
      assert t[i + 0] == '*' && t[i + 1] == '/';
    } else {
      assert body + close == [body[0]] + (body[1..] + close);
      FromJoin(t, i, [body[0]], body[1..] + close);
      assert t[i + 0] == body[0];
      assert t[i + 1] == t[i + 1..][0] == if |body| > 1 then body[1] else '*';
      BlockEnds(t, i + 1, body[1..], rest);
    }
  }

  lemma {:induction false} BlockNeverEnds(t: Text, i: nat, body: Text)
    requires NoClose(body) && From(t, i, body)
    ensures BlockEnd(t, i) == |t|
    decreases |body|
  {
    if body != [] {
      assert body == [body[0]] + body[1..];
      FromJoin(t, i, [body[0]], body[1..]);
      assert t[i + 0] == body[0];
      assert |body| > 1 ==> t[i + 1] == t[i + 1..][0] == body[1];
      BlockNeverEnds(t, i + 1, body[1..]);
    }
  }

  function KindOf(p: Piece): Kind {
    match p
    case Literal(_, _, _) => StringLiteral
    case ToLineEnd(_) => LineComment
    case Enclosed(_) => BlockComment
    case NeverClosed(_) => BlockComment
    case Code(_) => Other
  }

  lemma LiteralIsScanned(t: Text, i: nat, p: Piece, rest: Text)
    requires p.Literal? && ProperPiece(p) && Fits(p, rest) && From(t, i, PieceText(p) + rest)
    ensures i < |t| && TokenAt(t, i) == (StringLiteral, i + |PieceText(p)|)
  {
    var bits, end := BitsText(p.bits), EndingText(p.quote, p.ending);
    assert PieceText(p) + rest == [p.quote] + (bits + (end + rest));
    FromJoin(t, i, [p.quote], bits + (end + rest));
    assert t[i + 0] == p.quote;
    LiteralEnds(t, i + 1, p.quote, p.bits, p.ending, rest);
  }

  lemma CommentOpens(t: Text, i: nat, c: char, rest: Text)
    requires From(t, i, ['/', c] + rest)
    ensures |t| >= i + 2 && t[i] == '/' && t[i + 1] == c && From(t, i + 2, rest)
  {
    FromJoin(t, i, ['/', c], rest);
    assert t[i + 0] == '/' && t[i + 1] == c;
  }

  lemma CommentIsScanned(t: Text, i: nat, p: Piece, rest: Text)
    requires p.ToLineEnd? || p.Enclosed? || p.NeverClosed?
    requires ProperPiece(p) && Fits(p, rest) && From(t, i, PieceText(p) + rest)
    ensures i < |t| && TokenAt(t, i) == (KindOf(p), i + |PieceText(p)|)
  {
    match p
    case ToLineEnd(body) =>
      assert PieceText(p) + rest == ['/', '/'] + (body + rest);
      CommentOpens(t, i, '/', body + rest);
      LineEnds(t, i + 2, body, rest);
    case Enclosed(body) =>
      assert PieceText(p) + rest == ['/', '*'] + (body + (['*', '/'] + rest));
      CommentOpens(t, i, '*', body + (['*', '/'] + rest));
      BlockEnds(t, i + 2, body, rest);
    case NeverClosed(body) =>
      assert PieceText(p) + rest == ['/', '*'] + body;
      CommentOpens(t, i, '*', body);
      BlockNeverEnds(t, i + 2, body);
  }

  lemma PieceIsScanned(t: Text, i: nat, p: Piece, rest: Text)
    requires ProperPiece(p) && Fits(p, rest) && From(t, i, PieceText(p) + rest)
    ensures i < |t| && TokenAt(t, i) == (KindOf(p), i + |PieceText(p)|)
  {
    if p.Literal? {
      LiteralIsScanned(t, i, p, rest);
    } else if p.Code? {
      FromJoin(t, i, [p.c], rest);
      assert t[i + 0] == p.c;
      assert rest != [] ==> t[i + 1] == t[i + 1..][0] == rest[0];
    } else {
      CommentIsScanned(t, i, p, rest);
    }
  }

  /** The character of the output at `p`, scanned from `i` on. */
  function Out(t: Text, i: nat, p: nat): char
    requires i <= p < |t|
  {
    if InComment(t, i, p) then Blanked(t[p]) else t[p]
  }

  /** The output for the text from `i` on. */
  function OutFrom(t: Text, i: nat): (r: Text)
    requires i <= |t|
    ensures |r| == |t| - i
  {
    seq(|t| - i, k requires 0 <= k < |t| - i => Out(t, i, i + k))
  }

  lemma OutOfPiece(t: Text, i: nat, q: Piece, rest: Text, p: nat)
    requires ProperPiece(q) && Fits(q, rest) && From(t, i, PieceText(q) + rest) && i <= p < |t|
    ensures |PieceRendered(q)| == |PieceText(q)| && From(t, i + |PieceText(q)|, rest)
    ensures p < i + |PieceText(q)| ==> Out(t, i, p) == PieceRendered(q)[p - i]
    ensures p >= i + |PieceText(q)| ==> Out(t, i, p) == Out(t, i + |PieceText(q)|, p)
  {
    PieceIsScanned(t, i, q, rest);
    FromJoin(t, i, PieceText(q), rest);
    OutOfToken(t, i, KindOf(q), PieceText(q), p);
  }

  lemma OutOfToken(t: Text, i: nat, kind: Kind, text: Text, p: nat)
    requires i <= p < |t| && TokenAt(t, i) == (kind, i + |text|) && forall k :: 0 <= k < |text| ==> t[i + k] == text[k]
    ensures p < i + |text| ==> Out(t, i, p) == (if IsComment(kind) then Blank(text) else text)[p - i]
    ensures p >= i + |text| ==> Out(t, i, p) == Out(t, i + |text|, p)
  {
    assert p < i + |text| ==> t[i + (p - i)] == text[p - i];
  }

  lemma OutJoins(t: Text, i: nat, n: nat, head: Text)
    requires i <= n <= |t| && |head| == n - i
    requires forall p :: i <= p < n ==> Out(t, i, p) == head[p - i]
    requires forall p :: n <= p < |t| ==> Out(t, i, p) == Out(t, n, p)
    ensures OutFrom(t, i) == head + OutFrom(t, n)
  {
  }

  lemma PieceThenRest(t: Text, i: nat, q: Piece, rest: Text) returns (n: nat)
    requires ProperPiece(q) && Fits(q, rest) && From(t, i, PieceText(q) + rest)
    ensures From(t, n, rest) && OutFrom(t, i) == PieceRendered(q) + OutFrom(t, n)
  {
    n := i + |PieceText(q)|;
    FromJoin(t, i, PieceText(q), rest);
    PieceIsOut(t, i, q, rest, n);
    OutJoins(t, i, n, PieceRendered(q));
  }

  lemma PieceIsOut(t: Text, i: nat, q: Piece, rest: Text, n: nat)
    requires ProperPiece(q) && Fits(q, rest) && From(t, i, PieceText(q) + rest) && n == i + |PieceText(q)| <= |t|
    ensures |PieceRendered(q)| == n - i
    ensures forall p :: i <= p < n ==> Out(t, i, p) == PieceRendered(q)[p - i]
    ensures forall p :: n <= p < |t| ==> Out(t, i, p) == Out(t, n, p)
  {
    assert |PieceRendered(q)| == |PieceText(q)|;
    forall p | i <= p < |t|
      ensures if p < n then Out(t, i, p) == PieceRendered(q)[p - i] else Out(t, i, p) == Out(t, n, p)
    {
      OutOfPiece(t, i, q, rest, p);
    }
  }

  lemma {:induction false} RenderedFrom(t: Text, i: nat, ps: seq<Piece>)
    requires ProperList(ps) && From(t, i, Printed(ps))
    ensures OutFrom(t, i) == Rendered(ps)
    decreases |ps|
  {
    if ps != [] {
      var n := PieceThenRest(t, i, ps[0], Printed(ps[1..]));
      RenderedFrom(t, n, ps[1..]);
    }
  }

  /** The character loop renders every list of tokens: comments come out blank, newlines apart, and everything else as it
      was printed. */
  lemma PrintedIsRendered(ps: seq<Piece>)
    requires ProperList(ps)
    ensures Strip(Printed(ps)) == Rendered(ps)
  {
    var t := Printed(ps);
    assert t[0..] == t;
    RenderedFrom(t, 0, ps);
    assert Strip(t) == OutFrom(t, 0);
  }

  // ---- Every text is such a list ----

  /** Where a literal stops: nothing is left of it but its ending. */
  predicate StopsAt(t: Text, i: nat, quote: char) {
    || i >= |t| || t[i] == quote || (t[i] == '\n' && quote != '`') || (t[i] == '\\' && i + 1 == |t|)
  }

  lemma EndingOf(t: Text, i: nat, quote: char) returns (ending: Ending)
    requires i <= |t| && IsQuoteMark(quote) && StopsAt(t, i, quote)
    ensures var n := StringEnd(t, i, quote); t[i..n] == EndingText(quote, ending) && Fits(Literal(quote, [], ending), t[n..])
  {
    if i < |t| && t[i] == quote {
      ending := Closed;
    } else if i < |t| && t[i] == '\\' {
      ending := CutOffAtBackslash;
    } else {
      ending := CutOff;
    }
  }

  lemma BitOf(t: Text, i: nat, quote: char) returns (b: Bit)
    requires i <= |t| && !StopsAt(t, i, quote)
    ensures ProperBit(quote, b) && i + |BitText(b)| <= |t| && t[i..i + |BitText(b)|] == BitText(b)
    ensures StringEnd(t, i, quote) == StringEnd(t, i + |BitText(b)|, quote)
  {
    b := if t[i] == '\\' then Escaped(t[i + 1]) else Plain(t[i]);
  }

  lemma {:induction false} LiteralOf(t: Text, i: nat, quote: char) returns (bits: seq<Bit>, ending: Ending)
    requires i <= |t| && IsQuoteMark(quote)
    ensures ProperBits(quote, bits)
    ensures t[i..StringEnd(t, i, quote)] == BitsText(bits) + EndingText(quote, ending)
    ensures Fits(Literal(quote, bits, ending), t[StringEnd(t, i, quote)..])
    decreases |t| - i
  {
    if StopsAt(t, i, quote) {
      ending := EndingOf(t, i, quote);
      bits := [];
    } else {
      var b := BitOf(t, i, quote);
      var rest;
      rest, ending := LiteralOf(t, i + |BitText(b)|, quote);
      bits := OneMoreBit(t, i, StringEnd(t, i, quote), quote, b, rest, ending);
    }
  }

  lemma OneMoreBit(t: Text, i: nat, n: nat, quote: char, b: Bit, rest: seq<Bit>, ending: Ending)
    returns (bits: seq<Bit>)
    requires i + |BitText(b)| <= n <= |t| && ProperBit(quote, b) && ProperBits(quote, rest)
    requires t[i..i + |BitText(b)|] == BitText(b)
    requires t[i + |BitText(b)|..n] == BitsText(rest) + EndingText(quote, ending)
    ensures bits == [b] + rest && ProperBits(quote, bits) && t[i..n] == BitsText(bits) + EndingText(quote, ending)
  {
    bits := [b] + rest;
    assert bits[1..] == rest;
    assert t[i..n] == t[i..i + |BitText(b)|] + t[i + |BitText(b)|..n];
  }

  lemma {:induction false} LineEndIs(t: Text, i: nat)
    requires i <= |t|
    ensures var n := LineEnd(t, i); '\n' !in t[i..n] && (t[n..] == [] || Starts(t[n..], '\n'))
    decreases |t| - i
  {
    if i < |t| && t[i] != '\n' {
      LineEndIs(t, i + 1);
      assert t[i..LineEnd(t, i)] == [t[i]] + t[i + 1..LineEnd(t, i)];
    }
  }

  /** The body of a block comment, with its end or, at the end of the text, without. */
  lemma {:induction false} BlockOf(t: Text, i: nat) returns (body: Text, closed: bool)
    requires i <= |t|
    ensures NoClose(body) && t[i..BlockEnd(t, i)] == body + (if closed then ['*', '/'] else [])
    ensures !closed ==> BlockEnd(t, i) == |t|
    decreases |t| - i
  {
    if i == |t| {
      body, closed := [], false;
    } else if At(t, i, '*') && At(t, i + 1, '/') {
      body, closed := [], true;
      assert t[i..i + 2] == ['*', '/'];
    } else {
      var rest;
      rest, closed := BlockOf(t, i + 1);
      body := [t[i]] + rest;
      var n := BlockEnd(t, i);
      assert t[i..n] == [t[i]] + t[i + 1..n];
      NextOfBody(t, i, n, rest, closed);
    }
  }

  lemma NextOfBody(t: Text, i: nat, n: nat, rest: Text, closed: bool)
    requires i + 1 <= n <= |t| && NoClose(rest) && t[i + 1..n] == rest + (if closed then ['*', '/'] else [])
    requires !(At(t, i, '*') && At(t, i + 1, '/'))
    ensures NoClose([t[i]] + rest)
  {
    if rest != [] {
      assert t[i + 1] == t[i + 1..n][0] == rest[0];
    }
    forall k | 0 <= k < |[t[i]] + rest| - 1 ensures !(([t[i]] + rest)[k] == '*' && ([t[i]] + rest)[k + 1] == '/') {
      if k > 0 {
        assert !(rest[k - 1] == '*' && rest[(k - 1) + 1] == '/');
      }
    }
  }

  lemma CommentOf(t: Text, i: nat) returns (p: Piece)
    requires i < |t| && IsComment(TokenAt(t, i).0)
    ensures var n := TokenAt(t, i).1; PieceText(p) == t[i..n] && ProperPiece(p) && Fits(p, t[n..])
  {
    var n := TokenAt(t, i).1;
    assert t[i..n] == t[i..i + 2] + t[i + 2..n];
    assert t[i..i + 2] == ['/', t[i + 1]];
    if t[i + 1] == '/' {
      LineEndIs(t, i + 2);
      p := ToLineEnd(t[i + 2..n]);
    } else {
      var body, closed := BlockOf(t, i + 2);
      p := if closed then Enclosed(body) else NeverClosed(body);
    }
  }

  lemma PieceOf(t: Text, i: nat) returns (p: Piece)
    requires i < |t|
    ensures var n := TokenAt(t, i).1; PieceText(p) == t[i..n] && ProperPiece(p) && Fits(p, t[n..])
  {
    var (kind, n) := TokenAt(t, i);
    if kind.StringLiteral? {
      var bits, ending := LiteralOf(t, i + 1, t[i]);
      p := Literal(t[i], bits, ending);
      assert t[i..n] == [t[i]] + t[i + 1..n];
    } else if IsComment(kind) {
      p := CommentOf(t, i);
    } else {
      p := Code(t[i]);
      assert t[i..n] == [t[i]];
    }
  }

  lemma {:induction false} PiecesOf(t: Text, i: nat) returns (ps: seq<Piece>)
    requires i <= |t|
    ensures ProperList(ps) && Printed(ps) == t[i..]
    decreases |t| - i
  {
    if i == |t| {
      ps := [];
    } else {
      var n := TokenAt(t, i).1;
      var p := PieceOf(t, i);
      var rest := PiecesOf(t, n);
      ps := [p] + rest;
      assert ps[1..] == rest;
      assert t[i..] == t[i..n] + t[n..];
    }
  }

  /** Every text is the print of such a list, so that the above is all that the loop does. */
  lemma EveryTextIsPrinted(t: Text) returns (ps: seq<Piece>)
    ensures ProperList(ps) && Printed(ps) == t && Strip(t) == Rendered(ps)
  {
    ps := PiecesOf(t, 0);
    assert t[0..] == t;
    PrintedIsRendered(ps);
  }
}
