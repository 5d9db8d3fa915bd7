/** Character classes and cuts of text, as the scripts use them. Word characters, digits and letter case are
    those of ASCII; white space is that of `str.strip` and of `\s`. */
module Characters {

  predicate IsSpace(c: char) {
    '\U{09}' <= c <= '\U{0D}' || '\U{1C}' <= c <= ' ' || c == '\U{85}' || c == '\U{A0}' || c == '\U{1680}'
    || '\U{2000}' <= c <= '\U{200A}' || c == '\U{2028}' || c == '\U{2029}' || c == '\U{202F}' || c == '\U{205F}'
    || c == '\U{3000}'
  }

  predicate IsDigit(c: char) {
    '0' <= c <= '9'
  }

  predicate IsLetter(c: char) {
    'a' <= c <= 'z' || 'A' <= c <= 'Z' || c == '_'
  }

  predicate IsWord(c: char) {
    IsLetter(c) || IsDigit(c)
  }

  function UpperChar(c: char): char {
    if 'a' <= c <= 'z' then (c as int - 32) as char else c
  }

  /** What a `strip` call removes. */
  datatype Strippable = Spaces | SingleQuotes | DoubleQuotes

  predicate Dropped(drop: Strippable, c: char) {
    match drop
    case Spaces => IsSpace(c)
    case SingleQuotes => c == '\''
    case DoubleQuotes => c == '"'
  }

  /** The first character at or after `i` that stays, or the end. */
  function FirstKept(s: string, drop: Strippable, i: nat): (n: nat)
    requires i <= |s|
    ensures i <= n <= |s| && (n < |s| ==> !Dropped(drop, s[n]))
    decreases |s| - i
  {
    if i < |s| && Dropped(drop, s[i]) then FirstKept(s, drop, i + 1) else i
  }

  /** Just past the last character between `i` and `n` that stays, or `i`. */
  function LastKept(s: string, drop: Strippable, i: nat, n: nat): (m: nat)
    requires i <= n <= |s|
    ensures i <= m <= n && (i < m ==> !Dropped(drop, s[m - 1]))
    decreases n - i
  {
    if i < n && Dropped(drop, s[n - 1]) then LastKept(s, drop, i, n - 1) else n
  }

  /** `s.strip(...)`. */
  function Trim(s: string, drop: Strippable): (r: string)
    ensures |r| <= |s|
    ensures r == "" || (!Dropped(drop, r[0]) && !Dropped(drop, r[|r| - 1]))
    ensures s != "" && !Dropped(drop, s[0]) && !Dropped(drop, s[|s| - 1]) ==> r == s
  {
    var i := FirstKept(s, drop, 0);
    s[i..LastKept(s, drop, i, |s|)]
  }

  function Strip(s: string): (r: string)
    ensures |r| <= |s|
  {
    Trim(s, Spaces)
  }

  function SkipSpaces(s: string, i: nat): (n: nat)
    requires i <= |s|
    ensures i <= n <= |s|
    ensures n < |s| ==> !IsSpace(s[n])
    decreases |s| - i
  {
    if i < |s| && IsSpace(s[i]) then SkipSpaces(s, i + 1) else i
  }

  function SkipWord(s: string, i: nat): (n: nat)
    requires i <= |s|
    ensures i <= n <= |s|
    ensures n < |s| ==> !IsWord(s[n])
    decreases |s| - i
  {
    if i < |s| && IsWord(s[i]) then SkipWord(s, i + 1) else i
  }

  /** The text has this upper-case word at `i`, in any case. */
  predicate WordAt(s: string, i: nat, word: string) {
    i + |word| <= |s| && forall j :: 0 <= j < |word| ==> UpperChar(s[i + j]) == word[j]
  }
}
