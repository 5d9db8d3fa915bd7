/** Words and white space in a text, letter by letter: what the patterns of the scripts are made of, without any recourse
    to how the programs read them. */
module Letters {
  import opened Characters

  /** The character is this one, or the small letter of this capital. */
  predicate EitherCase(c: char, capital: char) {
    c == capital || ('A' <= capital <= 'Z' && c as int == capital as int + 32)
  }

  predicate WordStands(t: string, i: nat, word: string) {
    i + |word| <= |t| && forall k :: 0 <= k < |word| ==> EitherCase(t[i + k], word[k])
  }

  predicate Blank(t: string, i: nat, j: nat) {
    i <= j <= |t| && forall k :: i <= k < j ==> IsSpace(t[k])
  }

  /** The word at `i`, and white space behind it up to `j`. */
  predicate WordAndGap(t: string, i: nat, word: string, j: nat) {
    WordStands(t, i, word) && i + |word| < j && Blank(t, i + |word|, j)
  }

  /** A word as the patterns spell it: no small letters and no white space. */
  predicate Capital(word: string) {
    word != "" && forall k :: 0 <= k < |word| ==> !('a' <= word[k] <= 'z') && !IsSpace(word[k])
  }

  lemma WordStandsIff(t: string, i: nat, word: string)
    requires Capital(word)
    ensures WordStands(t, i, word) <==> WordAt(t, i, word)
    ensures WordStands(t, i, word) ==> !IsSpace(t[i])
  {
    if i + |word| <= |t| {
      forall k | 0 <= k < |word| ensures EitherCase(t[i + k], word[k]) <==> UpperChar(t[i + k]) == word[k] {
      }
      assert WordStands(t, i, word) ==> EitherCase(t[i + 0], word[0]);
    }
  }

  lemma {:induction false} BlankIsSkipped(t: string, i: nat, j: nat)
    requires Blank(t, i, j) && j < |t| && !IsSpace(t[j])
    ensures SkipSpaces(t, i) == j
    decreases j - i
  {
    if i < j {
      BlankIsSkipped(t, i + 1, j);
    }
  }

  lemma {:induction false} SkippedIsBlank(t: string, i: nat)
    requires i <= |t|
    ensures Blank(t, i, SkipSpaces(t, i))
    decreases |t| - i
  {
    if i < |t| && IsSpace(t[i]) {
      SkippedIsBlank(t, i + 1);
    }
  }
}
