/** The header pattern of `_find_create_table_matches` (scripts/sync_test_schema.py): `CREATE TABLE`, an optional
    `IF NOT EXISTS`, a name and an opening bracket, in any case and with any white space between. */
module TableHeaders {
  import opened Basics
  import opened Characters

  /** Where the table name starts and ends, and where the header ends, counted from its start. */
  datatype Head = Head(nameStart: nat, nameEnd: nat, end: nat)

  /** A keyword at `i` with white space behind it: the position after both. */
  function Token(s: string, i: nat, word: string): (r: Option<nat>)
    ensures r.Some? ==> i + |word| < r.value <= |s|
  {
    if !WordAt(s, i, word) then None
    else
      var n := SkipSpaces(s, i + |word|);
      if n == i + |word| then None else Some(n)
  }

  /** `IF NOT EXISTS` at `i`. */
  function GuardAt(s: string, i: nat): (r: Option<nat>)
    ensures r.Some? ==> i < r.value <= |s|
  {
    var a := Token(s, i, "IF");
    var b := if a.Some? then Token(s, a.value, "NOT") else None;
    if b.Some? then Token(s, b.value, "EXISTS") else None
  }

  function NameAt(s: string, i: nat): (r: Option<Head>)
    requires i <= |s|
    ensures r.Some? ==> i == r.value.nameStart < r.value.nameEnd < r.value.end <= |s|
  {
    var w := SkipWord(s, i);
    var o := SkipSpaces(s, w);
    if w > i && o < |s| && s[o] == '(' then Some(Head(i, w, o + 1)) else None
  }

  /** `CREATE TABLE` at the start. */
  function Opening(s: string): (r: Option<nat>)
    ensures r.Some? ==> 13 <= r.value <= |s|
  {
    var a := Token(s, 0, "CREATE");
    if a.Some? then Token(s, a.value, "TABLE") else None
  }

  /** The header at the start of a text. */
  function Header(s: string): (r: Option<Head>)
    ensures r.Some? ==> 13 <= r.value.nameStart < r.value.nameEnd < r.value.end <= |s|
  {
    var b := Opening(s);
    if b.None? then None
    else
      var g := GuardAt(s, b.value);
      NameAt(s, if g.Some? then g.value else b.value)
  }

  function TableName(s: string): string
    requires Header(s).Some?
  {
    s[Header(s).value.nameStart..Header(s).value.nameEnd]
  }

  lemma {:induction false} SpacesSkipped(s: string, i: nat, j: nat)
    requires i <= |s| && i <= j < SkipSpaces(s, i)
    ensures j < |s| && IsSpace(s[j])
    decreases |s| - i
  {
    if i < j {
      SpacesSkipped(s, i + 1, j);
    }
  }

  lemma {:induction false} WordSkipped(s: string, i: nat, j: nat)
    requires i <= |s| && i <= j < SkipWord(s, i)
    ensures j < |s| && IsWord(s[j])
    decreases |s| - i
  {
    if i < j {
      WordSkipped(s, i + 1, j);
    }
  }

  /** Before its name a header has no letter C but its first one, and nowhere a closing bracket. */
  predicate Plain(c: char) {
    UpperChar(c) != 'C' && c != ')'
  }

  lemma SpacesArePlain(s: string, i: nat)
    requires i <= |s|
    ensures forall j :: i <= j < SkipSpaces(s, i) ==> IsSpace(s[j]) && Plain(s[j])
  {
    forall j | i <= j < SkipSpaces(s, i) ensures IsSpace(s[j]) && Plain(s[j]) {
      SpacesSkipped(s, i, j);
    }
  }

  lemma TokenIsPlain(s: string, i: nat, word: string)
    requires Token(s, i, word).Some? && forall k :: 0 <= k < |word| ==> word[k] != 'C' && 'A' <= word[k] <= 'Z'
    ensures forall j :: i <= j < Token(s, i, word).value ==> Plain(s[j])
  {
    SpacesArePlain(s, i + |word|);
    forall j | i <= j < i + |word| ensures Plain(s[j]) {
      assert UpperChar(s[i + (j - i)]) == word[j - i];
    }
  }

  lemma OpeningIsPlain(s: string)
    requires Opening(s).Some?
    ensures forall j :: 0 < j < Opening(s).value ==> Plain(s[j])
    ensures s[0] != ')'
  {
    var a := Token(s, 0, "CREATE").value;
    assert UpperChar(s[0 + 0]) == "CREATE"[0];
    assert WordAt(s, 1, "REATE") by {
      forall k | 0 <= k < 5 ensures UpperChar(s[1 + k]) == "REATE"[k] {
        assert UpperChar(s[0 + (k + 1)]) == "CREATE"[k + 1];
      }
    }
    assert Token(s, 1, "REATE") == Some(a);
    TokenIsPlain(s, 1, "REATE");
    TokenIsPlain(s, a, "TABLE");
  }

  lemma GuardIsPlain(s: string, i: nat)
    requires GuardAt(s, i).Some?
    ensures forall j :: i <= j < GuardAt(s, i).value ==> Plain(s[j])
  {
    var a := Token(s, i, "IF").value;
    TokenIsPlain(s, i, "IF");
    TokenIsPlain(s, a, "NOT");
    TokenIsPlain(s, Token(s, a, "NOT").value, "EXISTS");
  }

  lemma NameShape(s: string, i: nat)
    requires i <= |s| && NameAt(s, i).Some?
    ensures var h := NameAt(s, i).value;
            && (forall j :: i <= j < h.nameEnd ==> IsWord(s[j]))
            && (forall j :: h.nameEnd <= j < h.end - 1 ==> IsSpace(s[j]))
            && !IsWord(s[h.nameEnd]) && s[h.end - 1] == '('
  {
    var h := NameAt(s, i).value;
    forall j | i <= j < h.nameEnd ensures IsWord(s[j]) {
      WordSkipped(s, i, j);
    }
    SpacesArePlain(s, h.nameEnd);
  }

  lemma FrontIsPlain(s: string)
    requires Header(s).Some?
    ensures s[0] != ')' && forall j :: 0 < j < Header(s).value.nameStart ==> Plain(s[j])
    ensures NameAt(s, Header(s).value.nameStart) == Header(s)
  {
    var b := Opening(s).value;
    OpeningIsPlain(s);
    if GuardAt(s, b).Some? {
      GuardIsPlain(s, b);
    }
  }

  /** What a header looks like from its name on. */
  lemma HeaderShape(s: string)
    requires Header(s).Some?
    ensures var h := Header(s).value;
            && (forall j :: 0 < j < h.nameStart ==> Plain(s[j]))
            && (forall j :: h.nameStart <= j < h.nameEnd ==> IsWord(s[j]))
            && (forall j :: h.nameEnd <= j < h.end - 1 ==> IsSpace(s[j]))
            && !IsWord(s[h.nameEnd])
            && s[h.end - 1] == '('
            && (forall j :: 0 <= j < h.end ==> s[j] != ')')
  {
    FrontIsPlain(s);
    NameShape(s, Header(s).value.nameStart);
  }

  /** The letters of CREATE, and what is behind them. */
  lemma HeaderBegins(t: string)
    requires Header(t).Some?
    ensures UpperChar(t[0]) == 'C' && (forall j :: 0 <= j < 6 ==> IsWord(t[j])) && IsSpace(t[6])
    ensures SkipSpaces(t, 6) < |t| && UpperChar(t[SkipSpaces(t, 6)]) == 'T'
  {
    assert UpperChar(t[0 + 0]) == "CREATE"[0];
    forall j | 0 <= j < 6 ensures IsWord(t[j]) {
      assert UpperChar(t[0 + j]) == "CREATE"[j];
    }
    SpacesSkipped(t, 6, 6);
    var a := SkipSpaces(t, 6);
    assert UpperChar(t[a + 0]) == "TABLE"[0];
  }

  /** A header inside another one could only be a name that ends in CREATE. */
  lemma InnerHeaderEndsName(s: string, t: string, q: nat)
    requires Header(s).Some? && 0 < q < Header(s).value.end && t == s[q..] && Header(t).Some?
    ensures q + 6 == Header(s).value.nameEnd
  {
    HeaderShape(s);
    HeaderBegins(t);
    forall j | 0 <= j <= 6 ensures t[j] == s[q + j] {
    }
    forall j | q <= j < q + 6 ensures IsWord(s[j]) {
      assert t[j - q] == s[q + (j - q)];
    }
    assert IsSpace(s[q + 6]) && UpperChar(s[q]) == 'C' && IsWord(s[q]);
  }

  /** No header starts inside another one. */
  lemma HeadersDoNotOverlap(s: string, q: nat)
    requires Header(s).Some? && 0 < q < Header(s).value.end
    ensures Header(s[q..]).None?
  {
    var t := s[q..];
    if Header(t).Some? {
      InnerHeaderEndsName(s, t, q);
      HeaderBegins(t);
      NameEndsBeforeBracket(s, t, q);
    }
  }

  lemma {:induction false} SkipSpacesTo(s: string, i: nat, n: nat)
    requires i <= n < |s| && !IsSpace(s[n]) && forall j :: i <= j < n ==> IsSpace(s[j])
    ensures SkipSpaces(s, i) == n
    decreases n - i
  {
    if i < n {
      SkipSpacesTo(s, i + 1, n);
    }
  }

  lemma {:induction false} SkipWordTo(s: string, i: nat, n: nat)
    requires i <= n < |s| && !IsWord(s[n]) && forall j :: i <= j < n ==> IsWord(s[j])
    ensures SkipWord(s, i) == n
    decreases n - i
  {
    if i < n {
      SkipWordTo(s, i + 1, n);
    }
  }

  lemma NameEndsBeforeBracket(s: string, t: string, q: nat)
    requires Header(s).Some? && q <= |s| && t == s[q..] && q + 6 == Header(s).value.nameEnd
    ensures SkipSpaces(t, 6) == Header(s).value.end - 1 - q && t[SkipSpaces(t, 6)] == '('
  {
    var h := Header(s).value;
    HeaderShape(s);
    SkipSpacesTo(t, 6, h.end - 1 - q);
  }

  // ---- A header is determined by its own characters ----

  predicate Same(s: string, t: string, n: nat) {
    n <= |s| && n <= |t| && forall j :: 0 <= j < n ==> s[j] == t[j]
  }

  lemma SpacesLocal(s: string, t: string, i: nat, n: nat)
    requires Same(s, t, n) && i <= n && SkipSpaces(s, i) < n
    ensures SkipSpaces(t, i) == SkipSpaces(s, i)
  {
    SpacesArePlain(s, i);
    SkipSpacesTo(t, i, SkipSpaces(s, i));
  }

  lemma WordLocal(s: string, t: string, i: nat, n: nat)
    requires Same(s, t, n) && i <= n && SkipWord(s, i) < n
    ensures SkipWord(t, i) == SkipWord(s, i)
  {
    var m := SkipWord(s, i);
    forall j | i <= j < m ensures IsWord(t[j]) {
      WordSkipped(s, i, j);
      assert s[j] == t[j];
    }
    assert s[m] == t[m];
    SkipWordTo(t, i, m);
  }

  lemma TokenLocal(s: string, t: string, i: nat, word: string, n: nat)
    requires Same(s, t, n) && Token(s, i, word).Some? && Token(s, i, word).value < n
    ensures Token(t, i, word) == Token(s, i, word)
  {
    SpacesLocal(s, t, i + |word|, n);
  }

  lemma NameLocal(s: string, t: string, i: nat)
    requires i <= |s| && NameAt(s, i).Some? && Same(s, t, NameAt(s, i).value.end)
    ensures NameAt(t, i) == NameAt(s, i)
  {
    var n := NameAt(s, i).value.end;
    WordLocal(s, t, i, n);
    SpacesLocal(s, t, SkipWord(s, i), n);
    assert s[n - 1] == t[n - 1];
  }

  lemma OpeningLocal(s: string, t: string, n: nat)
    requires Same(s, t, n) && Opening(s).Some? && Opening(s).value < n
    ensures Opening(t) == Opening(s)
  {
    TokenLocal(s, t, 0, "CREATE", n);
    TokenLocal(s, t, Token(s, 0, "CREATE").value, "TABLE", n);
  }

  lemma GuardLocal(s: string, t: string, i: nat, n: nat)
    requires Same(s, t, n) && GuardAt(s, i).Some? && GuardAt(s, i).value < n
    ensures GuardAt(t, i) == GuardAt(s, i)
  {
    var a := Token(s, i, "IF").value;
    var b := Token(s, a, "NOT").value;
    TokenLocal(s, t, i, "IF", n);
    TokenLocal(s, t, a, "NOT", n);
    TokenLocal(s, t, b, "EXISTS", n);
  }

  /** A name with its bracket at `i` leaves no room for a guard there. */
  lemma NoGuardAtName(t: string, i: nat)
    requires i <= |t| && NameAt(t, i).Some?
    ensures GuardAt(t, i).None?
  {
    if GuardAt(t, i).Some? {
      var a := Token(t, i, "IF").value;
      assert UpperChar(t[a + 0]) == "NOT"[0];
      assert UpperChar(t[i + 0]) == "IF"[0] && UpperChar(t[i + 1]) == "IF"[1];
      SpacesSkipped(t, i + 2, i + 2);
      SkipWordTo(t, i, i + 2);
      assert false;
    }
  }

  /** Two texts that agree up to the end of a header both have it. */
  lemma HeaderIsLocal(s: string, t: string)
    requires Header(s).Some?
    requires Header(s).value.end <= |t| && s[..Header(s).value.end] == t[..Header(s).value.end]
    ensures Header(t) == Header(s)
  {
    var n := Header(s).value.end;
    var b := Opening(s).value;
    assert forall j :: 0 <= j < n ==> s[..n][j] == t[..n][j];
    assert Same(s, t, n);
    OpeningLocal(s, t, n);
    if GuardAt(s, b).Some? {
      GuardLocal(s, t, b, n);
      NameLocal(s, t, GuardAt(s, b).value);
    } else {
      NameLocal(s, t, b);
      NoGuardAtName(t, b);
    }
  }
}
