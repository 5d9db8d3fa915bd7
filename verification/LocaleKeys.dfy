/** Leaf-path alignment of locale files (scripts/check_i18n_key_count.py). */
module LocaleKeys {

  const FAIL_THRESHOLD: nat := 60

  /** A parsed JSON value; everything that is not an object is a scalar here. */
  datatype Json = Scalar | Object(fields: map<string, Json>)

  /** What is left of a value when every leaf looks alike. */
  datatype Skeleton = Leaf | Node(children: map<string, Skeleton>)

  predicate Nested(v: Json) {
    v.Object? && v.fields != map[]
  }

  function Join(prefix: string, key: string): string {
    if prefix == "" then key else prefix + "." + key
  }

  /** What the value at `path` contributes. */
  function PathsUnder(v: Json, path: string): set<string>
    decreases v, 1
  {
    if Nested(v) then LeafPaths(v, path) else {path}
  }

  /** `leaf_paths`: an empty object and a scalar each count as one leaf. */
  function LeafPaths(v: Json, prefix: string): set<string>
    requires v.Object?
    decreases v, 0
  {
    set key, path | key in v.fields && path in PathsUnder(v.fields[key], Join(prefix, key)) :: path
  }

  function SkeletonUnder(v: Json): Skeleton
    decreases v, 1
  {
    if Nested(v) then SkeletonOf(v) else Leaf
  }

  function SkeletonOf(v: Json): Skeleton
    requires v.Object?
    decreases v, 0
  {
    Node(map key | key in v.fields :: SkeletonUnder(v.fields[key]))
  }

  /** The leaves as lists of keys. */
  function KeyListsUnder(v: Json): (r: set<seq<string>>)
    ensures r != {}
    decreases v, 1
  {
    if Nested(v) then
      var k :| k in v.fields;
      var c :| c in KeyListsUnder(v.fields[k]);
      assert [k] + c in KeyLists(v);
      KeyLists(v)
    else {[]}
  }

  function KeyLists(v: Json): set<seq<string>>
    requires v.Object?
    decreases v, 0
  {
    set key, rest | key in v.fields && rest in KeyListsUnder(v.fields[key]) :: [key] + rest
  }

  predicate DotFree(s: string) {
    '.' !in s
  }

  /** No key anywhere below contains a dot. */
  predicate DotFreeKeys(v: Json) {
    v.Object? ==> forall key :: key in v.fields ==> DotFree(key) && DotFreeKeys(v.fields[key])
  }

  /** A locale file whose keys can be told apart in a path: no dots, and no empty key at the top. */
  predicate PlainKeys(v: Json) {
    v.Object? && DotFreeKeys(v) && "" !in v.fields
  }

  /** A path from a prefix down a list of keys. */
  function Descend(path: string, keys: seq<string>): string
    decreases |keys|
  {
    if keys == [] then path else Descend(Join(path, keys[0]), keys[1..])
  }

  function Dotted(keys: seq<string>): string
    decreases |keys|
  {
    if keys == [] then "" else "." + keys[0] + Dotted(keys[1..])
  }

  lemma {:induction false} DescendIsDotted(path: string, keys: seq<string>)
    requires path != ""
    ensures Descend(path, keys) == path + Dotted(keys)
    decreases |keys|
  {
    if keys != [] {
      DescendIsDotted(Join(path, keys[0]), keys[1..]);
      assert Join(path, keys[0]) + Dotted(keys[1..]) == path + ("." + keys[0] + Dotted(keys[1..]));
    }
  }

  /** The paths of a value are the descents along its key lists. */
  lemma {:induction false} ListGivesPath(v: Json, path: string, c: seq<string>)
    requires c in KeyListsUnder(v)
    ensures Descend(path, c) in PathsUnder(v, path)
    decreases v
  {
    if Nested(v) {
      var key, rest :| key in v.fields && rest in KeyListsUnder(v.fields[key]) && c == [key] + rest;
      assert c[1..] == rest;
      ListGivesPath(v.fields[key], Join(path, key), rest);
      assert Descend(path, c) in LeafPaths(v, path);
    } else {
      assert c == [];
    }
  }

  lemma {:induction false} PathHasList(v: Json, path: string, p: string) returns (c: seq<string>)
    requires p in PathsUnder(v, path)
    ensures c in KeyListsUnder(v) && Descend(path, c) == p
    decreases v
  {
    if Nested(v) {
      assert p in LeafPaths(v, path);
      var key :| key in v.fields && p in PathsUnder(v.fields[key], Join(path, key));
      var rest := PathHasList(v.fields[key], Join(path, key), p);
      c := [key] + rest;
      assert c[1..] == rest && c in KeyLists(v);
    } else {
      c := [];
    }
  }

  lemma KeyNotShorter(k: string, l: string, x: string, y: string)
    requires DotFree(l) && k + x == l + y && (x == "" || x[0] == '.')
    ensures |k| >= |l|
  {
    var joint := k + x;
    assert joint[..|l|] == l by {
      assert joint == l + y;
    }
    assert forall i :: 0 <= i < |l| ==> joint[i] in l;
    assert |k| < |joint| ==> joint[|k|] == x[0];
  }

  /** Two texts that continue dot-free keys with nothing or a dot split at the same place. */
  lemma KeySplit(k: string, l: string, x: string, y: string)
    requires DotFree(k) && DotFree(l) && k + x == l + y
    requires x == "" || x[0] == '.'
    requires y == "" || y[0] == '.'
    ensures k == l && x == y
  {
    KeyNotShorter(k, l, x, y);
    KeyNotShorter(l, k, y, x);
    assert k == (k + x)[..|k|] && l == (l + y)[..|l|];
    assert x == (k + x)[|k|..] && y == (l + y)[|l|..];
  }

  lemma {:induction false} DottedIsInjective(c: seq<string>, d: seq<string>)
    requires forall k :: k in c || k in d ==> DotFree(k)
    requires Dotted(c) == Dotted(d)
    ensures c == d
    decreases |c|
  {
    if c != [] && d != [] {
      var x, y := Dotted(c[1..]), Dotted(d[1..]);
      assert Dotted(c)[1..] == c[0] + x && Dotted(d)[1..] == d[0] + y;
      KeySplit(c[0], d[0], x, y);
      DottedIsInjective(c[1..], d[1..]);
      assert c == [c[0]] + c[1..] && d == [d[0]] + d[1..];
    }
  }

  lemma {:induction false} KeyListsAreDotFree(v: Json, c: seq<string>)
    requires DotFreeKeys(v) && c in KeyListsUnder(v)
    ensures forall k :: k in c ==> DotFree(k)
    decreases v
  {
    if Nested(v) {
      var key, rest :| key in v.fields && rest in KeyListsUnder(v.fields[key]) && c == [key] + rest;
      KeyListsAreDotFree(v.fields[key], rest);
    }
  }

  /** With plain keys, different key lists give different paths. */
  lemma DescentIsInjective(v: Json, w: Json, c: seq<string>, d: seq<string>)
    requires PlainKeys(v) && PlainKeys(w) && c in KeyLists(v) && d in KeyLists(w)
    requires Descend("", c) == Descend("", d)
    ensures c == d
  {
    var k, x :| k in v.fields && x in KeyListsUnder(v.fields[k]) && c == [k] + x;
    var l, y :| l in w.fields && y in KeyListsUnder(w.fields[l]) && d == [l] + y;
    KeyListsAreDotFree(v.fields[k], x);
    KeyListsAreDotFree(w.fields[l], y);
    assert c[1..] == x && d[1..] == y;
    DescendIsDotted(k, x);
    DescendIsDotted(l, y);
    KeySplit(k, l, Dotted(x), Dotted(y));
    DottedIsInjective(x, y);
  }

  /** Equal path sets are equal key-list sets. */
  lemma SamePathsSameKeyLists(v: Json, w: Json)
    requires PlainKeys(v) && PlainKeys(w) && LeafPaths(v, "") == LeafPaths(w, "")
    ensures KeyLists(v) <= KeyLists(w)
  {
    forall c | c in KeyLists(v) ensures c in KeyLists(w) {
      ListGivesPath(v, "", c);
      assert Descend("", c) in LeafPaths(w, "");
      var d := PathHasList(w, "", Descend("", c));
      DescentIsInjective(v, w, c, d);
    }
  }

  lemma SubListsFollow(v: Json, w: Json, key: string)
    requires v.Object? && w.Object? && KeyLists(v) <= KeyLists(w) && key in v.fields
    ensures key in w.fields && KeyListsUnder(v.fields[key]) <= KeyListsUnder(w.fields[key])
  {
    forall c | c in KeyListsUnder(v.fields[key])
      ensures key in w.fields && c in KeyListsUnder(w.fields[key])
    {
      assert [key] + c in KeyLists(w);
      var l, d :| l in w.fields && d in KeyListsUnder(w.fields[l]) && [key] + c == [l] + d;
      assert l == ([l] + d)[0] == key && d == ([l] + d)[1..] == c;
    }
    var c :| c in KeyListsUnder(v.fields[key]);
  }

  lemma {:induction false} KeyListsDetermineSkeleton(v: Json, w: Json)
    requires v.Object? && w.Object? && KeyLists(v) == KeyLists(w)
    ensures SkeletonOf(v) == SkeletonOf(w)
    decreases v
  {
    forall key ensures key in v.fields <==> key in w.fields {
      if key in v.fields {
        SubListsFollow(v, w, key);
      }
      if key in w.fields {
        SubListsFollow(w, v, key);
      }
    }
    forall key | key in v.fields ensures SkeletonUnder(v.fields[key]) == SkeletonUnder(w.fields[key]) {
      SubListsFollow(v, w, key);
      SubListsFollow(w, v, key);
      var a, b := v.fields[key], w.fields[key];
      assert Nested(a) ==> [] !in KeyListsUnder(a);
      assert Nested(b) ==> [] !in KeyListsUnder(b);
      if Nested(a) && Nested(b) {
        KeyListsDetermineSkeleton(a, b);
      }
    }
  }

  lemma {:induction false} SkeletonDeterminesPaths(v: Json, w: Json, path: string)
    requires SkeletonUnder(v) == SkeletonUnder(w)
    ensures PathsUnder(v, path) == PathsUnder(w, path)
    decreases v
  {
    if Nested(v) {
      assert SkeletonOf(v).children.Keys == v.fields.Keys && SkeletonOf(w).children.Keys == w.fields.Keys;
      forall key | key in v.fields
        ensures PathsUnder(v.fields[key], Join(path, key)) == PathsUnder(w.fields[key], Join(path, key))
      {
        assert SkeletonOf(v).children[key] == SkeletonOf(w).children[key];
        SkeletonDeterminesPaths(v.fields[key], w.fields[key], Join(path, key));
      }
    }
  }

  /** Two locale files with plain keys have the same leaf paths exactly when they have the same
      skeleton. */
  lemma LeafPathsDetermineSkeleton(v: Json, w: Json)
    requires PlainKeys(v) && PlainKeys(w)
    ensures LeafPaths(v, "") == LeafPaths(w, "") <==> SkeletonOf(v) == SkeletonOf(w)
  {
    if LeafPaths(v, "") == LeafPaths(w, "") {
      SamePathsSameKeyLists(v, w);
      SamePathsSameKeyLists(w, v);
      KeyListsDetermineSkeleton(v, w);
    }
    if SkeletonOf(v) == SkeletonOf(w) {
      assert SkeletonOf(v).children.Keys == v.fields.Keys && SkeletonOf(w).children.Keys == w.fields.Keys;
      if v.fields == map[] {
        assert LeafPaths(v, "") == {} && LeafPaths(w, "") == {};
      } else {
        SkeletonDeterminesPaths(v, w, "");
      }
    }
  }

  lemma OneKey(key: string, u: Json, path: string)
    ensures LeafPaths(Object(map[key := u]), path) == PathsUnder(u, Join(path, key))
  {
    var v := Object(map[key := u]);
    assert v.fields[key] == u;
  }

  lemma JoinedKeys(a: string, b: string)
    requires a != "" && b != ""
    ensures Join(Join("x", a), b) == Join("x", a + "." + b) && a + "." + b != a
  {
    assert "x" + "." + (a + "." + b) == "x" + "." + a + "." + b;
    assert |a + "." + b| > |a|;
  }

  /** Every dotted key hides a difference in structure from the leaf paths, below an agreeing top. */
  lemma DottedKeyHidesStructure(a: string, b: string)
    requires a != "" && b != ""
    ensures var v := Object(map["x" := Object(map[a + "." + b := Scalar])]);
            var w := Object(map["x" := Object(map[a := Object(map[b := Scalar])])]);
            && LeafPaths(v, "") == LeafPaths(w, "") && v.fields.Keys == w.fields.Keys
            && SkeletonOf(v) != SkeletonOf(w)
  {
    var inner := Object(map[b := Scalar]);
    var dotted, nested := Object(map[a + "." + b := Scalar]), Object(map[a := inner]);
    var v, w := Object(map["x" := dotted]), Object(map["x" := nested]);
    JoinedKeys(a, b);
    OneKey(b, Scalar, Join("x", a));
    OneKey(a, inner, "x");
    OneKey(a + "." + b, Scalar, "x");
    OneKey("x", nested, "");
    OneKey("x", dotted, "");
    assert a + "." + b in SkeletonOf(dotted).children && a + "." + b !in SkeletonOf(nested).children;
    assert SkeletonOf(v).children["x"] == SkeletonOf(dotted) && SkeletonOf(w).children["x"] == SkeletonOf(nested);
  }

  /** Some file gives `x`. */
  ghost predicate Given<T(!new)>(files: seq<Json>, part: Json -> set<T>, x: T) {
    exists i :: 0 <= i < |files| && x in part(files[i])
  }

  ghost predicate AllSame<T(!new)>(files: seq<Json>, part: Json -> T) {
    forall i, j :: 0 <= i < |files| && 0 <= j < |files| ==> part(files[i]) == part(files[j])
  }

  lemma NoneMissing<T>(a: set<T>, b: set<T>)
    ensures a - b == {} <==> a <= b
  {
    if x :| x in a && x !in b {
      assert x in a - b;
    }
  }

  /** The loops of `main` that collect the union over all files and look for a file that lacks part of
      it: none does exactly when all files have the same. */
  method Aligned<T(!new, ==)>(files: seq<Json>, part: Json -> set<T>) returns (aligned: bool)
    ensures aligned <==> AllSame(files, part)
  {
    var total: set<T> := {};
    for i := 0 to |files|
      invariant forall j :: 0 <= j < i ==> part(files[j]) <= total
      invariant forall x :: x in total ==> Given(files, part, x)
    {
      total := total + part(files[i]);
    }
    aligned := true;
    for i := 0 to |files|
      invariant aligned <==> forall j :: 0 <= j < i ==> total <= part(files[j])
    {
      NoneMissing(total, part(files[i]));
      if total - part(files[i]) != {} {
        aligned := false;
      }
    }
    if aligned {
      forall i, j | 0 <= i < |files| && 0 <= j < |files| ensures part(files[i]) == part(files[j]) {
        assert part(files[i]) <= total <= part(files[i]) && part(files[j]) <= total <= part(files[j]);
      }
    }
    if AllSame(files, part) {
      forall i, x | 0 <= i < |files| && x in total ensures x in part(files[i]) {
        assert Given(files, part, x);
      }
    }
  }

  function Keys(f: Json): set<string> {
    if f.Object? then f.fields.Keys else {}
  }

  function Leaves(f: Json): set<string> {
    if f.Object? then LeafPaths(f, "") else {}
  }

  function Shape(f: Json): Skeleton {
    if f.Object? then SkeletonOf(f) else Leaf
  }

  /** Comparing leaf paths compares skeletons, and then the top-level keys agree as well. */
  lemma GateSeesSkeletons(files: seq<Json>)
    requires forall i :: 0 <= i < |files| ==> PlainKeys(files[i])
    ensures AllSame(files, Leaves) <==> AllSame(files, Shape)
    ensures AllSame(files, Leaves) ==> AllSame(files, Keys)
  {
    forall i, j | 0 <= i < |files| && 0 <= j < |files|
      ensures Leaves(files[i]) == Leaves(files[j]) <==> Shape(files[i]) == Shape(files[j])
      ensures Shape(files[i]) == Shape(files[j]) ==> Keys(files[i]) == Keys(files[j])
    {
      var v, w := files[i], files[j];
      LeafPathsDetermineSkeleton(v, w);
      assert SkeletonOf(v).children.Keys == v.fields.Keys && SkeletonOf(w).children.Keys == w.fields.Keys;
    }
  }

  /** `main`: the exit code for the loaded locale files. With plain keys the gate passes exactly when no
      file has too many top-level keys and all files have the same skeleton. */
  method CheckLocales(files: seq<Json>) returns (code: int)
    requires forall i :: 0 <= i < |files| ==> files[i].Object?
    ensures code == 0 || code == 1
    ensures code == 0 <==>
            (forall i :: 0 <= i < |files| ==> |Keys(files[i])| < FAIL_THRESHOLD)
            && AllSame(files, Keys) && AllSame(files, Leaves)
    ensures (forall i :: 0 <= i < |files| ==> PlainKeys(files[i])) ==>
              (code == 0 <==>
               (forall i :: 0 <= i < |files| ==> |Keys(files[i])| < FAIL_THRESHOLD) && AllSame(files, Shape))
  {
    if files == [] {
      return 0;
    }
    var maxKeys := 0;
    for i := 0 to |files|
      invariant forall j :: 0 <= j < i ==> |Keys(files[j])| <= maxKeys
      invariant maxKeys == 0 || exists j :: 0 <= j < i && |Keys(files[j])| == maxKeys
    {
      if |Keys(files[i])| > maxKeys {
        maxKeys := |Keys(files[i])|;
      }
    }
    var aligned := Aligned(files, Keys);
    var leafAligned := Aligned(files, Leaves);
    code := if maxKeys >= FAIL_THRESHOLD || !aligned || !leafAligned then 1 else 0;
    if forall i :: 0 <= i < |files| ==> PlainKeys(files[i]) {
      GateSeesSkeletons(files);
    }
  }
}
