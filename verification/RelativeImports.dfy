/** Resolving relative imports: the `rsplit` algorithm of scripts/check_relative_imports.py and
    scripts/fix_relative_imports.py, the `split`/`join` algorithm of scripts/check_g_015_relative_imports.py,
    and the fixer that searches for a level that resolves. */
module RelativeImports {
  import opened Basics

  // ---- Dotted names ----

  /** The last dot before position `n`, if there is one. */
  function LastDot(s: string, n: nat): (p: Option<nat>)
    requires n <= |s|
    ensures p.Some? ==> p.value < n && s[p.value] == '.'
  {
    if n == 0 then None else if s[n - 1] == '.' then Some(n - 1) else LastDot(s, n - 1)
  }

  /** The package that contains a package, one dot up. */
  function Parent(s: string): (r: Option<string>)
    ensures r.Some? ==> |r.value| < |s|
  {
    var p := LastDot(s, |s|);
    if p.Some? then Some(s[..p.value]) else None
  }

  function LastPart(s: string): string {
    var p := LastDot(s, |s|);
    if p.Some? then s[p.value + 1..] else s
  }

  /** `s.rsplit(".", limit)`; a negative limit is no limit. */
  function RSplit(s: string, limit: int): (r: seq<string>)
    ensures r != []
    decreases |s|
  {
    if limit == 0 || Parent(s).None? then [s] else RSplit(Parent(s).value, limit - 1) + [LastPart(s)]
  }

  /** `s.split(".")`: every part. */
  function Split(s: string): (r: seq<string>)
    ensures r != []
    decreases |s|
  {
    if Parent(s).None? then [s] else Split(Parent(s).value) + [LastPart(s)]
  }

  /** `".".join(parts)`. */
  function Join(parts: seq<string>): string {
    if parts == [] then ""
    else if |parts| == 1 then parts[0]
    else Join(parts[..|parts| - 1]) + "." + parts[|parts| - 1]
  }

  // ---- Three resolvers ----

  datatype Resolved = Absolute(name: string) | BeyondTopLevel

  function Under(base: string, name: string): string {
    if name != "" then base + "." + name else base
  }

  /** `_resolve_name` of fix_relative_imports.py. */
  function ResolveInFixer(name: string, package: string, level: int): Resolved {
    var bits := RSplit(package, level - 1);
    if |bits| < level then BeyondTopLevel else Absolute(Under(bits[0], name))
  }

  /** `_resolve_name` of check_relative_imports.py, which rejects a level below 1 first. */
  function ResolveInChecker(name: string, package: string, level: int): Resolved {
    if level <= 0 then BeyondTopLevel else ResolveInFixer(name, package, level)
  }

  /** `_resolve_module` of check_g_015_relative_imports.py; a slice end beyond the list is its length. */
  function ResolveInGate(module_: string, package: string, level: int): Resolved {
    var bits := Split(package);
    if level > |bits| then BeyondTopLevel
    else
      var n := |bits| - (level - 1);
      Absolute(Under(Join(if n <= |bits| then bits[..n] else bits), module_))
  }

  /** Going up `k` packages, as section 5.7 of the Python Language Reference defines leading dots. */
  function Ancestor(package: string, k: nat): Option<string> {
    if k == 0 then Some(package)
    else
      var below := Ancestor(package, k - 1);
      if below.None? then None else Parent(below.value)
  }

  /** One leading dot is the current package, each further dot one package up. */
  function Meaning(name: string, package: string, level: nat): Resolved
    requires level >= 1
  {
    var base := Ancestor(package, level - 1);
    if base.None? then BeyondTopLevel else Absolute(Under(base.value, name))
  }

  lemma {:induction false} AncestorOfParent(package: string, k: nat)
    ensures Ancestor(package, k + 1) == if Parent(package).None? then None else Ancestor(Parent(package).value, k)
  {
    if k > 0 {
      AncestorOfParent(package, k - 1);
    }
  }

  /** `rsplit` with a limit stops after that many ancestors, or at the top. */
  lemma {:induction false} RSplitIsAncestor(package: string, k: nat)
    ensures |RSplit(package, k)| <= k + 1
    ensures |RSplit(package, k)| == k + 1 <==> Ancestor(package, k).Some?
    ensures |RSplit(package, k)| == k + 1 ==> Ancestor(package, k) == Some(RSplit(package, k)[0])
    decreases k
  {
    if k > 0 {
      AncestorOfParent(package, k - 1);
      if Parent(package).Some? {
        RSplitIsAncestor(Parent(package).value, k - 1);
      }
    }
  }

  lemma LastDotCut(s: string)
    ensures Parent(s).Some? ==> s == Parent(s).value + "." + LastPart(s)
  {
  }

  lemma {:induction false} JoinSplit(s: string)
    ensures Join(Split(s)) == s
    decreases |s|
  {
    if Parent(s).Some? {
      JoinSplit(Parent(s).value);
      LastDotCut(s);
      var parts := Split(s);
      assert parts[..|parts| - 1] == Split(Parent(s).value);
    }
  }

  /** Joining all but the last `k` parts is going up `k` packages. */
  lemma {:induction false} SplitIsAncestor(package: string, k: nat)
    ensures k < |Split(package)| <==> Ancestor(package, k).Some?
    ensures k < |Split(package)| ==> Ancestor(package, k) == Some(Join(Split(package)[..|Split(package)| - k]))
    decreases k
  {
    var parts := Split(package);
    if k == 0 {
      JoinSplit(package);
      assert parts[..|parts|] == parts;
    } else {
      AncestorOfParent(package, k - 1);
      if Parent(package).Some? {
        var up := Split(Parent(package).value);
        SplitIsAncestor(Parent(package).value, k - 1);
        if k < |parts| {
          assert parts[..|parts| - k] == up[..|up| - (k - 1)];
        }
      }
    }
  }

  /** For every package, module and level of at least 1, the two algorithms give the same absolute name
      or the same error, and both give what the language defines. */
  lemma ResolversAgree(name: string, package: string, level: int)
    requires level >= 1
    ensures ResolveInChecker(name, package, level) == Meaning(name, package, level)
    ensures ResolveInFixer(name, package, level) == Meaning(name, package, level)
    ensures ResolveInGate(name, package, level) == Meaning(name, package, level)
  {
    RSplitIsAncestor(package, level - 1);
    SplitIsAncestor(package, level - 1);
  }

  lemma {:induction false} UnlimitedRSplit(package: string, limit: int)
    requires limit < 0
    ensures RSplit(package, limit) == Split(package)
    decreases |package|
  {
    if Parent(package).Some? {
      UnlimitedRSplit(Parent(package).value, limit - 1);
    }
  }

  lemma {:induction false} FirstPartIsShorter(package: string)
    ensures Parent(package).Some? ==> |Split(package)[0]| < |package|
    ensures Parent(package).None? ==> Split(package) == [package]
    decreases |package|
  {
    if Parent(package).Some? {
      FirstPartIsShorter(Parent(package).value);
    }
  }

  /** Below level 1 they part: a level of 0 or less makes the fixer's `rsplit` unlimited, so that it
      resolves against the top-level package, while the gate resolves against the package itself; the checker
      refuses. Fixer and gate agree exactly when the level is at least 1 or the package is top-level. */
  lemma ResolversAgreeIff(name: string, package: string, level: int)
    ensures ResolveInFixer(name, package, level) == ResolveInGate(name, package, level)
            <==> level >= 1 || Parent(package).None?
    ensures level <= 0 ==> ResolveInChecker(name, package, level) == BeyondTopLevel
  {
    if level >= 1 {
      ResolversAgree(name, package, level);
    } else {
      UnlimitedRSplit(package, level - 1);
      JoinSplit(package);
      FirstPartIsShorter(package);
      assert |Under(Split(package)[0], name)| < |Under(package, name)| || Parent(package).None?;
    }
  }

  // ---- Package names ----

  /** `get_package_name` (check_relative_imports.py): the directories down from the scan root, up to the
      first one without an `__init__.py`. `hasInit[i]` tells whether directory `i` has one. */
  method GetPackageName(root: string, dirs: seq<string>, hasInit: seq<bool>) returns (package: string)
    requires |hasInit| == |dirs|
    ensures package == Join([root] + dirs[..Initialised(hasInit)])
  {
    var initDirs := [];
    var i := 0;
    while i < |dirs| && hasInit[i]
      invariant i <= |dirs| && initDirs == dirs[..i]
      invariant Initialised(hasInit) == i + Initialised(hasInit[i..])
    {
      assert hasInit[i..][1..] == hasInit[i + 1..];
      initDirs := initDirs + [dirs[i]];
      i := i + 1;
    }
    JoinPrepend(root, initDirs);
    if initDirs == [] {
      return root;
    }
    return root + "." + Join(initDirs);
  }

  /** How many leading directories have an `__init__.py`. */
  function Initialised(hasInit: seq<bool>): (n: nat)
    ensures n <= |hasInit|
  {
    if hasInit == [] || !hasInit[0] then 0 else 1 + Initialised(hasInit[1..])
  }

  lemma {:induction false} JoinPrepend(head: string, tail: seq<string>)
    ensures Join([head] + tail) == if tail == [] then head else head + "." + Join(tail)
    decreases |tail|
  {
    if tail != [] {
      var n := |tail| - 1;
      JoinPrepend(head, tail[..n]);
      assert ([head] + tail)[..n + 1] == [head] + tail[..n];
      if n > 0 {
        assert Join(tail) == Join(tail[..n]) + "." + tail[n];
        assert Join([head] + tail) == head + "." + Join(tail[..n]) + "." + tail[n];
      }
    }
  }

  lemma {:induction false} LongerJoin(parts: seq<string>, n: nat)
    requires 0 < n <= |parts|
    ensures |Join(parts[..n])| + |parts| - n <= |Join(parts)|
    decreases |parts|
  {
    if n < |parts| {
      LongerJoin(parts[..|parts| - 1], n);
      assert parts[..|parts| - 1][..n] == parts[..n];
    } else {
      assert parts[..n] == parts;
    }
  }

  /** The gate names a package after all of its directories (`_package_name`). The two tools name the same
      package exactly when every directory on the way has an `__init__.py`. */
  lemma PackageNamesAgreeIff(root: string, dirs: seq<string>, hasInit: seq<bool>)
    requires |hasInit| == |dirs|
    ensures Join([root] + dirs[..Initialised(hasInit)]) == Join([root] + dirs)
            <==> (forall i :: 0 <= i < |hasInit| ==> hasInit[i])
  {
    var n := Initialised(hasInit);
    InitialisedIsAll(hasInit);
    assert ([root] + dirs)[..n + 1] == [root] + dirs[..n];
    LongerJoin([root] + dirs, n + 1);
    if n == |dirs| {
      assert dirs[..n] == dirs;
    }
  }

  lemma {:induction false} InitialisedIsAll(hasInit: seq<bool>)
    ensures Initialised(hasInit) == |hasInit| <==> (forall i :: 0 <= i < |hasInit| ==> hasInit[i])
    decreases |hasInit|
  {
    if hasInit != [] {
      InitialisedIsAll(hasInit[1..]);
      assert forall i :: 0 < i < |hasInit| ==> hasInit[i] == hasInit[1..][i - 1];
    }
  }

  // ---- Checking a level against the file system ----

  /** A path below the scan root. */
  type Path = seq<string>

  const INIT: string := "__init__.py"

  /** The existing files, and the names each defines at its top level. */
  datatype Tree = Tree(root: string, files: set<Path>, defined: map<Path, set<string>>)

  /** `module_to_path`: the module file first, the package file second. */
  function ModulePaths(tree: Tree, module_: string): (r: seq<Path>)
    ensures r != [] && forall p :: p in r ==> p != []
  {
    if module_ == tree.root then [[INIT]]
    else
      var prefix := tree.root + ".";
      var rel := if prefix <= module_ then module_[|prefix|..] else module_;
      var parts := Split(rel);
      [parts[..|parts| - 1] + [parts[|parts| - 1] + ".py"], parts + [INIT]]
  }

  predicate IsInit(tree: Tree, p: Path) {
    p != [] && p[|p| - 1] == INIT && p in tree.files
  }

  /** `from . import name`: a submodule, a subpackage, or a name that the package file defines. */
  predicate NameFound(tree: Tree, init: Path, name: string)
    requires init != []
  {
    var dir := init[..|init| - 1];
    || dir + [name + ".py"] in tree.files
    || dir + [name, INIT] in tree.files
    || (init in tree.defined && name in tree.defined[init])
  }

  /** The first package file among the candidates for the anchor. */
  function Anchor(tree: Tree, paths: seq<Path>): Option<Path> {
    if paths == [] then None else if IsInit(tree, paths[0]) then Some(paths[0]) else Anchor(tree, paths[1..])
  }

  /** What it means for an import statement to resolve. */
  predicate Resolves(tree: Tree, package: string, module_: string, level: nat, names: seq<string>) {
    && level >= 1
    && var target := Meaning(module_, package, level);
       && target.Absolute?
       && var paths := ModulePaths(tree, target.name);
          if module_ != "" then exists p :: p in paths && p in tree.files
          else
            var anchor := Anchor(tree, paths);
            anchor.Some? && anchor.value != [] && forall n :: n in names ==> NameFound(tree, anchor.value, n)
  }

  lemma {:induction false} AnchorIsInit(tree: Tree, paths: seq<Path>)
    ensures Anchor(tree, paths).Some? ==> IsInit(tree, Anchor(tree, paths).value)
  {
    if paths != [] {
      AnchorIsInit(tree, paths[1..]);
    }
  }

  /** `check_level` (fix_relative_imports.py), which returns at the first name that is missing. */
  method CheckLevel(tree: Tree, package: string, module_: string, level: nat, names: seq<string>) returns (ok: bool)
    requires level >= 1
    ensures ok == Resolves(tree, package, module_, level, names)
  {
    ResolversAgree(module_, package, level);
    var target := ResolveInFixer(module_, package, level);
    if target.BeyondTopLevel? {
      return false;
    }
    var paths := ModulePaths(tree, target.name);
    if module_ != "" {
      return exists p :: p in paths && p in tree.files;
    }
    var i := 0;
    while i < |paths|
      invariant i <= |paths| && Anchor(tree, paths) == Anchor(tree, paths[i..])
    {
      if IsInit(tree, paths[i]) {
        assert Anchor(tree, paths) == Some(paths[i]);
        for j := 0 to |names|
          invariant forall k :: 0 <= k < j ==> NameFound(tree, paths[i], names[k])
        {
          if !NameFound(tree, paths[i], names[j]) {
            return false;
          }
        }
        return true;
      }
      assert paths[i..][1..] == paths[i + 1..];
      i := i + 1;
    }
    return false;
  }

  /** What `check_import` reports. */
  datatype Report = Fine | OutOfPackage | NoModule(name: string) | NoPackage(name: string) | Missing(names: seq<string>)

  /** The loop over the candidates for the package file. */
  method FindAnchor(tree: Tree, paths: seq<Path>) returns (anchor: Option<Path>)
    ensures anchor == Anchor(tree, paths)
  {
    anchor := None;
    var i := 0;
    while i < |paths| && anchor.None?
      invariant i <= |paths|
      invariant if anchor.Some? then Anchor(tree, paths) == anchor else Anchor(tree, paths) == Anchor(tree, paths[i..])
      decreases |paths| - i
    {
      if IsInit(tree, paths[i]) {
        anchor := Some(paths[i]);
      }
      assert paths[i..][1..] == paths[i + 1..];
      i := i + 1;
    }
  }

  /** `check_import` (check_relative_imports.py), which collects every name that is missing. */
  method CheckImport(tree: Tree, package: string, module_: string, level: nat, names: seq<string>) returns (r: Report)
    requires level >= 1
    ensures r.Fine? == Resolves(tree, package, module_, level, names)
    ensures r.OutOfPackage? <==> Meaning(module_, package, level).BeyondTopLevel?
    ensures r.NoModule? || r.NoPackage? || r.Missing? ==> Meaning(module_, package, level).Absolute?
    ensures r.NoModule? ==> module_ != "" && r.name == Meaning(module_, package, level).name
    ensures r.NoPackage? ==> module_ == "" && r.name == Meaning(module_, package, level).name
                             && Anchor(tree, ModulePaths(tree, r.name)).None?
    ensures r.Missing? ==>
              var anchor := Anchor(tree, ModulePaths(tree, Meaning(module_, package, level).name));
              module_ == "" && anchor.Some? && anchor.value != [] && r.names != []
              && forall n :: n in r.names <==> n in names && !NameFound(tree, anchor.value, n)
  {
    ResolversAgree(module_, package, level);
    var target := ResolveInChecker(module_, package, level);
    if target.BeyondTopLevel? {
      return OutOfPackage;
    }
    var paths := ModulePaths(tree, target.name);
    if module_ != "" {
      return if exists p :: p in paths && p in tree.files then Fine else NoModule(target.name);
    }
    var anchor := FindAnchor(tree, paths);
    if anchor.None? {
      return NoPackage(target.name);
    }
    AnchorIsInit(tree, paths);
    var missing := [];
    for j := 0 to |names|
      invariant missing == [] <==> forall k :: 0 <= k < j ==> NameFound(tree, anchor.value, names[k])
      invariant forall n :: n in missing <==> n in names[..j] && !NameFound(tree, anchor.value, n)
    {
      if !NameFound(tree, anchor.value, names[j]) {
        missing := missing + [names[j]];
      }
    }
    assert names[..|names|] == names;
    return if missing != [] then Missing(missing) else Fine;
  }

  // ---- The fixer, import by import ----

  datatype Import = Import(module_: string, level: nat, names: seq<string>)

  predicate Works(tree: Tree, package: string, i: Import) {
    Resolves(tree, package, i.module_, i.level, i.names)
  }

  /** Which levels make this import resolve. */
  function WorkingLevels(tree: Tree, package: string, i: Import): nat -> bool {
    (k: nat) => Works(tree, package, i.(level := k))
  }

  /** The smallest candidate from `c` to 5, other than the current level, that works. */
  function BestLevel(works: nat -> bool, current: nat, c: nat): Option<nat>
    decreases 6 - c
  {
    if c > 5 then None
    else if c != current && works(c) then Some(c)
    else BestLevel(works, current, c + 1)
  }

  /** What the fixer makes of a level. */
  function FixedLevel(works: nat -> bool, current: nat): nat {
    if current == 0 || works(current) then current
    else
      var best := BestLevel(works, current, 1);
      if best.Some? then best.value else current
  }

  function Fixed(tree: Tree, package: string, i: Import): Import {
    i.(level := FixedLevel(WorkingLevels(tree, package, i), i.level))
  }

  /** The search for a candidate level. */
  method FindBestLevel(tree: Tree, package: string, node: Import) returns (best: Option<nat>)
    ensures best == BestLevel(WorkingLevels(tree, package, node), node.level, 1)
  {
    ghost var works := WorkingLevels(tree, package, node);
    for candidate := 1 to 6
      invariant BestLevel(works, node.level, 1) == BestLevel(works, node.level, candidate)
    {
      if candidate != node.level {
        var ok := CheckLevel(tree, package, node.module_, candidate, node.names);
        assert ok == works(candidate);
        if ok {
          return Some(candidate);
        }
      }
    }
    return None;
  }

  /** `collect_fixes` for the imports of one file, last to first; also the indices it rewrote. */
  method CollectFixes(tree: Tree, package: string, imports: seq<Import>) returns (out: seq<Import>, fixes: seq<nat>)
    ensures |out| == |imports|
    ensures forall k :: 0 <= k < |imports| ==> out[k] == Fixed(tree, package, imports[k])
    ensures forall k :: k in fixes <==> 0 <= k < |imports| && out[k] != imports[k]
  {
    out, fixes := imports, [];
    var n := |imports|;
    while n > 0
      invariant 0 <= n <= |imports| == |out|
      invariant forall k :: 0 <= k < n ==> out[k] == imports[k]
      invariant forall k :: n <= k < |imports| ==> out[k] == Fixed(tree, package, imports[k])
      invariant forall k :: k in fixes <==> n <= k < |imports| && out[k] != imports[k]
    {
      n := n - 1;
      var node := imports[n];
      var level := FixOne(tree, package, node);
      if level != node.level {
        out := out[n := node.(level := level)];
        fixes := fixes + [n];
      }
    }
  }

  /** The body of the loop over the imports: skip, give up, or choose a level. */
  method FixOne(tree: Tree, package: string, node: Import) returns (level: nat)
    ensures level == FixedLevel(WorkingLevels(tree, package, node), node.level)
  {
    if node.level == 0 {
      return node.level;
    }
    var fine := CheckLevel(tree, package, node.module_, node.level, node.names);
    assert node.(level := node.level) == node;
    assert fine == WorkingLevels(tree, package, node)(node.level);
    if fine {
      return node.level;
    }
    var best := FindBestLevel(tree, package, node);
    return if best.Some? then best.value else node.level;
  }

  lemma {:induction false} BestLevelIsSmallest(works: nat -> bool, current: nat, c: nat)
    ensures var b := BestLevel(works, current, c);
            && (b.Some? ==>
                  && c <= b.value <= 5 && b.value != current && works(b.value)
                  && forall k :: c <= k < b.value && k != current ==> !works(k))
            && (b.None? ==> forall k :: c <= k <= 5 && k != current ==> !works(k))
    decreases 6 - c
  {
    if c <= 5 {
      BestLevelIsSmallest(works, current, c + 1);
    }
  }

  /** A level that works is left alone; a new level works and is the smallest from 1 that does; a level
      that is left broken could not be replaced by any from 1 to 5. */
  lemma FixIsLeastLevel(works: nat -> bool, current: nat)
    requires current >= 1
    ensures var f := FixedLevel(works, current);
            && (works(current) ==> f == current)
            && (f != current ==> 1 <= f <= 5 && works(f) && forall k :: 1 <= k < f ==> !works(k))
            && (!works(f) ==> f == current && forall k :: 1 <= k <= 5 ==> !works(k))
  {
    BestLevelIsSmallest(works, current, 1);
  }

  /** A second run over the imports that the first one wrote rewrites nothing, and what it leaves broken
      resolves at no level from 1 to 5. */
  lemma SecondRunFixesNothing(tree: Tree, package: string, i: Import)
    requires i.level >= 1
    ensures var f := Fixed(tree, package, i);
            && Fixed(tree, package, f) == f
            && (Works(tree, package, f) || forall k: nat :: 1 <= k <= 5 ==> !Works(tree, package, i.(level := k)))
  {
    var works := WorkingLevels(tree, package, i);
    var f := Fixed(tree, package, i);
    FixIsLeastLevel(works, i.level);
    forall k: nat ensures WorkingLevels(tree, package, f)(k) == works(k) {
      assert f.(level := k) == i.(level := k);
    }
    assert f.(level := f.level) == f;
    FixIsLeastLevel(WorkingLevels(tree, package, f), f.level);
    if !works(f.level) {
      assert BestLevel(WorkingLevels(tree, package, f), f.level, 1).None? by {
        BestLevelIsSmallest(WorkingLevels(tree, package, f), f.level, 1);
      }
      forall k: nat | 1 <= k <= 5 ensures !Works(tree, package, i.(level := k)) {
        assert !works(k);
      }
    }
  }
}
