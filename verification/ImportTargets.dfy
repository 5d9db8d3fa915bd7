/** Where an import looks, said in directories: an import of a package resolves exactly when the module file or the
    package file is there, without any recourse to the way the tools build their candidates. */
module ImportTargets {
  import opened Basics
  import opened RelativeImports

  predicate DotFree(parts: seq<string>) {
    forall i :: 0 <= i < |parts| ==> '.' !in parts[i]
  }

  // ---- Dotted names of directories ----

  lemma {:induction false} LastDotFinds(s: string, n: nat, p: nat)
    requires p < n <= |s| && s[p] == '.' && forall k :: p < k < n ==> s[k] != '.'
    ensures LastDot(s, n) == Some(p)
  {
    if p < n - 1 {
      LastDotFinds(s, n - 1, p);
    }
  }

  lemma {:induction false} NoDotNoParent(s: string, n: nat)
    requires n <= |s| && '.' !in s
    ensures LastDot(s, n).None?
  {
    if n > 0 {
      NoDotNoParent(s, n - 1);
    }
  }

  lemma ParentOfJoin(front: string, last: string)
    requires '.' !in last
    ensures Parent(front + "." + last) == Some(front) && LastPart(front + "." + last) == last
  {
    var s, p := front + "." + last, |front|;
    forall k | p < k < |s| ensures s[k] != '.' {
      assert s[k] == last[k - p - 1];
    }
    LastDotFinds(s, |s|, p);
    assert s[..p] == front && s[p + 1..] == last;
  }

  /** Splitting undoes joining. */
  lemma {:induction false} SplitJoin(parts: seq<string>)
    requires parts != [] && DotFree(parts)
    ensures Split(Join(parts)) == parts
    decreases |parts|
  {
    var n := |parts| - 1;
    if n == 0 {
      NoDotNoParent(parts[0], |parts[0]|);
    } else {
      SplitJoin(parts[..n]);
      ParentOfJoin(Join(parts[..n]), parts[n]);
    }
  }

  lemma {:induction false} JoinJoin(a: seq<string>, b: seq<string>)
    requires a != [] && b != []
    ensures Join(a + b) == Join(a) + "." + Join(b)
    decreases |b|
  {
    var n := |b| - 1;
    assert (a + b)[..|a| + n] == a + b[..n] && (a + b)[|a| + n] == b[n];
    if n > 0 {
      JoinJoin(a, b[..n]);
      JoinThree(Join(a), Join(b[..n]), b[n]);
    } else {
      assert a + b[..n] == a;
    }
  }

  lemma JoinThree(a: string, b: string, c: string)
    ensures (a + "." + b) + "." + c == a + "." + (b + "." + c)
  {
  }

  // ---- Where the name of a module leads ----

  /** The name of the module in this directory below the root, or of the root itself. */
  function NameOf(root: string, dirs: seq<string>): string {
    Join([root] + dirs)
  }

  /** A module file, or a package file in a directory of its own. */
  predicate ModuleFileThere(tree: Tree, dirs: seq<string>) {
    dirs != [] && dirs[..|dirs| - 1] + [dirs[|dirs| - 1] + ".py"] in tree.files
  }

  predicate PackageFileThere(tree: Tree, dirs: seq<string>) {
    dirs + ["__init__.py"] in tree.files
  }

  lemma PathsOfName(tree: Tree, dirs: seq<string>)
    requires DotFree(dirs)
    ensures ModulePaths(tree, NameOf(tree.root, dirs))
         == if dirs == [] then [["__init__.py"]]
            else [dirs[..|dirs| - 1] + [dirs[|dirs| - 1] + ".py"], dirs + ["__init__.py"]]
  {
    JoinPrepend(tree.root, dirs);
    if dirs != [] {
      var name, prefix := NameOf(tree.root, dirs), tree.root + ".";
      assert name == prefix + Join(dirs);
      assert prefix <= name && name[|prefix|..] == Join(dirs);
      SplitJoin(dirs);
    }
  }

  /** A module below the root is found exactly when one of its two files is in the tree. */
  lemma NameIsThere(tree: Tree, dirs: seq<string>)
    requires DotFree(dirs)
    ensures (exists p :: p in ModulePaths(tree, NameOf(tree.root, dirs)) && p in tree.files)
            <==> ModuleFileThere(tree, dirs) || PackageFileThere(tree, dirs)
  {
    PathsOfName(tree, dirs);
    var paths := ModulePaths(tree, NameOf(tree.root, dirs));
    if dirs == [] {
      assert paths == [["__init__.py"]] && [] + ["__init__.py"] == ["__init__.py"];
      assert paths[0] in paths;
    } else {
      assert paths[0] in paths && paths[1] in paths;
    }
  }

  // ---- What an import of a package comes to ----

  /** The directory that `level` leading dots stand for, in a package of this directory. */
  function Base(dirs: seq<string>, level: nat): seq<string>
    requires 1 <= level <= |dirs| + 1
  {
    dirs[..|dirs| + 1 - level]
  }

  lemma AncestorOfName(root: string, dirs: seq<string>, level: nat)
    requires DotFree([root] + dirs) && level >= 1
    ensures Ancestor(NameOf(root, dirs), level - 1)
         == if level <= |dirs| + 1 then Some(NameOf(root, Base(dirs, level))) else None
  {
    SplitIsAncestor(NameOf(root, dirs), level - 1);
    SplitJoin([root] + dirs);
    if level <= |dirs| + 1 {
      assert ([root] + dirs)[..|dirs| + 2 - level] == [root] + Base(dirs, level);
    }
  }

  lemma UnderName(root: string, dirs: seq<string>, module_: seq<string>)
    requires module_ != [] && Join(module_) != ""
    ensures Under(NameOf(root, dirs), Join(module_)) == NameOf(root, dirs + module_)
  {
    JoinJoin([root] + dirs, module_);
    SameList(root, dirs, module_);
  }

  lemma SameList(root: string, dirs: seq<string>, module_: seq<string>)
    ensures ([root] + dirs) + module_ == [root] + (dirs + module_)
  {
  }

  lemma MeaningOfImport(root: string, dirs: seq<string>, module_: seq<string>, level: nat)
    requires DotFree([root] + dirs) && level >= 1 && module_ != [] && Join(module_) != ""
    ensures Meaning(Join(module_), NameOf(root, dirs), level)
         == if level <= |dirs| + 1 then Absolute(NameOf(root, Base(dirs, level) + module_)) else BeyondTopLevel
  {
    AncestorOfName(root, dirs, level);
    if level <= |dirs| + 1 {
      UnderName(root, Base(dirs, level), module_);
    }
  }

  lemma PartsAreDotFree(root: string, dirs: seq<string>, module_: seq<string>, level: nat)
    requires DotFree([root] + dirs) && DotFree(module_) && 1 <= level <= |dirs| + 1
    ensures DotFree(Base(dirs, level) + module_)
  {
    assert forall i :: 0 <= i < |dirs| ==> dirs[i] == ([root] + dirs)[i + 1];
  }

  /** `from ..module import names` in a file of this directory resolves exactly when the dots stay within the root and
      the module is there, as a file or as a package, below the directory they stand for. */
  lemma ModuleImportResolvesIff(tree: Tree, dirs: seq<string>, module_: seq<string>, level: nat, names: seq<string>)
    requires DotFree([tree.root] + dirs) && DotFree(module_) && level >= 1 && module_ != [] && Join(module_) != ""
    ensures Resolves(tree, NameOf(tree.root, dirs), Join(module_), level, names)
            <==> level <= |dirs| + 1
                 && (ModuleFileThere(tree, Base(dirs, level) + module_)
                     || PackageFileThere(tree, Base(dirs, level) + module_))
  {
    MeaningOfImport(tree.root, dirs, module_, level);
    if level <= |dirs| + 1 {
      PartsAreDotFree(tree.root, dirs, module_, level);
      NameIsThere(tree, Base(dirs, level) + module_);
    }
  }

  /** The directory whose package file is taken for that of a package: its own, unless the package is called `__init__`
      and the directory around it has a package file. */
  function Home(tree: Tree, dirs: seq<string>): seq<string> {
    if dirs != [] && dirs[|dirs| - 1] == "__init__" && PackageFileThere(tree, dirs[..|dirs| - 1])
    then dirs[..|dirs| - 1] else dirs
  }

  lemma InitFileName(last: string)
    ensures last + ".py" == "__init__.py" <==> last == "__init__"
  {
    assert "__init__" + ".py" == "__init__.py";
    if last + ".py" == "__init__.py" {
      assert |last| == 8 && last == (last + ".py")[..8] && "__init__" == ("__init__" + ".py")[..8];
    }
  }

  lemma AnchorOfTwo(tree: Tree, a: Path, b: Path)
    ensures Anchor(tree, [b]) == if IsInit(tree, b) then Some(b) else None
    ensures Anchor(tree, [a, b]) == if IsInit(tree, a) then Some(a) else Anchor(tree, [b])
  {
    assert [a, b][1..] == [b] && [b][1..] == [];
  }

  lemma AnchorOfName(tree: Tree, dirs: seq<string>)
    requires DotFree(dirs)
    ensures Anchor(tree, ModulePaths(tree, NameOf(tree.root, dirs)))
         == if PackageFileThere(tree, Home(tree, dirs)) then Some(Home(tree, dirs) + ["__init__.py"]) else None
  {
    PathsOfName(tree, dirs);
    var paths := ModulePaths(tree, NameOf(tree.root, dirs));
    if dirs == [] {
      AnchorOfTwo(tree, paths[0], paths[0]);
      assert [] + ["__init__.py"] == ["__init__.py"];
    } else {
      InitFileName(dirs[|dirs| - 1]);
      AnchorOfTwo(tree, paths[0], paths[1]);
      assert paths == [paths[0], paths[1]];
      assert paths[0][|paths[0]| - 1] == dirs[|dirs| - 1] + ".py";
    }
  }

  /** A module or a package in the directory, or a name that its package file defines. */
  predicate NameThere(tree: Tree, home: seq<string>, name: string) {
    || home + [name + ".py"] in tree.files
    || home + [name, "__init__.py"] in tree.files
    || (home + ["__init__.py"] in tree.defined && name in tree.defined[home + ["__init__.py"]])
  }

  /** `from .. import names` resolves exactly when the dots stay within the root, the directory they stand for has a
      package file, and each name is a module or a package beside it or is defined in it. */
  lemma NameImportResolvesIff(tree: Tree, dirs: seq<string>, level: nat, names: seq<string>)
    requires DotFree([tree.root] + dirs) && level >= 1
    ensures Resolves(tree, NameOf(tree.root, dirs), "", level, names)
            <==> level <= |dirs| + 1
                 && var home := Home(tree, Base(dirs, level));
                    PackageFileThere(tree, home) && forall n :: n in names ==> NameThere(tree, home, n)
  {
    AncestorOfName(tree.root, dirs, level);
    if level <= |dirs| + 1 {
      PartsAreDotFree(tree.root, dirs, [], level);
      assert Base(dirs, level) + [] == Base(dirs, level);
      AnchorOfName(tree, Base(dirs, level));
      var home := Home(tree, Base(dirs, level));
      assert (home + ["__init__.py"])[..|home|] == home;
    }
  }
}
