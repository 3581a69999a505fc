/** Paths and directory trees. */
module Paths {

  function LastSlashBefore(path: string, n: nat): (k: nat)
    requires n <= |path| && forall i :: n <= i < |path| ==> path[i] != '/'
    ensures k <= |path|
    ensures k < |path| ==> path[k] == '/'
    ensures forall i :: k < i < |path| ==> path[i] != '/'
    ensures k == |path| ==> forall i :: 0 <= i < |path| ==> path[i] != '/'
  {
    if n == 0 then |path| else if path[n - 1] == '/' then n - 1 else LastSlashBefore(path, n - 1)
  }

  /** strrchr(path, '/'), or the length of the path when there is no slash. */
  function LastSlash(path: string): (k: nat)
    ensures k <= |path|
    ensures k < |path| ==> path[k] == '/'
    ensures forall i :: k < i < |path| ==> path[i] != '/'
    ensures k == |path| ==> forall i :: 0 <= i < |path| ==> path[i] != '/'
  {
    LastSlashBefore(path, |path|)
  }

  predicate HasSlash(path: string) { LastSlash(path) < |path| }

  function Cut(path: string): string
    requires HasSlash(path)
  {
    path[..LastSlash(path)]
  }

  /** The names a path is made of; doubled and trailing slashes count for nothing. */
  function Names(path: string): seq<string>
    decreases |path|
  {
    var k := LastSlash(path);
    if k == |path| then (if path == "" then [] else [path])
    else Names(path[..k]) + if k + 1 == |path| then [] else [path[k + 1..]]
  }

  /** The names of a path in full: a last name is added behind a slash, and a slash
      at the end adds nothing. */
  lemma {:induction false} NamesAre(x: string, name: string)
    requires '/' !in name
    ensures Names("") == [] && (name != "" ==> Names(name) == [name])
    ensures Names(x + "/" + name) == Names(x) + if name == "" then [] else [name]
  {
    var p := x + "/" + name;
    assert p[|x|] == '/' && p[..|x|] == x && p[|x| + 1..] == name;
    forall i | |x| < i < |p| ensures p[i] != '/' {
      assert p[i] == name[i - |x| - 1];
    }
    assert LastSlash(p) == |x|;
    assert LastSlash(name) == |name|;
  }

  type Tree = set<seq<string>>

  function Parent(names: seq<string>): seq<string>
    requires names != []
  {
    names[..|names| - 1]
  }

  /** The root exists, and whatever exists has an existing parent. */
  ghost predicate Closed(tree: Tree) {
    [] in tree && forall d :: d in tree && d != [] ==> Parent(d) in tree
  }

  lemma {:induction false} PrefixesExist(tree: Tree, d: seq<string>, k: nat)
    requires Closed(tree) && d in tree && k <= |d|
    ensures d[..k] in tree
    decreases |d|
  {
    if k < |d| {
      PrefixesExist(tree, Parent(d), k);
      assert Parent(d)[..k] == d[..k];
    } else {
      assert d[..k] == d;
    }
  }

  function Prefixes(d: seq<string>): set<seq<string>> {
    set k | 0 <= k <= |d| :: d[..k]
  }

  // ---- When the recursion succeeds ----------------------------------------------

  /** Position `i` ends a piece of the path: a slash follows, or nothing. */
  predicate PieceEnds(path: string, i: nat) {
    i <= |path| && (i == |path| || path[i] == '/')
  }

  /** A piece of the path that ends in a slash, so that the path has a doubled or
      a trailing slash there, while the directory that should hold its last name
      does not exist. */
  predicate GapAt(path: string, tree: Tree, i: nat) {
    && 0 < i && PieceEnds(path, i) && path[i - 1] == '/'
    && Names(path[..i]) != [] && Names(path[..i]) !in tree && Parent(Names(path[..i])) !in tree
  }

  ghost predicate Gap(path: string, tree: Tree) {
    exists i: nat :: GapAt(path, tree, i)
  }

  lemma {:induction false} PieceIsPrefix(path: string, i: nat)
    requires PieceEnds(path, i)
    ensures Names(path[..i]) <= Names(path)
    decreases |path|
  {
    var k := LastSlash(path);
    if i == |path| {
      assert path[..i] == path;
    } else {
      assert i <= k < |path|;
      var cut := path[..k];
      if i < k {
        assert cut[i] == path[i];
      }
      PieceIsPrefix(cut, i);
      assert cut[..i] == path[..i];
      assert Names(cut) <= Names(path);
    }
  }

  /** Without a missing parent directory there is no gap. */
  lemma {:induction false} NoGapWhenParentExists(path: string, tree: Tree)
    requires Closed(tree)
    requires Names(path) in tree || (Names(path) != [] && Parent(Names(path)) in tree)
    ensures !Gap(path, tree)
  {
    var d := Names(path);
    forall i: nat | PieceEnds(path, i) && Names(path[..i]) != []
      ensures Names(path[..i]) in tree || Parent(Names(path[..i])) in tree
    {
      PieceIsPrefix(path, i);
      var e := Names(path[..i]);
      assert e == d[..|e|];
      if d in tree {
        PrefixesExist(tree, d, |e|);
      } else if |e| < |d| {
        PrefixesExist(tree, Parent(d), |e|);
        assert Parent(d)[..|e|] == e;
      } else {
        assert e == d;
      }
    }
  }

  /** A path without doubled and trailing slashes has no gap. */
  lemma {:induction false} CleanPathHasNoGap(path: string, tree: Tree)
    requires forall i :: 0 <= i < |path| && path[i] == '/' ==> i + 1 < |path| && path[i + 1] != '/'
    ensures !Gap(path, tree)
  {
    forall i: nat | 0 < i && PieceEnds(path, i) ensures path[i - 1] != '/' {
    }
  }

  /** Cutting off a last name that is not empty keeps the gaps. */
  lemma {:induction false} GapOfCut(path: string, tree: Tree)
    requires HasSlash(path) && LastSlash(path) + 1 < |path|
    ensures Gap(path, tree) <==> Gap(Cut(path), tree)
  {
    var k := LastSlash(path);
    var cut := Cut(path);
    forall i: nat ensures GapAt(path, tree, i) <==> GapAt(cut, tree, i) {
      if i <= k {
        assert path[..i] == cut[..i];
      }
    }
  }

  /** On an empty file system "a/b/" has a gap, and so cannot be created at once,
      while "a/b" has none. */
  lemma {:induction false} TrailingSlashGap()
    ensures Gap("a/b/", {[]}) && !Gap("a/b", {[]})
  {
    var path := "a/b/";
    assert path[..1] == "a" && path[..3] == "a/b" && path[..4] == path;
    assert "a/b"[..1] == "a" && "a/b"[2..] == "b";
    assert LastSlash("a") == 1 && Names("a") == ["a"];
    assert LastSlash("a/b") == 1 && Names("a/b") == Names("a") + ["b"];
    assert LastSlash(path) == 3 && Names(path) == Names("a/b") + [];
    assert GapAt(path, {[]}, 4);
  }

  lemma {:induction false} NamesOfCut(path: string)
    requires HasSlash(path)
    ensures LastSlash(path) + 1 == |path| ==> Names(path) == Names(Cut(path))
    ensures LastSlash(path) + 1 < |path| ==> Names(path) != [] && Parent(Names(path)) == Names(Cut(path))
  {
  }

  /** A path without a slash names at most one directory, below the root. */
  lemma {:induction false} NamesWithoutSlash(path: string)
    requires !HasSlash(path)
    ensures Names(path) != [] ==> Parent(Names(path)) == []
  {
  }
}

/** Directory creation on the flash file system. */
module LittleFs {
  import opened Paths

  const OK: int := 0
  const LFS_ERR_NOENT: int := -2
  const LFS_ERR_EXIST: int := -17

  /** The file system behind tal_fs_mkdir. Unless it is reliable, any call may also
      fail for another reason. */
  class FileSystem {
    var tree: Tree
    const reliable: bool

    constructor (reliable: bool)
      ensures Closed(tree) && tree == {[]} && this.reliable == reliable
    {
      tree := {[]};
      this.reliable := reliable;
    }

    method Mkdir(path: string) returns (ret: int)
      requires Closed(tree)
      modifies this
      ensures Closed(tree)
      ensures ret == OK ==>
                && Names(path) != [] && Parent(Names(path)) in old(tree) && Names(path) !in old(tree)
                && tree == old(tree) + {Names(path)}
      ensures ret != OK ==> tree == old(tree)
      ensures ret == LFS_ERR_EXIST ==> Names(path) in tree
      ensures ret == LFS_ERR_NOENT ==> Names(path) != [] && Names(path) !in tree && Parent(Names(path)) !in tree
      ensures reliable ==> ret == OK || ret == LFS_ERR_EXIST || ret == LFS_ERR_NOENT
    {
      var fault: int := *;
      if !reliable && fault != OK && fault != LFS_ERR_EXIST && fault != LFS_ERR_NOENT {
        return fault;
      }
      var d := Names(path);
      if d in tree {
        return LFS_ERR_EXIST;
      }
      if Parent(d) !in tree {
        return LFS_ERR_NOENT;
      }
      tree := tree + {d};
      return OK;
    }
  }

  lemma {:induction false} SelfPrefix(d: seq<string>)
    ensures d in Prefixes(d)
  {
    assert d == d[..|d|];
  }

  lemma {:induction false} AllPrefixes(before: Tree, tree: Tree, d: seq<string>)
    requires Closed(tree) && d in tree && before <= tree <= before + Prefixes(d)
    ensures tree == before + Prefixes(d)
  {
    forall e | e in Prefixes(d) ensures e in tree {
      PrefixesExist(tree, d, |e|);
    }
  }

  lemma {:induction false} PrefixesOfCut(path: string)
    requires HasSlash(path)
    ensures Prefixes(Names(Cut(path))) <= Prefixes(Names(path))
    ensures Names(path) in Prefixes(Names(path))
  {
    NamesOfCut(path);
    var d, e := Names(path), Names(Cut(path));
    assert d == d[..|d|];
    assert e == d[..|e|];
    forall k | 0 <= k <= |e| ensures e[..k] in Prefixes(d) {
      assert e[..k] == d[..k];
    }
  }

  /** createDirRecursive. It returns 0 only when the path and all its prefixes
      exist; it never creates anything but prefixes of the path; and on a file
      system without other faults it succeeds exactly when the path has no doubled
      or trailing slash after a name whose parent directory is missing. */
  method CreateDirRecursive(fs: FileSystem, path: string) returns (ret: int)
    requires Closed(fs.tree)
    modifies fs
    ensures Closed(fs.tree) && old(fs.tree) <= fs.tree
    ensures fs.tree <= old(fs.tree) + Prefixes(Names(path))
    ensures ret == OK ==> fs.tree == old(fs.tree) + Prefixes(Names(path))
    ensures fs.reliable ==> (ret == OK <==> !Gap(path, old(fs.tree)))
    ensures fs.reliable && ret != OK ==> ret == LFS_ERR_EXIST
    ensures fs.reliable && (forall i :: 0 <= i < |path| && path[i] == '/' ==> i + 1 < |path| && path[i + 1] != '/') ==>
              ret == 0
    ensures ret == 0 ==> forall k :: 0 <= k <= |Names(path)| ==> Names(path)[..k] in fs.tree
    ensures forall d :: d in fs.tree ==>
              d in old(fs.tree) || exists k :: 0 <= k <= |Names(path)| && d == Names(path)[..k]
    decreases |path|
  {
    ghost var before := fs.tree;
    if forall i :: 0 <= i < |path| && path[i] == '/' ==> i + 1 < |path| && path[i + 1] != '/' {
      CleanPathHasNoGap(path, before);
    }
    ret := fs.Mkdir(path);
    SelfPrefix(Names(path));
    if ret == OK {
      NoGapWhenParentExists(path, before);
      AllPrefixes(before, fs.tree, Names(path));
      return OK;
    }
    if ret == LFS_ERR_EXIST {
      NoGapWhenParentExists(path, before);
      AllPrefixes(before, fs.tree, Names(path));
      return OK;
    } else if ret == LFS_ERR_NOENT {
      if HasSlash(path) {
        var parentPath := Cut(path);
        NamesOfCut(path);
        var result := CreateDirRecursive(fs, parentPath);
        PrefixesOfCut(path);
        if LastSlash(path) + 1 == |path| {
          assert path[..|path|] == path;
          assert GapAt(path, before, |path|);
        } else {
          GapOfCut(path, before);
        }
        if result != OK {
          return result;
        }
        SelfPrefix(Names(parentPath));
        ret := fs.Mkdir(path);
        if ret == OK {
          AllPrefixes(before, fs.tree, Names(path));
        }
      } else {
        NamesWithoutSlash(path);
        assert false;
        return -1;
      }
    } else {
      return -1;
    }
  }

  /** The file system object of the sketch: nothing works before it is mounted. */
  class LittleFS {
    var ismounted: bool
    const fs: FileSystem

    constructor (fs: FileSystem, mountResult: int)
      ensures this.fs == fs && (ismounted <==> mountResult >= 0)
    {
      this.fs := fs;
      ismounted := false;
      if mountResult >= 0 {
        ismounted := true;
      }
    }

    method Mkdir(path: string) returns (ret: int)
      requires Closed(fs.tree)
      modifies fs
      ensures Closed(fs.tree)
      ensures !ismounted ==> ret == -1 && fs.tree == old(fs.tree)
      ensures old(fs.tree) <= fs.tree <= old(fs.tree) + Prefixes(Names(path))
      ensures ret == OK ==> ismounted && fs.tree == old(fs.tree) + Prefixes(Names(path))
      ensures ismounted && fs.reliable ==> (ret == OK <==> !Gap(path, old(fs.tree)))
      ensures ismounted && fs.reliable
              && (forall i :: 0 <= i < |path| && path[i] == '/' ==> i + 1 < |path| && path[i + 1] != '/') ==>
                ret == 0
      ensures ret == 0 ==> forall k :: 0 <= k <= |Names(path)| ==> Names(path)[..k] in fs.tree
    {
      if !ismounted {
        return -1;
      }
      ret := CreateDirRecursive(fs, path);
    }
  }
}
