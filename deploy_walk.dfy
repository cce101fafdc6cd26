/**
 * What the deploy scripts share on the local side: the top-down walk of the
 * local tree with excluded directory names pruned at every depth, the test
 * that a visited directory lies in an accepted subtree, the file filter on
 * extensions, and the relative paths built for each kept file. Local paths
 * are Windows paths ('\' separated); the server's are '/' separated.
 */
module DeployWalk {
  import ClrText
  import WsUtils
  import StringUtils

  /** A local directory as the walk lists it: its files' names and its subdirectories, in listing order. */
  datatype LocalDir = LocalDir(files: seq<string>, subdirs: seq<Subdir>)

  datatype Subdir = Subdir(name: string, dir: LocalDir)

  /** One step of the walk: a directory, by its names below the local root, and its files. */
  datatype Visit = Visit(rel: seq<string>, files: seq<string>)

  // ---------------------------------------------------------------------
  // The walk
  // ---------------------------------------------------------------------

  /**
   * `os.walk(top, topdown=True)` with `dirs[:]` filtered in place: a directory
   * first, then the walks of its subdirectories whose names are not excluded,
   * in order.
   */
  function Walk(d: LocalDir, rel: seq<string>, excludeDirs: set<string>): (r: seq<Visit>)
    ensures |r| > 0 && r[0] == Visit(rel, d.files)
    decreases d, 1
  {
    [Visit(rel, d.files)] + WalkSubdirs(d.subdirs, rel, excludeDirs)
  }

  /** The walks of the subdirectories that are not excluded, one after the other. */
  function WalkSubdirs(subs: seq<Subdir>, rel: seq<string>, excludeDirs: set<string>): seq<Visit>
    decreases subs, 0
  {
    if subs == [] then []
    else
      (if subs[0].name in excludeDirs then [] else Walk(subs[0].dir, rel + [subs[0].name], excludeDirs))
      + WalkSubdirs(subs[1..], rel, excludeDirs)
  }

  /** Whether `x` is the directory reached from `d` through the subdirectory names `path`. */
  predicate Reaches(d: LocalDir, path: seq<string>, x: LocalDir)
    decreases |path|
  {
    if path == [] then x == d
    else exists i :: 0 <= i < |d.subdirs| && d.subdirs[i].name == path[0] && Reaches(d.subdirs[i].dir, path[1..], x)
  }

  /** Whether no name of `path` is excluded. */
  predicate Clean(path: seq<string>, excludeDirs: set<string>)
  {
    forall k :: 0 <= k < |path| ==> path[k] !in excludeDirs
  }

  /** A visit of the subdirectories' walks is a visit of one of them, which is not excluded. */
  lemma {:induction false} InWalkSubdirs(subs: seq<Subdir>, rel: seq<string>, excludeDirs: set<string>, v: Visit)
    requires v in WalkSubdirs(subs, rel, excludeDirs)
    ensures exists i :: 0 <= i < |subs| && subs[i].name !in excludeDirs && v in Walk(subs[i].dir, rel + [subs[i].name], excludeDirs)
    decreases subs
  {
    if subs[0].name in excludeDirs || v !in Walk(subs[0].dir, rel + [subs[0].name], excludeDirs) {
      InWalkSubdirs(subs[1..], rel, excludeDirs, v);
      var i :| 0 <= i < |subs[1..]| && subs[1..][i].name !in excludeDirs
        && v in Walk(subs[1..][i].dir, rel + [subs[1..][i].name], excludeDirs);
      assert subs[1..][i] == subs[i + 1];
    }
  }

  /** The walk of a subdirectory that is not excluded is part of the subdirectories' walks. */
  lemma {:induction false} WalkSubdirsHas(subs: seq<Subdir>, rel: seq<string>, excludeDirs: set<string>, i: nat, v: Visit)
    requires i < |subs| && subs[i].name !in excludeDirs && v in Walk(subs[i].dir, rel + [subs[i].name], excludeDirs)
    ensures v in WalkSubdirs(subs, rel, excludeDirs)
    decreases subs
  {
    if i > 0 {
      assert subs[1..][i - 1] == subs[i];
      WalkSubdirsHas(subs[1..], rel, excludeDirs, i - 1, v);
    }
  }

  /**
   * Every visit is of a directory of the tree, reached through names none of
   * which is excluded, with that directory's files.
   */
  lemma {:induction false} WalkSound(d: LocalDir, rel: seq<string>, excludeDirs: set<string>, v: Visit)
    requires v in Walk(d, rel, excludeDirs)
    ensures |rel| <= |v.rel| && v.rel[..|rel|] == rel && Clean(v.rel[|rel|..], excludeDirs)
    ensures exists x :: Reaches(d, v.rel[|rel|..], x) && x.files == v.files
    decreases d
  {
    if v == Visit(rel, d.files) {
      assert v.rel[|rel|..] == [];
      assert Reaches(d, [], d);
    } else {
      assert v in WalkSubdirs(d.subdirs, rel, excludeDirs);
      InWalkSubdirs(d.subdirs, rel, excludeDirs, v);
      var i :| 0 <= i < |d.subdirs| && d.subdirs[i].name !in excludeDirs
        && v in Walk(d.subdirs[i].dir, rel + [d.subdirs[i].name], excludeDirs);
      var sub := d.subdirs[i];
      var below := rel + [sub.name];
      WalkSound(sub.dir, below, excludeDirs, v);
      var x :| Reaches(sub.dir, v.rel[|below|..], x) && x.files == v.files;
      SoundThroughSubdir(d, rel, excludeDirs, v.rel, i, x);
    }
  }

  /** A path that goes on below a subdirectory that is not excluded goes on below its parent. */
  lemma SoundThroughSubdir(d: LocalDir, rel: seq<string>, excludeDirs: set<string>, path: seq<string>, i: nat, x: LocalDir)
    requires 0 <= i < |d.subdirs| && d.subdirs[i].name !in excludeDirs
    requires var below := rel + [d.subdirs[i].name];
      |below| <= |path| && path[..|below|] == below && Clean(path[|below|..], excludeDirs)
      && Reaches(d.subdirs[i].dir, path[|below|..], x)
    ensures |rel| <= |path| && path[..|rel|] == rel && Clean(path[|rel|..], excludeDirs) && Reaches(d, path[|rel|..], x)
  {
    var sub := d.subdirs[i];
    var below := rel + [sub.name];
    var p := path[|rel|..];
    assert p == [sub.name] + path[|below|..];
    assert p[0] == sub.name && p[1..] == path[|below|..];
    assert path[..|rel|] == below[..|rel|] == rel;
    assert Reaches(d, p, x);
    forall k | 0 <= k < |p| ensures p[k] !in excludeDirs {
      if k > 0 {
        assert p[k] == path[|below|..][k - 1];
      }
    }
  }

  /** Every directory reached through names none of which is excluded is visited, with its files. */
  lemma {:induction false} WalkComplete(d: LocalDir, rel: seq<string>, excludeDirs: set<string>, p: seq<string>, x: LocalDir)
    requires Reaches(d, p, x) && Clean(p, excludeDirs)
    ensures Visit(rel + p, x.files) in Walk(d, rel, excludeDirs)
    decreases d
  {
    if p == [] {
      assert rel + p == rel;
    } else {
      var i :| 0 <= i < |d.subdirs| && d.subdirs[i].name == p[0] && Reaches(d.subdirs[i].dir, p[1..], x);
      var sub := d.subdirs[i];
      assert Clean(p[1..], excludeDirs) by {
        forall k | 0 <= k < |p[1..]| ensures p[1..][k] !in excludeDirs {
          assert p[1..][k] == p[k + 1];
        }
      }
      WalkComplete(sub.dir, rel + [sub.name], excludeDirs, p[1..], x);
      assert rel + [sub.name] + p[1..] == rel + p;
      assert p[0] !in excludeDirs;
      WalkSubdirsHas(d.subdirs, rel, excludeDirs, i, Visit(rel + p, x.files));
    }
  }

  /** A name Windows allows: not empty, not "." or "..", no separator, no control character. */
  predicate IsWindowsName(n: string)
  {
    |n| > 0 && n != "." && n != ".." && forall k :: 0 <= k < |n| ==> n[k] != '\\' && n[k] != '/' && n[k] >= ' '
  }

  /** Whether every name of `names` is one Windows allows. */
  predicate AllWindowsNames(names: seq<string>)
  {
    forall k :: 0 <= k < |names| ==> IsWindowsName(names[k])
  }

  /** Whether every name in the tree is one Windows allows. */
  predicate WellNamed(d: LocalDir)
    decreases d
  {
    AllWindowsNames(d.files)
    && forall k :: 0 <= k < |d.subdirs| ==> IsWindowsName(d.subdirs[k].name) && WellNamed(d.subdirs[k].dir)
  }

  /** In a well-named tree the names on the way to a directory and below it are well formed. */
  lemma {:induction false} ReachesWellNamed(d: LocalDir, p: seq<string>, x: LocalDir)
    requires WellNamed(d) && Reaches(d, p, x)
    ensures AllWindowsNames(p) && WellNamed(x)
    decreases |p|
  {
    if p != [] {
      var i :| 0 <= i < |d.subdirs| && d.subdirs[i].name == p[0] && Reaches(d.subdirs[i].dir, p[1..], x);
      ReachesWellNamed(d.subdirs[i].dir, p[1..], x);
      forall k | 0 <= k < |p| ensures IsWindowsName(p[k]) {
        if k > 0 {
          assert p[k] == p[1..][k - 1];
        }
      }
    }
  }

  /** Every visit of a well-named tree has well-formed names. */
  lemma {:induction false} WalkWellNamed(d: LocalDir, excludeDirs: set<string>, v: Visit)
    requires WellNamed(d) && v in Walk(d, [], excludeDirs)
    ensures AllWindowsNames(v.rel) && AllWindowsNames(v.files)
  {
    WalkSound(d, [], excludeDirs, v);
    var x :| Reaches(d, v.rel[0..], x) && x.files == v.files;
    assert v.rel[0..] == v.rel;
    ReachesWellNamed(d, v.rel, x);
  }

  // ---------------------------------------------------------------------
  // Relative paths
  // ---------------------------------------------------------------------

  /** `os.path.relpath(root, rootLocalDir)` on Windows: the names joined by '\', "." for the root. */
  function RelPathWin(rel: seq<string>): string
  {
    if rel == [] then "." else StringUtils.JoinWith(rel, '\\')
  }

  /** The relative path is "." exactly at the root. */
  lemma {:induction false} RelPathWinDot(rel: seq<string>)
    requires AllWindowsNames(rel)
    ensures RelPathWin(rel) == "." <==> rel == []
  {
    if |rel| > 1 {
      assert |StringUtils.JoinWith(rel, '\\')| >= |rel[0]| + 1;
    }
  }

  /** `s.replace(old, new)` for one character. */
  function ReplaceChar(s: string, oldChar: char, newChar: char): (r: string)
    ensures |r| == |s|
    ensures forall k :: 0 <= k < |s| ==> r[k] == (if s[k] == oldChar then newChar else s[k])
  {
    if s == [] then [] else [if s[0] == oldChar then newChar else s[0]] + ReplaceChar(s[1..], oldChar, newChar)
  }

  /** The relative path with '/' separators, as the server and the archive list take it. */
  function RelPathLinux(rel: seq<string>): string
  {
    ReplaceChar(RelPathWin(rel), '\\', '/')
  }

  /** Whether no name holds a '\'. */
  predicate NoBackslash(names: seq<string>)
  {
    forall k :: 0 <= k < |names| ==> '\\' !in names[k]
  }

  /** For names without a '\', the server path is the names joined by '/'. */
  lemma {:induction false} RelPathLinuxJoins(rel: seq<string>)
    requires rel != [] && NoBackslash(rel)
    ensures RelPathLinux(rel) == StringUtils.JoinWith(rel, '/')
  {
    JoinReplaced(rel);
  }

  /** Replacing the separator of a join of names free of it joins them by the new one. */
  lemma {:induction false} JoinReplaced(names: seq<string>)
    requires NoBackslash(names)
    ensures ReplaceChar(StringUtils.JoinWith(names, '\\'), '\\', '/') == StringUtils.JoinWith(names, '/')
  {
    if |names| == 1 {
      ReplaceFree(names[0]);
    } else if |names| > 1 {
      assert NoBackslash(names[1..]) by {
        forall k | 0 <= k < |names[1..]| ensures '\\' !in names[1..][k] {
          assert names[1..][k] == names[k + 1];
        }
      }
      JoinReplaced(names[1..]);
      ReplaceFree(names[0]);
      ReplaceConcat(names[0] + ['\\'], StringUtils.JoinWith(names[1..], '\\'));
      ReplaceConcat(names[0], ['\\']);
    }
  }

  /** Replacing a character that does not occur changes nothing. */
  lemma {:induction false} ReplaceFree(s: string)
    requires '\\' !in s
    ensures ReplaceChar(s, '\\', '/') == s
  {
  }

  /** Replacing distributes over concatenation. */
  lemma {:induction false} ReplaceConcat(a: string, b: string)
    ensures ReplaceChar(a + b, '\\', '/') == ReplaceChar(a, '\\', '/') + ReplaceChar(b, '\\', '/')
  {
  }

  // ---------------------------------------------------------------------
  // Accepted subtrees
  // ---------------------------------------------------------------------

  /**
   * The root's files are always taken; another directory's files are taken
   * iff its relative path, as text, starts with one of the accepted roots.
   */
  predicate IsFilesTraversed(rel: seq<string>, acceptedSubTreeRoots: seq<string>)
  {
    var relWin := RelPathWin(rel);
    relWin == "." || exists j :: 0 <= j < |acceptedSubTreeRoots| && ClrText.StartsWith(relWin, acceptedSubTreeRoots[j])
  }

  /** The `for aSubTreeRoot in acceptedSubTreeRoots` loop with its early `break`. */
  method FilesTraversed(curRelPathWin: string, acceptedSubTreeRoots: seq<string>) returns (isFilesTraversed: bool)
    ensures isFilesTraversed <==>
      curRelPathWin == "." || exists j :: 0 <= j < |acceptedSubTreeRoots| && ClrText.StartsWith(curRelPathWin, acceptedSubTreeRoots[j])
  {
    if curRelPathWin == "." {
      return true;
    }
    isFilesTraversed := false;
    var j := 0;
    while j < |acceptedSubTreeRoots|
      invariant 0 <= j <= |acceptedSubTreeRoots|
      invariant !isFilesTraversed
      invariant forall k :: 0 <= k < j ==> !ClrText.StartsWith(curRelPathWin, acceptedSubTreeRoots[k])
    {
      if ClrText.StartsWith(curRelPathWin, acceptedSubTreeRoots[j]) {
        isFilesTraversed := true;
        break;
      }
      j := j + 1;
    }
  }

  /**
   * The test is on text, not on names: a sibling whose name merely starts
   * with an accepted root is taken too.
   */
  lemma SiblingPrefixAccepted()
    ensures IsFilesTraversed(["wwwroot2"], ["wwwroot"])
  {
    var roots := ["wwwroot"];
    assert RelPathWin(["wwwroot2"]) == "wwwroot2";
    assert "wwwroot2"[..|"wwwroot"|] == "wwwroot";
    assert ClrText.StartsWith("wwwroot2", roots[0]);
  }

  // ---------------------------------------------------------------------
  // The file filter
  // ---------------------------------------------------------------------

  /** The index of the last '.' of `f`, or -1. */
  function LastDot(f: string): (i: int)
    ensures -1 <= i < |f|
    ensures i >= 0 ==> f[i] == '.'
    ensures forall k :: i < k < |f| ==> f[k] != '.'
  {
    if f == [] then -1 else if f[|f| - 1] == '.' then |f| - 1 else LastDot(f[..|f| - 1])
  }

  /**
   * `os.path.splitext(f)[1]` for a name without separators: from the last
   * '.', provided something other than a dot comes before it; else "".
   */
  function SplitExt(f: string): (ext: string)
  {
    var i := LastDot(f);
    if i >= 0 && exists k :: 0 <= k < i && f[k] != '.' then f[i..] else ""
  }

  /** The extension is "" or starts with the only '.' after it, and the name ends with it. */
  lemma {:induction false} SplitExtMeaning(f: string)
    ensures var ext := SplitExt(f);
      |ext| <= |f| && f[|f| - |ext|..] == ext
      && (ext != "" ==> ext[0] == '.' && '.' !in ext[1..] && exists k :: 0 <= k < |f| - |ext| && f[k] != '.')
  {
    var i := LastDot(f);
    var ext := SplitExt(f);
    if ext != "" {
      assert ext == f[i..] && |f| - |ext| == i;
      forall k | 0 <= k < |ext[1..]| ensures ext[1..][k] != '.' {
        assert ext[1..][k] == f[i + 1 + k];
      }
    }
  }

  /** `str.isspace()` for one character: the .NET white space and the separators U+001C..U+001F. */
  predicate IsPySpace(c: char)
  {
    WsUtils.IsWhiteSpace(c) || '\U{001C}' <= c <= '\U{001F}'
  }

  /** `str.strip()`: leading and trailing white space removed. */
  function Strip(s: string): (r: string)
    ensures |r| <= |s|
    ensures r == "" || (!IsPySpace(r[0]) && !IsPySpace(r[|r| - 1]))
    decreases |s|
  {
    if s == [] then ""
    else if IsPySpace(s[0]) then Strip(s[1..])
    else if IsPySpace(s[|s| - 1]) then Strip(s[..|s| - 1])
    else s
  }

  /** `os.path.splitext(f)[1][1:].strip().lower()`: the extension as compared. */
  function ExtensionKey(f: string): string
  {
    var ext := SplitExt(f);
    ClrText.ToLower(Strip(if ext == "" then "" else ext[1..]))
  }

  const LockJsonSuffix: string := ".lock.json"

  /** The `goodFiles` test: the extension is not excluded and the name does not end with ".lock.json". */
  predicate IsGoodFile(f: string, excludeFileExts: set<string>)
  {
    ExtensionKey(f) !in excludeFileExts && !ClrText.EndsWith(f, LockJsonSuffix)
  }

  /** `goodFiles`: the kept names, in order. */
  function GoodFiles(files: seq<string>, excludeFileExts: set<string>): (r: seq<string>)
    ensures forall f :: f in r <==> f in files && IsGoodFile(f, excludeFileExts)
    ensures |r| <= |files|
  {
    if files == [] then []
    else (if IsGoodFile(files[0], excludeFileExts) then [files[0]] else []) + GoodFiles(files[1..], excludeFileExts)
  }

  /** `LastDot` finds the '.' with none after it. */
  lemma {:induction false} LastDotIs(f: string, i: nat)
    requires i < |f| && f[i] == '.' && forall k :: i < k < |f| ==> f[k] != '.'
    ensures LastDot(f) == i
    decreases |f|
  {
    if i < |f| - 1 {
      LastDotIs(f[..|f| - 1], i);
    }
  }

  /** Dot files have no extension, so they pass the extension test whatever their name. */
  lemma DotFilesHaveNoExtension()
    ensures ExtensionKey(".md") == "" && ExtensionKey("..sh") == ""
  {
    LastDotIs(".md", 0);
    LastDotIs("..sh", 1);
  }

  /** The extension is compared trimmed and lower-cased. */
  lemma ExtensionTrimmedAndLowered()
    ensures ExtensionKey("README.MD ") == "md"
  {
    var f := "README.MD ";
    LastDotIs(f, 6);
    assert f[0] != '.';
    assert f[6..][1..] == "MD ";
    assert Strip("MD ") == "MD" by {
      assert "MD "[..2] == "MD";
    }
  }

  /** Lock files go whatever their extension. */
  lemma LockFilesDropped()
    ensures ExtensionKey("project.lock.json") == "json" && !IsGoodFile("project.lock.json", {})
  {
    LockExtension();
    var lock := "project.lock.json";
    assert lock[7..] == LockJsonSuffix;
  }

  /** The extension of "project.lock.json" as compared. */
  lemma LockExtension()
    ensures ExtensionKey("project.lock.json") == "json"
  {
    var lock := "project.lock.json";
    LastDotIs(lock, 12);
    assert lock[0] != '.';
    assert SplitExt(lock) == ".json";
    var key := ".json"[1..];
    assert key == "json";
    assert Strip(key) == key;
    LowerKeeps(key);
  }

  /** Lower-casing keeps a name without capitals. */
  lemma LowerKeeps(s: string)
    requires forall i :: 0 <= i < |s| ==> !('A' <= s[i] <= 'Z')
    ensures ClrText.ToLower(s) == s
  {
  }

  // ---------------------------------------------------------------------
  // What the walk deploys
  // ---------------------------------------------------------------------

  /** A file to deploy: its directory's names below the local root, and its name. */
  datatype Deployed = Deployed(rel: seq<string>, name: string)

  /** The files the walk deploys, in walk order: the good files of the traversed directories. */
  function DeployedFiles(visits: seq<Visit>, acceptedSubTreeRoots: seq<string>, excludeFileExts: set<string>): (r: seq<Deployed>)
    decreases |visits|
  {
    if visits == [] then []
    else
      var v := visits[|visits| - 1];
      DeployedFiles(visits[..|visits| - 1], acceptedSubTreeRoots, excludeFileExts)
      + (if IsFilesTraversed(v.rel, acceptedSubTreeRoots) then DeployedOf(v.rel, GoodFiles(v.files, excludeFileExts)) else [])
  }

  /** The files of one directory, in order. */
  function DeployedOf(rel: seq<string>, names: seq<string>): (r: seq<Deployed>)
    ensures |r| == |names| && forall k :: 0 <= k < |names| ==> r[k] == Deployed(rel, names[k])
  {
    if names == [] then [] else DeployedOf(rel, names[..|names| - 1]) + [Deployed(rel, names[|names| - 1])]
  }

  /** Whether the visit `v` is of a traversed directory and lists the file `e`. */
  predicate Lists(v: Visit, e: Deployed, acceptedSubTreeRoots: seq<string>)
  {
    v.rel == e.rel && e.name in v.files && IsFilesTraversed(v.rel, acceptedSubTreeRoots)
  }

  /** Whether some visit of a traversed directory lists the file `e`. */
  predicate ListedBySome(visits: seq<Visit>, e: Deployed, acceptedSubTreeRoots: seq<string>)
  {
    exists i :: 0 <= i < |visits| && Lists(visits[i], e, acceptedSubTreeRoots)
  }

  /** Listed by some visit is listed by an earlier one or by the last. */
  lemma {:induction false} ListedBySomeLast(visits: seq<Visit>, e: Deployed, acceptedSubTreeRoots: seq<string>)
    requires visits != []
    ensures ListedBySome(visits, e, acceptedSubTreeRoots) <==>
      ListedBySome(visits[..|visits| - 1], e, acceptedSubTreeRoots) || Lists(visits[|visits| - 1], e, acceptedSubTreeRoots)
  {
    var init := visits[..|visits| - 1];
    if ListedBySome(visits, e, acceptedSubTreeRoots) {
      var i :| 0 <= i < |visits| && Lists(visits[i], e, acceptedSubTreeRoots);
      if i < |init| {
        assert init[i] == visits[i];
      }
    }
    if ListedBySome(init, e, acceptedSubTreeRoots) {
      var i :| 0 <= i < |init| && Lists(init[i], e, acceptedSubTreeRoots);
      assert init[i] == visits[i];
    }
  }

  /** A file is deployed iff a visit of a traversed directory lists it and it is good. */
  lemma {:induction false} DeployedFilesMeaning(visits: seq<Visit>, acceptedSubTreeRoots: seq<string>, excludeFileExts: set<string>, e: Deployed)
    ensures e in DeployedFiles(visits, acceptedSubTreeRoots, excludeFileExts) <==>
      ListedBySome(visits, e, acceptedSubTreeRoots) && IsGoodFile(e.name, excludeFileExts)
    decreases |visits|
  {
    if visits != [] {
      var init := visits[..|visits| - 1];
      var v := visits[|visits| - 1];
      DeployedFilesMeaning(init, acceptedSubTreeRoots, excludeFileExts, e);
      LastVisitFiles(v, acceptedSubTreeRoots, excludeFileExts, e);
      ListedBySomeLast(visits, e, acceptedSubTreeRoots);
    }
  }

  /** The good files of well-named files are well named. */
  lemma {:induction false} GoodFilesWellNamed(files: seq<string>, excludeFileExts: set<string>)
    requires AllWindowsNames(files)
    ensures AllWindowsNames(GoodFiles(files, excludeFileExts))
  {
    if files != [] {
      assert AllWindowsNames(files[1..]) by {
        forall k | 0 <= k < |files| - 1 ensures IsWindowsName(files[1..][k]) {
          assert files[1..][k] == files[k + 1];
        }
      }
      GoodFilesWellNamed(files[1..], excludeFileExts);
    }
  }

  /** A prefix of a longer prefix is the shorter prefix. */
  lemma TakeOfTake<T>(s: seq<T>, i: nat)
    requires i < |s|
    ensures s[..i + 1][..i] == s[..i]
  {
  }

  /** The whole prefix is the sequence. */
  lemma TakeAll<T>(s: seq<T>)
    ensures s[..|s|] == s
  {
  }

  /** A prefix one longer is the prefix and the next element. */
  lemma TakeOneMore<T>(s: seq<T>, j: nat)
    requires j < |s|
    ensures s[..j + 1] == s[..j] + [s[j]]
  {
  }

  /** The files one visit contributes are its good files, when its directory is traversed. */
  lemma {:induction false} LastVisitFiles(v: Visit, acceptedSubTreeRoots: seq<string>, excludeFileExts: set<string>, e: Deployed)
    ensures var last := if IsFilesTraversed(v.rel, acceptedSubTreeRoots) then DeployedOf(v.rel, GoodFiles(v.files, excludeFileExts)) else [];
      e in last <==> Lists(v, e, acceptedSubTreeRoots) && IsGoodFile(e.name, excludeFileExts)
  {
    if IsFilesTraversed(v.rel, acceptedSubTreeRoots) {
      var good := GoodFiles(v.files, excludeFileExts);
      var last := DeployedOf(v.rel, good);
      if e in last {
        var k :| 0 <= k < |last| && last[k] == e;
        assert e.name == good[k];
      }
      if v.rel == e.rel && e.name in good {
        var k :| 0 <= k < |good| && good[k] == e.name;
        assert last[k] == e;
      }
    }
  }

  /** One more visit adds the good files of its directory when that is traversed. */
  lemma {:induction false} DeployedFilesStep(visits: seq<Visit>, i: nat, acceptedSubTreeRoots: seq<string>, excludeFileExts: set<string>)
    requires i < |visits|
    ensures DeployedFiles(visits[..i + 1], acceptedSubTreeRoots, excludeFileExts) ==
      DeployedFiles(visits[..i], acceptedSubTreeRoots, excludeFileExts)
      + (if IsFilesTraversed(visits[i].rel, acceptedSubTreeRoots) then DeployedOf(visits[i].rel, GoodFiles(visits[i].files, excludeFileExts)) else [])
  {
    TakeOfTake(visits, i);
    assert visits[..i + 1][i] == visits[i];
  }

  /** The manifest entry of a file: its directory's server path, '/', its name ("./name" at the root). */
  function Entry(e: Deployed): string
  {
    RelPathLinux(e.rel) + "/" + e.name
  }

  /** The entries, in order. */
  function Entries(files: seq<Deployed>): (r: seq<string>)
    ensures |r| == |files| && forall k :: 0 <= k < |files| ==> r[k] == Entry(files[k])
  {
    if files == [] then [] else Entries(files[..|files| - 1]) + [Entry(files[|files| - 1])]
  }

  /** Whether no name of the tree holds a line feed, as no Windows name does. */
  predicate NoLineFeed(s: string)
  {
    '\n' !in s
  }

  /** The list file, `'\n'.join(...)`, splits back into the entries when no name holds a line feed. */
  lemma {:induction false} ListFileRoundTrip(files: seq<Deployed>)
    requires forall k :: 0 <= k < |files| ==> NoLineFeed(files[k].name) && forall j :: 0 <= j < |files[k].rel| ==> NoLineFeed(files[k].rel[j])
    ensures StringUtils.Split(StringUtils.JoinWith(Entries(files), '\n'), '\n') == Entries(files)
  {
    var entries := Entries(files);
    forall k | 0 <= k < |entries| ensures |entries[k]| > 0 && '\n' !in entries[k] {
      var e := files[k];
      assert entries[k] == RelPathLinux(e.rel) + "/" + e.name;
      RelPathNoLineFeed(e.rel);
    }
    StringUtils.JoinSplitRoundTrip(entries, '\n');
  }

  /** Every file the walk of a well-named tree deploys has well-formed names. */
  lemma {:induction false} DeployedWellNamed(d: LocalDir, excludeDirs: set<string>, acceptedSubTreeRoots: seq<string>,
                                             excludeFileExts: set<string>, e: Deployed)
    requires WellNamed(d) && e in DeployedFiles(Walk(d, [], excludeDirs), acceptedSubTreeRoots, excludeFileExts)
    ensures AllWindowsNames(e.rel) && IsWindowsName(e.name)
  {
    var visits := Walk(d, [], excludeDirs);
    DeployedFilesMeaning(visits, acceptedSubTreeRoots, excludeFileExts, e);
    var i :| 0 <= i < |visits| && Lists(visits[i], e, acceptedSubTreeRoots);
    WalkWellNamed(d, excludeDirs, visits[i]);
  }

  /** The list file of a well-named tree splits back into its entries. */
  lemma {:induction false} ListFileOfTreeRoundTrip(d: LocalDir, excludeDirs: set<string>, acceptedSubTreeRoots: seq<string>,
                                                   excludeFileExts: set<string>)
    requires WellNamed(d)
    ensures var entries := Entries(DeployedFiles(Walk(d, [], excludeDirs), acceptedSubTreeRoots, excludeFileExts));
      StringUtils.Split(StringUtils.JoinWith(entries, '\n'), '\n') == entries
  {
    var files := DeployedFiles(Walk(d, [], excludeDirs), acceptedSubTreeRoots, excludeFileExts);
    forall k | 0 <= k < |files|
      ensures NoLineFeed(files[k].name) && forall j :: 0 <= j < |files[k].rel| ==> NoLineFeed(files[k].rel[j])
    {
      DeployedWellNamed(d, excludeDirs, acceptedSubTreeRoots, excludeFileExts, files[k]);
    }
    ListFileRoundTrip(files);
  }

  /** A relative path of names without line feeds holds none. */
  lemma {:induction false} RelPathNoLineFeed(rel: seq<string>)
    requires forall j :: 0 <= j < |rel| ==> NoLineFeed(rel[j])
    ensures '\n' !in RelPathLinux(rel)
  {
    if rel != [] {
      JoinNoLineFeed(rel);
    }
  }

  /** A join by '\' of names without line feeds holds none. */
  lemma {:induction false} JoinNoLineFeed(names: seq<string>)
    requires forall j :: 0 <= j < |names| ==> NoLineFeed(names[j])
    ensures '\n' !in StringUtils.JoinWith(names, '\\')
  {
    if |names| > 1 {
      JoinNoLineFeed(names[1..]);
    }
  }
}
