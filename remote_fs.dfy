/**
 * The deploy scripts' view of the server through SFTP: a tree of directories
 * and files, a working directory, the primitive calls (`chdir`, `mkdir`,
 * `listdir`, `stat`, `remove`, `rmdir`, `put`) and the scripts' helpers built
 * on them: `mkdir_p`, `rm` and `rm_onlySubdirectories`. A path is the list of
 * its names below the root.
 */
module RemoteFs {
  import opened Wrappers
  import StringUtils

  type Path = seq<string>

  /** The IOError kinds the server answers with. */
  datatype FsError = NoSuchDirectory | NoSuchFile | AlreadyExists | NotEmpty

  // ---------------------------------------------------------------------
  // Path texts
  // ---------------------------------------------------------------------

  /** The index of the first '/', or the length. */
  function SlashIndex(s: string): (i: nat)
    ensures i <= |s|
    ensures forall k :: 0 <= k < i ==> s[k] != '/'
    ensures i < |s| ==> s[i] == '/'
    decreases |s|
  {
    if |s| == 0 || s[0] == '/' then 0 else 1 + SlashIndex(s[1..])
  }

  /** The names of a path text: the parts between slashes, empty parts dropped. */
  function Components(s: string): Path
    decreases |s|
  {
    if |s| == 0 then []
    else
      var i := SlashIndex(s);
      (if i == 0 then [] else [s[..i]]) + (if i == |s| then [] else Components(s[i + 1..]))
  }

  /** Names joined with a slash read back as both lists of names. */
  lemma {:induction false} ComponentsOfJoin(a: string, b: string)
    ensures Components(a + "/" + b) == Components(a) + Components(b)
    decreases |a|
  {
    var i := SlashIndex(a);
    FirstSlashOfJoin(a, b);
    if i == |a| {
      JoinOfName(a, b);
    } else {
      var s := a + "/" + b;
      assert s[i + 1..] == a[i + 1..] + "/" + b;
      ComponentsOfJoin(a[i + 1..], b);
      ComponentsStep(s, i);
      ComponentsStep(a, i);
      var first: Path := if i == 0 then [] else [a[..i]];
      assert Components(s) == first + Components(s[i + 1..]);
      assert Components(a) == first + Components(a[i + 1..]);
      assert Components(s) == first + (Components(a[i + 1..]) + Components(b));
      ConcatAssoc(first, Components(a[i + 1..]), Components(b));
    }
  }

  /** Concatenation of paths is associative. */
  lemma ConcatAssoc(x: Path, y: Path, z: Path)
    ensures x + (y + z) == (x + y) + z
  {
  }

  /** Union of path sets is associative. */
  lemma UnionAssoc(x: set<Path>, y: set<Path>, z: set<Path>)
    ensures (x + y) + z == x + (y + z)
  {
  }

  /** The first slash of `a + "/" + b` is the first of `a`, or the joining one. */
  lemma {:induction false} FirstSlashOfJoin(a: string, b: string)
    ensures SlashIndex(a + "/" + b) == SlashIndex(a)
    ensures (a + "/" + b)[..SlashIndex(a)] == a[..SlashIndex(a)]
  {
    var s := a + "/" + b;
    var i := SlashIndex(a);
    forall k | 0 <= k < i ensures s[k] != '/' {
      assert s[k] == a[k];
    }
    assert i < |a| ==> s[i] == a[i];
    SlashIndexIsFirst(s, i);
  }

  /** A slash-free `a` joined to `b` is the name `a`, if any, then `b`'s names. */
  lemma {:induction false} JoinOfName(a: string, b: string)
    requires SlashIndex(a) == |a| && SlashIndex(a + "/" + b) == |a|
    ensures Components(a + "/" + b) == Components(a) + Components(b)
  {
    var s := a + "/" + b;
    assert s[|a| + 1..] == b;
    assert s[..|a|] == a;
    ComponentsStep(s, |a|);
    if |a| > 0 {
      ComponentsStep(a, |a|);
      assert a[..|a|] == a;
      assert Components(a) == [a];
      assert Components(s) == [a] + Components(b);
    } else {
      assert Components(s) == [] + Components(b);
    }
  }

  /** One step of `Components`: the name before the first slash, then the names after it. */
  lemma {:induction false} ComponentsStep(s: string, i: nat)
    requires |s| > 0 && i == SlashIndex(s)
    ensures Components(s) == (if i == 0 then [] else [s[..i]]) + (if i == |s| then [] else Components(s[i + 1..]))
  {
  }

  /** `SlashIndex` is the first index holding '/'. */
  lemma {:induction false} SlashIndexIsFirst(s: string, i: nat)
    requires i <= |s|
    requires forall k :: 0 <= k < i ==> s[k] != '/'
    requires i < |s| ==> s[i] == '/'
    ensures SlashIndex(s) == i
    decreases |s|
  {
    if |s| > 0 && s[0] != '/' {
      SlashIndexIsFirst(s[1..], i - 1);
    }
  }

  /** A name without a slash is one component. */
  lemma {:induction false} ComponentsOfName(n: string)
    requires n != "" && forall k :: 0 <= k < |n| ==> n[k] != '/'
    ensures Components(n) == [n]
  {
    SlashIndexIsFirst(n, |n|);
    assert n[..|n|] == n;
  }

  /** A non-empty text of slashes only names the root, from anywhere. */
  lemma {:induction false} SlashesNameRoot(s: string)
    ensures s != "" && RStripSlash(s) == "" ==> forall cwd :: Resolve(cwd, s) == []
  {
    RStripSlashKeeps(s);
    if RStripSlash(s) == "" {
      ComponentsOfSlashes(s);
    }
  }

  /** Whether a text can be one name: not empty, no slash. */
  predicate IsName(n: string)
  {
    |n| > 0 && forall k :: 0 <= k < |n| ==> n[k] != '/'
  }

  /** Names joined by '/' read back as those names. */
  lemma {:induction false} ComponentsOfJoinWith(names: seq<string>)
    requires forall k :: 0 <= k < |names| ==> IsName(names[k])
    ensures Components(StringUtils.JoinWith(names, '/')) == names
  {
    if |names| == 1 {
      ComponentsOfName(names[0]);
    } else if |names| > 1 {
      ComponentsOfJoinWith(names[1..]);
      assert StringUtils.JoinWith(names, '/') == names[0] + "/" + StringUtils.JoinWith(names[1..], '/');
      ComponentsOfJoin(names[0], StringUtils.JoinWith(names[1..], '/'));
      ComponentsOfName(names[0]);
      assert [names[0]] + names[1..] == names;
    }
  }

  /** A slash followed by names joined by '/' reads back as those names from the root. */
  lemma {:induction false} ComponentsOfRooted(names: seq<string>)
    requires forall k :: 0 <= k < |names| ==> IsName(names[k])
    ensures Components("/" + StringUtils.JoinWith(names, '/')) == names
  {
    ComponentsOfJoin("", StringUtils.JoinWith(names, '/'));
    ComponentsOfJoinWith(names);
  }

  /** A name appended after a slash is one more name. */
  lemma {:induction false} ComponentsOfChild(p: string, n: string)
    requires IsName(n)
    ensures Components(p + "/" + n) == Components(p) + [n]
  {
    ComponentsOfJoin(p, n);
    ComponentsOfName(n);
  }

  /** A text of slashes only names the root. */
  lemma {:induction false} ComponentsOfSlashes(s: string)
    requires forall k :: 0 <= k < |s| ==> s[k] == '/'
    ensures Components(s) == []
    decreases |s|
  {
    if s != "" {
      ComponentsOfSlashes(s[1..]);
    }
  }

  /** Whether a path text starts at the root. */
  predicate IsAbsolute(s: string)
  {
    |s| > 0 && s[0] == '/'
  }

  /** The directory a path text names, seen from the working directory `cwd`. */
  function Resolve(cwd: Path, s: string): Path
  {
    (if IsAbsolute(s) then [] else cwd) + Components(s)
  }

  /** `s.rstrip('/')`. */
  function RStripSlash(s: string): (r: string)
    ensures |r| <= |s| && r == s[..|r|]
    ensures r == "" || r[|r| - 1] != '/'
    ensures forall k :: |r| <= k < |s| ==> s[k] == '/'
    decreases |s|
  {
    if |s| > 0 && s[|s| - 1] == '/' then RStripSlash(s[..|s| - 1]) else s
  }

  /** Stripping trailing slashes changes neither the names nor, unless nothing is left, the start. */
  lemma {:induction false} RStripSlashKeeps(s: string)
    ensures Components(RStripSlash(s)) == Components(s)
    ensures RStripSlash(s) != "" ==> (IsAbsolute(RStripSlash(s)) <==> IsAbsolute(s))
    ensures RStripSlash(s) == "" ==> forall k :: 0 <= k < |s| ==> s[k] == '/'
  {
    var r := RStripSlash(s);
    if r != s {
      var rest := s[|r| + 1..];
      assert s == r + "/" + rest;
      ComponentsOfJoin(r, rest);
      ComponentsOfSlashes(rest);
    }
  }

  /** The index after the last '/', or 0. */
  function TailStart(s: string): (i: nat)
    ensures i <= |s|
    ensures forall k :: i <= k < |s| ==> s[k] != '/'
    ensures i > 0 ==> s[i - 1] == '/'
    decreases |s|
  {
    if |s| == 0 then 0 else if s[|s| - 1] == '/' then |s| else TailStart(s[..|s| - 1])
  }

  /** Whether a text holds slashes only. */
  predicate AllSlashes(s: string)
  {
    forall k :: 0 <= k < |s| ==> s[k] == '/'
  }

  /**
   * `os.path.split` on a text with '/' as its only separator: the last name,
   * and what precedes it without its trailing slashes, unless that is
   * slashes only.
   */
  function SplitPath(s: string): (string, string)
  {
    var head := s[..TailStart(s)];
    (if AllSlashes(head) then head else RStripSlash(head), s[TailStart(s)..])
  }

  /** The head keeps the names and the start of what precedes the last name. */
  lemma {:induction false} HeadKeeps(head0: string)
    requires head0 != ""
    ensures var head := if AllSlashes(head0) then head0 else RStripSlash(head0);
      Components(head) == Components(head0) && (IsAbsolute(head) <==> IsAbsolute(head0))
  {
    if !AllSlashes(head0) {
      RStripSlashKeeps(head0);
    }
  }

  /**
   * Splitting a text that does not end in '/' gives a shorter head naming the
   * parent and a tail that is one name.
   */
  lemma {:induction false} SplitPathResolves(cwd: Path, s: string)
    requires |s| > 0 && s[|s| - 1] != '/'
    ensures |SplitPath(s).0| < |s|
    ensures Resolve(cwd, s) == Resolve(cwd, SplitPath(s).0) + [SplitPath(s).1]
    ensures Components(SplitPath(s).1) == [SplitPath(s).1] && !IsAbsolute(SplitPath(s).1)
  {
    var i := TailStart(s);
    var tail := s[i..];
    var head := SplitPath(s).0;
    assert SplitPath(s).1 == tail;
    assert tail != "";
    ComponentsOfName(tail);
    if i == 0 {
      assert tail == s;
      assert head == "";
      assert Resolve(cwd, s) == cwd + [s];
    } else {
      var before := s[..i - 1];
      var head0 := s[..i];
      assert s == before + "/" + tail;
      ComponentsOfJoin(before, tail);
      assert head0 == before + "/" + "";
      ComponentsOfJoin(before, "");
      HeadKeeps(head0);
      assert head0[0] == s[0];
      var start := if IsAbsolute(s) then [] else cwd;
      assert Components(head) == Components(before) + [];
      assert Resolve(cwd, head) == start + Components(before);
      assert Resolve(cwd, s) == start + (Components(before) + [tail]);
      ConcatAssoc(start, Components(before), [tail]);
    }
  }

  // ---------------------------------------------------------------------
  // Trees of paths
  // ---------------------------------------------------------------------

  /** Whether `p` is `q` or an ancestor of it. */
  predicate IsPrefix(p: Path, q: Path)
  {
    |p| <= |q| && q[..|p|] == p
  }

  /** The parent of a path outside the subtree at `p` is outside it too. */
  lemma ParentOutside(p: Path, q: Path)
    requires q != [] && !IsPrefix(p, q)
    ensures !IsPrefix(p, q[..|q| - 1])
  {
    if |p| <= |q| - 1 {
      assert q[..|q| - 1][..|p|] == q[..|p|];
    }
  }

  /** A path is a prefix of itself extended. */
  lemma PrefixOfExtension(p: Path, rest: Path)
    ensures IsPrefix(p, p + rest)
  {
    assert (p + rest)[..|p|] == p;
  }

  /** The paths of `s` at `p` and below it. */
  function Under(s: set<Path>, p: Path): set<Path>
  {
    set q | q in s && IsPrefix(p, q)
  }

  /** A path added below `root` is one more path below it and leaves the rest alone. */
  lemma AddUnder(s: set<Path>, root: Path, p: Path)
    requires IsPrefix(root, p)
    ensures Under(s + {p}, root) == Under(s, root) + {p}
    ensures (s + {p}) - Under(s + {p}, root) == s - Under(s, root)
  {
  }

  /** Taking nothing away leaves a set as it is. */
  lemma MinusNothing<T>(s: set<T>, t: set<T>)
    requires t == {}
    ensures s - t == s
  {
  }

  /** `p` and its ancestors, the root included. */
  function Prefixes(p: Path): set<Path>
  {
    set k | 0 <= k <= |p| :: p[..k]
  }

  /**
   * A server tree: the root is a directory, every other directory and every
   * file is in a directory, and nothing is both.
   */
  predicate IsTree(dirs: set<Path>, files: set<Path>)
  {
    [] in dirs
    && (forall d :: d in dirs && d != [] ==> d[..|d| - 1] in dirs)
    && (forall f :: f in files ==> f != [] && f[..|f| - 1] in dirs)
    && dirs !! files
  }

  /** Every ancestor of a directory is a directory. */
  lemma {:induction false} AncestorsAreDirs(dirs: set<Path>, files: set<Path>, d: Path, k: nat)
    requires IsTree(dirs, files) && d in dirs && k <= |d|
    ensures d[..k] in dirs
    decreases |d| - k
  {
    if k < |d| {
      var parent := d[..|d| - 1];
      assert parent in dirs;
      AncestorsAreDirs(dirs, files, parent, k);
      assert parent[..k] == d[..k];
    } else {
      assert d[..k] == d;
    }
  }

  /** The ancestors of every directory are directories. */
  lemma AncestorsClosed(dirs: set<Path>, files: set<Path>)
    requires IsTree(dirs, files)
    ensures forall d, k :: d in dirs && 0 <= k <= |d| ==> d[..k] in dirs
  {
    forall d, k | d in dirs && 0 <= k <= |d| ensures d[..k] in dirs {
      AncestorsAreDirs(dirs, files, d, k);
    }
  }

  /** Nothing is below a file. */
  lemma {:induction false} NothingBelowFile(dirs: set<Path>, files: set<Path>, f: Path, q: Path)
    requires IsTree(dirs, files) && f in files && IsPrefix(f, q) && q != f
    ensures q !in dirs && q !in files
  {
    AncestorsClosed(dirs, files);
    assert q[..|f|] == f;
    assert q[..|q| - 1][..|f|] == f;
  }

  /** Whether a file stands at `t` or at one of its ancestors. */
  predicate FileOnWay(t: Path, files: set<Path>)
  {
    exists k :: 0 <= k <= |t| && t[..k] in files
  }

  /** No file stands on the way to a directory. */
  lemma {:induction false} NoFileOnWayToDir(dirs: set<Path>, files: set<Path>, d: Path)
    requires IsTree(dirs, files) && d in dirs
    ensures !FileOnWay(d, files)
  {
    AncestorsClosed(dirs, files);
  }

  /** The way to `p + [n]` is the way to `p` and `p + [n]` itself. */
  lemma {:induction false} FileOnWayStep(p: Path, n: string, files: set<Path>)
    ensures FileOnWay(p + [n], files) <==> FileOnWay(p, files) || p + [n] in files
  {
    var t := p + [n];
    assert t[..|t|] == t;
    assert forall k :: 0 <= k <= |p| ==> t[..k] == p[..k];
  }

  /** Whether `d` lies strictly below `p`. */
  predicate StrictlyBelow(p: Path, d: Path)
  {
    |p| < |d| && d[..|p|] == p
  }

  /** Below `p` and not `p` is strictly below `p`; below `p + [n]` is strictly below `p` through `n`. */
  lemma {:induction false} BelowChild(p: Path, n: string)
    ensures forall d :: IsPrefix(p, d) && d != p <==> StrictlyBelow(p, d)
    ensures forall d :: IsPrefix(p + [n], d) <==> StrictlyBelow(p, d) && d[|p|] == n
  {
    forall d | IsPrefix(p, d) && |d| == |p| ensures d == p {
      assert d == d[..|p|];
    }
    var c := p + [n];
    forall d ensures IsPrefix(c, d) <==> StrictlyBelow(p, d) && d[|p|] == n {
      if IsPrefix(c, d) {
        assert d[..|p|] == c[..|p|] == p;
        assert d[|p|] == c[|p|];
      }
      if StrictlyBelow(p, d) && d[|p|] == n {
        assert d[..|c|] == d[..|p|] + [d[|p|]];
      }
    }
  }

  /** Whether `d` lies strictly below `p` through a name no longer in `todo`. */
  predicate Removed(p: Path, todo: set<string>, d: Path)
  {
    StrictlyBelow(p, d) && d[|p|] !in todo
  }

  /**
   * Deleting everything at and below `p + [n]` from what is left of `whole`
   * leaves what is left once `n` is also done.
   */
  lemma {:induction false} RemovedStep(whole: set<Path>, left: set<Path>, p: Path, todo: set<string>, n: string)
    requires n in todo
    requires forall d :: d in left <==> d in whole && !Removed(p, todo, d)
    ensures forall d :: d in left - Under(left, p + [n]) <==> d in whole && !Removed(p, todo - {n}, d)
  {
    BelowChild(p, n);
  }

  /** What lies strictly below a directory of a tree is reached through one of the names listed in it. */
  lemma {:induction false} BelowThroughListed(dirs: set<Path>, files: set<Path>, p: Path, names: set<string>)
    requires IsTree(dirs, files) && p in dirs
    requires forall n :: n in names <==> p + [n] in dirs || p + [n] in files
    ensures forall d :: d in dirs + files && StrictlyBelow(p, d) ==> d[|p|] in names
  {
    AncestorsClosed(dirs, files);
    forall d | d in dirs + files && StrictlyBelow(p, d) ensures d[|p|] in names {
      var c := d[..|p| + 1];
      assert c == p + [d[|p|]];
      if d in files && |d| > |p| + 1 {
        assert d[..|d| - 1] in dirs;
        assert d[..|d| - 1][..|p| + 1] == c;
      } else if d in files {
        assert c == d;
      }
    }
  }

  /** The ancestors of a directory are directories. */
  lemma {:induction false} PrefixesAreDirs(dirs: set<Path>, files: set<Path>, p: Path)
    requires IsTree(dirs, files) && p in dirs
    ensures Prefixes(p) <= dirs
  {
    AncestorsClosed(dirs, files);
  }

  /** The root's only ancestor is itself. */
  lemma PrefixesOfRoot()
    ensures Prefixes([]) == {[]}
  {
    var root: Path := [];
    assert root[..0] == root;
  }

  /** A child is not among its parent's ancestors. */
  lemma {:induction false} ChildNotPrefix(p: Path, n: string)
    ensures p + [n] !in Prefixes(p)
  {
    forall k | 0 <= k <= |p| ensures p[..k] != p + [n] {
      assert |p[..k]| < |p + [n]|;
    }
  }

  /** `t` and its ancestors are those of its parent and `t`. */
  lemma {:induction false} PrefixesStep(p: Path, n: string)
    ensures Prefixes(p + [n]) == Prefixes(p) + {p + [n]}
  {
    var t := p + [n];
    forall q | q in Prefixes(t) ensures q in Prefixes(p) + {t} {
      var k :| 0 <= k <= |t| && q == t[..k];
      if k <= |p| {
        assert q == p[..k];
      } else {
        assert q == t;
      }
    }
    forall q | q in Prefixes(p) ensures q in Prefixes(t) {
      var k :| 0 <= k <= |p| && q == p[..k];
      assert q == t[..k];
    }
    assert t == t[..|t|];
  }

  /**
   * How `mkdir_p` splits a missing directory: its parent (a shorter name) and
   * one last name below it, with a file on the way to it exactly when there is
   * one on the way to the parent or in its place.
   */
  lemma {:induction false} BelowSplit(dirs: set<Path>, files: set<Path>, cwd: Path, remoteDirectory: string)
    requires IsTree(dirs, files) && cwd in dirs
    requires remoteDirectory != "" && remoteDirectory != "/" && Resolve(cwd, remoteDirectory) !in dirs
    ensures var (dirname, basename) := SplitPath(RStripSlash(remoteDirectory));
      var t, parent := Resolve(cwd, remoteDirectory), Resolve(cwd, dirname);
      |dirname| < |remoteDirectory| && t == parent + [basename]
      && Components(basename) == [basename] && !IsAbsolute(basename)
      && (FileOnWay(t, files) <==> FileOnWay(parent, files) || t in files)
      && (dirname == "" ==> parent == cwd && !FileOnWay(parent, files) && Prefixes(parent) <= dirs)
  {
    var t := Resolve(cwd, remoteDirectory);
    var stripped := RStripSlash(remoteDirectory);
    RStripSlashKeeps(remoteDirectory);
    SlashesNameRoot(remoteDirectory);
    assert |stripped| > 0 && stripped[|stripped| - 1] != '/' && Resolve(cwd, stripped) == t;
    var (dirname, basename) := SplitPath(stripped);
    var parent := Resolve(cwd, dirname);
    SplitPathResolves(cwd, stripped);
    FileOnWayStep(parent, basename, files);
    if dirname == "" {
      assert parent == cwd + [] == cwd;
      NoFileOnWayToDir(dirs, files, cwd);
      PrefixesAreDirs(dirs, files, cwd);
    }
  }

  /** Creating `t` below its parent, whose ancestors are all there, completes `t`'s ancestors. */
  lemma {:induction false} BelowMade(before: set<Path>, mid: set<Path>, after: set<Path>, parent: Path, n: string)
    requires mid == before + Prefixes(parent) && after == mid + {parent + [n]}
    ensures after == before + Prefixes(parent + [n])
  {
    PrefixesStep(parent, n);
    UnionAssoc(before, Prefixes(parent), {parent + [n]});
  }

  /** The server as the SFTP session sees it. */
  class Sftp {
    var dirs: set<Path>
    var files: set<Path>
    /** The session's working directory, which relative paths start from. */
    var cwd: Path

    ghost predicate Valid()
      reads this
    {
      IsTree(dirs, files)
    }

    constructor (dirs: set<Path>, files: set<Path>, cwd: Path)
      requires IsTree(dirs, files)
      ensures Valid() && this.dirs == dirs && this.files == files && this.cwd == cwd
    {
      this.dirs := dirs;
      this.files := files;
      this.cwd := cwd;
    }

    /** `chdir`: into an existing directory, otherwise an error and no change. */
    method Chdir(s: string) returns (ok: bool)
      requires Valid()
      modifies this
      ensures Valid()
      ensures ok <==> Resolve(old(cwd), s) in dirs
      ensures cwd == (if ok then Resolve(old(cwd), s) else old(cwd))
      ensures dirs == old(dirs) && files == old(files)
    {
      var target := Resolve(cwd, s);
      ok := target in dirs;
      if ok {
        cwd := target;
      }
    }

    /**
     * The remote shell's `rm -rf`: whatever is at or below the path goes;
     * the root itself is refused.
     */
    method RmRf(p: Path)
      requires Valid()
      modifies this
      ensures Valid() && cwd == old(cwd)
      ensures p == [] ==> dirs == old(dirs) && files == old(files)
      ensures p != [] ==> dirs == old(dirs) - Under(old(dirs), p) && files == old(files) - Under(old(files), p)
    {
      if p == [] {
        return;
      }
      forall d | d in dirs - Under(dirs, p) && d != [] ensures d[..|d| - 1] in dirs - Under(dirs, p) {
        ParentOutside(p, d);
      }
      forall f | f in files - Under(files, p) ensures f[..|f| - 1] !in Under(dirs, p) {
        ParentOutside(p, f);
      }
      dirs := dirs - Under(dirs, p);
      files := files - Under(files, p);
    }

    /** `mkdir`: a new directory in an existing one. */
    method Mkdir(s: string) returns (r: Result<(), FsError>)
      requires Valid()
      modifies this
      ensures Valid() && cwd == old(cwd) && files == old(files)
      ensures var p := Resolve(old(cwd), s);
        r.Ok? <==> p != [] && p[..|p| - 1] in old(dirs) && p !in old(dirs) && p !in old(files)
      ensures dirs == (if r.Ok? then old(dirs) + {Resolve(old(cwd), s)} else old(dirs))
    {
      var p := Resolve(cwd, s);
      if p == [] || p[..|p| - 1] !in dirs {
        return Err(NoSuchDirectory);
      }
      if p in dirs || p in files {
        return Err(AlreadyExists);
      }
      dirs := dirs + {p};
      r := Ok(());
    }

    /** `isdir`: a `stat` that says directory; any error says no. */
    method IsDir(p: Path) returns (r: bool)
      ensures r <==> p in dirs
    {
      r := p in dirs;
    }

    /** `listdir`: the names in a directory. */
    method Listdir(p: Path) returns (r: Result<set<string>, FsError>)
      ensures r.Err? <==> p !in dirs
      ensures r.Ok? ==> forall n :: n in r.value <==> p + [n] in dirs || p + [n] in files
    {
      if p !in dirs {
        return Err(NoSuchDirectory);
      }
      var below := set q | q in dirs + files && |q| == |p| + 1 && q[..|p|] == p;
      var names := set q | q in below :: q[|p|];
      forall n ensures n in names <==> p + [n] in dirs || p + [n] in files {
        if p + [n] in dirs || p + [n] in files {
          assert (p + [n])[..|p|] == p;
          assert p + [n] in below;
          assert (p + [n])[|p|] == n;
        }
        if n in names {
          var q :| q in below && q[|p|] == n;
          assert q == p + [n];
        }
      }
      r := Ok(names);
    }

    /** `remove`: deletes a file. */
    method Remove(p: Path) returns (r: Result<(), FsError>)
      requires Valid()
      modifies this
      ensures Valid() && cwd == old(cwd) && dirs == old(dirs)
      ensures r.Ok? <==> p in old(files)
      ensures files == old(files) - {p}
    {
      if p !in files {
        return Err(NoSuchFile);
      }
      files := files - {p};
      r := Ok(());
    }

    /** `rmdir`: deletes an empty directory other than the root. */
    method Rmdir(p: Path) returns (r: Result<(), FsError>)
      requires Valid()
      modifies this
      ensures Valid() && cwd == old(cwd) && files == old(files)
      ensures r.Ok? <==> p in old(dirs) && p != [] && Under(old(dirs) + old(files), p) == {p}
      ensures dirs == (if r.Ok? then old(dirs) - {p} else old(dirs))
    {
      if p !in dirs {
        return Err(NoSuchDirectory);
      }
      if p == [] || Under(dirs + files, p) != {p} {
        return Err(NotEmpty);
      }
      forall d | d in dirs - {p} && d != [] ensures d[..|d| - 1] in dirs - {p} {
        assert d !in Under(dirs + files, p);
      }
      forall f | f in files ensures f[..|f| - 1] != p {
        assert f !in Under(dirs + files, p);
      }
      dirs := dirs - {p};
      r := Ok(());
    }

    /** `put`: writes a file (replacing one) in an existing directory. */
    method Put(s: string) returns (r: Result<(), FsError>)
      requires Valid()
      modifies this
      ensures Valid() && cwd == old(cwd) && dirs == old(dirs)
      ensures var p := Resolve(old(cwd), s);
        r.Ok? <==> p != [] && p[..|p| - 1] in old(dirs) && p !in old(dirs)
      ensures files == (if r.Ok? then old(files) + {Resolve(old(cwd), s)} else old(files))
    {
      var p := Resolve(cwd, s);
      if p == [] || p[..|p| - 1] !in dirs {
        return Err(NoSuchDirectory);
      }
      if p in dirs {
        return Err(AlreadyExists);
      }
      files := files + {p};
      r := Ok(());
    }

    /**
     * `mkdir_p`: "" does nothing; otherwise the session ends up in the named
     * directory, creating it and the missing ancestors, and `Ok(true)` says
     * something was created. It fails only where a file stands on the way.
     */
    method MkdirP(remoteDirectory: string) returns (r: Result<bool, FsError>)
      requires Valid() && cwd in dirs
      modifies this
      ensures Valid() && files == old(files) && old(dirs) <= dirs && cwd in dirs
      ensures remoteDirectory == "" ==> r == Ok(false) && dirs == old(dirs) && cwd == old(cwd)
      ensures remoteDirectory != "" ==> var t := Resolve(old(cwd), remoteDirectory);
        (r.Err? <==> FileOnWay(t, old(files)))
        && (r.Ok? ==> cwd == t && dirs == old(dirs) + Prefixes(t) && r.value == (t !in old(dirs)))
      decreases |remoteDirectory|, 1
    {
      ghost var t := Resolve(cwd, remoteDirectory);
      if remoteDirectory == "/" {
        var _ := Chdir("/");
        assert t == [] by {
          ComponentsOfSlashes("/");
        }
        assert !FileOnWay(t, files) && Prefixes(t) <= dirs by {
          PrefixesOfRoot();
          NoFileOnWayToDir(dirs, files, []);
        }
        return Ok(false);
      }
      if remoteDirectory == "" {
        return Ok(false);
      }
      var entered := Chdir(remoteDirectory);
      if entered {
        assert !FileOnWay(t, files) && Prefixes(t) <= dirs by {
          PrefixesAreDirs(dirs, files, t);
          NoFileOnWayToDir(dirs, files, t);
        }
        return Ok(false);
      }
      r := MkdirBelow(remoteDirectory);
    }

    /**
     * The creating half of `mkdir_p`, for a directory that is not there yet:
     * `mkdir_p` of its parent, then `mkdir` and `chdir` of its last name.
     */
    method MkdirBelow(remoteDirectory: string) returns (r: Result<bool, FsError>)
      requires Valid() && cwd in dirs
      requires remoteDirectory != "" && remoteDirectory != "/" && Resolve(cwd, remoteDirectory) !in dirs
      modifies this
      ensures Valid() && files == old(files) && old(dirs) <= dirs && cwd in dirs
      ensures var t := Resolve(old(cwd), remoteDirectory);
        (r.Err? <==> FileOnWay(t, old(files)))
        && (r.Ok? ==> cwd == t && dirs == old(dirs) + Prefixes(t) && r.value)
      decreases |remoteDirectory|, 0
    {
      ghost var t := Resolve(cwd, remoteDirectory);
      BelowSplit(dirs, files, cwd, remoteDirectory);
      var (dirname, basename) := SplitPath(RStripSlash(remoteDirectory));
      ghost var parent := Resolve(cwd, dirname);
      var up := MkdirP(dirname);
      if up.Err? {
        r := Err(up.error);
      } else {
        ChildNotPrefix(parent, basename);
        assert Resolve(cwd, basename) == t;
        ghost var mid := dirs;
        var made := Mkdir(basename);
        if made.Err? {
          r := Err(made.error);
        } else {
          var _ := Chdir(basename);
          BelowMade(old(dirs), mid, dirs, parent, basename);
          r := Ok(true);
        }
      }
    }

    /**
     * `rm`: everything below the directory goes, one entry at a time, then the
     * directory itself; the root's contents go too, but removing the root
     * itself fails. A missing directory is an error that changes nothing.
     */
    method Rm(path: Path) returns (r: Result<(), FsError>)
      requires Valid()
      modifies this
      ensures Valid() && cwd == old(cwd)
      ensures r.Ok? <==> path in old(dirs) && path != []
      ensures path in old(dirs) ==>
        dirs == old(dirs) - Under(old(dirs), path) + (if path == [] then {path} else {})
        && files == old(files) - Under(old(files), path)
      ensures path !in old(dirs) ==> dirs == old(dirs) && files == old(files)
      decreases Under(dirs, path), 1
    {
      var listing := Listdir(path);
      if listing.Err? {
        return Err(listing.error);
      }
      RmChildren(path, listing.value, true);
      assert Under(dirs + files, path) == {path} by {
        BelowChild(path, "");
      }
      r := Rmdir(path);
    }

    /**
     * `rm_onlySubdirectories`: everything below the directory is deleted,
     * the directory itself stays, present and empty.
     */
    method RmOnlySubdirectories(path: Path) returns (r: Result<(), FsError>)
      requires Valid()
      modifies this
      ensures Valid() && cwd == old(cwd)
      ensures r.Err? <==> path !in old(dirs)
      ensures r.Ok? ==> dirs == old(dirs) - Under(old(dirs), path) + {path} && files == old(files) - Under(old(files), path)
      ensures r.Err? ==> dirs == old(dirs) && files == old(files)
      decreases Under(dirs, path), 1
    {
      var listing := Listdir(path);
      if listing.Err? {
        return Err(listing.error);
      }
      RmChildren(path, listing.value, false);
      r := Ok(());
    }

    /**
     * The loop both helpers share: each listed name is a directory, removed
     * with its contents (by `rm` when `whole`, by `rm_onlySubdirectories` and
     * `rmdir` otherwise), or a file, removed.
     */
    method RmChildren(path: Path, names: set<string>, whole: bool)
      requires Valid() && path in dirs
      requires forall n :: n in names <==> path + [n] in dirs || path + [n] in files
      modifies this
      ensures Valid() && cwd == old(cwd) && path in dirs
      ensures dirs == old(dirs) - Under(old(dirs), path) + {path}
      ensures files == old(files) - Under(old(files), path)
      decreases Under(dirs, path), 0
    {
      BelowThroughListed(dirs, files, path, names);
      BelowChild(path, "");
      var todo := names;
      while todo != {}
        invariant Valid() && cwd == old(cwd) && path in dirs && todo <= names
        invariant forall d :: d in dirs <==> d in old(dirs) && !Removed(path, todo, d)
        invariant forall f :: f in files <==> f in old(files) && !Removed(path, todo, f)
        decreases todo
      {
        var n :| n in todo;
        ghost var dirs0, files0 := dirs, files;
        assert (path + [n] in dirs || path + [n] in files) && Under(dirs, path + [n]) < Under(old(dirs), path) by {
          BelowChild(path, n);
          assert path in Under(old(dirs), path) && path !in Under(dirs, path + [n]);
        }
        RmEntry(path + [n], whole);
        RemovedStep(old(dirs), dirs0, path, todo, n);
        RemovedStep(old(files), files0, path, todo, n);
        todo := todo - {n};
      }
    }

    /**
     * One turn of that loop: a directory is removed with its contents, by
     * `rm` when `whole`, by `rm_onlySubdirectories` and `rmdir` otherwise; a
     * file is removed.
     */
    method RmEntry(filepath: Path, whole: bool)
      requires Valid() && filepath != [] && (filepath in dirs || filepath in files)
      modifies this
      ensures Valid() && cwd == old(cwd)
      ensures dirs == old(dirs) - Under(old(dirs), filepath)
      ensures files == old(files) - Under(old(files), filepath)
      decreases Under(dirs, filepath), 2
    {
      var isDir := IsDir(filepath);
      if isDir {
        if whole {
          var _ := Rm(filepath);
        } else {
          var _ := RmOnlySubdirectories(filepath);
          assert Under(dirs + files, filepath) == {filepath} by {
            BelowChild(filepath, "");
          }
          var _ := Rmdir(filepath);
          assert filepath in Under(old(dirs), filepath);
        }
      } else {
        assert Under(files, filepath) == {filepath} && Under(dirs, filepath) == {} by {
          forall q | StrictlyBelow(filepath, q) ensures q !in dirs && q !in files {
            NothingBelowFile(dirs, files, filepath, q);
          }
          BelowChild(filepath, "");
        }
        var _ := Remove(filepath);
      }
    }
  }
}
