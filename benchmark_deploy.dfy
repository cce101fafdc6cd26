/**
 * The BenchmarkDB deploy script (`src/Tools/BenchmarkDB/Deploy.py`): the
 * remote source directory is wiped with `rm -rf`, then the local source tree
 * is walked and every good file of an accepted subtree is uploaded on its
 * own, each after a `mkdir_p` of its remote directory.
 */
module BenchmarkDeploy {
  import opened Wrappers
  import StringUtils
  import opened RemoteFs
  import opened DeployWalk

  const AcceptedSubTreeRoots: seq<string> := ["Tools\\BenchmarkDB", "Common\\SqCommon", "Common\\DbCommon"]
  /** The names of "/home/sq-vnc-client/SQ/Tools/BenchmarkDB/src". */
  const RemoteRoot: Path := ["home", "sq-vnc-client", "SQ", "Tools", "BenchmarkDB", "src"]
  /** The remote root's text, "/home/sq-vnc-client/SQ/Tools/BenchmarkDB/src". */
  const RootRemoteDir: string := "/" + StringUtils.JoinWith(RemoteRoot, '/')
  const ExcludeDirs: set<string> := {"bin", "obj", ".vs", "artifacts", "Properties"}
  const ExcludeFileExts: set<string> := {"sln", "xproj", "log", "sqlog", "ps1", "py", "sh", "user", "md"}

  /** The remote root's text names the remote root. */
  lemma RemoteRootNames()
    ensures IsAbsolute(RootRemoteDir) && Components(RootRemoteDir) == RemoteRoot
  {
    ComponentsOfRooted(RemoteRoot);
  }

  /** Where the files land: the remote root, the local directory's names, the file's name. */
  function RemotePaths(root: Path, files: seq<Deployed>): (r: set<Path>)
    ensures forall p :: p in r <==> exists e :: e in files && p == root + e.rel + [e.name]
  {
    set e | e in files :: root + e.rel + [e.name]
  }

  /** The landing places of two runs of files are those of each. */
  lemma RemotePathsConcat(root: Path, a: seq<Deployed>, b: seq<Deployed>)
    ensures RemotePaths(root, a + b) == RemotePaths(root, a) + RemotePaths(root, b)
  {
  }

  /** One file lands in one place. */
  lemma RemotePathsOne(root: Path, e: Deployed)
    ensures RemotePaths(root, [e]) == {root + e.rel + [e.name]}
  {
    assert e in [e];
  }

  /**
   * Every good file of a directory the walk reaches through kept directories
   * and whose files are taken is shipped to its image under the remote root.
   */
  lemma {:induction false} ShippedFromTree(localRoot: LocalDir, p: seq<string>, x: LocalDir, f: string)
    requires Reaches(localRoot, p, x) && Clean(p, ExcludeDirs) && IsFilesTraversed(p, AcceptedSubTreeRoots)
    requires f in x.files && IsGoodFile(f, ExcludeFileExts)
    ensures RemoteRoot + p + [f] in RemotePaths(RemoteRoot, DeployedFiles(Walk(localRoot, [], ExcludeDirs), AcceptedSubTreeRoots, ExcludeFileExts))
  {
    var visits := Walk(localRoot, [], ExcludeDirs);
    WalkComplete(localRoot, [], ExcludeDirs, p, x);
    assert [] + p == p;
    var i :| 0 <= i < |visits| && visits[i] == Visit(p, x.files);
    var e := Deployed(p, f);
    assert Lists(visits[i], e, AcceptedSubTreeRoots);
    DeployedFilesMeaning(visits, AcceptedSubTreeRoots, ExcludeFileExts, e);
  }

  /** Whether `q` is the image of the good file `f` of the directory `x`, reached by `p` through kept directories whose files are taken. */
  predicate ImageOf(localRoot: LocalDir, q: Path, p: seq<string>, x: LocalDir, f: string)
  {
    q == RemoteRoot + p + [f] && Reaches(localRoot, p, x) && Clean(p, ExcludeDirs) && IsFilesTraversed(p, AcceptedSubTreeRoots)
    && f in x.files && IsGoodFile(f, ExcludeFileExts)
  }

  /** Every shipped path is the image of such a file. */
  lemma {:induction false} ShippedHasSource(localRoot: LocalDir, q: Path)
    requires q in RemotePaths(RemoteRoot, DeployedFiles(Walk(localRoot, [], ExcludeDirs), AcceptedSubTreeRoots, ExcludeFileExts))
    ensures exists p, x, f :: ImageOf(localRoot, q, p, x, f)
  {
    var visits := Walk(localRoot, [], ExcludeDirs);
    var e :| e in DeployedFiles(visits, AcceptedSubTreeRoots, ExcludeFileExts) && q == RemoteRoot + e.rel + [e.name];
    DeployedFilesMeaning(visits, AcceptedSubTreeRoots, ExcludeFileExts, e);
    var i :| 0 <= i < |visits| && Lists(visits[i], e, AcceptedSubTreeRoots);
    WalkSound(localRoot, [], ExcludeDirs, visits[i]);
    assert visits[i].rel[0..] == e.rel;
    var x :| Reaches(localRoot, e.rel, x) && x.files == visits[i].files;
    assert ImageOf(localRoot, q, e.rel, x, e.name);
  }

  /** `curRelPathLinux`: "" at the root, otherwise the path with '/' separators and a trailing '/'. */
  function CurRelPathLinux(curRelPathWin: string): string
  {
    if curRelPathWin == "." then "" else ReplaceChar(curRelPathWin, '\\', '/') + "/"
  }

  /** `remoteDir`: the remote root's text, '/', and the relative path. */
  function RemoteDir(rootRemoteDir: string, curRelPathWin: string): string
  {
    rootRemoteDir + "/" + CurRelPathLinux(curRelPathWin)
  }

  /**
   * For well-formed names the texts the script builds name the right places:
   * `remoteDir` the directory's image under the remote root and
   * `remoteDir + f` the file's.
   */
  lemma {:induction false} RemoteTextsResolve(rootRemoteDir: string, root: Path, rel: seq<string>, f: string)
    requires IsAbsolute(rootRemoteDir) && Components(rootRemoteDir) == root
    requires AllWindowsNames(rel) && IsWindowsName(f)
    ensures var remoteDir := RemoteDir(rootRemoteDir, RelPathWin(rel));
      IsAbsolute(remoteDir) && Components(remoteDir) == root + rel
      && IsAbsolute(remoteDir + f) && Components(remoteDir + f) == root + rel + [f]
  {
    RelPathWinDot(rel);
    assert IsName(f);
    if rel == [] {
      RootTextsResolve(rootRemoteDir, f);
      assert root + rel == root;
    } else {
      assert NoBackslash(rel) && forall k :: 0 <= k < |rel| ==> IsName(rel[k]);
      RelPathLinuxJoins(rel);
      ComponentsOfJoinWith(rel);
      NestedTextsResolve(rootRemoteDir, StringUtils.JoinWith(rel, '/'), f);
    }
  }

  /** At the local root `remoteDir` is the remote root's text and a '/'. */
  lemma {:induction false} RootTextsResolve(rootRemoteDir: string, f: string)
    requires IsName(f)
    ensures Components(rootRemoteDir + "/" + "") == Components(rootRemoteDir)
    ensures Components(rootRemoteDir + "/" + "" + f) == Components(rootRemoteDir) + [f]
  {
    var dir := rootRemoteDir + "/" + "";
    assert Components(dir) == Components(rootRemoteDir) + Components("") by {
      ComponentsOfJoin(rootRemoteDir, "");
    }
    assert dir + f == rootRemoteDir + "/" + f;
    assert Components(rootRemoteDir + "/" + f) == Components(rootRemoteDir) + [f] by {
      ComponentsOfChild(rootRemoteDir, f);
    }
  }

  /** Below the local root `remoteDir` is the remote root's text, '/', the joined names and a '/'. */
  lemma {:induction false} NestedTextsResolve(rootRemoteDir: string, joined: string, f: string)
    requires IsName(f)
    ensures Components(rootRemoteDir + "/" + (joined + "/")) == Components(rootRemoteDir) + Components(joined)
    ensures Components(rootRemoteDir + "/" + (joined + "/") + f) == Components(rootRemoteDir) + Components(joined) + [f]
  {
    var head := rootRemoteDir + "/";
    var tail := joined + "/";
    assert Components(tail) == Components(joined) by {
      assert tail == joined + "/" + "";
      ComponentsOfJoin(joined, "");
    }
    assert Components(head + tail) == Components(rootRemoteDir) + Components(tail) by {
      ComponentsOfJoin(rootRemoteDir, tail);
    }
    assert Components(tail + f) == Components(joined) + [f] by {
      ComponentsOfChild(joined, f);
    }
    assert head + tail + f == head + (tail + f);
    assert Components(head + (tail + f)) == Components(rootRemoteDir) + Components(tail + f) by {
      ComponentsOfJoin(rootRemoteDir, tail + f);
    }
    ConcatAssoc(Components(rootRemoteDir), Components(joined), [f]);
  }

  /** Whether all the names of the visits are well formed. */
  predicate WellNamedVisits(visits: seq<Visit>)
  {
    forall i :: 0 <= i < |visits| ==> AllWindowsNames(visits[i].rel) && AllWindowsNames(visits[i].files)
  }

  /** The walk of a well-named tree visits well-named directories. */
  lemma WalkVisitsWellNamed(d: LocalDir)
    requires WellNamed(d)
    ensures WellNamedVisits(Walk(d, [], ExcludeDirs))
  {
    var visits := Walk(d, [], ExcludeDirs);
    forall i | 0 <= i < |visits| ensures AllWindowsNames(visits[i].rel) && AllWindowsNames(visits[i].files) {
      WalkWellNamed(d, ExcludeDirs, visits[i]);
    }
  }

  /** One file: `mkdir_p(remoteDir)`, then `put` to `remoteDir + f`. */
  method UploadFile(sftp: Sftp, rootRemoteDir: string, root: Path, rel: seq<string>, curRelPathWin: string, f: string)
    returns (r: Result<(), FsError>)
    requires sftp.Valid() && sftp.cwd in sftp.dirs
    requires IsAbsolute(rootRemoteDir) && Components(rootRemoteDir) == root
    requires curRelPathWin == RelPathWin(rel) && AllWindowsNames(rel) && IsWindowsName(f)
    modifies sftp
    ensures sftp.Valid() && sftp.cwd in sftp.dirs && old(sftp.dirs) <= sftp.dirs
    ensures sftp.files == (if r.Ok? then old(sftp.files) + {root + rel + [f]} else old(sftp.files))
  {
    var remoteDir := RemoteDir(rootRemoteDir, curRelPathWin);
    ghost var target := root + rel + [f];
    assert Resolve(sftp.cwd, remoteDir) == root + rel && Resolve(sftp.cwd, remoteDir + f) == target by {
      RemoteTextsResolve(rootRemoteDir, root, rel, f);
      assert [] + (root + rel) == root + rel;
      assert [] + target == target;
    }
    var made := sftp.MkdirP(remoteDir);
    if made.Err? {
      return Err(made.error);
    }
    r := sftp.Put(remoteDir + f);
  }

  /** One more uploaded file: nothing changes outside the root and below it the file is added. */
  lemma {:induction false} UploadedOneMore(before: set<Path>, oldFiles: set<Path>, root: Path, rel: seq<string>,
                                           goodFiles: seq<string>, j: nat, after: set<Path>)
    requires j < |goodFiles|
    requires before - Under(before, root) == oldFiles - Under(oldFiles, root)
    requires Under(before, root) == Under(oldFiles, root) + RemotePaths(root, DeployedOf(rel, goodFiles[..j]))
    requires after == before + {root + rel + [goodFiles[j]]}
    ensures after - Under(after, root) == oldFiles - Under(oldFiles, root)
    ensures Under(after, root) == Under(oldFiles, root) + RemotePaths(root, DeployedOf(rel, goodFiles[..j + 1]))
  {
    var f := goodFiles[j];
    var target := root + rel + [f];
    var done := DeployedOf(rel, goodFiles[..j]);
    assert IsPrefix(root, target) by {
      PrefixOfExtension(root, rel + [f]);
      assert root + (rel + [f]) == target;
    }
    AddUnder(before, root, target);
    assert DeployedOf(rel, goodFiles[..j + 1]) == done + [Deployed(rel, f)] by {
      TakeOneMore(goodFiles, j);
    }
    RemotePathsConcat(root, done, [Deployed(rel, f)]);
    RemotePathsOne(root, Deployed(rel, f));
    UnionAssoc(Under(oldFiles, root), RemotePaths(root, done), {target});
  }

  /** The `for f in goodFiles` loop of one directory; the first error ends the script. */
  method UploadGoodFiles(sftp: Sftp, rootRemoteDir: string, root: Path, rel: seq<string>, curRelPathWin: string,
                         goodFiles: seq<string>) returns (r: Result<(), FsError>)
    requires sftp.Valid() && sftp.cwd in sftp.dirs
    requires IsAbsolute(rootRemoteDir) && Components(rootRemoteDir) == root
    requires curRelPathWin == RelPathWin(rel) && AllWindowsNames(rel) && AllWindowsNames(goodFiles)
    modifies sftp
    ensures sftp.Valid() && sftp.cwd in sftp.dirs && old(sftp.dirs) <= sftp.dirs
    ensures sftp.files - Under(sftp.files, root) == old(sftp.files) - Under(old(sftp.files), root)
    ensures r.Ok? ==> Under(sftp.files, root) == Under(old(sftp.files), root) + RemotePaths(root, DeployedOf(rel, goodFiles))
  {
    var j := 0;
    while j < |goodFiles|
      invariant 0 <= j <= |goodFiles|
      invariant sftp.Valid() && sftp.cwd in sftp.dirs && old(sftp.dirs) <= sftp.dirs
      invariant sftp.files - Under(sftp.files, root) == old(sftp.files) - Under(old(sftp.files), root)
      invariant Under(sftp.files, root) == Under(old(sftp.files), root) + RemotePaths(root, DeployedOf(rel, goodFiles[..j]))
    {
      ghost var before := sftp.files;
      var up := UploadFile(sftp, rootRemoteDir, root, rel, curRelPathWin, goodFiles[j]);
      if up.Err? {
        return up;
      }
      UploadedOneMore(before, old(sftp.files), root, rel, goodFiles, j, sftp.files);
      j := j + 1;
    }
    TakeAll(goodFiles);
    r := Ok(());
  }

  /**
   * The `os.walk` loop: each directory whose files are taken has its good
   * files uploaded; the first error ends the script.
   */
  method UploadVisits(sftp: Sftp, rootRemoteDir: string, root: Path, visits: seq<Visit>) returns (r: Result<(), FsError>)
    requires sftp.Valid() && sftp.cwd in sftp.dirs
    requires IsAbsolute(rootRemoteDir) && Components(rootRemoteDir) == root
    requires WellNamedVisits(visits)
    modifies sftp
    ensures sftp.Valid() && old(sftp.dirs) <= sftp.dirs
    ensures sftp.files - Under(sftp.files, root) == old(sftp.files) - Under(old(sftp.files), root)
    ensures r.Ok? ==>
      Under(sftp.files, root) == Under(old(sftp.files), root) + RemotePaths(root, DeployedFiles(visits, AcceptedSubTreeRoots, ExcludeFileExts))
  {
    var i := 0;
    while i < |visits|
      invariant 0 <= i <= |visits|
      invariant sftp.Valid() && sftp.cwd in sftp.dirs && old(sftp.dirs) <= sftp.dirs
      invariant sftp.files - Under(sftp.files, root) == old(sftp.files) - Under(old(sftp.files), root)
      invariant Under(sftp.files, root) ==
        Under(old(sftp.files), root) + RemotePaths(root, DeployedFiles(visits[..i], AcceptedSubTreeRoots, ExcludeFileExts))
    {
      ghost var done := DeployedFiles(visits[..i], AcceptedSubTreeRoots, ExcludeFileExts);
      DeployedFilesStep(visits, i, AcceptedSubTreeRoots, ExcludeFileExts);
      var curRelPathWin := RelPathWin(visits[i].rel);
      var isFilesTraversed := FilesTraversed(curRelPathWin, AcceptedSubTreeRoots);
      assert isFilesTraversed == IsFilesTraversed(visits[i].rel, AcceptedSubTreeRoots);
      if isFilesTraversed {
        var goodFiles := GoodFiles(visits[i].files, ExcludeFileExts);
        GoodFilesWellNamed(visits[i].files, ExcludeFileExts);
        var up := UploadGoodFiles(sftp, rootRemoteDir, root, visits[i].rel, curRelPathWin, goodFiles);
        if up.Err? {
          return up;
        }
        assert Under(sftp.files, root) ==
          Under(old(sftp.files), root) + RemotePaths(root, DeployedFiles(visits[..i + 1], AcceptedSubTreeRoots, ExcludeFileExts)) by {
          RemotePathsConcat(root, done, DeployedOf(visits[i].rel, goodFiles));
          UnionAssoc(Under(old(sftp.files), root), RemotePaths(root, done), RemotePaths(root, DeployedOf(visits[i].rel, goodFiles)));
        }
      } else {
        assert done + [] == done;
      }
      i := i + 1;
    }
    TakeAll(visits);
    r := Ok(());
  }

  /**
   * The script: `rm -rf` of the remote root, then the upload of the walk of
   * the well-named local tree `localRoot`. Files outside the remote root stay
   * as they were; on success the files below it are exactly the shipped
   * files, each in its directory's image.
   */
  method Deploy(sftp: Sftp, localRoot: LocalDir) returns (r: Result<(), FsError>)
    requires sftp.Valid() && sftp.cwd in sftp.dirs && !IsPrefix(RemoteRoot, sftp.cwd)
    requires WellNamed(localRoot)
    modifies sftp
    ensures sftp.Valid()
    ensures sftp.files - Under(sftp.files, RemoteRoot) == old(sftp.files) - Under(old(sftp.files), RemoteRoot)
    ensures r.Ok? ==>
      Under(sftp.files, RemoteRoot) ==
        RemotePaths(RemoteRoot, DeployedFiles(Walk(localRoot, [], ExcludeDirs), AcceptedSubTreeRoots, ExcludeFileExts))
  {
    RemoteRootNames();
    sftp.RmRf(RemoteRoot);
    ghost var cleared := sftp.files;
    var visits := Walk(localRoot, [], ExcludeDirs);
    WalkVisitsWellNamed(localRoot);
    r := UploadVisits(sftp, RootRemoteDir, RemoteRoot, visits);
    ClearedFrame(old(sftp.files), cleared, sftp.files, RemoteRoot);
  }

  /** After `rm -rf` of `root` nothing is below it, so what the upload kept outside it is what was there first. */
  lemma ClearedFrame(before: set<Path>, cleared: set<Path>, after: set<Path>, root: Path)
    requires cleared == before - Under(before, root)
    requires after - Under(after, root) == cleared - Under(cleared, root)
    ensures Under(cleared, root) == {}
    ensures after - Under(after, root) == before - Under(before, root)
  {
    MinusNothing(cleared, Under(cleared, root));
  }
}
