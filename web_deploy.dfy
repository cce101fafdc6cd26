/**
 * The WebServer deploy script (`src/WebServer/SqCoreWeb/Deploy.py`): the
 * published directory on the server is wiped with `rm -rf`, the local publish
 * tree is walked to list the files to ship, the list goes into a list file
 * for the archiver, the remote root is made again with `mkdir_p` and the
 * archive is put into it.
 */
module WebDeploy {
  import opened Wrappers
  import StringUtils
  import opened RemoteFs
  import opened DeployWalk

  const ServerUser: string := "sq-vnc-client"
  /** The names of "/home/sq-vnc-client/SQ/WebServer/SqCoreWeb/published/publish". */
  const RemoteRoot: Path := ["home", ServerUser, "SQ", "WebServer", "SqCoreWeb", "published", "publish"]
  /** The remote root's text, "/home/" + the user + "/SQ/WebServer/SqCoreWeb/published/publish". */
  const RootRemoteDir: string := "/" + StringUtils.JoinWith(RemoteRoot, '/')
  const AcceptedSubTreeRoots: seq<string> := ["wwwroot"]
  const ZipFileNameWithoutPath: string := "deploy.7z"
  const ZipFileRemoteName: string := RootRemoteDir + "/" + ZipFileNameWithoutPath
  const ExcludeDirs: set<string> := {"obj", ".vs", "artifacts", "Properties", "node_modules"}
  const ExcludeFileExts: set<string> := {"sln", "xproj", "log", "sqlog", "ps1", "sh", "user", "md"}

  /** The remote root's text names the remote root and the archive's text the archive in it. */
  lemma RemoteNames()
    ensures IsAbsolute(RootRemoteDir) && Components(RootRemoteDir) == RemoteRoot
    ensures IsAbsolute(ZipFileRemoteName) && Components(ZipFileRemoteName) == RemoteRoot + [ZipFileNameWithoutPath]
  {
    ComponentsOfRooted(RemoteRoot);
    ComponentsOfChild(RootRemoteDir, ZipFileNameWithoutPath);
  }

  /** The files the script ships from the local tree `localRoot`, in walk order. */
  function ShippedFiles(localRoot: LocalDir): seq<Deployed>
  {
    DeployedFiles(Walk(localRoot, [], ExcludeDirs), AcceptedSubTreeRoots, ExcludeFileExts)
  }

  /** The list file's lines are the entries of the shipped files, and they read back from it. */
  lemma {:induction false} ShippedListReadsBack(localRoot: LocalDir)
    requires WellNamed(localRoot)
    ensures var entries := Entries(ShippedFiles(localRoot));
      StringUtils.Split(StringUtils.JoinWith(entries, '\n'), '\n') == entries
  {
    ListFileOfTreeRoundTrip(localRoot, ExcludeDirs, AcceptedSubTreeRoots, ExcludeFileExts);
  }

  /** A file is shipped iff a traversed directory the walk reaches holds it and it is a good file. */
  lemma {:induction false} ShippedMeaning(localRoot: LocalDir, e: Deployed)
    ensures e in ShippedFiles(localRoot) <==>
      ListedBySome(Walk(localRoot, [], ExcludeDirs), e, AcceptedSubTreeRoots) && IsGoodFile(e.name, ExcludeFileExts)
  {
    DeployedFilesMeaning(Walk(localRoot, [], ExcludeDirs), AcceptedSubTreeRoots, ExcludeFileExts, e);
  }

  /** The entries of two runs of files are the entries of each. */
  lemma {:induction false} EntriesConcat(a: seq<Deployed>, b: seq<Deployed>)
    ensures Entries(a + b) == Entries(a) + Entries(b)
  {
    var l := Entries(a + b);
    var r := Entries(a) + Entries(b);
    assert |l| == |r|;
    forall k | 0 <= k < |l| ensures l[k] == r[k] {
      if k < |a| {
        assert (a + b)[k] == a[k];
      } else {
        assert (a + b)[k] == b[k - |a|];
      }
    }
  }

  /** One more file of a directory adds its entry at the end. */
  lemma {:induction false} EntriesAppend(rel: seq<string>, names: seq<string>, n: string)
    ensures Entries(DeployedOf(rel, names + [n])) == Entries(DeployedOf(rel, names)) + [Entry(Deployed(rel, n))]
  {
    assert DeployedOf(rel, names + [n]) == DeployedOf(rel, names) + [Deployed(rel, n)];
    EntriesConcat(DeployedOf(rel, names), [Deployed(rel, n)]);
  }

  /** The `for f in goodFiles` loop: each good file's entry is appended, in order. */
  method AppendGoodFiles(fileNames: seq<string>, rel: seq<string>, curRelPathWin: string, goodFiles: seq<string>)
    returns (fileNamesToDeploy: seq<string>)
    requires curRelPathWin == RelPathWin(rel)
    ensures fileNamesToDeploy == fileNames + Entries(DeployedOf(rel, goodFiles))
  {
    fileNamesToDeploy := fileNames;
    var j := 0;
    while j < |goodFiles|
      invariant 0 <= j <= |goodFiles|
      invariant fileNamesToDeploy == fileNames + Entries(DeployedOf(rel, goodFiles[..j]))
    {
      TakeOneMore(goodFiles, j);
      EntriesAppend(rel, goodFiles[..j], goodFiles[j]);
      fileNamesToDeploy := fileNamesToDeploy + [ReplaceChar(curRelPathWin, '\\', '/') + "/" + goodFiles[j]];
      j := j + 1;
    }
    assert goodFiles[..j] == goodFiles;
  }

  /**
   * The `os.walk` loop: for each visited directory whose files are taken,
   * the good files' entries are appended in order.
   */
  method CollectFileNames(visits: seq<Visit>) returns (fileNamesToDeploy: seq<string>)
    ensures fileNamesToDeploy == Entries(DeployedFiles(visits, AcceptedSubTreeRoots, ExcludeFileExts))
  {
    fileNamesToDeploy := [];
    var i := 0;
    while i < |visits|
      invariant 0 <= i <= |visits|
      invariant fileNamesToDeploy == Entries(DeployedFiles(visits[..i], AcceptedSubTreeRoots, ExcludeFileExts))
    {
      ghost var done := DeployedFiles(visits[..i], AcceptedSubTreeRoots, ExcludeFileExts);
      DeployedFilesStep(visits, i, AcceptedSubTreeRoots, ExcludeFileExts);
      var curRelPathWin := RelPathWin(visits[i].rel);
      var isFilesTraversed := FilesTraversed(curRelPathWin, AcceptedSubTreeRoots);
      assert isFilesTraversed == IsFilesTraversed(visits[i].rel, AcceptedSubTreeRoots);
      if isFilesTraversed {
        var goodFiles := GoodFiles(visits[i].files, ExcludeFileExts);
        fileNamesToDeploy := AppendGoodFiles(fileNamesToDeploy, visits[i].rel, curRelPathWin, goodFiles);
        assert fileNamesToDeploy == Entries(DeployedFiles(visits[..i + 1], AcceptedSubTreeRoots, ExcludeFileExts)) by {
          EntriesConcat(done, DeployedOf(visits[i].rel, goodFiles));
        }
      } else {
        assert done + [] == done;
      }
      i := i + 1;
    }
    TakeAll(visits);
  }

  /**
   * `mkdir_p` of the remote root, then the `put` of the archive into it, on
   * a server with nothing at or below the root.
   */
  method UploadArchive(sftp: Sftp, rootRemoteDir: string, zipFileRemoteName: string, root: Path, zipName: string)
    returns (r: Result<(), FsError>)
    requires sftp.Valid() && sftp.cwd in sftp.dirs
    requires IsAbsolute(rootRemoteDir) && Components(rootRemoteDir) == root
    requires IsAbsolute(zipFileRemoteName) && Components(zipFileRemoteName) == root + [zipName]
    requires Under(sftp.dirs, root) == {} && Under(sftp.files, root) == {}
    modifies sftp
    ensures sftp.Valid()
    ensures r.Err? <==> FileOnWay(root, old(sftp.files))
    ensures r.Err? ==> sftp.files == old(sftp.files)
    ensures r.Ok? ==> sftp.cwd == root && sftp.dirs == old(sftp.dirs) + Prefixes(root) && sftp.files == old(sftp.files) + {root + [zipName]}
  {
    assert Resolve(sftp.cwd, rootRemoteDir) == root by {
      assert [] + root == root;
    }
    var made := sftp.MkdirP(rootRemoteDir);
    if made.Err? {
      return Err(made.error);
    }
    ghost var zip := root + [zipName];
    assert Resolve(sftp.cwd, zipFileRemoteName) == zip by {
      assert [] + zip == zip;
    }
    assert zip !in sftp.dirs by {
      ChildNotPrefix(root, zipName);
      assert IsPrefix(root, zip) && zip !in Under(old(sftp.dirs), root);
    }
    assert root in Prefixes(root) by {
      assert root[..|root|] == root;
    }
    r := sftp.Put(zipFileRemoteName);
  }

  /**
   * The script: `rm -rf` of the remote root, the walk and its list file
   * (returned as `listFile`), `mkdir_p` of the remote root and the `put` of
   * the archive. The session starts outside the remote root. An error from
   * the server ends the script; the archiving and unpacking commands are not
   * modelled.
   */
  method Deploy(sftp: Sftp, localRoot: LocalDir) returns (listFile: string, r: Result<(), FsError>)
    requires sftp.Valid() && sftp.cwd in sftp.dirs && !IsPrefix(RemoteRoot, sftp.cwd)
    modifies sftp
    ensures sftp.Valid()
    ensures listFile == StringUtils.JoinWith(Entries(ShippedFiles(localRoot)), '\n')
    ensures sftp.files - Under(sftp.files, RemoteRoot) == old(sftp.files) - Under(old(sftp.files), RemoteRoot)
    ensures r.Err? <==> FileOnWay(RemoteRoot, old(sftp.files) - Under(old(sftp.files), RemoteRoot))
    ensures r.Ok? ==>
      sftp.cwd == RemoteRoot
      && sftp.dirs == old(sftp.dirs) - Under(old(sftp.dirs), RemoteRoot) + Prefixes(RemoteRoot)
      && Under(sftp.files, RemoteRoot) == {RemoteRoot + [ZipFileNameWithoutPath]}
  {
    sftp.RmRf(RemoteRoot);
    ghost var cleared := sftp.files;
    assert Under(sftp.dirs, RemoteRoot) == {} && Under(cleared, RemoteRoot) == {};
    var fileNamesToDeploy := CollectFileNames(Walk(localRoot, [], ExcludeDirs));
    listFile := StringUtils.JoinWith(fileNamesToDeploy, '\n');
    RemoteNames();
    r := UploadArchive(sftp, RootRemoteDir, ZipFileRemoteName, RemoteRoot, ZipFileNameWithoutPath);
    ghost var zip := RemoteRoot + [ZipFileNameWithoutPath];
    PrefixOfExtension(RemoteRoot, [ZipFileNameWithoutPath]);
    AddUnder(cleared, RemoteRoot, zip);
    MinusNothing(cleared, Under(cleared, RemoteRoot));
  }
}
