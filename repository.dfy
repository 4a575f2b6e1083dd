/**
 * The repository bootstrapper: opening an existing repository (with its
 * configuration check) and initialising a new one (the control-directory
 * skeleton), over the filesystem model of module FileSystem.
 */
module Repository {
  import opened Wrappers
  import opened FileSystem

  /** One constructor per distinct `error` the bootstrapper returns. */
  datatype Error =
    | StatFailed(path: Path)            // os.Stat failed: the path does not exist, or a file stands in its way
    | NotARepository(path: Path)        // the worktree is not a directory
    | ConfigStatFailed                  // os.Stat on the config path failed other than by "does not exist"
    | ConfigMissing                     // no config file under the control directory
    | ConfigUnreadable                  // the configuration reader could not read or parse it
    | VersionNotFound                   // core.repositoryformatversion is absent
    | VersionNotInteger                 // ... is present but not an integer
    | UnsupportedVersion(version: int)  // ... is an integer other than 0
    | MkdirFailed(path: Path)           // os.Mkdir refused (parent missing or not a directory)
    | NotADirectory(path: Path)         // a non-directory occupies a required directory path
    | NotEmpty(path: Path)              // the worktree to initialise already has entries
    | OpenFailed(path: Path)            // os.OpenFile refused the path
    | ZeroBytesWritten(path: Path)      // the write reported 0 bytes

  /** A configuration value as the configuration reader hands it over: an int, or anything else. */
  datatype Value = IntVal(n: int) | OtherVal

  /** Section name to key to value. */
  type Config = map<string, map<string, Value>>

  /** The repository handle: a worktree, its control directory and (unless forced) its configuration. */
  datatype Repository = Repository(worktree: Path, gitDir: Path, config: Option<Config>)
  {
    /** The control directory is derived from the worktree, never set on its own. */
    predicate Valid()
    {
      gitDir == GitDirOf(worktree)
    }
  }

  /** `<filepath.Dir(worktree)>/.git/`: a sibling of the worktree. */
  function GitDirOf(worktree: Path): (r: Path)
    ensures r != [] && r[|r| - 1] == ".git"
    ensures Parent(r) == Parent(worktree)
  {
    Parent(worktree) + [".git"]
  }

  function ConfigPath(gitDir: Path): Path
  {
    gitDir + ["config"]
  }

  /** `os.Stat(gitDir + "config")` fails with an error other than "does not exist": a file stands in the way. */
  predicate ConfigBlocked(t: Tree, gitDir: Path)
  {
    ConfigPath(gitDir) !in t && UnderFile(t, ConfigPath(gitDir))
  }

  // ---------------------------------------------------------------------------
  // Opening an existing repository
  // ---------------------------------------------------------------------------

  /** `GetStringMap("core")["repositoryformatversion"]`; a missing section reads as an empty one. */
  function FormatVersion(cfg: Config): Option<Value>
  {
    if "core" in cfg && "repositoryformatversion" in cfg["core"]
    then Some(cfg["core"]["repositoryformatversion"])
    else None
  }

  /** The schema check of an opened configuration. */
  function CheckVersion(cfg: Config): (r: Outcome<Error>)
    ensures r.Pass? <==> FormatVersion(cfg) == Some(IntVal(0))
    ensures r == Fail(VersionNotFound) <==> FormatVersion(cfg) == None
    ensures r == Fail(VersionNotInteger) <==> FormatVersion(cfg) == Some(OtherVal)
    ensures (r.Fail? && r.error.UnsupportedVersion?)
            <==> (FormatVersion(cfg).Some? && FormatVersion(cfg).value.IntVal? && FormatVersion(cfg).value.n != 0)
    ensures r.Fail? && r.error.UnsupportedVersion? ==> FormatVersion(cfg) == Some(IntVal(r.error.version))
  {
    match FormatVersion(cfg)
    case None => Fail(VersionNotFound)
    case Some(OtherVal) => Fail(VersionNotInteger)
    case Some(IntVal(v)) => if v != 0 then Fail(UnsupportedVersion(v)) else Pass
  }

  /** `ReadInConfig`: the configuration file's bytes through the reader `parse`. */
  function ReadConfig(t: Tree, parse: string -> Option<Config>, path: Path): (r: Result<Config, Error>)
    ensures r.Success? <==> IsFile(t, path) && parse(t[path].content).Some?
    ensures r.Success? ==> Some(r.value) == parse(t[path].content)
    ensures r.Failure? ==> r.error == ConfigUnreadable
  {
    if !IsFile(t, path) then Failure(ConfigUnreadable)
    else match parse(t[path].content)
      case None => Failure(ConfigUnreadable)
      case Some(cfg) => Success(cfg)
  }

  /**
   * `newRepository(path, force)` over a snapshot `t` of the filesystem.
   * With `force` the worktree only has to exist and no configuration is
   * read, but a config path that cannot be stat'ed for another reason than
   * its absence still fails.
   */
  function Open(t: Tree, parse: string -> Option<Config>, path: Path, force: bool): (r: Result<Repository, Error>)
    ensures r.Success? ==> r.value.worktree == path && r.value.Valid()
    ensures r == Failure(StatFailed(path)) <==> path !in t
    ensures !force && path in t && !IsDir(t, path) ==> r == Failure(NotARepository(path))
    ensures force ==> r == if path !in t then Failure(StatFailed(path))
                           else if ConfigBlocked(t, GitDirOf(path)) then Failure(ConfigStatFailed)
                           else Success(Repository(path, GitDirOf(path), None))
    ensures !force && IsDir(t, path) && ConfigBlocked(t, GitDirOf(path)) ==> r == Failure(ConfigStatFailed)
    ensures !force && IsDir(t, path) && ConfigPath(GitDirOf(path)) !in t && !ConfigBlocked(t, GitDirOf(path))
            ==> r == Failure(ConfigMissing)
    ensures !force && IsDir(t, path) && ConfigPath(GitDirOf(path)) in t
            ==> match ReadConfig(t, parse, ConfigPath(GitDirOf(path)))
                case Failure(e) => r == Failure(e)
                case Success(cfg) =>
                  && (r.Success? <==> CheckVersion(cfg).Pass?)
                  && (r.Success? ==> r.value.config == Some(cfg))
                  && (r.Failure? ==> Fail(r.error) == CheckVersion(cfg))
  {
    if path !in t then Failure(StatFailed(path))
    else if !force && !IsDir(t, path) then Failure(NotARepository(path))
    else
      var gitDir := GitDirOf(path);
      if ConfigBlocked(t, gitDir) then Failure(ConfigStatFailed)
      else if ConfigPath(gitDir) !in t && !force then Failure(ConfigMissing)
      else if force then Success(Repository(path, gitDir, None))
      else match ReadConfig(t, parse, ConfigPath(gitDir))
        case Failure(e) => Failure(e)
        case Success(cfg) =>
          match CheckVersion(cfg)
          case Fail(e) => Failure(e)
          case Pass => Success(Repository(path, gitDir, Some(cfg)))
  }

  /**
   * A regular file at `<parent>/.git` makes `os.Stat(gitDir + "config")`
   * fail with "not a directory", which `newRepository` reports with or
   * without `force`.
   */
  lemma OpenBlockedByControlFile(t: Tree, parse: string -> Option<Config>, path: Path, force: bool)
    requires WellFormed(t) && IsDir(t, path) && IsFile(t, GitDirOf(path))
    ensures Open(t, parse, path, force) == Failure(ConfigStatFailed)
  {
    assert Parent(ConfigPath(GitDirOf(path))) == GitDirOf(path);
  }

  // ---------------------------------------------------------------------------
  // createDirIfNeed and createFileWithWrite
  // ---------------------------------------------------------------------------

  /**
   * What `createDirIfNeed(p)` does to a snapshot: its outcome and the tree
   * afterwards. `dirSyntax` says the path string ends in a slash, as `gitDir`
   * does; the stat of a file named that way fails before the kind check.
   */
  function DirStep(t: Tree, p: Path, dirSyntax: bool): (r: (Outcome<Error>, Tree))
    ensures r.0.Pass? <==> IsDir(t, p) || (p !in t && IsDir(t, Parent(p)))
    ensures r.0.Fail? ==> r.1 == t && r.0.error == if StatNotDir(t, p, dirSyntax) then StatFailed(p)
                                                     else if p in t then NotADirectory(p)
                                                     else MkdirFailed(p)
  {
    if StatNotDir(t, p, dirSyntax) then (Fail(StatFailed(p)), t)
    else if p in t then
      if t[p].Dir? then (Pass, t) else (Fail(NotADirectory(p)), t)
    else if IsDir(t, Parent(p)) then (Pass, t[p := Dir])
    else (Fail(MkdirFailed(p)), t)
  }

  /** A file where a directory is wanted: named without a slash it fails the kind check, with one it fails the stat. */
  lemma DirStepOverFile(t: Tree, p: Path)
    requires IsFile(t, p)
    ensures DirStep(t, p, false) == (Fail(NotADirectory(p)), t)
    ensures DirStep(t, p, true) == (Fail(StatFailed(p)), t)
  {
  }

  /**
   * What one directory step does to the tree: on success `p` is a directory,
   * the only possible new entry is `p`, no existing entry changes, and the
   * tree stays well formed.
   */
  lemma DirStepEffect(t: Tree, p: Path, dirSyntax: bool)
    ensures var r := DirStep(t, p, dirSyntax);
      && (r.0.Pass? <==> IsDir(r.1, p))
      && r.1.Keys == t.Keys + (if r.0.Pass? then {p} else {})
      && (forall q | q in t :: r.1[q] == t[q])
      && (WellFormed(t) ==> WellFormed(r.1))
  {
  }

  /** `createDirIfNeed`: make `p` a directory unless it already is one; `dirSyntax` as for DirStep. */
  method CreateDirIfNeed(disk: Disk, p: Path, dirSyntax: bool) returns (res: Outcome<Error>)
    requires disk.Valid()
    modifies disk
    ensures disk.Valid()
    ensures (res, disk.nodes) == DirStep(old(disk.nodes), p, dirSyntax)
  {
    var info := disk.Stat(p, dirSyntax);
    if info.Failure? {
      if info.error == NotDir {
        return Fail(StatFailed(p));
      }
      var ok := disk.Mkdir(p);
      if !ok {
        return Fail(MkdirFailed(p));
      }
    } else if !info.value.Dir? {
      return Fail(NotADirectory(p));
    }
    return Pass;
  }

  /** Applying `createDirIfNeed` a second time changes nothing: it succeeds again after a success and fails the same way after a failure. */
  lemma CreateDirIfNeedIdempotent(t: Tree, p: Path, dirSyntax: bool)
    ensures var r := DirStep(t, p, dirSyntax);
      r.0.Pass? ==> DirStep(r.1, p, dirSyntax) == (Pass, r.1)
    ensures var r := DirStep(t, p, dirSyntax);
      r.0.Fail? ==> DirStep(r.1, p, dirSyntax) == r
  {
  }

  /** What `createFileWithWrite` does to a snapshot when it writes `content` to `p`. */
  function FileStep(t: Tree, p: Path, content: string): (r: (Outcome<Error>, Tree))
    ensures r.0.Pass? <==> CanOpenForWrite(t, p) && content != []
  {
    if !CanOpenForWrite(t, p) then (Fail(OpenFailed(p)), t)
    else
      var t1 := t[p := File(Overlay(Prior(t, p), content))];
      if content == [] then (Fail(ZeroBytesWritten(p)), t1) else (Pass, t1)
  }

  /**
   * What one write does to the tree: an unopenable path changes nothing; an
   * empty write still leaves the (possibly new, empty) file behind; otherwise
   * the file starts with `content` (and is exactly `content` when it is new),
   * and no other entry changes.
   */
  lemma FileStepEffect(t: Tree, p: Path, content: string)
    ensures var r := FileStep(t, p, content);
      && (!CanOpenForWrite(t, p) ==> r == (Fail(OpenFailed(p)), t))
      && (CanOpenForWrite(t, p) && content == [] ==> r.0 == Fail(ZeroBytesWritten(p)))
      && (CanOpenForWrite(t, p) ==>
            IsFile(r.1, p) && |content| <= |r.1[p].content| && r.1[p].content[..|content|] == content)
      && (CanOpenForWrite(t, p) && p !in t ==> r.1[p] == File(content))
      && r.1.Keys == t.Keys + (if CanOpenForWrite(t, p) then {p} else {})
      && (forall q | q in t && q != p :: r.1[q] == t[q])
      && (WellFormed(t) ==> WellFormed(r.1))
  {
  }

  /** `createFileWithWrite(fileName, content)`: open `gitDir/fileName` for write/create and write `content`. */
  method CreateFileWithWrite(repo: Repository, disk: Disk, fileName: string, content: string)
    returns (res: Outcome<Error>)
    requires disk.Valid()
    modifies disk
    ensures disk.Valid()
    ensures (res, disk.nodes) == FileStep(old(disk.nodes), repo.gitDir + [fileName], content)
  {
    var filePath := repo.gitDir + [fileName];
    ghost var before := disk.nodes;
    var ok := disk.OpenForWrite(filePath);
    if !ok {
      return Fail(OpenFailed(filePath));
    }
    assert disk.nodes[filePath].content == Prior(before, filePath);
    var n := disk.WriteAtStart(filePath, content);
    assert disk.nodes == before[filePath := File(Overlay(Prior(before, filePath), content))];
    if n == 0 {
      assert content == [];
      return Fail(ZeroBytesWritten(filePath));
    }
    return Pass;
  }

  // ---------------------------------------------------------------------------
  // create: the control-directory skeleton
  // ---------------------------------------------------------------------------

  /** The directories created under the control directory, in the order they are created. */
  const SkeletonDirs: seq<Path> := [["branches"], ["objects"], ["refs"], ["refs", "tags"], ["refs", "heads"]]

  /** One entry of the map of files written into the control directory: a file name and its content. */
  datatype FileEntry = FileEntry(name: string, content: string)

  /** The files `create` writes; the source keeps them in a map, so they are written in no fixed order. */
  const DefaultFiles: set<FileEntry> := {
    FileEntry("description", "unnamed repository: edit this file 'description' to name the repository."),
    FileEntry("HEAD", "ref: refs/heads/master\n"),
    FileEntry("config", "[core]\n\t\trepositoryformatversion = 0\n\t\tfilemode = false\n\t\tbare = false\n\t")
  }

  /** Map keys: no two entries share a name. */
  predicate UniqueNames(fs: set<FileEntry>)
  {
    forall f, g | f in fs && g in fs && f.name == g.name :: f == g
  }

  /** The default entries have distinct names and none of them is empty. */
  lemma DefaultFilesWellFormed()
    ensures UniqueNames(DefaultFiles)
    ensures forall f | f in DefaultFiles :: f.content != []
  {
  }

  function DirPaths(base: Path, names: seq<Path>): set<Path>
  {
    set i | 0 <= i < |names| :: base + names[i]
  }

  lemma DirPathsCons(base: Path, names: seq<Path>)
    requires names != []
    ensures DirPaths(base, names) == {base + names[0]} + DirPaths(base, names[1..])
  {
    forall q | q in DirPaths(base, names)
      ensures q in {base + names[0]} + DirPaths(base, names[1..])
    {
      var i :| 0 <= i < |names| && q == base + names[i];
      if i > 0 {
        assert q == base + names[1..][i - 1];
      }
    }
    forall q | q in DirPaths(base, names[1..])
      ensures q in DirPaths(base, names)
    {
      var i :| 0 <= i < |names[1..]| && q == base + names[1..][i];
      assert q == base + names[i + 1];
    }
  }

  /** `t` with a directory at every `base + names[i]`. */
  function WithDirs(t: Tree, base: Path, names: seq<Path>): Tree
  {
    t + map q | q in DirPaths(base, names) :: Dir
  }

  /** The loop of `createDirIfNeed` calls over `names` under `base`, stopping at the first error. */
  function MakeDirs(t: Tree, base: Path, names: seq<Path>): (r: (Outcome<Error>, Tree))
    ensures forall q | q in t :: q in r.1 && r.1[q] == t[q]
    ensures r.1.Keys <= t.Keys + DirPaths(base, names)
    ensures forall q | q in r.1 && q !in t :: r.1[q] == Dir
    ensures WellFormed(t) ==> WellFormed(r.1)
    ensures r.0.Pass? ==> forall i | 0 <= i < |names| :: IsDir(r.1, base + names[i])
    decreases |names|
  {
    if names == [] then (Pass, t)
    else
      var (o, t1) := DirStep(t, base + names[0], false);
      DirStepEffect(t, base + names[0], false);
      if o.Fail? then (o, t1)
      else
        DirPathsCons(base, names);
        MakeDirs(t1, base, names[1..])
  }

  /** Each path's parent is the base, a directory already, or one of the paths created before it. */
  predicate ParentsReady(t: Tree, base: Path, names: seq<Path>)
  {
    forall i | 0 <= i < |names| ::
      names[i] != [] && (IsDir(t, base + Parent(names[i])) || Parent(names[i]) in names[..i])
  }

  /** The index of the first path under `base` occupied by a file, or |names| when there is none. */
  function FirstFileAt(t: Tree, base: Path, names: seq<Path>): (k: nat)
    ensures k <= |names|
    ensures forall i | 0 <= i < k :: !IsFile(t, base + names[i])
    ensures k < |names| ==> IsFile(t, base + names[k])
    decreases |names|
  {
    if names == [] then 0
    else if IsFile(t, base + names[0]) then 0
    else 1 + FirstFileAt(t, base, names[1..])
  }

  /**
   * With parents created before their children, the directory loop stops exactly
   * at the first path held by a file (NotADirectory), having created every
   * directory before it and nothing else; it never fails in os.Mkdir.
   */
  lemma {:induction false} MakeDirsOutcome(t: Tree, base: Path, names: seq<Path>)
    requires WellFormed(t)
    requires ParentsReady(t, base, names[..FirstFileAt(t, base, names)])
    ensures var k := FirstFileAt(t, base, names);
      MakeDirs(t, base, names)
      == (if k == |names| then Pass else Fail(NotADirectory(base + names[k])), WithDirs(t, base, names[..k]))
    decreases |names|
  {
    var k := FirstFileAt(t, base, names);
    if names == [] || k == 0 {
      assert WithDirs(t, base, names[..k]) == t;
    } else {
      var p0 := base + names[0];
      var rest := names[1..];
      var t1 := t[p0 := Dir];
      FirstStepSucceeds(t, base, names[..k]);
      DirStepEffect(t, p0, false);
      FirstFileUnchanged(t, base, rest, p0);
      assert FirstFileAt(t1, base, rest) == k - 1;
      assert names[..k][1..] == rest[..k - 1];
      ParentsReadyStep(t, base, names[..k]);
      MakeDirsOutcome(t1, base, rest);
      WithDirsCons(t, base, names[..k]);
    }
  }

  /** The first directory of a ready list is created (or already there). */
  lemma FirstStepSucceeds(t: Tree, base: Path, names: seq<Path>)
    requires names != [] && ParentsReady(t, base, names) && !IsFile(t, base + names[0])
    ensures DirStep(t, base + names[0], false) == (Pass, t[base + names[0] := Dir])
  {
    var p0 := base + names[0];
    assert names[..0] == [];
    ParentOfExtension(base, names[0]);
    assert IsDir(t, Parent(p0));
    if p0 in t {
      assert t[p0 := Dir] == t;
    }
  }

  /** Once the first directory exists, the rest of the list is still ready. */
  lemma ParentsReadyStep(t: Tree, base: Path, names: seq<Path>)
    requires names != [] && ParentsReady(t, base, names)
    ensures ParentsReady(t[base + names[0] := Dir], base, names[1..])
  {
    var t1 := t[base + names[0] := Dir];
    var rest := names[1..];
    forall i | 0 <= i < |rest|
      ensures rest[i] != [] && (IsDir(t1, base + Parent(rest[i])) || Parent(rest[i]) in rest[..i])
    {
      assert rest[i] == names[i + 1];
      if !IsDir(t, base + Parent(rest[i])) && Parent(rest[i]) != names[0] {
        assert Parent(rest[i]) in names[..i + 1];
        var j :| 0 <= j < i + 1 && names[j] == Parent(rest[i]);
        assert j > 0 && rest[..i][j - 1] == Parent(rest[i]);
      }
    }
  }

  lemma WithDirsCons(t: Tree, base: Path, names: seq<Path>)
    requires names != []
    ensures WithDirs(t[base + names[0] := Dir], base, names[1..]) == WithDirs(t, base, names)
  {
    DirPathsCons(base, names);
  }

  /** Turning a non-file into a directory does not move the first file. */
  lemma {:induction false} FirstFileUnchanged(t: Tree, base: Path, names: seq<Path>, p: Path)
    requires !IsFile(t, p)
    ensures FirstFileAt(t[p := Dir], base, names) == FirstFileAt(t, base, names)
    decreases |names|
  {
    if names != [] {
      FirstFileUnchanged(t, base, names[1..], p);
    }
  }

  /** The part of `create` before the files: the worktree, its emptiness, the control directory, the skeleton directories. */
  function Prepare(t: Tree, repo: Repository): (Outcome<Error>, Tree)
  {
    var (o1, t1) := DirStep(t, repo.worktree, false);
    if o1.Fail? then (o1, t1)
    else if HasEntries(t1, repo.worktree) then (Fail(NotEmpty(repo.worktree)), t1)
    else
      var (o2, t2) := DirStep(t1, repo.gitDir, true);
      if o2.Fail? then (o2, t2)
      else MakeDirs(t2, repo.gitDir, SkeletonDirs)
  }

  function FilePaths(base: Path, fs: set<FileEntry>): set<Path>
  {
    set f | f in fs :: base + [f.name]
  }

  /**
   * `after` is `t` with the files `fs` written under `base`, each over
   * whatever file was there (without truncation), and nothing else changed.
   */
  ghost predicate HasFiles(t: Tree, base: Path, fs: set<FileEntry>, after: Tree)
  {
    && after.Keys == t.Keys + FilePaths(base, fs)
    && (forall f | f in fs :: after[base + [f.name]] == File(Overlay(Prior(t, base + [f.name]), f.content)))
    && (forall q | q in t && q !in FilePaths(base, fs) :: after[q] == t[q])
  }

  /** `create` succeeds from `t`: the directory steps succeed and no default file's path is a directory. */
  predicate CreateSucceeds(t: Tree, repo: Repository)
  {
    var (o, t2) := Prepare(t, repo);
    o.Pass? && forall f | f in DefaultFiles :: !IsDir(t2, repo.gitDir + [f.name])
  }

  lemma FilePathOf(base: Path, fs: set<FileEntry>, f: FileEntry)
    requires UniqueNames(fs + {f})
    ensures base + [f.name] in FilePaths(base, fs) <==> f in fs
  {
    if base + [f.name] in FilePaths(base, fs) {
      var g :| g in fs && base + [f.name] == base + [g.name];
      assert (base + [f.name])[|base|] == f.name;
    }
  }

  /** Adding a fresh entry adds exactly its path, which is new, and never the base itself. */
  lemma FilePathsInsert(base: Path, fs: set<FileEntry>, f: FileEntry)
    requires f !in fs && UniqueNames(fs + {f})
    ensures FilePaths(base, fs + {f}) == FilePaths(base, fs) + {base + [f.name]}
    ensures base + [f.name] !in FilePaths(base, fs)
    ensures base !in FilePaths(base, fs)
  {
    FilePathOf(base, fs, f);
    if base in FilePaths(base, fs) {
      var g :| g in fs && base == base + [g.name];
    }
  }

  /** One turn of the file loop: writing `f` succeeds exactly when its path is not a directory. */
  lemma FileLoopStep(t3: Tree, base: Path, done: set<FileEntry>, f: FileEntry,
                     cur: Tree, res: Outcome<Error>, after: Tree)
    requires IsDir(t3, base) && f !in done && f.content != [] && UniqueNames(done + {f})
    requires HasFiles(t3, base, done, cur)
    requires (res, after) == FileStep(cur, base + [f.name], f.content)
    ensures res.Pass? <==> !IsDir(t3, base + [f.name])
    ensures res.Pass? ==> HasFiles(t3, base, done + {f}, after)
    ensures res.Fail? ==> res == Fail(OpenFailed(base + [f.name])) && after == cur
  {
    var p := base + [f.name];
    FilePathsInsert(base, done, f);
    assert Parent(p) == base;
    assert IsDir(cur, base);
    assert p in cur <==> p in t3;
    assert p in t3 ==> cur[p] == t3[p];
    if res.Pass? {
      assert Prior(cur, p) == Prior(t3, p);
      forall g | g in done + {f}
        ensures after[base + [g.name]] == File(Overlay(Prior(t3, base + [g.name]), g.content))
      {
        if g != f {
          assert base + [g.name] != p by {
            assert (base + [g.name])[|base|] == g.name;
          }
        }
      }
    }
  }

  /** The entries listed in `order`. */
  function Elems(order: seq<FileEntry>): set<FileEntry>
  {
    set f | f in order
  }

  /** `order` lists distinct entries of `fs`, and all of them when `complete`. */
  predicate Enumerates(order: seq<FileEntry>, fs: set<FileEntry>, complete: bool)
  {
    && (forall i, j | 0 <= i < j < |order| :: order[i] != order[j])
    && (forall i | 0 <= i < |order| :: order[i] in fs)
    && (complete ==> forall f | f in fs :: f in order)
  }

  /** The last entry of a list without repetitions is new, and extends the prefix's entries by one. */
  lemma ElemsSnoc(order: seq<FileEntry>)
    requires order != []
    requires forall i, j | 0 <= i < j < |order| :: order[i] != order[j]
    ensures var n := |order| - 1;
      && Elems(order) == Elems(order[..n]) + {order[n]}
      && order[n] !in Elems(order[..n])
  {
    var n := |order| - 1;
    assert order == order[..n] + [order[n]];
  }

  /** The file loop run in the iteration order `order`: each write in turn, stopping at the first failure. */
  function WriteAll(t: Tree, base: Path, order: seq<FileEntry>): (Outcome<Error>, Tree)
    decreases |order|
  {
    if order == [] then (Pass, t)
    else
      var (o, t1) := WriteAll(t, base, order[..|order| - 1]);
      var f := order[|order| - 1];
      if o.Fail? then (o, t1) else FileStep(t1, base + [f.name], f.content)
  }

  /** The position in `order` of the first entry whose path under `base` is a directory, or |order|. */
  function FirstDirAt(t: Tree, base: Path, order: seq<FileEntry>): (k: nat)
    ensures k <= |order|
    ensures forall i | 0 <= i < k :: !IsDir(t, base + [order[i].name])
    ensures k < |order| ==> IsDir(t, base + [order[k].name])
    decreases |order|
  {
    if order == [] then 0
    else
      var n := |order| - 1;
      var k := FirstDirAt(t, base, order[..n]);
      if k < n then k
      else if IsDir(t, base + [order[n].name]) then n
      else |order|
  }

  /**
   * Whatever the iteration order, the file loop fails exactly at the first
   * entry whose path is a directory, with OpenFailed, having written the
   * entries before it (each over what was there, without truncation) and
   * changed nothing else; when there is no such entry it writes them all.
   */
  lemma {:induction false} WriteAllOutcome(t: Tree, base: Path, order: seq<FileEntry>)
    requires IsDir(t, base)
    requires forall i, j | 0 <= i < j < |order| :: order[i] != order[j]
    requires UniqueNames(Elems(order))
    requires forall i | 0 <= i < |order| :: order[i].content != []
    ensures var k := FirstDirAt(t, base, order);
      && WriteAll(t, base, order).0 == (if k == |order| then Pass else Fail(OpenFailed(base + [order[k].name])))
      && HasFiles(t, base, Elems(order[..k]), WriteAll(t, base, order).1)
    decreases |order|
  {
    if order == [] {
      assert Elems(order[..0]) == {};
      assert FilePaths(base, {}) == {};
    } else {
      var n := |order| - 1;
      var prefix, f := order[..n], order[n];
      ElemsSnoc(order);
      WriteAllOutcome(t, base, prefix);
      var k1 := FirstDirAt(t, base, prefix);
      if k1 < n {
        WriteAllStopped(t, base, order);
      } else {
        assert prefix[..n] == prefix;
        WriteAllLastStep(t, base, order);
      }
    }
  }

  /** The step case of WriteAllOutcome when the loop stopped before the last entry. */
  lemma WriteAllStopped(t: Tree, base: Path, order: seq<FileEntry>)
    requires order != []
    requires var prefix := order[..|order| - 1];
      var k := FirstDirAt(t, base, prefix);
      && k < |prefix|
      && WriteAll(t, base, prefix).0 == Fail(OpenFailed(base + [prefix[k].name]))
      && HasFiles(t, base, Elems(prefix[..k]), WriteAll(t, base, prefix).1)
    ensures var k := FirstDirAt(t, base, order);
      && WriteAll(t, base, order).0 == (if k == |order| then Pass else Fail(OpenFailed(base + [order[k].name])))
      && HasFiles(t, base, Elems(order[..k]), WriteAll(t, base, order).1)
  {
    var n := |order| - 1;
    var prefix := order[..n];
    var k := FirstDirAt(t, base, prefix);
    assert order[..k] == prefix[..k];
    assert FirstDirAt(t, base, order) == k;
    assert WriteAll(t, base, order) == WriteAll(t, base, prefix);
  }

  /** The step case of WriteAllOutcome when every entry before the last was written. */
  lemma WriteAllLastStep(t: Tree, base: Path, order: seq<FileEntry>)
    requires IsDir(t, base) && order != []
    requires forall i, j | 0 <= i < j < |order| :: order[i] != order[j]
    requires UniqueNames(Elems(order))
    requires order[|order| - 1].content != []
    requires var prefix := order[..|order| - 1];
      && FirstDirAt(t, base, prefix) == |prefix|
      && WriteAll(t, base, prefix).0 == Pass
      && HasFiles(t, base, Elems(prefix), WriteAll(t, base, prefix).1)
    ensures var k := FirstDirAt(t, base, order);
      && WriteAll(t, base, order).0 == (if k == |order| then Pass else Fail(OpenFailed(base + [order[k].name])))
      && HasFiles(t, base, Elems(order[..k]), WriteAll(t, base, order).1)
  {
    var n := |order| - 1;
    var prefix, f := order[..n], order[n];
    ElemsSnoc(order);
    var t1 := WriteAll(t, base, prefix).1;
    var (o, after) := WriteAll(t, base, order);
    FileLoopStep(t, base, Elems(prefix), f, t1, o, after);
    if o.Fail? {
      LastStepFailed(t, base, order, t1);
    } else {
      LastStepPassed(t, base, order, after);
    }
  }

  /** WriteAllLastStep when the last entry's path is a directory. */
  lemma LastStepFailed(t: Tree, base: Path, order: seq<FileEntry>, t1: Tree)
    requires order != []
    requires var n := |order| - 1;
      && FirstDirAt(t, base, order[..n]) == n
      && IsDir(t, base + [order[n].name])
      && WriteAll(t, base, order) == (Fail(OpenFailed(base + [order[n].name])), t1)
      && HasFiles(t, base, Elems(order[..n]), t1)
    ensures var k := FirstDirAt(t, base, order);
      && WriteAll(t, base, order).0 == (if k == |order| then Pass else Fail(OpenFailed(base + [order[k].name])))
      && HasFiles(t, base, Elems(order[..k]), WriteAll(t, base, order).1)
  {
    assert FirstDirAt(t, base, order) == |order| - 1;
  }

  /** WriteAllLastStep when the last entry was written too. */
  lemma LastStepPassed(t: Tree, base: Path, order: seq<FileEntry>, after: Tree)
    requires order != []
    requires var n := |order| - 1;
      && FirstDirAt(t, base, order[..n]) == n
      && !IsDir(t, base + [order[n].name])
      && WriteAll(t, base, order) == (Pass, after)
      && HasFiles(t, base, Elems(order), after)
    ensures var k := FirstDirAt(t, base, order);
      && WriteAll(t, base, order).0 == (if k == |order| then Pass else Fail(OpenFailed(base + [order[k].name])))
      && HasFiles(t, base, Elems(order[..k]), WriteAll(t, base, order).1)
  {
    assert FirstDirAt(t, base, order) == |order|;
    assert order[..|order|] == order;
  }

  /**
   * What `create` leaves behind from `t` when the file map is iterated in
   * `order`: the first failing directory step with the tree as it was then, or
   * the file loop's outcome.
   */
  ghost predicate CreateRun(t: Tree, repo: Repository, order: seq<FileEntry>, res: Outcome<Error>, after: Tree)
  {
    var (o, t3) := Prepare(t, repo);
    if o.Fail? then res == o && after == t3
    else Enumerates(order, DefaultFiles, res.Pass?) && (res, after) == WriteAll(t3, repo.gitDir, order)
  }

  /**
   * `create`: make the worktree an empty directory, then lay down the control
   * directory with its five directories and three files. Nothing is rolled
   * back when a step fails.
   */
  method Create(repo: Repository, disk: Disk) returns (res: Outcome<Error>, ghost order: seq<FileEntry>)
    requires repo.Valid() && disk.Valid()
    modifies disk
    ensures disk.Valid()
    ensures CreateRun(old(disk.nodes), repo, order, res, disk.nodes)
  {
    ghost var t0 := disk.nodes;
    order := [];
    res := CreateDirIfNeed(disk, repo.worktree, false);
    if res.Fail? {
      return;
    }
    var nonEmpty := disk.ReadDirNonEmpty(repo.worktree);
    if nonEmpty {
      return Fail(NotEmpty(repo.worktree)), [];
    }
    res := CreateDirIfNeed(disk, repo.gitDir, true);
    if res.Fail? {
      return;
    }
    var toMakeDirs := SkeletonDirs;
    for i := 0 to |toMakeDirs|
      invariant disk.Valid()
      invariant MakeDirs(disk.nodes, repo.gitDir, toMakeDirs[i..]) == Prepare(t0, repo)
    {
      res := CreateDirIfNeed(disk, repo.gitDir + toMakeDirs[i], false);
      if res.Fail? {
        return;
      }
    }
    res, order := WriteFiles(repo, disk, DefaultFiles);
  }

  /**
   * The file loop of `create`: write every entry of `files` into the control
   * directory, in whatever order the map yields them (recorded in `order`),
   * and stop at the first failure.
   */
  method WriteFiles(repo: Repository, disk: Disk, files: set<FileEntry>)
    returns (res: Outcome<Error>, ghost order: seq<FileEntry>)
    requires disk.Valid()
    modifies disk
    ensures disk.Valid()
    ensures Enumerates(order, files, res.Pass?)
    ensures (res, disk.nodes) == WriteAll(old(disk.nodes), repo.gitDir, order)
  {
    ghost var t3 := disk.nodes;
    var toWrite := files;
    order := [];
    res := Pass;
    while toWrite != {}
      invariant disk.Valid() && res == Pass
      invariant toWrite <= files
      invariant Enumerates(order, files, false)
      invariant forall f | f in files :: f in order <==> f !in toWrite
      invariant (Pass, disk.nodes) == WriteAll(t3, repo.gitDir, order)
      decreases |toWrite|
    {
      var file :| file in toWrite;
      res := CreateFileWithWrite(repo, disk, file.name, file.content);
      assert (order + [file])[..|order|] == order;
      order := order + [file];
      if res.Fail? {
        return;
      }
      toWrite := toWrite - {file};
    }
  }
}
