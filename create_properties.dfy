/**
 * What `create` guarantees as a whole: when it succeeds, what it leaves
 * behind, what it never touches, and that the result can be opened again.
 */
module CreateProperties {
  import opened Wrappers
  import opened FileSystem
  import opened Repository

  /** The worktree can be initialised: an empty directory, or absent inside an existing directory. */
  predicate WorktreeReady(t: Tree, w: Path)
  {
    (IsDir(t, w) && !HasEntries(t, w)) || (w !in t && IsDir(t, Parent(w)))
  }

  /**
   * Nothing stands in the way of the control directory: no file at it or at
   * any skeleton directory, and no directory where a default file goes.
   */
  predicate LayoutFree(t: Tree, g: Path)
  {
    && !IsFile(t, g)
    && (forall i | 0 <= i < |SkeletonDirs| :: !IsFile(t, g + SkeletonDirs[i]))
    && (forall f | f in DefaultFiles :: !IsDir(t, g + [f.name]))
  }

  /** `after` keeps every entry of `t` and adds nothing but directories. */
  predicate AddsDirs(t: Tree, after: Tree)
  {
    && (forall q | q in t :: q in after && after[q] == t[q])
    && (forall q | q in after && q !in t :: after[q] == Dir)
  }

  /** Every path `create` may add: the worktree, the control directory, its five directories and three files. */
  function LayoutPaths(repo: Repository): set<Path>
  {
    {repo.worktree, repo.gitDir} + DirPaths(repo.gitDir, SkeletonDirs) + FilePaths(repo.gitDir, DefaultFiles)
  }

  // ---------------------------------------------------------------------------
  // The directory phase
  // ---------------------------------------------------------------------------

  /** A worktree that is a directory with entries is refused before anything changes. */
  lemma NonEmptyWorktreeRefused(t: Tree, repo: Repository, order: seq<FileEntry>, res: Outcome<Error>, after: Tree)
    requires IsDir(t, repo.worktree) && HasEntries(t, repo.worktree)
    requires CreateRun(t, repo, order, res, after)
    ensures res == Fail(NotEmpty(repo.worktree)) && after == t
  {
    assert Prepare(t, repo) == (Fail(NotEmpty(repo.worktree)), t);
  }

  /** Each skeleton directory's parent is the control directory or a skeleton directory created before it. */
  lemma SkeletonParentsReady(t: Tree, g: Path, k: nat)
    requires IsDir(t, g) && k <= |SkeletonDirs|
    ensures ParentsReady(t, g, SkeletonDirs[..k])
  {
    var names := SkeletonDirs[..k];
    assert g + [] == g;
    forall i | 0 <= i < k
      ensures names[i] != [] && (IsDir(t, g + Parent(names[i])) || Parent(names[i]) in names[..i])
    {
      if i >= 3 {
        assert Parent(names[i]) == ["refs"] == names[..i][2];
      } else {
        assert Parent(names[i]) == [];
      }
    }
  }

  /** The order matters: asking for refs/tags before refs fails in os.Mkdir when refs is missing. */
  lemma ChildBeforeParentFails(t: Tree, g: Path)
    requires IsDir(t, g) && g + ["refs"] !in t && g + ["refs", "tags"] !in t
    ensures MakeDirs(t, g, [["refs", "tags"], ["refs"]]).0 == Fail(MkdirFailed(g + ["refs", "tags"]))
  {
    ParentOfExtension(g, ["refs", "tags"]);
    assert Parent(["refs", "tags"]) == ["refs"];
    ParentOfExtension(g, ["refs"]);
    assert Parent(g + ["refs"]) == g + [] == g;
    assert !UnderFile(t, g + ["refs", "tags"]);
  }

  /** A ready worktree and no file at the control directory: both are directories afterwards and the skeleton loop follows. */
  lemma PrepareReady(t: Tree, repo: Repository)
    requires WellFormed(t) && repo.Valid()
    requires WorktreeReady(t, repo.worktree) && !IsFile(t, repo.gitDir)
    ensures var t2 := t[repo.worktree := Dir][repo.gitDir := Dir];
      && WellFormed(t2)
      && AddsDirs(t, t2)
      && Prepare(t, repo) == MakeDirs(t2, repo.gitDir, SkeletonDirs)
  {
    var w, g := repo.worktree, repo.gitDir;
    var t1 := t[w := Dir];
    DirStepEffect(t, w, false);
    assert DirStep(t, w, false) == (Pass, t1) by {
      if w in t {
        assert t1 == t;
      }
    }
    assert !HasEntries(t1, w);
    assert Parent(g) == Parent(w) by {
      assert g[..|g| - 1] == Parent(w);
    }
    assert IsDir(t1, Parent(g)) by {
      if w != [] {
        assert w in t1 && IsDir(t1, Parent(w));
      }
    }
    DirStepEffect(t1, g, true);
    assert DirStep(t1, g, true) == (Pass, t1[g := Dir]) by {
      if g in t1 {
        assert t1[g := Dir] == t1;
      }
    }
  }

  /**
   * A worktree that is not ready, or a file at the control directory, makes
   * the directory phase fail at the worktree step, the emptiness check or the
   * control-directory step, before any skeleton directory is made: at most
   * the worktree is new.
   */
  lemma PrepareNotReady(t: Tree, repo: Repository)
    requires WellFormed(t) && repo.Valid()
    requires !WorktreeReady(t, repo.worktree) || IsFile(t, repo.gitDir)
    ensures var w, g := repo.worktree, repo.gitDir;
      Prepare(t, repo).0 in {Fail(NotADirectory(w)), Fail(StatFailed(w)), Fail(MkdirFailed(w)),
                             Fail(NotEmpty(w)), Fail(StatFailed(g))}
    ensures Prepare(t, repo).1.Keys <= t.Keys + {repo.worktree}
  {
    var w, g := repo.worktree, repo.gitDir;
    DirStepEffect(t, w, false);
    if WorktreeReady(t, w) {
      var t1 := DirStep(t, w, false).1;
      assert t1 == t[w := Dir];
      assert g != w;
      assert IsFile(t1, g);
      assert !HasEntries(t1, w);
    }
  }

  /**
   * A regular file at the control directory: the worktree step has run, and
   * the stat of the slash-terminated control directory fails.
   */
  lemma ControlFileRefused(t: Tree, repo: Repository)
    requires WellFormed(t) && repo.Valid()
    requires WorktreeReady(t, repo.worktree) && IsFile(t, repo.gitDir)
    ensures Prepare(t, repo) == (Fail(StatFailed(repo.gitDir)), t[repo.worktree := Dir])
  {
    var w, g := repo.worktree, repo.gitDir;
    DirStepEffect(t, w, false);
    var t1 := DirStep(t, w, false).1;
    assert t1 == t[w := Dir];
    assert g != w;
    assert !HasEntries(t1, w);
  }

  /** The directory phase keeps every existing entry, adds only directories and keeps the tree well formed. */
  lemma PrepareFrame(t: Tree, repo: Repository)
    requires WellFormed(t)
    ensures var (o, t3) := Prepare(t, repo);
      && WellFormed(t3)
      && AddsDirs(t, t3)
      && (WorktreeReady(t, repo.worktree) ==> IsDir(t3, repo.worktree))
      && (o.Pass? ==> IsDir(t3, repo.gitDir) && forall i | 0 <= i < |SkeletonDirs| :: IsDir(t3, repo.gitDir + SkeletonDirs[i]))
  {
    var (o1, t1) := DirStep(t, repo.worktree, false);
    DirStepEffect(t, repo.worktree, false);
    if o1.Pass? && !HasEntries(t1, repo.worktree) {
      var (o2, t2) := DirStep(t1, repo.gitDir, true);
      DirStepEffect(t1, repo.gitDir, true);
      if o2.Pass? {
        var t3 := MakeDirs(t2, repo.gitDir, SkeletonDirs).1;
        assert Prepare(t, repo).1 == t3;
        assert AddsDirs(t, t2);
        assert AddsDirs(t2, t3);
      }
    }
  }

  /** The skeleton loop fails exactly when one of its paths holds a file in the original tree. */
  lemma SkeletonOutcome(t: Tree, repo: Repository)
    requires WellFormed(t) && repo.Valid()
    requires WorktreeReady(t, repo.worktree) && !IsFile(t, repo.gitDir)
    ensures Prepare(t, repo).0.Pass? <==>
              forall i | 0 <= i < |SkeletonDirs| :: !IsFile(t, repo.gitDir + SkeletonDirs[i])
  {
    var g := repo.gitDir;
    var t2 := t[repo.worktree := Dir][g := Dir];
    PrepareReady(t, repo);
    var k := FirstFileAt(t2, g, SkeletonDirs);
    SkeletonParentsReady(t2, g, k);
    MakeDirsOutcome(t2, g, SkeletonDirs);
    if k < |SkeletonDirs| {
      assert IsFile(t, g + SkeletonDirs[k]);
    }
  }

  // ---------------------------------------------------------------------------
  // The file phase
  // ---------------------------------------------------------------------------

  /** No default file's name is a skeleton directory. */
  lemma FileNameOutsideSkeleton(g: Path, f: FileEntry)
    requires f in DefaultFiles
    ensures g + [f.name] !in DirPaths(g, SkeletonDirs)
  {
    forall i | 0 <= i < |SkeletonDirs|
      ensures g + [f.name] != g + SkeletonDirs[i]
    {
      assert (g + [f.name])[|g|] == f.name;
      assert (g + SkeletonDirs[i])[|g|] == SkeletonDirs[i][0];
    }
  }

  /** A path one level inside the control directory is neither the worktree nor the control directory. */
  lemma InsideGitDir(repo: Repository, name: string)
    requires repo.Valid()
    ensures repo.gitDir + [name] != repo.worktree && repo.gitDir + [name] != repo.gitDir
  {
    var w := repo.worktree;
    assert w == [] || |Parent(w)| == |w| - 1;
  }

  /** After the directory phase, a default file's path is a directory exactly when it was one before. */
  lemma FilePathsKeepKind(t: Tree, repo: Repository, f: FileEntry)
    requires WellFormed(t) && repo.Valid()
    requires WorktreeReady(t, repo.worktree) && !IsFile(t, repo.gitDir)
    requires Prepare(t, repo).0.Pass? && f in DefaultFiles
    ensures IsDir(Prepare(t, repo).1, repo.gitDir + [f.name]) <==> IsDir(t, repo.gitDir + [f.name])
  {
    var g := repo.gitDir;
    var t2 := t[repo.worktree := Dir][g := Dir];
    PrepareReady(t, repo);
    var k := FirstFileAt(t2, g, SkeletonDirs);
    SkeletonParentsReady(t2, g, k);
    MakeDirsOutcome(t2, g, SkeletonDirs);
    assert k == |SkeletonDirs|;
    FileNameOutsideSkeleton(g, f);
    InsideGitDir(repo, f.name);
  }

  /** `create` succeeds exactly when the worktree is ready and nothing stands in the way of the control directory. */
  lemma CreateSucceedsIff(t: Tree, repo: Repository)
    requires WellFormed(t) && repo.Valid()
    ensures CreateSucceeds(t, repo) <==> WorktreeReady(t, repo.worktree) && LayoutFree(t, repo.gitDir)
  {
    var w, g := repo.worktree, repo.gitDir;
    if !WorktreeReady(t, w) || IsFile(t, g) {
      PrepareNotReady(t, repo);
    } else {
      SkeletonOutcome(t, repo);
      if Prepare(t, repo).0.Pass? {
        forall f | f in DefaultFiles
          ensures IsDir(Prepare(t, repo).1, g + [f.name]) <==> IsDir(t, g + [f.name])
        {
          FilePathsKeepKind(t, repo, f);
        }
      }
    }
  }

  /** The worktree is never one of the paths written into the control directory. */
  lemma WorktreeNotAFilePath(repo: Repository, fs: set<FileEntry>)
    requires repo.Valid()
    ensures repo.worktree !in FilePaths(repo.gitDir, fs)
  {
  }

  lemma EnumeratedAll(order: seq<FileEntry>, fs: set<FileEntry>)
    requires Enumerates(order, fs, true)
    ensures Elems(order) == fs
  {
  }

  lemma FilePathsMono(base: Path, a: set<FileEntry>, b: set<FileEntry>)
    requires a <= b
    ensures FilePaths(base, a) <= FilePaths(base, b)
  {
  }

  /** The file loop after a successful directory phase: the facts WriteAllOutcome gives for `create`'s file map. */
  lemma FilePhase(t3: Tree, g: Path, order: seq<FileEntry>)
    requires IsDir(t3, g) && Enumerates(order, DefaultFiles, false)
    ensures var k := FirstDirAt(t3, g, order);
      && WriteAll(t3, g, order).0 == (if k == |order| then Pass else Fail(OpenFailed(g + [order[k].name])))
      && HasFiles(t3, g, Elems(order[..k]), WriteAll(t3, g, order).1)
      && (k == |order| ==> HasFiles(t3, g, Elems(order), WriteAll(t3, g, order).1))
  {
    DefaultFilesWellFormed();
    WriteAllOutcome(t3, g, order);
    assert order[..|order|] == order;
  }

  /** `create` reports success exactly when its directory phase passes and no default file's path is then a directory. */
  lemma CreatePassIff(t: Tree, repo: Repository, order: seq<FileEntry>, res: Outcome<Error>, after: Tree)
    requires WellFormed(t)
    requires CreateRun(t, repo, order, res, after)
    ensures res.Pass? <==> CreateSucceeds(t, repo)
  {
    var (o, t3) := Prepare(t, repo);
    if o.Pass? {
      PrepareFrame(t, repo);
      FilePhase(t3, repo.gitDir, order);
      var k := FirstDirAt(t3, repo.gitDir, order);
      if res.Pass? {
        forall f | f in DefaultFiles
          ensures !IsDir(t3, repo.gitDir + [f.name])
        {
          var i :| 0 <= i < |order| && order[i] == f;
        }
      } else {
        assert order[k] in DefaultFiles;
      }
    }
  }

  // ---------------------------------------------------------------------------
  // The whole of create
  // ---------------------------------------------------------------------------

  /**
   * `create` succeeds exactly when the worktree is ready and nothing stands in
   * the way of the control directory. Whatever the outcome, no step is rolled
   * back: a ready worktree is a directory afterwards, the tree stays well
   * formed, and every entry other than the default files' paths is kept.
   */
  lemma CreateResult(t: Tree, repo: Repository, order: seq<FileEntry>, res: Outcome<Error>, after: Tree)
    requires WellFormed(t) && repo.Valid()
    requires CreateRun(t, repo, order, res, after)
    ensures res.Pass? <==> WorktreeReady(t, repo.worktree) && LayoutFree(t, repo.gitDir)
    ensures WorktreeReady(t, repo.worktree) ==> IsDir(after, repo.worktree)
    ensures forall q | q in t && q !in FilePaths(repo.gitDir, DefaultFiles) :: q in after && after[q] == t[q]
    ensures after.Keys <= t.Keys + LayoutPaths(repo)
  {
    CreateKeys(t, repo, order, res, after);
    CreatePassIff(t, repo, order, res, after);
    CreateSucceedsIff(t, repo);
    PrepareFrame(t, repo);
    var (o, t3) := Prepare(t, repo);
    if o.Pass? {
      FilePhase(t3, repo.gitDir, order);
      var k := FirstDirAt(t3, repo.gitDir, order);
      FilePathsMono(repo.gitDir, Elems(order[..k]), DefaultFiles);
      WorktreeNotAFilePath(repo, Elems(order[..k]));
    }
  }

  /** The directory phase adds no path but the worktree, the control directory and the skeleton directories. */
  lemma PrepareKeys(t: Tree, repo: Repository)
    ensures Prepare(t, repo).1.Keys <= t.Keys + {repo.worktree, repo.gitDir} + DirPaths(repo.gitDir, SkeletonDirs)
  {
    DirStepEffect(t, repo.worktree, false);
    DirStepEffect(DirStep(t, repo.worktree, false).1, repo.gitDir, true);
  }

  /** Whatever the outcome, `create` adds no path outside its layout. */
  lemma CreateKeys(t: Tree, repo: Repository, order: seq<FileEntry>, res: Outcome<Error>, after: Tree)
    requires WellFormed(t)
    requires CreateRun(t, repo, order, res, after)
    ensures after.Keys <= t.Keys + LayoutPaths(repo)
  {
    PrepareKeys(t, repo);
    var (o, t3) := Prepare(t, repo);
    if o.Pass? {
      PrepareFrame(t, repo);
      FilePhase(t3, repo.gitDir, order);
      var k := FirstDirAt(t3, repo.gitDir, order);
      FilePathsMono(repo.gitDir, Elems(order[..k]), DefaultFiles);
    }
  }

  /** Writing files where there were no directories keeps every directory. */
  lemma DirsSurvive(t3: Tree, g: Path, fs: set<FileEntry>, after: Tree)
    requires HasFiles(t3, g, fs, after)
    requires forall f | f in fs :: !IsDir(t3, g + [f.name])
    ensures forall q | IsDir(t3, q) :: IsDir(after, q)
  {
  }

  /**
   * After a successful `create` the worktree, the control directory and its
   * five skeleton directories are directories, and each default file holds
   * its content written over whatever file was at its path before (the open
   * does not truncate).
   */
  lemma CreateLayout(t: Tree, repo: Repository, order: seq<FileEntry>, after: Tree)
    requires WellFormed(t) && repo.Valid()
    requires CreateRun(t, repo, order, Pass, after)
    ensures IsDir(after, repo.worktree) && IsDir(after, repo.gitDir)
    ensures forall i | 0 <= i < |SkeletonDirs| :: IsDir(after, repo.gitDir + SkeletonDirs[i])
    ensures forall f | f in DefaultFiles ::
              && repo.gitDir + [f.name] in after
              && after[repo.gitDir + [f.name]] == File(Overlay(Prior(t, repo.gitDir + [f.name]), f.content))
  {
    var g := repo.gitDir;
    CreateResult(t, repo, order, Pass, after);
    CreatePassIff(t, repo, order, Pass, after);
    PrepareFrame(t, repo);
    var t3 := Prepare(t, repo).1;
    FilePhase(t3, g, order);
    EnumeratedAll(order, DefaultFiles);
    LayoutAfterFiles(t, t3, repo, after);
  }

  /** The layout facts of CreateLayout, from the tree after the directory phase and the file loop's effect. */
  lemma LayoutAfterFiles(t: Tree, t3: Tree, repo: Repository, after: Tree)
    requires AddsDirs(t, t3) && IsDir(t3, repo.worktree) && IsDir(t3, repo.gitDir)
    requires forall i | 0 <= i < |SkeletonDirs| :: IsDir(t3, repo.gitDir + SkeletonDirs[i])
    requires forall f | f in DefaultFiles :: !IsDir(t3, repo.gitDir + [f.name])
    requires HasFiles(t3, repo.gitDir, DefaultFiles, after)
    ensures IsDir(after, repo.worktree) && IsDir(after, repo.gitDir)
    ensures forall i | 0 <= i < |SkeletonDirs| :: IsDir(after, repo.gitDir + SkeletonDirs[i])
    ensures forall f | f in DefaultFiles ::
              && repo.gitDir + [f.name] in after
              && after[repo.gitDir + [f.name]] == File(Overlay(Prior(t, repo.gitDir + [f.name]), f.content))
  {
    var g := repo.gitDir;
    DirsSurvive(t3, g, DefaultFiles, after);
    forall f | f in DefaultFiles
      ensures Prior(t3, g + [f.name]) == Prior(t, g + [f.name])
    {
    }
  }

  /** Nothing lies below a path that does not exist. */
  lemma {:induction false} AbsentBelow(t: Tree, g: Path, rel: Path)
    requires WellFormed(t) && g !in t
    ensures g + rel !in t
    decreases |rel|
  {
    if rel != [] {
      ParentOfExtension(g, rel);
      AbsentBelow(t, g, Parent(rel));
    } else {
      assert g + rel == g;
    }
  }

  /**
   * Initialising from scratch: with a ready worktree and nothing at the
   * control directory, `create` succeeds, adds exactly its layout (the
   * worktree if new, the control directory, five directories and three
   * files), each default file holds exactly its content, HEAD points at
   * refs/heads/master and refs/heads is empty.
   */
  lemma CreateFresh(t: Tree, repo: Repository, order: seq<FileEntry>, res: Outcome<Error>, after: Tree)
    requires WellFormed(t) && repo.Valid()
    requires WorktreeReady(t, repo.worktree) && repo.gitDir !in t
    requires CreateRun(t, repo, order, res, after)
    ensures res == Pass
    ensures after.Keys == t.Keys + LayoutPaths(repo)
    ensures forall f | f in DefaultFiles :: repo.gitDir + [f.name] in after && after[repo.gitDir + [f.name]] == File(f.content)
    ensures IsFile(after, repo.gitDir + ["HEAD"]) && after[repo.gitDir + ["HEAD"]].content == "ref: refs/heads/master\n"
    ensures !HasEntries(after, repo.gitDir + ["refs", "heads"])
  {
    FreshLayoutFree(t, repo.gitDir);
    CreateResult(t, repo, order, res, after);
    CreateLayout(t, repo, order, after);
    DefaultFileNames();
    LayoutKeys(t, repo, after);
    FreshRefsHeadsEmpty(t, repo, after);
  }

  /** With no control directory, nothing stands in its way and no default file was there before. */
  lemma FreshLayoutFree(t: Tree, g: Path)
    requires WellFormed(t) && g !in t
    ensures LayoutFree(t, g)
    ensures forall f | f in DefaultFiles :: g + [f.name] !in t
  {
    forall i | 0 <= i < |SkeletonDirs|
      ensures g + SkeletonDirs[i] !in t
    {
      AbsentBelow(t, g, SkeletonDirs[i]);
    }
    forall f | f in DefaultFiles
      ensures g + [f.name] !in t
    {
      AbsentBelow(t, g, [f.name]);
    }
  }

  /** A successful `create` keeps every old path and has every layout path, so it adds exactly its layout. */
  lemma LayoutKeys(t: Tree, repo: Repository, after: Tree)
    requires after.Keys <= t.Keys + LayoutPaths(repo)
    requires forall q | q in t && q !in FilePaths(repo.gitDir, DefaultFiles) :: q in after
    requires repo.worktree in after && repo.gitDir in after
    requires forall i | 0 <= i < |SkeletonDirs| :: repo.gitDir + SkeletonDirs[i] in after
    requires forall f | f in DefaultFiles :: repo.gitDir + [f.name] in after
    ensures after.Keys == t.Keys + LayoutPaths(repo)
  {
  }

  /** With no control directory before, the only entries of the new tree below it are the layout's, none inside refs/heads. */
  lemma FreshRefsHeadsEmpty(t: Tree, repo: Repository, after: Tree)
    requires WellFormed(t) && repo.Valid() && repo.gitDir !in t
    requires after.Keys <= t.Keys + LayoutPaths(repo)
    ensures !HasEntries(after, repo.gitDir + ["refs", "heads"])
  {
    var g := repo.gitDir;
    AbsentBelow(t, g, ["refs", "heads"]);
    forall q | q in LayoutPaths(repo)
      ensures |q| <= |g| + 2
    {
      if q in DirPaths(g, SkeletonDirs) {
        var i :| 0 <= i < |SkeletonDirs| && q == g + SkeletonDirs[i];
      } else if q in FilePaths(g, DefaultFiles) {
        var f :| f in DefaultFiles && q == g + [f.name];
      }
    }
  }

  /**
   * What `create` writes can be opened again: if the configuration reader
   * turns the config file into a configuration whose format version is the
   * integer 0, opening the worktree yields the repository with that
   * configuration.
   */
  lemma OpenAfterCreate(t: Tree, repo: Repository, order: seq<FileEntry>, after: Tree,
                        parse: string -> Option<Config>, cfg: Config)
    requires WellFormed(t) && repo.Valid()
    requires CreateRun(t, repo, order, Pass, after)
    requires parse(Prior(after, ConfigPath(repo.gitDir))) == Some(cfg)
    requires FormatVersion(cfg) == Some(IntVal(0))
    ensures Open(after, parse, repo.worktree, false) == Success(Repository(repo.worktree, repo.gitDir, Some(cfg)))
  {
    CreateLayout(t, repo, order, after);
    DefaultFileNames();
    var c :| c in DefaultFiles && c.name == "config";
    OpenLaidOut(after, repo, parse, cfg);
  }

  /** A directory worktree whose control directory holds a readable config opens exactly when its version checks out. */
  lemma OpenLaidOut(t: Tree, repo: Repository, parse: string -> Option<Config>, cfg: Config)
    requires repo.Valid() && IsDir(t, repo.worktree) && IsFile(t, ConfigPath(repo.gitDir))
    requires parse(t[ConfigPath(repo.gitDir)].content) == Some(cfg)
    ensures Open(t, parse, repo.worktree, false)
            == match CheckVersion(cfg)
               case Pass => Success(Repository(repo.worktree, repo.gitDir, Some(cfg)))
               case Fail(e) => Failure(e)
  {
  }

  /**
   * The other reading of the written config: if the reader hands
   * `repositoryformatversion = 0` over as text rather than as an integer,
   * as an INI reader that keeps every value as a string does, then opening
   * the repository `create` just wrote fails with "not integer".
   */
  lemma OpenAfterCreateTextVersion(t: Tree, repo: Repository, order: seq<FileEntry>, after: Tree,
                                   parse: string -> Option<Config>, cfg: Config)
    requires WellFormed(t) && repo.Valid()
    requires CreateRun(t, repo, order, Pass, after)
    requires parse(Prior(after, ConfigPath(repo.gitDir))) == Some(cfg)
    requires FormatVersion(cfg) == Some(OtherVal)
    ensures Open(after, parse, repo.worktree, false) == Failure(VersionNotInteger)
  {
    CreateLayout(t, repo, order, after);
    DefaultFileNames();
    var c :| c in DefaultFiles && c.name == "config";
    OpenLaidOut(after, repo, parse, cfg);
  }

  /** HEAD and config are among the default files. */
  lemma DefaultFileNames()
    ensures FileEntry("HEAD", "ref: refs/heads/master\n") in DefaultFiles
    ensures exists f | f in DefaultFiles :: f.name == "config"
  {
    assert FileEntry("config", "[core]\n\t\trepositoryformatversion = 0\n\t\tfilemode = false\n\t\tbare = false\n\t") in DefaultFiles;
  }
}
