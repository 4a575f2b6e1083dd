# gogit repository bootstrapper, modelled in Dafny

This project models `repository.go` of gogit, a small Git reimplementation. That file does two things. It opens an existing repository: it checks the worktree, finds the control directory and validates `core.repositoryformatversion` in its configuration. It also initialises a new repository: it makes the worktree an empty directory and lays down the control directory with its `branches`, `objects`, `refs`, `refs/tags` and `refs/heads` directories and its `description`, `HEAD` and `config` files.

The model has four files:

- **`wrappers.dfy`** holds `Option`, `Result` and `Outcome`. `Outcome` is a success or an error with no value, which stands for Go's `error`.
- **`filesystem.dfy`** holds the filesystem.
  - A path is a sequence of components. The tree maps each path to `Dir` or to `File(content)`, and every entry's parent is a directory.
  - The mutable filesystem is the class `Disk`, whose one field is that map. Its methods are the OS calls the source makes: `Stat`, `ReadDirNonEmpty`, `Mkdir`, `OpenForWrite` and `WriteAtStart`.
  - A write opens the file with `O_WRONLY|O_CREATE` and no `O_TRUNC`. It therefore overwrites the start of an existing file and keeps the rest (`Overlay`).
- **`repository.dfy`** holds the bootstrapper itself.
  - `Open` models `newRepository`. It is a function of a snapshot of the tree.
  - `CreateDirIfNeed`, `CreateFileWithWrite` and `Create` are methods on a `Disk`. Each is proved equal to a function of the old tree: `DirStep`, `FileStep`, and `CreateRun` built from `Prepare` and `WriteAll`.
  - The file loop of `create` is the method `WriteFiles`.
  - Go iterates a map in an unspecified order. The loop therefore picks the next entry with `:|`, and a ghost out-parameter `order` records the order actually taken.
- **`create_properties.dfy`** holds what is proved about `create` as a whole:
  - when it succeeds;
  - what it leaves on disk, including after a failure;
  - how it behaves on a fresh location;
  - that a repository it created can be opened again.

The control directory is `<filepath.Dir(worktree)>/.git/` (`repository.go:27`). It is therefore a **sibling** of the worktree, not a child: `create` on `/tmp/repo` writes `/tmp/.git/HEAD`. Descriptions of the tool that expect `/tmp/repo/.git/HEAD` disagree with the code. The model follows the code (`GitDirOf`).

The configuration reader (viper) is not modelled. In its place, `Open` and the lemmas about opening a created repository take a parameter `parse: string -> Option<Config>`, which turns the config file's bytes into sections of keys and values. Each value is either an integer or something else.

## Model

| member | source | states |
|---|---|---|
| FileSystem.Overlay | repository.go:91-95 | Writing `s` at offset 0 of a file opened without truncation yields a file that starts with `s`. Past `s`, it keeps the old characters, and its length is the larger of the two lengths. |
| FileSystem.Disk.Stat | repository.go:67-71 | `os.Stat` fails with "not a directory" in two cases: the path is absent and its nearest existing ancestor is a regular file, or the path names a regular file with a trailing slash. Otherwise it reports the node exactly when the path exists, with that node's kind, and fails with "does not exist" when it is absent. |
| FileSystem.Disk.ReadDirNonEmpty | repository.go:109-115 | For a directory, the listing is non-empty exactly when some entry has that directory as parent. |
| FileSystem.Disk.Mkdir | repository.go:72-75 | `os.Mkdir` succeeds exactly when the path is absent and its parent is a directory. On success it adds exactly that one directory; on failure nothing changes. The tree stays well formed. |
| FileSystem.Disk.OpenForWrite | repository.go:91-94 | Opening with `O_CREATE` succeeds exactly when the path is a file, or is absent under a directory. It creates an empty file only in the absent case and changes nothing else. |
| FileSystem.Disk.WriteAtStart | repository.go:95 | `WriteString` reports `len(s)` bytes written and replaces only that file's content, by the overlay of `s`. |
| Repository.GitDirOf | repository.go:27 | The control directory is the entry `.git` of the worktree's parent directory (`filepath.Dir`), so it is a sibling of the worktree. |
| Repository.CheckVersion | repository.go:50-60 | The version check passes exactly when `core.repositoryformatversion` is the integer 0. It fails with "not found" exactly when the key is absent, and with "not integer" exactly when it is present but not an integer. It fails with "unsupported" exactly when it is an integer other than 0, and that error carries the value. |
| Repository.ReadConfig | repository.go:45-49 | Reading the configuration succeeds exactly when the config path is a file that the reader parses. The result is what the reader returned; otherwise the error is "unreadable". |
| Repository.Open | repository.go:18-64 | `newRepository` fails with a stat error exactly when the path is absent. Without force it rejects a non-directory. With or without force, a config path blocked by a file fails its stat. Otherwise, without force, a missing config file is reported. Without force it succeeds exactly when the config reads and the version check passes, and then carries that config. With force it succeeds on every other existing path and reads no config. Any success has the given worktree and the sibling `.git` control directory. |
| Repository.OpenBlockedByControlFile | repository.go:37-40 | A regular file at `<parent>/.git` makes the config stat fail with "not a directory", and opening reports that failure with or without force. |
| Repository.DirStep | repository.go:66-87 | `createDirIfNeed` succeeds exactly when the path is already a directory, or is absent under a directory. A failure changes nothing. A stat failure is reported when a file stands in the path's way, or when the path is a file named with a trailing slash. Otherwise "not a directory" is reported when a file occupies the path, and "mkdir failed" otherwise. |
| Repository.DirStepOverFile | repository.go:66-84 | A file where a directory is wanted: `createDirIfNeed` fails with "not a directory" when the path has no trailing slash. With a trailing slash, as `gitDir` has (`repository.go:27`), the stat fails first and that stat error is returned. Nothing changes either way. |
| Repository.DirStepEffect | repository.go:66-87 | After `createDirIfNeed`, success holds exactly when the path is a directory. The tree gains at most that one path and changes no existing entry. A well-formed tree stays well formed. |
| Repository.CreateDirIfNeed | repository.go:66-87 | The method's result and new disk state are exactly those of `DirStep` on the old state, and the disk stays well formed. |
| Repository.CreateDirIfNeedIdempotent | repository.go:66-87 | A second `createDirIfNeed` on the same path changes nothing. It succeeds again after a success and fails the same way after a failure. |
| Repository.FileStep | repository.go:89-103 | `createFileWithWrite` succeeds exactly when the file can be opened for writing and the content is non-empty. |
| Repository.FileStepEffect | repository.go:89-103 | If the file cannot be opened, it fails with "open failed" and changes nothing. Empty content gives "zero bytes written". Once opened, the path is a file that starts with the content; a newly created file holds exactly the content. The tree gains at most that path, no other entry changes, and it stays well formed. |
| Repository.CreateFileWithWrite | repository.go:89-103 | The method's result and new disk state are exactly those of `FileStep` on the old state, with the file under the control directory, and the disk stays well formed. |
| Repository.DefaultFilesWellFormed | repository.go:128-136 | The three default files have distinct names and non-empty contents, so none of them can hit the zero-byte error. |
| Repository.MakeDirs | repository.go:121-126 | Running `createDirIfNeed` over a list of directories keeps every existing entry. It adds only directories, and only at the listed paths, and keeps the tree well formed. On success every listed path is a directory. |
| Repository.FirstFileAt | repository.go:121-126 | The index of the first listed path that is occupied by a file. No earlier listed path is a file. |
| Repository.MakeDirsOutcome | repository.go:121-126 | Suppose each listed path's parent exists or is created earlier in the list. Then the directory loop fails exactly at the first path occupied by a file, with "not a directory" for that path; if there is none, it succeeds. Either way, the tree afterwards is the old tree plus the directories before that point. |
| Repository.FirstDirAt | repository.go:137-141 | The index, in iteration order, of the first default file whose path is occupied by a directory. No earlier file's path is a directory. |
| Repository.WriteAllOutcome | repository.go:137-141 | The file loop fails exactly at the first file whose path is a directory, with "open failed" for that path; if there is none, it succeeds. It leaves the files before that point written over their old contents, and nothing else changed. |
| Repository.FileLoopStep | repository.go:137-141 | One iteration of the file loop, after some files are written, succeeds exactly when the new file's path was not a directory. On success, the written set grows by that file; on failure, nothing changes. |
| Repository.WriteAll | repository.go:137-141 | The file loop over a given iteration order applies `createFileWithWrite` to each entry in turn and stops at the first failure, keeping the tree as it stands then. Its outcome and effect are stated by `WriteAllOutcome`. |
| Repository.WriteFiles | repository.go:137-141 | The loop visits distinct files of the map, and all of them when it succeeds. Its result and new disk state are exactly the fold of `createFileWithWrite` over the order it took. |
| Repository.Prepare | repository.go:105-126 | The directory phase of `create`: the worktree step, the emptiness check, the slash-terminated control-directory step and the skeleton loop. It gives the first failure, with the tree at that point, or success and the tree after all five directories. Its properties are stated by `PrepareReady`, `PrepareNotReady`, `PrepareFrame`, `SkeletonOutcome` and `PrepareKeys`. |
| Repository.CreateRun | repository.go:105-144 | What a run of `create` does for a given iteration order of the file map. If `Prepare` fails, that failure and tree are the result. Otherwise the result is `WriteAll` over an order that lists distinct entries of the map, and all of them when it succeeds. |
| Repository.Create | repository.go:105-144 | `create` runs the worktree step, the emptiness check, the control-directory step, the five skeleton directories in order and then the file loop. It stops at the first failure without rolling back. Its result and new disk state are exactly `CreateRun` for the iteration order it took. |
| CreateProperties.NonEmptyWorktreeRefused | repository.go:109-115 | Initialising over a worktree directory that has entries fails with "not empty" and touches nothing. |
| CreateProperties.SkeletonParentsReady | repository.go:121-126 | In the listed order, every skeleton directory's parent is the control directory or a directory listed earlier. `refs` comes before `refs/tags` and `refs/heads`. |
| CreateProperties.ChildBeforeParentFails | repository.go:121-126 | The listed order matters: making `refs/tags` before `refs` in a fresh control directory fails with "mkdir failed" for `refs/tags`. |
| CreateProperties.PrepareReady | repository.go:105-126 | When the worktree is ready and no file occupies the control directory, the steps before the directory loop create exactly the worktree and control directories. They keep the tree well formed and add only directories. |
| CreateProperties.PrepareNotReady | repository.go:105-119 | If the worktree is neither an empty directory nor creatable, or a file occupies the control directory, `create` fails before the skeleton loop. The error is one of: the worktree's "not a directory", stat, "mkdir failed" or "not empty", or the control directory's stat failure. At most the worktree is added to the tree. |
| CreateProperties.ControlFileRefused | repository.go:105-119 | With a ready worktree and a regular file at the control directory, `create` makes the worktree a directory. It then fails with the stat error of the slash-terminated control directory, leaving the worktree in place. |
| CreateProperties.PrepareFrame | repository.go:105-126 | Whatever the outcome, the directory phase keeps every existing entry and adds only directories. A ready worktree is a directory afterwards. On success, the control directory and all five skeleton directories are directories. |
| CreateProperties.SkeletonOutcome | repository.go:117-126 | With a ready worktree and control directory, the directory phase succeeds exactly when no skeleton path is occupied by a file. |
| CreateProperties.FilePathsKeepKind | repository.go:121-141 | After a successful directory phase, a default file's path is a directory exactly when it already was one. The skeleton never creates a directory where a file goes. |
| CreateProperties.CreateSucceedsIff | repository.go:105-144 | `create` can succeed from a tree exactly when the worktree is empty or creatable and the control layout is free. No file may sit at the control directory or a skeleton path, and no directory at a default file's path. |
| CreateProperties.CreatePassIff | repository.go:105-144 | A run of `create`, in whatever map order, succeeds exactly when the layout condition holds. Whether it succeeds does not depend on the iteration order. Which error it reports, and which files are written before it, can. |
| CreateProperties.PrepareKeys | repository.go:105-126 | The directory phase adds no path other than the worktree, the control directory and the five skeleton directories. |
| CreateProperties.CreateKeys | repository.go:105-144 | Whatever the outcome, `create` adds no path other than the worktree, the control directory, the five skeleton directories and the three default files. |
| CreateProperties.CreateResult | repository.go:105-144 | `create` succeeds exactly when the worktree is ready and the layout is free. A ready worktree is a directory afterwards even if a later step failed. Every existing entry other than the three default files is unchanged. No path outside the layout is added. |
| CreateProperties.CreateLayout | repository.go:105-144 | After a successful `create`, the worktree, the control directory and the five skeleton directories are directories. Each default file holds its content written over any file that was there before. |
| CreateProperties.CreateFresh | repository.go:105-144 | Where no control directory exists yet and the worktree is ready, `create` succeeds. The new tree is the old one plus exactly the layout: the worktree, the control directory, five directories and three files. Each default file holds exactly its content, `HEAD` is `ref: refs/heads/master\n`, and `refs/heads` is empty. |
| CreateProperties.LayoutKeys | repository.go:105-144 | A tree that keeps every old path, adds nothing outside the layout and has every layout path has exactly the old paths plus the layout. |
| CreateProperties.FreshRefsHeadsEmpty | repository.go:121-141 | When no control directory existed before, nothing outside the layout was added, so `refs/heads` has no entries. |
| CreateProperties.OpenLaidOut | repository.go:37-63 | When the worktree is a directory and its config file parses, opening without force gives exactly the version check's verdict. On success it returns that config. |
| CreateProperties.OpenAfterCreate | repository.go:18-64 | After a successful `create`, `newRepository` without force opens the same worktree and control directory. This holds whenever the reader yields version 0 for the written config. |
| CreateProperties.OpenAfterCreateTextVersion | repository.go:50-57 | After a successful `create`, a reader that hands the written `repositoryformatversion = 0` over as text makes `newRepository` without force fail with "not integer". |

## Left out

- **Other OS faults.** Stat failures are modelled only as "does not exist" or "not a directory"; permission and I/O faults are left out (`repository.go:20`, `38-40`, `69-71`). The model has no permissions, and its tree cannot fault.
- **chmod and permissions.** `os.Chmod` (`repository.go:76-79`) and the modes `0755`/`0777` are not modelled: the model has no permission bits, so chmod cannot fail.
- **ReadDir errors.** The `ioutil.ReadDir` error (`repository.go:110-112`) is not modelled. At that point the worktree is a directory, and listing a directory cannot fail in the model.
- FileSystem.Overlay and FileSystem.Disk.WriteAtStart overwrite characters, not bytes. File content is a sequence of characters, while Go's `WriteString` writes the UTF-8 bytes of the string at offset 0.
  - The results differ only when an existing file at a default path has non-ASCII text in the bytes being overwritten. There the source can split a multi-byte character; the model replaces whole characters.
  - All three default contents are ASCII.
- **Write errors.** A `WriteString` error (`repository.go:96-98`) is not modelled: an in-memory write of `s` always writes `len(s)` bytes. Only the zero-byte check (`99-101`) is reachable, and only for empty content.
- **The unclosed file.** The handle opened at `repository.go:91` is never closed, and the model has no handles.
- **The configuration reader.** Viper is not modelled: its global singleton, which accumulates search paths across calls, its INI parsing, the case folding of keys and its typing of values. The parameter `parse` stands for it.
  - The source reads the config with viper's INI decoder (`repository.go:28-29`). As far as is known, that decoder keeps every value as a string. If so, the check `version.(int)` at `repository.go:54` fails on the file `create` writes, and the program rejects its own new repository with "not integer". This is not executed.
  - The model leaves the reading open. `OpenAfterCreate` states the round trip for a reader that yields the integer 0. `OpenAfterCreateTextVersion` states the "not integer" failure for a reader that yields text.
- **Error text.** Error message text and `%w` wrapping are not modelled. Each error is one constructor of `Error`, and the wrapping in `create` adds nothing.
- **Path strings.** Paths are absolute component sequences. String handling such as `filepath.Dir` on relative paths, `.` and `..` is not modelled. `gitDir + fileName` becomes appending one component.
  - The one trailing slash that matters is modelled: the one `gitDir` carries (`repository.go:27`). The flag `dirSyntax` of `Stat`, `DirStep` and `CreateDirIfNeed` marks it. A worktree path given with a trailing slash is not modelled.
- **Concurrency.** Races between the stat and the mkdir or open are not modelled, and neither are other processes changing the tree.
- **Other files.** The command-line entry points (`main.go`, `cmd/`) are not part of this model.
- **Integers.** The version is compared as a mathematical integer, because a Go `int` that reaches the comparison cannot overflow.
