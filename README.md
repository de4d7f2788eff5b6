# git-hooked: hook installation, modelled in Dafny

git-hooked links the git hooks kept under version control in
`<root>/git_hooks/` into the directory git runs them from,
`<root>/.git/hooks/`. Each configured hook carries three flags. `create` says
whether to install it at all. `force` allows overwriting a file, a directory
or a working link at the destination. `relink` allows overwriting a dangling
link. This project models three parts of the program:

- the classifier that reports the state of a path (`visit_path` and its copy
  `inspect_hook_destination`);
- the installer (`install_hook`, `create_symlink`) and the `hook` command,
  which runs the installer over the configured hooks in order;
- the flag parser `parse_bool`.

The filesystem is a finite map from paths to entries: `File`, `Dir`,
`Link(target)` or `Other`. A path is the sequence of its components. The
`std::fs` calls the installer makes (`read_link`, `metadata`, `remove_file`,
`remove_dir`, `symlink`) are functions of that map in `fs.dfy`. The class
`FsModel.FileSystem` holds the map and performs the calls that change it.
Each call either fails and changes nothing, or makes exactly its change.

Lookups walk the path the way the kernel does (`FsModel.Locate`). Each
earlier component must be a directory. A link found there is replaced by its
target, and the walk goes on from there. A missing component gives
`NotFound`, a component that is neither a directory nor a link gives
`NotADirectory`, and a walk that follows more than Linux's 40 links gives
`FilesystemLoop`. `symlink_metadata` (lstat) stops at the last component;
`read_link` reads the link found there. `metadata` also follows a link in
the last component, and so on through every target. `Path::exists` is
"`metadata` succeeds". `remove_dir` refuses a directory that has anything
below it. `symlink` needs every earlier component of the destination to be a
directory, and the destination to be free.

`install_hook` and the `hook` command are methods that change the
filesystem. Each is proved against a function giving the result and the
filesystem afterwards (`InstallHookEffect`, `InstallHooksEffect`). The
properties are lemmas about those functions, in `hook_properties.dfy`.

Files: `results.dfy` (the `Result` type), `fs.dfy` (filesystem),
`path_utils.dfy` (`src/path_utils.rs`), `hook.dfy` (`src/hook.rs`),
`hook_properties.dfy` (what `src/hook.rs` promises), `cli.dfy`
(`parse_bool` from `src/main.rs`).

## Model

| member | source | states |
|---|---|---|
| `FsModel.Locate` | src/path_utils.rs:21 | the walk along a path succeeds only at a place every earlier component of which is a directory, and spends no more links than it was given; a path reached through directories alone is found where it is written |
| `FsModel.SymlinkMetadata` | src/path_utils.rs:21 | lstat of a path reached through directories alone is the entry stored under it, `NotFound` when there is none |
| `FsModel.ReadLink` | src/path_utils.rs:21 | `read_link` succeeds exactly where lstat finds a symbolic link, and returns its target |
| `FsModel.Metadata` | src/path_utils.rs:29 | `metadata` fails wherever lstat fails, and agrees with it on a file, a directory or anything else; for a link reached through directories whose target is also reached through directories, it reports the target's type, or `NotFound` for a dangling target |
| `FsModel.Exists` | src/path_utils.rs:23 | `Path::exists` holds only where lstat finds something |
| `FsModel.WalkError` | src/hook.rs:172 | the walk to a path is clear exactly when every earlier component is a directory; otherwise it gives `NotADirectory` exactly when the first earlier component that is not a directory exists, and `NotFound` exactly when that component is missing |
| `FsModel.RemoveFileOp` | src/hook.rs:125 | `remove_file` succeeds exactly on a non-directory reached through directories; it then removes that one entry, and on failure nothing changes |
| `FsModel.RemoveDirOp` | src/hook.rs:137 | `remove_dir` succeeds exactly on an empty directory reached through directories; it then removes that one entry, and on failure nothing changes |
| `FsModel.SymlinkOp` | src/hook.rs:172 | `symlink` succeeds exactly when the destination is non-empty, reached through directories and free; it then adds one link and changes nothing else; on failure nothing changes |
| `FsModel.WellFormedAncestors` | src/hook.rs:172 | in a tree every entry is reached through directories alone |
| `FsModel.RemoveFilePreservesWellFormed` | src/hook.rs:125 | `remove_file` keeps the filesystem a tree |
| `FsModel.RemoveDirPreservesWellFormed` | src/hook.rs:137 | `remove_dir` keeps the filesystem a tree, because it only removes an empty directory |
| `FsModel.SymlinkPreservesWellFormed` | src/hook.rs:172 | `symlink` keeps the filesystem a tree |
| `FsModel.FileSystem.RemoveFile` | src/hook.rs:125 | the unlink call: the walk's error, then `NotFound` on an absent path, `IsADirectory` on a directory, otherwise the entry is removed |
| `FsModel.FileSystem.RemoveDir` | src/hook.rs:137 | the rmdir call: the walk's error, then `NotFound`, `NotADirectory`, `DirectoryNotEmpty`, otherwise the empty directory is removed |
| `FsModel.FileSystem.Symlink` | src/hook.rs:172 | the symlink call: `NotFound` on an empty destination, then the walk's error (`NotADirectory` when `.git` is a file, `NotFound` when a component is missing), `AlreadyExists` on an occupied destination, otherwise exactly one link is added |
| `PathUtils.VisitPath` | src/path_utils.rs:20-42 | the six states against what lstat finds at the destination, each as an if-and-only-if: a link whose target resolves (through links in any of its components) is `ExistingLink` whatever the target is; a dangling link is `InvalidLink`; otherwise file, directory or anything else gives `ExistingFile`, `ExistingDir` or `Unknown`; a failed lookup is `NonExisting`; exactly one holds; total, and reads only |
| `PathUtils.VisitPathThroughDirectories` | src/path_utils.rs:20-42 | for a destination reached through directories alone, the six states are read off the entry stored under it |
| `PathUtils.TargetThroughLinkedDirectory` | src/path_utils.rs:21-24 | a link `/d -> /s/x` with `/s -> /t` and `/t/x` a file is a working link: `/s/x` exists and `/d` is `ExistingLink` |
| `Hooks.DefaultCreate` | src/hook.rs:33-35 | a hook entry without `create` is installed: the default is `true` |
| `Hooks.DefaultForce` | src/hook.rs:37-39 | a hook entry without `force` never overwrites: the default is `false` |
| `Hooks.DefaultRelink` | src/hook.rs:41-43 | a hook entry without `relink` overwrites dangling links: the default is `true` |
| `Hooks.DefaultHook` | src/hook.rs:20-31 | an entry with only its name set takes the three defaults |
| `Hooks.HookSourcePath` | src/hook.rs:202-209 | the source of a hook is `<root>/git_hooks/<snake-cased name>` |
| `Hooks.HookDestinationPath` | src/hook.rs:211-219 | the destination of a hook is `<root>/.git/hooks/<snake-cased name>` |
| `Hooks.InspectHookDestination` | src/hook.rs:178-200 | classifies every path exactly as `visit_path` does, `None` standing for `NonExisting` |
| `Hooks.InstallHookEffect` | src/hook.rs:107-167 | the result and filesystem of `install_hook`: skip when `create` is off; link a free destination; with `force` remove a file, a working link or a directory, with `relink` remove a dangling link, then link; leave anything else; the first failed call is the result |
| `Hooks.InstallHooksEffect` | src/hook.rs:93-105 | the result and filesystem of the `hook` command: `install_hook` on each entry in order, stopping at the first error |
| `Hooks.CreateSymlink` | src/hook.rs:169-175 | makes the `symlink` call from source to destination and returns its result |
| `Hooks.InstallHook` | src/hook.rs:107-167 | result and new filesystem are those of `InstallHookEffect`: classify the destination, then link, remove and link, or leave it; `?` stops at a failed removal or link |
| `Hooks.InstallHooks` | src/hook.rs:93-105 | result and new filesystem are those of `InstallHooksEffect`: `install_hook` on each entry in order, stopping at the first error |
| `HookProperties.HookPathsLayout` | src/hook.rs:202-219 | source is `root/git_hooks/n` and destination `root/.git/hooks/n`: same root, same final component, never the same path |
| `HookProperties.DistinctNamesDistinctPaths` | src/hook.rs:202-219 | hooks with different file names get different sources and different destinations |
| `HookProperties.CreateDisabledChangesNothing` | src/hook.rs:159-166 | with `create` off, the filesystem is unchanged and the result is `Ok` |
| `HookProperties.FreeDestinationGetsLink` | src/hook.rs:115-118 | where lstat finds nothing, the destination gets `Link(source)` and nothing else changes, whatever `force`/`relink` say and whether or not the source exists; it fails, changing nothing, unless `<root>`, `.git` and `.git/hooks` are directories |
| `HookProperties.RelinkOverwrites` | src/hook.rs:125-126 | a successful removal followed by the link amounts to overwriting the destination with the link |
| `HookProperties.OccupiedByFileOrLink` | src/hook.rs:121-130 | a file or working link is replaced by `Link(source)` with `force`; without it nothing changes and the result is still `Ok` |
| `HookProperties.OccupiedByDir` | src/hook.rs:133-142 | a directory is left alone without `force`; with `force` an empty one is replaced by the link and a non-empty one gives `DirectoryNotEmpty` with nothing changed |
| `HookProperties.DanglingLinkFollowsRelink` | src/hook.rs:145-154 | a dangling link is replaced exactly when `relink` is set, and flipping `force` changes nothing |
| `HookProperties.UnknownChangesNothing` | src/hook.rs:155-157 | an `Unknown` destination is never changed, whatever the flags, and the result is `Ok` |
| `HookProperties.InstallHookFrame` | src/hook.rs:107-175 | a call leaves the filesystem alone or puts `Link(source)` at the destination; in the model, where `symlink` never fails for operating-system reasons, a failed call changes nothing |
| `HookProperties.InstallHookPreservesWellFormed` | src/hook.rs:107-167 | `install_hook` keeps the filesystem a tree |
| `HookProperties.ReinstallOverOwnLink` | src/hook.rs:121-154 | over the link it made itself, `install_hook` returns `Ok` and changes nothing, whatever the flags |
| `HookProperties.InstallHookIdempotent` | src/hook.rs:107-167 | a second identical call gives the first call's result and filesystem |
| `HookProperties.DefaultHookKeepsOccupiedDestinations` | src/hook.rs:33-43 | with the defaults (`create` on, `force` off, `relink` on), a free destination or a dangling link gets the link and any other occupant is kept |
| `HookProperties.GitFileBlocksInstall` | src/hook.rs:172 | when `.git` is a file, as in a linked worktree, `install_hook` returns `NotADirectory` and changes nothing |
| `HookProperties.InstallHooksAppend` | src/hook.rs:100-102 | hooks run in order: a list made of two parts runs the first part, then, unless it failed, the second on what the first left |
| `HookProperties.FailureStopsTheRun` | src/hook.rs:100-102 | once a hook fails, the run returns that failure and the later hooks are not run |
| `HookProperties.InstallHooksFrame` | src/hook.rs:93-105 | the run changes nothing outside the destinations of the entries with `create` on |
| `HookProperties.InstallHooksPreservesWellFormed` | src/hook.rs:93-105 | the run keeps the filesystem a tree |
| `HookProperties.SkippedHooksChangeNothing` | src/hook.rs:108 | dropping the entries with `create` off changes neither the result nor the filesystem |
| `Cli.BoolFromStr` | src/main.rs:20 | `bool::from_str` accepts exactly `"true"` and `"false"` |
| `Cli.ParseBool` | src/main.rs:16-22 | `"1"` and `"true"` give `Ok(true)`, `"0"` and `"false"` give `Ok(false)`, every other string gives `Err` |

## Left out

- The configuration loader (`src/config.rs`) is not part of this model. It reads a TOML file through serde. The hook list is an input sequence instead. The `hook` command reads `config.hooks`, but `Config` in `src/config.rs` declares only a `test` field.
- The git calls in `src/git.rs` (`git_root_path`, `git_create_backup`) and the `git_symlink_hooks` stub are not part of this model. The repository root is an input string, taken as one opaque path component.
- The snake-casing of hook names by the `heck` crate, after `arg_enum`'s `to_string`, is a parameter `snake: HookType -> string`. Facts that need distinct file names assume them.
- Command-line parsing, the logger, timing and the `HookArg` enum of `src/main.rs`, and every log message, including their wording.
- HookProperties.InstallHookFrame: a `symlink` that fails for an operating-system reason (ENOSPC, EIO, or an entry reappearing at the destination) after the removal succeeded is not modelled. "A failed call changes nothing" therefore holds of the model only. The program can return the error with the destination already deleted.
- Permission and other operating-system errors (EACCES, EBUSY, EROFS). Because of this, `remove_file` on a path just classified as a file or link, and reached through directories alone, never fails in the model.
- Link targets are taken as paths from the filesystem root. Resolving relative targets against the current directory is not modelled.
- FsModel.RemoveFileOp, FsModel.RemoveDirOp, FsModel.SymlinkOp: these calls take the destination as written and do not follow a link among its earlier components; the lookups (`read_link`, `metadata`, lstat) do. When `<root>`, `.git` or `.git/hooks` is itself a link, the model therefore classifies the place the link leads to but reports `NotADirectory` from the call that would change it, where the program changes the entry behind the link. So with `.git/hooks` a link to a directory, the `hook` command stops with `NotADirectory` at the first entry with `create` on and changes nothing, where the program installs every hook in that directory.
- Races between inspecting the destination and changing it: the model is sequential.
- `inspect_hook_destination`, `visit_path`, `hook_source_path` and `hook_destination_path` return `Result`s that are always `Ok`. They are modelled as total functions.
- Errors are `std::io::ErrorKind`s, not the `failure::Error` that wraps them.
- The pull/relocate direction, per-hook outcome reports, a fail-soft loop and telling permission errors apart from absence do not exist in `src/`. The model follows the code: fail-fast `try_for_each`, and every `metadata` failure read as absence.
