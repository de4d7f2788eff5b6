/** The hook installer of `src/hook.rs`: for every configured hook, link
    `<root>/.git/hooks/<name>` to `<root>/git_hooks/<name>`. */
module Hooks {
  import opened Results
  import opened FsModel
  import PathUtils

  /** The git hook points a configuration entry may name. */
  datatype HookType =
    | ApplypatchMsg | PreApplypatch | PostApplypatch | PreCommit | PreMergeCommit
    | PrepareCommitMsg | CommitMsg | PostCommit | PreRebase | PostCheckout
    | PostMerge | PrePush | PreReceive | Update | PostReceive | PostUpdate
    | ReferenceTransaction | PushToCheckout | PreAutoGc | PostRewrite
    | SendemailValidate | FsmonitorWatchman | P4Changelist | P4PrepareChangelist
    | P4PostChangelist | P4PreSubmit | PostIndexChange

  /** One configuration entry: which hook, and the policy for installing it.
      `create`: install it at all; `force`: overwrite a file, directory or
      working link at the destination; `relink`: overwrite a dangling link. */
  datatype Hook = Hook(name: HookType, create: bool, force: bool, relink: bool)

  function DefaultCreate(): bool { true }
  function DefaultForce(): bool { false }
  function DefaultRelink(): bool { true }

  /** The entry a configuration yields when it gives only the hook's name. */
  function DefaultHook(name: HookType): Hook
  {
    Hook(name, DefaultCreate(), DefaultForce(), DefaultRelink())
  }

  /** The state of a hook destination, as `inspect_hook_destination` reports it. */
  datatype HookState = ExistingFile | ExistingDir | ExistingLink | InvalidLink | Unknown | None

  function AsHookState(r: PathUtils.PathResult): HookState
  {
    match r
    case ExistingFile => ExistingFile
    case ExistingDir => ExistingDir
    case ExistingLink => ExistingLink
    case InvalidLink => InvalidLink
    case Unknown => Unknown
    case NonExisting => None
  }

  /** `inspect_hook_destination`, the installer's own copy of `visit_path`:
      it classifies every filesystem exactly as `visit_path` does. */
  function InspectHookDestination(m: Entries, destination: Path): (r: HookState)
    ensures r == AsHookState(PathUtils.VisitPath(m, destination))
  {
    match ReadLink(m, destination)
    case Ok(path) =>
      if Exists(m, path) then ExistingLink else InvalidLink
    case Err(_) =>
      match Metadata(m, destination)
      case Ok(metadata) =>
        if metadata == RegularFile then ExistingFile
        else if metadata == Directory then ExistingDir
        else Unknown
      case Err(_) => None
  }

  /** `<root>/git_hooks/<snake(name)>`. `snake` stands for the snake-casing
      of the hook's name. */
  function HookSourcePath(root: string, hook: Hook, snake: HookType -> string): Path
  {
    [root, "git_hooks", snake(hook.name)]
  }

  /** `<root>/.git/hooks/<snake(name)>`. */
  function HookDestinationPath(root: string, hook: Hook, snake: HookType -> string): Path
  {
    [root, ".git", "hooks", snake(hook.name)]
  }

  /** A removal followed, if it succeeded, by the link: the `?` after
      `remove_file`/`remove_dir` stops at the removal's error. */
  function ReplaceWithLink(removal: Effect, source: Path, destination: Path): Effect
  {
    if removal.result.Err? then removal else SymlinkOp(removal.fs, source, destination)
  }

  /** What `install_hook` does to the filesystem and what it returns.
      Refusals are logged and return `Ok`. */
  function InstallHookEffect(m: Entries, root: string, hook: Hook, snake: HookType -> string): Effect
  {
    if !hook.create then Effect(Ok(()), m)
    else
      var source := HookSourcePath(root, hook, snake);
      var destination := HookDestinationPath(root, hook, snake);
      match InspectHookDestination(m, destination)
      case None => SymlinkOp(m, source, destination)
      case ExistingFile | ExistingLink =>
        if hook.force then ReplaceWithLink(RemoveFileOp(m, destination), source, destination)
        else Effect(Ok(()), m)
      case ExistingDir =>
        if hook.force then ReplaceWithLink(RemoveDirOp(m, destination), source, destination)
        else Effect(Ok(()), m)
      case InvalidLink =>
        if hook.relink then ReplaceWithLink(RemoveFileOp(m, destination), source, destination)
        else Effect(Ok(()), m)
      case Unknown => Effect(Ok(()), m)
  }

  /** What the `hook` command does: `install_hook` on each entry in order,
      stopping at the first error (`try_for_each`). */
  function InstallHooksEffect(m: Entries, root: string, hooks: seq<Hook>, snake: HookType -> string): Effect
    decreases |hooks|
  {
    if hooks == [] then Effect(Ok(()), m)
    else
      var first := InstallHookEffect(m, root, hooks[0], snake);
      if first.result.Err? then first
      else InstallHooksEffect(first.fs, root, hooks[1..], snake)
  }

  /** `create_symlink`: a link at `destination` whose target is `source`. */
  method CreateSymlink(fs: FileSystem, source: Path, destination: Path) returns (r: Result<(), IoError>)
    modifies fs
    ensures Effect(r, fs.entries) == SymlinkOp(old(fs.entries), source, destination)
  {
    r := fs.Symlink(source, destination);
  }

  /** `install_hook`. */
  method InstallHook(fs: FileSystem, root: string, hook: Hook, snake: HookType -> string)
    returns (r: Result<(), IoError>)
    modifies fs
    ensures Effect(r, fs.entries) == InstallHookEffect(old(fs.entries), root, hook, snake)
  {
    if hook.create {
      var source := HookSourcePath(root, hook, snake);
      var destination := HookDestinationPath(root, hook, snake);
      var state := InspectHookDestination(fs.entries, destination);
      match state {
        case None =>
          r := CreateSymlink(fs, source, destination);
          return;
        case ExistingFile | ExistingLink =>
          if hook.force {
            r := fs.RemoveFile(destination);
            if r.Err? { return; }
            r := CreateSymlink(fs, source, destination);
            return;
          }
        case ExistingDir =>
          if hook.force {
            r := fs.RemoveDir(destination);
            if r.Err? { return; }
            r := CreateSymlink(fs, source, destination);
            return;
          }
        case InvalidLink =>
          if hook.relink {
            r := fs.RemoveFile(destination);
            if r.Err? { return; }
            r := CreateSymlink(fs, source, destination);
            return;
          }
        case Unknown =>
      }
    }
    r := Ok(());
  }

  /** The `hook` command, given the repository root and the configured hooks. */
  method InstallHooks(fs: FileSystem, root: string, hooks: seq<Hook>, snake: HookType -> string)
    returns (r: Result<(), IoError>)
    modifies fs
    ensures Effect(r, fs.entries) == InstallHooksEffect(old(fs.entries), root, hooks, snake)
  {
    var i := 0;
    while i < |hooks|
      invariant 0 <= i <= |hooks|
      invariant InstallHooksEffect(old(fs.entries), root, hooks, snake)
                == InstallHooksEffect(fs.entries, root, hooks[i..], snake)
    {
      assert hooks[i..][1..] == hooks[i + 1..];
      r := InstallHook(fs, root, hooks[i], snake);
      if r.Err? { return; }
      i := i + 1;
    }
    r := Ok(());
  }
}
