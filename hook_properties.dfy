/** What `install_hook` and the `hook` command promise, proved about their
    effect functions (and so, through the methods' postconditions, about the
    methods themselves). */
module HookProperties {
  import opened Results
  import opened FsModel
  import opened Hooks

  /** Both paths are built from the root and the snake-cased name: they
      share the root and the final component and never coincide. */
  lemma HookPathsLayout(root: string, hook: Hook, snake: HookType -> string)
    ensures var source := HookSourcePath(root, hook, snake);
            var destination := HookDestinationPath(root, hook, snake);
            && source != destination
            && source[0] == destination[0] == root
            && source[|source| - 1] == destination[|destination| - 1] == snake(hook.name)
            && Parent(destination) == [root, ".git", "hooks"]
  {
  }

  /** Hooks whose file names differ are installed at different places. */
  lemma DistinctNamesDistinctPaths(root: string, a: Hook, b: Hook, snake: HookType -> string)
    requires snake(a.name) != snake(b.name)
    ensures HookDestinationPath(root, a, snake) != HookDestinationPath(root, b, snake)
    ensures HookSourcePath(root, a, snake) != HookSourcePath(root, b, snake)
  {
  }

  /** With `create` off the hook is skipped: nothing changes and the call succeeds. */
  lemma CreateDisabledChangesNothing(m: Entries, root: string, hook: Hook, snake: HookType -> string)
    requires !hook.create
    ensures InstallHookEffect(m, root, hook, snake) == Effect(Ok(()), m)
  {
  }

  /** A destination where nothing is found receives the link, whatever
      `force` and `relink` say and whether or not the source exists; the
      link can only be made when `<root>`, `.git` and `.git/hooks` are
      directories, and otherwise the error is returned and nothing changes. */
  lemma FreeDestinationGetsLink(m: Entries, root: string, hook: Hook, snake: HookType -> string)
    requires hook.create
    requires SymlinkMetadata(m, HookDestinationPath(root, hook, snake)).Err?
    ensures var source := HookSourcePath(root, hook, snake);
            var destination := HookDestinationPath(root, hook, snake);
            var e := InstallHookEffect(m, root, hook, snake);
            && (e.result.Ok? <==> AncestorsAreDirs(m, destination))
            && e.fs == if AncestorsAreDirs(m, destination) then m[destination := Link(source)] else m
  {
  }

  /** Removing the destination and linking it again amounts to overwriting it. */
  lemma RelinkOverwrites(m: Entries, source: Path, destination: Path)
    requires |destination| > 0
    requires RemoveFileOp(m, destination).result.Ok? || RemoveDirOp(m, destination).result.Ok?
    ensures RemoveFileOp(m, destination).result.Ok?
            ==> ReplaceWithLink(RemoveFileOp(m, destination), source, destination)
                == Effect(Ok(()), m[destination := Link(source)])
    ensures RemoveDirOp(m, destination).result.Ok?
            ==> ReplaceWithLink(RemoveDirOp(m, destination), source, destination)
                == Effect(Ok(()), m[destination := Link(source)])
  {
    var removed := m - {destination};
    assert AncestorsAreDirs(removed, destination) by {
      forall k | 1 <= k < |destination|
        ensures destination[..k] in removed && removed[destination[..k]] == Dir
      {
        assert |destination[..k]| < |destination|;
      }
    }
    assert removed[destination := Link(source)] == m[destination := Link(source)];
  }

  /** A regular file or a working link is overwritten only with `force`;
      without it the call leaves it alone and still succeeds. */
  lemma OccupiedByFileOrLink(m: Entries, root: string, hook: Hook, snake: HookType -> string)
    requires hook.create && AncestorsAreDirs(m, HookDestinationPath(root, hook, snake))
    requires var destination := HookDestinationPath(root, hook, snake);
             destination in m
             && (m[destination] == File || (m[destination].Link? && Exists(m, m[destination].target)))
    ensures var source := HookSourcePath(root, hook, snake);
            var destination := HookDestinationPath(root, hook, snake);
            InstallHookEffect(m, root, hook, snake)
              == if hook.force then Effect(Ok(()), m[destination := Link(source)]) else Effect(Ok(()), m)
  {
  }

  /** A directory is overwritten only with `force`, and only when it is
      empty: `remove_dir` refuses a directory with anything in it, and that
      error is returned with nothing changed. */
  lemma OccupiedByDir(m: Entries, root: string, hook: Hook, snake: HookType -> string)
    requires hook.create && AncestorsAreDirs(m, HookDestinationPath(root, hook, snake))
    requires HookDestinationPath(root, hook, snake) in m
    requires m[HookDestinationPath(root, hook, snake)] == Dir
    ensures var source := HookSourcePath(root, hook, snake);
            var destination := HookDestinationPath(root, hook, snake);
            InstallHookEffect(m, root, hook, snake)
              == if !hook.force then Effect(Ok(()), m)
                 else if HasEntriesWithin(m, destination) then Effect(Err(DirectoryNotEmpty), m)
                 else Effect(Ok(()), m[destination := Link(source)])
  {
  }

  /** A dangling link is overwritten exactly when `relink` is set; `force`
      plays no part in this case. */
  lemma DanglingLinkFollowsRelink(m: Entries, root: string, hook: Hook, snake: HookType -> string)
    requires hook.create && AncestorsAreDirs(m, HookDestinationPath(root, hook, snake))
    requires var destination := HookDestinationPath(root, hook, snake);
             destination in m && m[destination].Link? && !Exists(m, m[destination].target)
    ensures var source := HookSourcePath(root, hook, snake);
            var destination := HookDestinationPath(root, hook, snake);
            InstallHookEffect(m, root, hook, snake)
              == if hook.relink then Effect(Ok(()), m[destination := Link(source)]) else Effect(Ok(()), m)
    ensures InstallHookEffect(m, root, hook, snake)
              == InstallHookEffect(m, root, hook.(force := !hook.force), snake)
  {
  }

  /** Something that is neither file, directory nor link is never touched. */
  lemma UnknownChangesNothing(m: Entries, root: string, hook: Hook, snake: HookType -> string)
    requires SymlinkMetadata(m, HookDestinationPath(root, hook, snake)) == Ok(Other)
    ensures InstallHookEffect(m, root, hook, snake) == Effect(Ok(()), m)
  {
  }

  /** One call touches the destination and nothing else: it leaves the
      filesystem alone or puts the link there. In this model a removal that
      succeeds is always followed by a link that succeeds, because `symlink`
      fails only on the conditions the model knows; so a failed call changes
      nothing here, although the program's replacement is not atomic. */
  lemma InstallHookFrame(m: Entries, root: string, hook: Hook, snake: HookType -> string)
    ensures var source := HookSourcePath(root, hook, snake);
            var destination := HookDestinationPath(root, hook, snake);
            var e := InstallHookEffect(m, root, hook, snake);
            e.fs == m || e.fs == m[destination := Link(source)]
    ensures var e := InstallHookEffect(m, root, hook, snake);
            e.result.Err? ==> e.fs == m
  {
    var source := HookSourcePath(root, hook, snake);
    var destination := HookDestinationPath(root, hook, snake);
    if RemoveFileOp(m, destination).result.Ok? || RemoveDirOp(m, destination).result.Ok? {
      RelinkOverwrites(m, source, destination);
    }
  }

  /** `install_hook` keeps the filesystem a tree. */
  lemma InstallHookPreservesWellFormed(m: Entries, root: string, hook: Hook, snake: HookType -> string)
    requires WellFormed(m)
    ensures WellFormed(InstallHookEffect(m, root, hook, snake).fs)
  {
    var source := HookSourcePath(root, hook, snake);
    var destination := HookDestinationPath(root, hook, snake);
    if hook.create {
      match InspectHookDestination(m, destination)
      case None =>
        SymlinkPreservesWellFormed(m, source, destination);
      case ExistingFile | ExistingLink | InvalidLink =>
        RemoveFilePreservesWellFormed(m, destination);
        SymlinkPreservesWellFormed(RemoveFileOp(m, destination).fs, source, destination);
      case ExistingDir =>
        RemoveDirPreservesWellFormed(m, destination);
        SymlinkPreservesWellFormed(RemoveDirOp(m, destination).fs, source, destination);
      case Unknown =>
    }
  }

  /** Installing over the link the installer itself made returns `Ok` and
      leaves the filesystem as it is, whatever the flags. */
  lemma ReinstallOverOwnLink(m: Entries, root: string, hook: Hook, snake: HookType -> string)
    requires var destination := HookDestinationPath(root, hook, snake);
             && destination in m && m[destination] == Link(HookSourcePath(root, hook, snake))
             && AncestorsAreDirs(m, destination)
    ensures InstallHookEffect(m, root, hook, snake) == Effect(Ok(()), m)
  {
    var source := HookSourcePath(root, hook, snake);
    var destination := HookDestinationPath(root, hook, snake);
    var removed := m - {destination};
    assert AncestorsAreDirs(removed, destination) by {
      forall k | 1 <= k < |destination|
        ensures destination[..k] in removed && removed[destination[..k]] == Dir
      {
        assert |destination[..k]| < |destination|;
      }
    }
    assert removed[destination := Link(source)] == m;
  }

  /** Running `install_hook` a second time with the same entry repeats the
      first call's result and changes nothing more. */
  lemma InstallHookIdempotent(m: Entries, root: string, hook: Hook, snake: HookType -> string)
    ensures var first := InstallHookEffect(m, root, hook, snake);
            InstallHookEffect(first.fs, root, hook, snake) == first
  {
    var source := HookSourcePath(root, hook, snake);
    var destination := HookDestinationPath(root, hook, snake);
    var first := InstallHookEffect(m, root, hook, snake);
    InstallHookFrame(m, root, hook, snake);
    if first.fs != m {
      assert first.fs == m[destination := Link(source)];
      assert AncestorsAreDirs(first.fs, destination) by {
        var before := if RemoveFileOp(m, destination).result.Ok? then RemoveFileOp(m, destination).fs
                      else if RemoveDirOp(m, destination).result.Ok? then RemoveDirOp(m, destination).fs
                      else m;
        assert SymlinkOp(before, source, destination).result.Ok?;
        forall k | 1 <= k < |destination|
          ensures destination[..k] in first.fs && first.fs[destination[..k]] == Dir
        {
          assert |destination[..k]| < |destination|;
        }
      }
      ReinstallOverOwnLink(first.fs, root, hook, snake);
    }
  }

  /** With nothing but the hook's name configured, a free destination or a
      dangling link gets the link and every other occupant is kept. */
  lemma DefaultHookKeepsOccupiedDestinations(m: Entries, root: string, name: HookType, snake: HookType -> string)
    requires WellFormed(m)
    ensures var hook := DefaultHook(name);
            var source := HookSourcePath(root, hook, snake);
            var destination := HookDestinationPath(root, hook, snake);
            var dangling := destination in m && m[destination].Link? && !Exists(m, m[destination].target);
            var e := InstallHookEffect(m, root, hook, snake);
            && (destination in m && !dangling ==> e == Effect(Ok(()), m))
            && (dangling ==> e == Effect(Ok(()), m[destination := Link(source)]))
            && (destination !in m && AncestorsAreDirs(m, destination) ==>
                  e == Effect(Ok(()), m[destination := Link(source)]))
  {
    var hook := DefaultHook(name);
    var destination := HookDestinationPath(root, hook, snake);
    if destination in m {
      WellFormedAncestors(m, destination);
      var node := m[destination];
      if node == File || (node.Link? && Exists(m, node.target)) {
        OccupiedByFileOrLink(m, root, hook, snake);
      } else if node == Dir {
        OccupiedByDir(m, root, hook, snake);
      } else if node.Link? {
        DanglingLinkFollowsRelink(m, root, hook, snake);
      } else {
        UnknownChangesNothing(m, root, hook, snake);
      }
    } else if AncestorsAreDirs(m, destination) {
      FreeDestinationGetsLink(m, root, hook, snake);
    }
  }

  /** In a linked worktree `.git` is a file: no hook can be installed and
      the walk to `.git/hooks` reports that `.git` is not a directory. */
  lemma GitFileBlocksInstall(root: string, hook: Hook, snake: HookType -> string)
    requires hook.create
    ensures var m := map[[root] := Dir, [root, ".git"] := File, [root, "git_hooks"] := Dir];
            InstallHookEffect(m, root, hook, snake) == Effect(Err(NotADirectory), m)
  {
    var m := map[[root] := Dir, [root, ".git"] := File, [root, "git_hooks"] := Dir];
    var destination := HookDestinationPath(root, hook, snake);
    assert destination[..1] == [root] && destination[..2] == [root, ".git"];
    assert NonDirPrefix(m, destination, 1) == 2;
    assert SymlinkMetadata(m, destination) == Err(NotADirectory);
  }

  /** The destinations of the entries that have `create` set. */
  function Destinations(root: string, hooks: seq<Hook>, snake: HookType -> string): set<Path>
  {
    set hook | hook in hooks && hook.create :: HookDestinationPath(root, hook, snake)
  }

  /** The entries that have `create` set, in their order. */
  function Created(hooks: seq<Hook>): seq<Hook>
  {
    if hooks == [] then []
    else if hooks[0].create then [hooks[0]] + Created(hooks[1..])
    else Created(hooks[1..])
  }

  /** The hooks are processed in order: running a list made of two parts is
      running the first part and, unless it failed, the second part on what
      the first left behind. */
  lemma {:induction false} InstallHooksAppend(m: Entries, root: string, first: seq<Hook>, rest: seq<Hook>, snake: HookType -> string)
    ensures var before := InstallHooksEffect(m, root, first, snake);
            InstallHooksEffect(m, root, first + rest, snake)
              == if before.result.Err? then before else InstallHooksEffect(before.fs, root, rest, snake)
    decreases |first|
  {
    if first == [] {
      assert first + rest == rest;
    } else {
      assert (first + rest)[0] == first[0];
      assert (first + rest)[1..] == first[1..] + rest;
      var e := InstallHookEffect(m, root, first[0], snake);
      if e.result.Ok? {
        InstallHooksAppend(e.fs, root, first[1..], rest, snake);
      }
    }
  }

  /** The run is not fail-soft: once a hook fails, the hooks after it are
      never looked at. */
  lemma FailureStopsTheRun(m: Entries, root: string, first: seq<Hook>, failing: Hook, rest: seq<Hook>, snake: HookType -> string)
    requires InstallHooksEffect(m, root, first, snake).result.Ok?
    requires InstallHookEffect(InstallHooksEffect(m, root, first, snake).fs, root, failing, snake).result.Err?
    ensures InstallHooksEffect(m, root, first + [failing] + rest, snake)
            == InstallHookEffect(InstallHooksEffect(m, root, first, snake).fs, root, failing, snake)
  {
    var before := InstallHooksEffect(m, root, first, snake);
    InstallHooksAppend(m, root, first, [failing] + rest, snake);
    assert first + [failing] + rest == first + ([failing] + rest);
    assert ([failing] + rest)[0] == failing;
  }

  /** The run changes nothing outside the destinations of the hooks that
      have `create` set. */
  lemma {:induction false} InstallHooksFrame(m: Entries, root: string, hooks: seq<Hook>, snake: HookType -> string)
    ensures InstallHooksEffect(m, root, hooks, snake).fs - Destinations(root, hooks, snake)
            == m - Destinations(root, hooks, snake)
    decreases |hooks|
  {
    if hooks != [] {
      var hook := hooks[0];
      var e := InstallHookEffect(m, root, hook, snake);
      var all := Destinations(root, hooks, snake);
      var later := Destinations(root, hooks[1..], snake);
      assert later <= all by {
        forall p | p in later ensures p in all {
          var h :| h in hooks[1..] && h.create && p == HookDestinationPath(root, h, snake);
          assert h in hooks;
        }
      }
      InstallHookFrame(m, root, hook, snake);
      if hook.create {
        assert HookDestinationPath(root, hook, snake) in all;
        assert e.fs - all == m - all;
      } else {
        assert e.fs == m;
      }
      if e.result.Ok? {
        InstallHooksFrame(e.fs, root, hooks[1..], snake);
        assert InstallHooksEffect(e.fs, root, hooks[1..], snake).fs - all
               == (InstallHooksEffect(e.fs, root, hooks[1..], snake).fs - later) - all;
        assert (e.fs - later) - all == e.fs - all;
      }
    }
  }

  /** The run keeps the filesystem a tree. */
  lemma {:induction false} InstallHooksPreservesWellFormed(m: Entries, root: string, hooks: seq<Hook>, snake: HookType -> string)
    requires WellFormed(m)
    ensures WellFormed(InstallHooksEffect(m, root, hooks, snake).fs)
    decreases |hooks|
  {
    if hooks != [] {
      InstallHookPreservesWellFormed(m, root, hooks[0], snake);
      InstallHooksPreservesWellFormed(InstallHookEffect(m, root, hooks[0], snake).fs, root, hooks[1..], snake);
    }
  }

  /** Entries with `create` off take no part in the run: dropping them
      changes neither the result nor the filesystem. */
  lemma {:induction false} SkippedHooksChangeNothing(m: Entries, root: string, hooks: seq<Hook>, snake: HookType -> string)
    ensures InstallHooksEffect(m, root, hooks, snake) == InstallHooksEffect(m, root, Created(hooks), snake)
    decreases |hooks|
  {
    if hooks != [] {
      var e := InstallHookEffect(m, root, hooks[0], snake);
      if hooks[0].create {
        var created := [hooks[0]] + Created(hooks[1..]);
        assert created[0] == hooks[0] && created[1..] == Created(hooks[1..]);
        if e.result.Ok? {
          SkippedHooksChangeNothing(e.fs, root, hooks[1..], snake);
        }
      } else {
        SkippedHooksChangeNothing(m, root, hooks[1..], snake);
      }
    }
  }
}
