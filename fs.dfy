/**
 * An abstract view of the part of `std::fs` and `std::os::unix::fs` that the
 * hook installer calls: a filesystem is a finite map from paths to entries,
 * and every call the installer makes is a function of that map.
 */
module FsModel {
  import opened Results

  /** A path as the sequence of its components; `[root, ".git", "hooks", n]`. */
  type Path = seq<string>

  /** What a path names: a regular file, a directory, a symbolic link or
      anything else (socket, device, fifo). */
  datatype Node = File | Dir | Link(target: Path) | Other

  type Entries = map<Path, Node>

  /** The `std::io::ErrorKind`s the modelled calls can fail with. */
  datatype IoError =
    | NotFound            // ENOENT
    | InvalidInput        // EINVAL: `read_link` on something that is not a link
    | IsADirectory        // EISDIR: `remove_file` on a directory
    | NotADirectory       // ENOTDIR
    | DirectoryNotEmpty   // ENOTEMPTY
    | AlreadyExists       // EEXIST
    | FilesystemLoop      // ELOOP: too many links followed

  /** What `std::fs::Metadata` reports through `is_file` and `is_dir`. */
  datatype FileType = RegularFile | Directory | SpecialFile

  /** The outcome of a call that may change the filesystem: the value the
      call returns and the filesystem afterwards. */
  datatype Effect = Effect(result: Result<(), IoError>, fs: Entries)

  /** How far a lookup has got: the path it has reached, with no link left
      among its earlier components, and how many links it may still follow. */
  datatype Location = Location(path: Path, hops: nat)

  /** Linux gives up resolving a path after 40 symbolic links (MAXSYMLINKS). */
  const MaxSymlinkHops: nat := 40

  function Parent(p: Path): Path
    requires |p| > 0
  {
    p[..|p| - 1]
  }

  /** `q` lies somewhere below the directory `dir`. */
  predicate Within(dir: Path, q: Path)
  {
    |dir| < |q| && q[..|dir|] == dir
  }

  /** The filesystem is a tree: every entry below the top level sits in a
      directory that exists. */
  predicate WellFormed(m: Entries)
  {
    forall p :: p in m && |p| > 1 ==> Parent(p) in m && m[Parent(p)] == Dir
  }

  /** Every earlier component of `p` is a directory: `p` is reached without
      meeting a link, a file or a gap on the way. */
  predicate AncestorsAreDirs(m: Entries, p: Path)
  {
    forall k :: 1 <= k < |p| ==> p[..k] in m && m[p[..k]] == Dir
  }

  predicate HasEntriesWithin(m: Entries, dir: Path)
  {
    exists q :: q in m && Within(dir, q)
  }

  /** The first earlier component of `p`, from the `k`-th on, that is not a
      directory; `|p|` when there is none. */
  function NonDirPrefix(m: Entries, p: Path, k: nat): (j: nat)
    requires 1 <= k
    ensures j <= |p|
    ensures j < |p| ==> k <= j && !(p[..j] in m && m[p[..j]] == Dir)
    ensures forall i :: k <= i < j ==> p[..i] in m && m[p[..i]] == Dir
    decreases |p| - k
  {
    if k >= |p| then |p|
    else if p[..k] in m && m[p[..k]] == Dir then NonDirPrefix(m, p, k + 1)
    else k
  }

  /** The kernel's walk along `p`: each earlier component must be a
      directory, and a link met there is replaced by its target, which is
      walked in turn. The last component is not followed. */
  function Locate(m: Entries, p: Path, hops: nat): (r: Result<Location, IoError>)
    ensures r.Ok? ==> r.value.hops <= hops && AncestorsAreDirs(m, r.value.path)
    ensures AncestorsAreDirs(m, p) ==> r == Ok(Location(p, hops))
    decreases hops
  {
    var k := NonDirPrefix(m, p, 1);
    if k >= |p| then Ok(Location(p, hops))
    else if p[..k] !in m then Err(NotFound)
    else match m[p[..k]]
      case Link(t) => if hops == 0 then Err(FilesystemLoop) else Locate(m, t + p[k..], hops - 1)
      case _ => Err(NotADirectory)
  }

  /** `std::fs::symlink_metadata` (lstat): the entry `p` leads to, without
      following a link in its last component. */
  function SymlinkMetadata(m: Entries, p: Path): (r: Result<Node, IoError>)
    ensures AncestorsAreDirs(m, p) ==> r == if p in m then Ok(m[p]) else Err(NotFound)
  {
    match Locate(m, p, MaxSymlinkHops)
    case Err(e) => Err(e)
    case Ok(loc) => if loc.path in m then Ok(m[loc.path]) else Err(NotFound)
  }

  /** `std::fs::read_link`: the target of a symbolic link. */
  function ReadLink(m: Entries, p: Path): (r: Result<Path, IoError>)
    ensures r.Ok? <==> SymlinkMetadata(m, p).Ok? && SymlinkMetadata(m, p).value.Link?
    ensures r.Ok? ==> SymlinkMetadata(m, p) == Ok(Link(r.value))
  {
    match SymlinkMetadata(m, p)
    case Err(e) => Err(e)
    case Ok(node) => if node.Link? then Ok(node.target) else Err(InvalidInput)
  }

  /** Resolution of `p` with at most `hops` links followed, in its earlier
      components and in its last. */
  function Resolve(m: Entries, p: Path, hops: nat): Result<FileType, IoError>
    decreases hops
  {
    match Locate(m, p, hops)
    case Err(e) => Err(e)
    case Ok(loc) =>
      if loc.path !in m then Err(NotFound)
      else match m[loc.path]
        case File => Ok(RegularFile)
        case Dir => Ok(Directory)
        case Other => Ok(SpecialFile)
        case Link(t) => if loc.hops == 0 then Err(FilesystemLoop) else Resolve(m, t, loc.hops - 1)
  }

  /** `std::fs::metadata`, which follows symbolic links wherever they are.
      It agrees with `symlink_metadata` on everything but a link, and fails
      wherever that fails. */
  function Metadata(m: Entries, p: Path): (r: Result<FileType, IoError>)
    ensures SymlinkMetadata(m, p).Err? ==> r.Err?
    ensures SymlinkMetadata(m, p) == Ok(File) ==> r == Ok(RegularFile)
    ensures SymlinkMetadata(m, p) == Ok(Dir) ==> r == Ok(Directory)
    ensures SymlinkMetadata(m, p) == Ok(Other) ==> r == Ok(SpecialFile)
    ensures AncestorsAreDirs(m, p) && p in m && m[p].Link? && AncestorsAreDirs(m, m[p].target) ==>
              var t := m[p].target;
              && (t !in m ==> r == Err(NotFound))
              && (t in m && m[t] == File ==> r == Ok(RegularFile))
              && (t in m && m[t] == Dir ==> r == Ok(Directory))
              && (t in m && m[t] == Other ==> r == Ok(SpecialFile))
  {
    Resolve(m, p, MaxSymlinkHops)
  }

  /** `Path::exists`: whether `metadata` succeeds. */
  predicate Exists(m: Entries, p: Path)
    ensures Exists(m, p) ==> SymlinkMetadata(m, p).Ok?
  {
    Metadata(m, p).Ok?
  }

  /** Every earlier component of `p` before the `k`-th is a directory. */
  predicate DirsBefore(m: Entries, p: Path, k: nat)
  {
    forall i :: 1 <= i < k && i < |p| ==> p[..i] in m && m[p[..i]] == Dir
  }

  /** The error of the walk to `p` when an earlier component is missing or
      is not a directory. The three calls below take their path as it is
      written: a link among its earlier components is not followed. */
  function WalkError(m: Entries, p: Path): (r: Result<(), IoError>)
    ensures r.Ok? <==> AncestorsAreDirs(m, p)
    ensures r == Err(NotADirectory) <==>
      exists k :: 1 <= k < |p| && p[..k] in m && m[p[..k]] != Dir && DirsBefore(m, p, k)
    ensures r == Err(NotFound) <==>
      exists k :: 1 <= k < |p| && p[..k] !in m && DirsBefore(m, p, k)
  {
    var k := NonDirPrefix(m, p, 1);
    if k >= |p| then Ok(())
    else if p[..k] in m then Err(NotADirectory)
    else Err(NotFound)
  }

  /** `std::fs::remove_file` (unlink): removes a file or a link, never a directory. */
  function RemoveFileOp(m: Entries, p: Path): (r: Effect)
    ensures r.result.Ok? <==> AncestorsAreDirs(m, p) && p in m && m[p] != Dir
    ensures r.fs == if r.result.Ok? then m - {p} else m
  {
    if WalkError(m, p).Err? then Effect(WalkError(m, p), m)
    else if p !in m then Effect(Err(NotFound), m)
    else if m[p] == Dir then Effect(Err(IsADirectory), m)
    else Effect(Ok(()), m - {p})
  }

  /** `std::fs::remove_dir` (rmdir): removes an empty directory only. */
  function RemoveDirOp(m: Entries, p: Path): (r: Effect)
    ensures r.result.Ok? <==> AncestorsAreDirs(m, p) && p in m && m[p] == Dir && !HasEntriesWithin(m, p)
    ensures r.fs == if r.result.Ok? then m - {p} else m
  {
    if WalkError(m, p).Err? then Effect(WalkError(m, p), m)
    else if p !in m then Effect(Err(NotFound), m)
    else if m[p] != Dir then Effect(Err(NotADirectory), m)
    else if HasEntriesWithin(m, p) then Effect(Err(DirectoryNotEmpty), m)
    else Effect(Ok(()), m - {p})
  }

  /** `std::os::unix::fs::symlink(src, dst)`: creates a link at `dst` whose
      target is `src`; `src` itself is never looked at. It succeeds exactly
      when the way to `dst` is clear and `dst` is free, and then adds that
      one link. */
  function SymlinkOp(m: Entries, src: Path, dst: Path): (r: Effect)
    ensures r.result.Ok? <==> |dst| > 0 && AncestorsAreDirs(m, dst) && dst !in m
    ensures r.fs == if r.result.Ok? then m[dst := Link(src)] else m
  {
    if |dst| == 0 then Effect(Err(NotFound), m)
    else if WalkError(m, dst).Err? then Effect(WalkError(m, dst), m)
    else if dst in m then Effect(Err(AlreadyExists), m)
    else Effect(Ok(()), m[dst := Link(src)])
  }

  /** In a tree every entry is reached through directories only. */
  lemma {:induction false} WellFormedAncestors(m: Entries, p: Path)
    requires WellFormed(m) && p in m
    ensures AncestorsAreDirs(m, p)
    decreases |p|
  {
    if |p| > 1 {
      var q := Parent(p);
      WellFormedAncestors(m, q);
      forall k | 1 <= k < |p|
        ensures p[..k] in m && m[p[..k]] == Dir
      {
        if k < |q| {
          assert p[..k] == q[..k];
        } else {
          assert p[..k] == q;
        }
      }
    }
  }

  lemma RemoveFilePreservesWellFormed(m: Entries, p: Path)
    requires WellFormed(m)
    ensures WellFormed(RemoveFileOp(m, p).fs)
  {
  }

  lemma RemoveDirPreservesWellFormed(m: Entries, p: Path)
    requires WellFormed(m)
    ensures WellFormed(RemoveDirOp(m, p).fs)
  {
  }

  lemma SymlinkPreservesWellFormed(m: Entries, src: Path, dst: Path)
    requires WellFormed(m)
    ensures WellFormed(SymlinkOp(m, src, dst).fs)
  {
    var m' := SymlinkOp(m, src, dst).fs;
    if m' != m {
      assert AncestorsAreDirs(m, dst);
      forall q | q in m' && |q| > 1
        ensures Parent(q) in m' && m'[Parent(q)] == Dir
      {
        if q != dst {
          assert q in m;
          assert Parent(q) != dst;
        } else {
          assert dst[..|dst| - 1] == Parent(dst);
        }
      }
    }
  }


  /** The filesystem the installer mutates. Each method performs one system
      call: it either fails and leaves `entries` as it was, or succeeds and
      makes exactly the change the call makes. */
  class FileSystem {
    var entries: Entries

    constructor (initial: Entries)
      ensures entries == initial
    {
      entries := initial;
    }

    method RemoveFile(p: Path) returns (r: Result<(), IoError>)
      modifies this
      ensures Effect(r, entries) == RemoveFileOp(old(entries), p)
    {
      r := WalkError(entries, p);
      if r.Err? {
        return;
      }
      if p !in entries {
        return Err(NotFound);
      }
      if entries[p] == Dir {
        return Err(IsADirectory);
      }
      entries := entries - {p};
    }

    method RemoveDir(p: Path) returns (r: Result<(), IoError>)
      modifies this
      ensures Effect(r, entries) == RemoveDirOp(old(entries), p)
    {
      r := WalkError(entries, p);
      if r.Err? {
        return;
      }
      if p !in entries {
        return Err(NotFound);
      }
      if entries[p] != Dir {
        return Err(NotADirectory);
      }
      if HasEntriesWithin(entries, p) {
        return Err(DirectoryNotEmpty);
      }
      entries := entries - {p};
    }

    method Symlink(src: Path, dst: Path) returns (r: Result<(), IoError>)
      modifies this
      ensures Effect(r, entries) == SymlinkOp(old(entries), src, dst)
    {
      if |dst| == 0 {
        return Err(NotFound);
      }
      r := WalkError(entries, dst);
      if r.Err? {
        return;
      }
      if dst in entries {
        return Err(AlreadyExists);
      }
      entries := entries[dst := Link(src)];
    }
  }
}
