/** The path classifier of `src/path_utils.rs`. */
module PathUtils {
  import opened Results
  import opened FsModel

  /** The state of a path at the moment it is looked at. */
  datatype PathResult = ExistingFile | ExistingDir | ExistingLink | InvalidLink | Unknown | NonExisting

  /**
   * `visit_path`: asks `read_link` first and, only when that fails, asks
   * `metadata`. A link is therefore reported as a link whatever it points
   * to, and a dangling link is not mistaken for an absent path. Every
   * failure of `metadata` reads as `NonExisting`. The classification is a
   * function of the filesystem: it never fails and changes nothing. It is
   * stated here against what `symlink_metadata` finds at the destination.
   */
  function VisitPath(m: Entries, destination: Path): (r: PathResult)
    ensures var e := SymlinkMetadata(m, destination);
      r == ExistingLink <==> e.Ok? && e.value.Link? && Exists(m, e.value.target)
    ensures var e := SymlinkMetadata(m, destination);
      r == InvalidLink <==> e.Ok? && e.value.Link? && !Exists(m, e.value.target)
    ensures r == ExistingFile <==> SymlinkMetadata(m, destination) == Ok(File)
    ensures r == ExistingDir <==> SymlinkMetadata(m, destination) == Ok(Dir)
    ensures r == Unknown <==> SymlinkMetadata(m, destination) == Ok(Other)
    ensures r == NonExisting <==> SymlinkMetadata(m, destination).Err?
  {
    match ReadLink(m, destination)
    case Ok(path) =>
      if Exists(m, path) then ExistingLink else InvalidLink
    case Err(_) =>
      match Metadata(m, destination)
      case Ok(metadata) =>
        if metadata == RegularFile then ExistingFile
        else if metadata == Directory then ExistingDir
        else Unknown
      case Err(_) => NonExisting
  }

  /** Where nothing but directories lead to the destination, its state is
      the entry stored under it. */
  lemma VisitPathThroughDirectories(m: Entries, destination: Path)
    requires AncestorsAreDirs(m, destination)
    ensures var r := VisitPath(m, destination);
      && (r == ExistingLink <==> destination in m && m[destination].Link? && Exists(m, m[destination].target))
      && (r == InvalidLink <==> destination in m && m[destination].Link? && !Exists(m, m[destination].target))
      && (r == ExistingFile <==> destination in m && m[destination] == File)
      && (r == ExistingDir <==> destination in m && m[destination] == Dir)
      && (r == Unknown <==> destination in m && m[destination] == Other)
      && (r == NonExisting <==> destination !in m)
  {
  }

  /** A link whose target is reached through a linked directory is a
      working link: `/d -> /s/x`, where `/s -> /t` and `/t/x` is a file. */
  lemma TargetThroughLinkedDirectory()
    ensures var m := map[["s"] := Link(["t"]), ["t"] := Dir, ["t", "x"] := File, ["d"] := Link(["s", "x"])];
      Exists(m, ["s", "x"]) && VisitPath(m, ["d"]) == ExistingLink
  {
    var m := map[["s"] := Link(["t"]), ["t"] := Dir, ["t", "x"] := File, ["d"] := Link(["s", "x"])];
    var sx: Path := ["s", "x"];
    assert sx[..1] == ["s"];
    assert NonDirPrefix(m, sx, 1) == 1;
    assert ["t"] + sx[1..] == ["t", "x"];
    var tx: Path := ["t", "x"];
    assert AncestorsAreDirs(m, tx) by {
      assert tx[..1] == ["t"];
    }
    assert Locate(m, sx, MaxSymlinkHops) == Ok(Location(["t", "x"], MaxSymlinkHops - 1));
    assert Metadata(m, sx) == Ok(RegularFile);
    assert SymlinkMetadata(m, ["d"]) == Ok(Link(sx));
  }
}
