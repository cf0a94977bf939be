/** What the backend observes of the disk, as an oracle. Every query goes
    through the normalised text of the path's components, which is how the
    operating system resolves it; the answers themselves are free. */
module FileSystems {
  import opened Wrappers
  import opened Paths

  /** Where a symbolic link leads when it is followed. */
  datatype LinkTarget = Dangling | ToFile | ToDir

  /** What `fs::symlink_metadata` (which does not follow a final link) reports. */
  datatype EntryKind = Dir | File | Symlink(target: LinkTarget)

  datatype FileSystem = FileSystem(
    entries: map<string, EntryKind>,  // lstat answers, by normalised path
    canonical: map<string, string>,   // `canonicalize` answers; absent means it fails
    contents: map<string, string>,    // `read_to_string` answers; absent means it fails
    locked: set<string>,              // paths whose removal the OS refuses
    home: Option<string>)             // `dirs::home_dir()`

  function LstatAt(fs: FileSystem, cs: seq<Component>): Option<EntryKind> {
    var k := Render(cs);
    if k in fs.entries then Some(fs.entries[k]) else None
  }

  /** `fs::symlink_metadata(p)`, `None` when it fails. */
  function Lstat(fs: FileSystem, p: string): Option<EntryKind> {
    LstatAt(fs, Components(p))
  }

  predicate IsSymlinkAt(fs: FileSystem, cs: seq<Component>) {
    LstatAt(fs, cs).Some? && LstatAt(fs, cs).value.Symlink?
  }

  /** `symlink_metadata(p)` succeeds and says symlink. */
  predicate IsSymlink(fs: FileSystem, p: string) {
    IsSymlinkAt(fs, Components(p))
  }

  /** `symlink_metadata(p)` succeeds and says directory: a real directory, not a link to one. */
  predicate IsRealDir(fs: FileSystem, p: string) {
    Lstat(fs, p) == Some(Dir)
  }

  /** `symlink_metadata(p)` succeeds and does not say symlink. */
  predicate IsRealEntry(fs: FileSystem, p: string) {
    Lstat(fs, p).Some? && !Lstat(fs, p).value.Symlink?
  }

  predicate ExistsAt(fs: FileSystem, cs: seq<Component>) {
    match LstatAt(fs, cs)
    case None => false
    case Some(k) => !(k.Symlink? && k.target == Dangling)
  }

  /** `Path::exists`: follows a final link, so a dangling link does not exist. */
  predicate Exists(fs: FileSystem, p: string) {
    ExistsAt(fs, Components(p))
  }

  /** `Path::is_dir`: a directory, or a link to one. */
  predicate IsDirAt(fs: FileSystem, cs: seq<Component>) {
    LstatAt(fs, cs) == Some(Dir) || LstatAt(fs, cs) == Some(Symlink(ToDir))
  }

  predicate IsDir(fs: FileSystem, p: string) {
    IsDirAt(fs, Components(p))
  }

  /** `Path::is_file`: a regular file, or a link to one. */
  predicate IsFile(fs: FileSystem, p: string) {
    Lstat(fs, p) == Some(File) || Lstat(fs, p) == Some(Symlink(ToFile))
  }

  /** `fs::read_to_string(p)`, `None` when it fails. */
  function ReadToString(fs: FileSystem, p: string): Option<string> {
    var k := Render(Components(p));
    if IsFile(fs, p) && k in fs.contents then Some(fs.contents[k]) else None
  }

  /** `Path::canonicalize`, `None` when it fails. */
  function Canonicalize(fs: FileSystem, p: string): Option<string> {
    var k := Render(Components(p));
    if k in fs.canonical then Some(fs.canonical[k]) else None
  }

  /** `fs::remove_file` succeeds on anything but a directory that is present and not locked. */
  predicate CanRemoveFile(fs: FileSystem, cs: seq<Component>) {
    LstatAt(fs, cs).Some? && LstatAt(fs, cs).value != Dir && Render(cs) !in fs.locked
  }

  /** What `fs::remove_dir_all(cs)` removes: a link by itself, otherwise the
      entry and everything beneath it. */
  function Subtree(fs: FileSystem, cs: seq<Component>): set<string> {
    if IsSymlinkAt(fs, cs) then {Render(cs)}
    else set k | k in fs.entries && cs <= Components(k)
  }

  /** `fs::remove_dir_all` succeeds on a directory or a link whose subtree
      holds nothing locked; a regular file at the root is refused, since
      opening it as a directory fails. */
  predicate CanRemoveTree(fs: FileSystem, cs: seq<Component>) {
    LstatAt(fs, cs).Some? && LstatAt(fs, cs) != Some(File) && Subtree(fs, cs) !! fs.locked
  }

  function Without(entries: map<string, EntryKind>, gone: set<string>): (r: map<string, EntryKind>)
    ensures r.Keys == entries.Keys - gone
    ensures forall k :: k in r ==> r[k] == entries[k]
  {
    map k | k in entries && k !in gone :: entries[k]
  }

  /** The disk the session commands act on; removals update `entries` in place. */
  class Disk {
    var entries: map<string, EntryKind>
    const canonical: map<string, string>
    const contents: map<string, string>
    const locked: set<string>
    const home: Option<string>

    function View(): FileSystem
      reads this
    {
      FileSystem(entries, canonical, contents, locked, home)
    }

    constructor (fs: FileSystem)
      ensures View() == fs
    {
      entries := fs.entries;
      canonical := fs.canonical;
      contents := fs.contents;
      locked := fs.locked;
      home := fs.home;
    }

    /** `fs::remove_file`. */
    method RemoveFile(cs: seq<Component>) returns (ok: bool)
      modifies this
      ensures ok == CanRemoveFile(old(View()), cs)
      ensures entries == if ok then Without(old(entries), {Render(cs)}) else old(entries)
    {
      ok := CanRemoveFile(View(), cs);
      if ok {
        entries := Without(entries, {Render(cs)});
      }
    }

    /** `fs::remove_dir_all`; a refused removal is modelled as removing nothing. */
    method RemoveDirAll(cs: seq<Component>) returns (ok: bool)
      modifies this
      ensures ok == CanRemoveTree(old(View()), cs)
      ensures entries == if ok then Without(old(entries), Subtree(old(View()), cs)) else old(entries)
    {
      ok := CanRemoveTree(View(), cs);
      if ok {
        entries := Without(entries, Subtree(View(), cs));
      }
    }
  }
}
