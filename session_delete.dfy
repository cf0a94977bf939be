/** The `delete_session` command: validate a session file path, then remove
    the JSONL file and its companion directory. */
module SessionDelete {
  import opened Wrappers
  import opened Text
  import opened Paths
  import opened FileSystems

  datatype DeleteError =
    | NotFound(path: string)
    | NotAbsolute
    | SymlinkInPath
    | FileIsSymlink
    | BadFilename
    | InvalidFilename
    | ResolveFailed
    | NoHomeDirectory
    | OutsideClaudeDir
    | RemoveFileFailed
    | RemoveCompanionFailed

  /** The text of each error; for the I/O failures, the prefix put before
      the operating system's own message. */
  function Message(e: DeleteError): string {
    match e
    case NotFound(p) => "Session file not found: " + p
    case NotAbsolute => "File path must be absolute"
    case SymlinkInPath => "Symlinks are not allowed in path"
    case FileIsSymlink => "File path cannot be a symlink"
    case BadFilename => "Filename must contain only alphanumeric characters, underscores, and hyphens"
    case InvalidFilename => "Invalid filename"
    case ResolveFailed => "Failed to resolve path: "
    case NoHomeDirectory => "Cannot determine home directory"
    case OutsideClaudeDir => "File path must be within ~/.claude directory"
    case RemoveFileFailed => "Failed to delete session file: "
    case RemoveCompanionFailed => "Session file deleted but failed to remove companion directory: "
  }

  datatype DeleteSessionResult = DeleteSessionResult(success: bool, filePath: string, companionDirDeleted: bool)

  /** Some proper ancestor of the path (the root included) is a symbolic link. */
  predicate HasSymlinkAncestor(fs: FileSystem, cs: seq<Component>) {
    exists k :: 1 <= k < |cs| && IsSymlinkAt(fs, cs[..k])
  }

  /** `~/.claude` as the check compares against it: canonicalised when
      that succeeds, as joined otherwise. */
  function ClaudeDir(fs: FileSystem, home: string): string {
    var dir := Join(home, ".claude");
    match Canonicalize(fs, dir)
    case Some(c) => c
    case None => dir
  }

  /** The checks of `validate_delete_path`, in their order; the first that
      fails decides the error. */
  function Validation(fs: FileSystem, path: string): Outcome<DeleteError> {
    if !IsAbsolute(path) then Fail(NotAbsolute)
    else if HasSymlinkAncestor(fs, Components(path)) then Fail(SymlinkInPath)
    else if IsSymlink(fs, path) then Fail(FileIsSymlink)
    else match FileStem(path)
      case None => Fail(InvalidFilename)
      case Some(stem) =>
        if !MatchesSafeName(stem) then Fail(BadFilename)
        else match Canonicalize(fs, path)
          case None => Fail(ResolveFailed)
          case Some(canonical) =>
            match fs.home
            case None => Fail(NoHomeDirectory)
            case Some(home) =>
              if !StartsWithPath(canonical, ClaudeDir(fs, home)) then Fail(OutsideClaudeDir)
              else Pass
  }

  /** A path every check accepts. */
  predicate SafeToDelete(fs: FileSystem, path: string) {
    && IsAbsolute(path)
    && !HasSymlinkAncestor(fs, Components(path))
    && !IsSymlink(fs, path)
    && FileStem(path).Some? && MatchesSafeName(FileStem(path).value)
    && Canonicalize(fs, path).Some?
    && fs.home.Some?
    && StartsWithPath(Canonicalize(fs, path).value, ClaudeDir(fs, fs.home.value))
  }

  /** `validate_delete_path`: walks the ancestors from the nearest upwards
      and stops at the first symbolic link. */
  method ValidateDeletePath(fs: FileSystem, path: string) returns (r: Outcome<DeleteError>)
    ensures r == Validation(fs, path)
  {
    if !IsAbsolute(path) {
      return Fail(NotAbsolute);
    }
    var cs := Components(path);
    var current := cs;
    while Parent(current).Some?
      invariant current <= cs
      invariant forall k :: |current| <= k < |cs| ==> !IsSymlinkAt(fs, cs[..k])
      decreases |current|
    {
      var parent := Parent(current).value;
      if parent == [] {
        break;
      }
      assert parent == cs[..|parent|];
      if IsSymlinkAt(fs, parent) {
        return Fail(SymlinkInPath);
      }
      current := parent;
    }
    assert |current| <= 1;
    assert !HasSymlinkAncestor(fs, cs);
    if IsSymlink(fs, path) {
      return Fail(FileIsSymlink);
    }
    var stem := FileStem(path);
    if stem.None? {
      return Fail(InvalidFilename);
    }
    if !MatchesSafeName(stem.value) {
      return Fail(BadFilename);
    }
    var canonical := Canonicalize(fs, path);
    if canonical.None? {
      return Fail(ResolveFailed);
    }
    if fs.home.None? {
      return Fail(NoHomeDirectory);
    }
    if !StartsWithPath(canonical.value, ClaudeDir(fs, fs.home.value)) {
      return Fail(OutsideClaudeDir);
    }
    return Pass;
  }

  /** What `delete_session` returns and leaves on disk. */
  function Deletion(fs: FileSystem, path: string): (Result<DeleteSessionResult, DeleteError>, FileSystem) {
    if !Exists(fs, path) then (Err(NotFound(path)), fs)
    else match Validation(fs, path)
      case Fail(e) => (Err(e), fs)
      case Pass =>
        var file := Components(path);
        if !CanRemoveFile(fs, file) then (Err(RemoveFileFailed), fs)
        else
          var fs1 := fs.(entries := Without(fs.entries, {Render(file)}));
          var companion := WithoutExtension(path);
          if !IsDirAt(fs1, companion) then (Ok(DeleteSessionResult(true, path, false)), fs1)
          else if !CanRemoveTree(fs1, companion) then (Err(RemoveCompanionFailed), fs1)
          else
            var fs2 := fs1.(entries := Without(fs1.entries, Subtree(fs1, companion)));
            (Ok(DeleteSessionResult(true, path, true)), fs2)
  }

  /** `delete_session`: existence first, then validation, then the removals. */
  method DeleteSession(disk: Disk, path: string) returns (r: Result<DeleteSessionResult, DeleteError>)
    modifies disk
    ensures (r, disk.View()) == Deletion(old(disk.View()), path)
  {
    if !Exists(disk.View(), path) {
      return Err(NotFound(path));
    }
    var valid := ValidateDeletePath(disk.View(), path);
    if valid.Fail? {
      return Err(valid.error);
    }
    var removed := disk.RemoveFile(Components(path));
    if !removed {
      return Err(RemoveFileFailed);
    }
    var companion := WithoutExtension(path);
    var companionDeleted := false;
    if IsDirAt(disk.View(), companion) {
      removed := disk.RemoveDirAll(companion);
      if !removed {
        return Err(RemoveCompanionFailed);
      }
      companionDeleted := true;
    }
    return Ok(DeleteSessionResult(true, path, companionDeleted));
  }

  /** Validation passes exactly on the paths every check accepts. */
  lemma ValidationPassIff(fs: FileSystem, path: string)
    ensures Validation(fs, path) == Pass <==> SafeToDelete(fs, path)
  {
  }

  /** A relative path is refused before the disk is consulted. */
  lemma RelativePathRejected(fs: FileSystem, path: string)
    requires !IsAbsolute(path)
    ensures Validation(fs, path) == Fail(NotAbsolute)
  {
  }

  /** A file that resolves outside `~/.claude` is refused, whatever else holds. */
  lemma OutsideClaudeDirRejected(fs: FileSystem, path: string)
    requires Canonicalize(fs, path).Some? && fs.home.Some?
    requires !StartsWithPath(Canonicalize(fs, path).value, ClaudeDir(fs, fs.home.value))
    ensures Validation(fs, path).Fail?
  {
    ValidationPassIff(fs, path);
  }

  /** "Not found" is reported exactly for paths that do not exist. */
  lemma DeletionNotFound(fs: FileSystem, path: string)
    ensures Deletion(fs, path).0 == Err(NotFound(path)) <==> !Exists(fs, path)
    ensures !Exists(fs, path) ==> Deletion(fs, path).1 == fs
  {
    if Exists(fs, path) {
      ValidationNeverNotFound(fs, path);
    }
  }

  lemma ValidationNeverNotFound(fs: FileSystem, path: string)
    ensures !Validation(fs, path).Fail? || !Validation(fs, path).error.NotFound?
  {
  }

  /** Every refusal but the companion's leaves the disk as it was; a
      failed companion removal leaves only the file removed. */
  lemma DeletionRefusalKeepsDisk(fs: FileSystem, path: string)
    ensures var (r, fs') := Deletion(fs, path);
      r.Err? && r.error != RemoveCompanionFailed ==> fs' == fs
    ensures var (r, fs') := Deletion(fs, path);
      r == Err(RemoveCompanionFailed) ==>
        SafeToDelete(fs, path) && fs' == fs.(entries := Without(fs.entries, {Render(Components(path))}))
  {
    if Deletion(fs, path).0 == Err(RemoveCompanionFailed) {
      ValidationPassIff(fs, path);
    }
  }

  /** A successful deletion: every check passed, the result echoes the path,
      the file is gone, and the companion was removed exactly when a
      directory stood beside the file. */
  lemma DeletionSuccess(fs: FileSystem, path: string)
    ensures var (r, fs') := Deletion(fs, path);
      r.Ok? ==>
        && Exists(fs, path) && SafeToDelete(fs, path)
        && r.value.success && r.value.filePath == path
        && Render(Components(path)) !in fs'.entries
        && (r.value.companionDirDeleted <==> IsDirAt(fs, WithoutExtension(path)))
  {
    var (r, fs') := Deletion(fs, path);
    if r.Ok? {
      ValidationPassIff(fs, path);
      var file := Components(path);
      var companion := WithoutExtension(path);
      var fs1 := fs.(entries := Without(fs.entries, {Render(file)}));
      CompanionSeenAfterFileRemoval(fs, file, companion);
      if r.value.companionDirDeleted {
        assert fs' == fs1.(entries := Without(fs1.entries, Subtree(fs1, companion)));
      }
    }
  }

  /** Removing a file that is neither a directory nor a link does not change
      whether some path is a directory. */
  lemma CompanionSeenAfterFileRemoval(fs: FileSystem, file: seq<Component>, companion: seq<Component>)
    requires LstatAt(fs, file) == Some(File)
    ensures IsDirAt(fs.(entries := Without(fs.entries, {Render(file)})), companion)
        <==> IsDirAt(fs, companion)
  {
  }

  /** Deletion only removes entries: nothing is added or altered, nothing
      but the file and what lies under the companion directory goes, and
      the other parts of the disk stay as they were. */
  lemma DeletionFrame(fs: FileSystem, path: string)
    ensures var fs' := Deletion(fs, path).1;
      && fs'.canonical == fs.canonical && fs'.contents == fs.contents
      && fs'.locked == fs.locked && fs'.home == fs.home
      && (forall k :: k in fs'.entries ==> k in fs.entries && fs'.entries[k] == fs.entries[k])
      && (forall k :: k in fs.entries && k !in fs'.entries ==>
            k == Render(Components(path)) || k == Render(WithoutExtension(path))
            || WithoutExtension(path) <= Components(k))
  {
    var fs' := Deletion(fs, path).1;
    var file := Components(path);
    var companion := WithoutExtension(path);
    if fs' != fs {
      var fs1 := fs.(entries := Without(fs.entries, {Render(file)}));
      if fs' != fs1 {
        SubtreeUnder(fs1, companion);
        assert fs' == fs1.(entries := Without(fs1.entries, Subtree(fs1, companion)));
      }
    }
  }

  /** What `remove_dir_all` takes lies at or under the directory. */
  lemma SubtreeUnder(fs: FileSystem, cs: seq<Component>)
    ensures forall k :: k in Subtree(fs, cs) ==> k == Render(cs) || cs <= Components(k)
  {
  }
}
