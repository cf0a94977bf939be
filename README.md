# Session utilities of the Claude Code history viewer, in Dafny

This project models the core of the viewer's Rust backend that works on
Claude Code's session storage.

- **Line splitting** of a memory-mapped JSONL session file. `find_line_ranges` returns the `(start, end)` of every non-empty line. `find_line_starts` returns the offset where each line begins.
- **Decoding project directory names.** Under `~/.claude/projects/` a project's path is stored with every separator turned into a hyphen. The code decodes these names by asking the disk which hyphens were separators, and falls back to heuristics. This covers `decode_recursive_inner`, `find_deepest_existing_dir`, `extract_project_name` (with its filesystem-assisted Windows branch) and `decode_project_path` after its index lookup.
- **Git worktree detection**: whether a project is not a repository, a main working tree, or a linked worktree. A linked worktree's `.git` file holds a `gitdir:` line that names the main repository.
- **Deleting a session**: the path checks of `validate_delete_path`, and `delete_session`'s removal of the JSONL file and its companion directory.
- **Resuming a session**: the session-ID pattern, the `claude --resume` command line, and the AppleScript escaping used on macOS.

Modules:

- `Wrappers` holds `Option`, `Result` and a pass/fail `Outcome`.
- `Text` holds the `str` operations the code relies on: `find`, `splitn`, `trim`, `strip_prefix`, `replace`, and the `[A-Za-z0-9_-]+` pattern.
- `Paths` holds the Unix semantics of `std::path`: components, `parent`, `file_stem`, `with_extension("")`, `join` and `starts_with`.
- `FileSystems` holds the disk as an oracle. The `FileSystem` datatype records what `symlink_metadata`, `exists`, `is_dir`, `is_file`, `read_to_string`, `canonicalize` and `home_dir` answer for each normalised path. The `Disk` class holds the entries that the removals update in place.
- `Lines`, `ProjectPath`, `GitWorktree`, `SessionDelete` and `SessionResume` model the source files themselves.

Where the source loops, the model has a method with loop invariants that is proved equal to a specification function. The properties are proved about that function:

- `FindLineRanges` and `FindLineStarts` are proved against characterising predicates, and those predicates are proved to admit exactly one answer.
- `DecodeRecursiveInner` and `FindDeepestExistingDir` are proved against recursive functions over the same hyphen scan.
- `ValidateDeletePath` is proved against the ordered list of checks.
- `DeleteSession` is proved against the pair (result, disk afterwards).

The two examples of `-tmp-feature-my-project` assume different disks. The doc comment of `decode_project_path` (src-tauri/src/utils.rs:121) gives `/tmp/feature-my-project`. That is the answer when `/tmp` is a directory and `/tmp/feature-my-project` exists (`DecodeProjectPathFound`). The test at src-tauri/src/utils.rs:638-644 gives `/tmp/feature/my-project`. That is the heuristic answer when the disk settles nothing (`DecodeProjectPathExamples`).

Strings are sequences of characters, one per byte. The names handled here are ASCII, so byte and character indices agree.

## Model

| member | source | states |
|---|---|---|
| Lines.FindLineRanges | src-tauri/src/utils.rs:17-34 | the result is the list of non-empty newline-free runs, each starting at offset 0 or after a newline and ending at a newline or the end of the buffer, in increasing order, covering every non-newline byte (so empty lines are skipped and a last line without a newline is kept) |
| Lines.FindLineStarts | src-tauri/src/utils.rs:39-50 | the result is 0 followed by, in increasing order, every offset just after a newline that still lies inside the buffer, and nothing else |
| Lines.LineRangesUnique | src-tauri/src/utils.rs:17-34 | any two lists meeting the line-range description are equal, so that description fixes the output of `find_line_ranges` completely |
| Lines.LineStartsUnique | src-tauri/src/utils.rs:39-50 | any two lists meeting the line-start description are equal |
| Lines.BlankHasNoLines | src-tauri/src/utils.rs:17-34 | an empty buffer, or one holding only newlines, has no line ranges |
| Lines.RangesMatchStarts | src-tauri/src/utils.rs:17-50 | every line range begins at a line start, and every line start that holds a non-newline byte begins a line range |
| ProjectPath.SepFor | src-tauri/src/utils.rs:258-259 | the separator is a backslash exactly when the base already holds a backslash, and a slash otherwise |
| ProjectPath.DecodeInner | src-tauri/src/utils.rs:234-303 | defines `decode_recursive_inner`: nothing past depth 20; for an empty name, the base when it is non-empty and exists; otherwise the hyphen scan. `DecodeRecursiveInner` and `DecodeInnerSound` state its properties |
| ProjectPath.TryHyphens | src-tauri/src/utils.rs:251-291 | defines the scan over hyphen positions from a given index. It skips the first character and non-hyphens, and any prefix that is not a real directory. On a real directory it returns that directory when nothing follows the hyphen. Otherwise it returns the full path when that is an entry other than a link, else the recursive decoding of the rest below the directory. When there is none, it moves to the next hyphen. `TryHyphensSound` states its property |
| ProjectPath.WholeSegment | src-tauri/src/utils.rs:293-302 | defines the fallback when no hyphen worked: the whole name as one segment under a non-empty base, kept only when that path exists |
| ProjectPath.DecodeRecursiveInner | src-tauri/src/utils.rs:234-303 | the method returns what the recursive specification of the hyphen scan returns, for every input, including the depth cut-off after 20 levels |
| ProjectPath.DecodeInnerSound | src-tauri/src/utils.rs:234-303 | any path the decoder returns exists on disk, and it is the base followed by a separator and the encoded name with some hyphens read as separators (less a final hyphen that ended on a directory) |
| ProjectPath.DecodeInnerFindsEntry | src-tauri/src/utils.rs:251-284 | for a name `a-c` with no hyphen in `a`, the disk-assisted search returns `/a/c` when `/a` is a directory and `/a/c` exists: the first hyphen is read as a separator and the rest of the name is kept whole |
| ProjectPath.TryHyphensSound | src-tauri/src/utils.rs:251-300 | the same for the scan that starts at any hyphen position |
| ProjectPath.FindDeepest | src-tauri/src/utils.rs:308-316 | defines `find_deepest_existing_dir`: the base and the whole name past depth 20 or for an empty name, otherwise the hyphen scan. `FindDeepestExistingDir`, `FindDeepestSound`, `FindDeepestReachesDir`, `FindDeepestNoDirectory` and `FindDeepestDescends` state its properties |
| ProjectPath.ScanDeepest | src-tauri/src/utils.rs:324-351 | defines the scan over hyphen positions that commits to the first prefix that is a real directory, never backtracking, and returns the base and the whole name when no prefix is |
| ProjectPath.FindDeepestExistingDir | src-tauri/src/utils.rs:308-352 | the method returns the deepest directory and leftover that the recursive specification returns |
| ProjectPath.FindDeepestSound | src-tauri/src/utils.rs:308-352 | the leftover is a suffix of the encoded name; either nothing was descended into (base and whole name returned), or a hyphen precedes the leftover and the deepest path extends the base |
| ProjectPath.FindDeepestReachesDir | src-tauri/src/utils.rs:308-352 | whenever the scan moves below the base, where it stops is a real directory, not a link to one |
| ProjectPath.FindDeepestNoDirectory | src-tauri/src/utils.rs:308-352 | when no hyphen-delimited prefix names a real directory, the base and the whole encoded name come back unchanged |
| ProjectPath.FindDeepestDescends | src-tauri/src/utils.rs:308-352 | the converse: below depth 20, the search descends into the first hyphen-ended prefix that is a real directory, returning it when nothing follows the hyphen and going on below it otherwise |
| ProjectPath.FindDeepestStep | src-tauri/src/utils.rs:324-351 | below a non-empty base, `a-rest` with `a` free of hyphens and `base/a` a real directory descends into `base/a` |
| ProjectPath.FindDeepestTwoLevels | src-tauri/src/utils.rs:572-591 | the source test's case: `a-b-c` below a base where `base/a` and `base/a/b` are real directories and no hyphen-ended prefix of `c` is one below them stops at `base/a/b` with `c` left over (`Documents-GitHub-my-cool-project` leaves `my-cool-project`) |
| ProjectPath.FindDeepestThreeLevels | src-tauri/src/utils.rs:308-352 | the same with three existing levels: `a-b-g-c` stops at `base/a/b/g` with `c` left over |
| ProjectPath.FindDeepestOnDrive | src-tauri/src/utils.rs:97-101 | below a drive `X:`, three existing levels give a deepest directory with at least three backslashes, the depth at which the partial decode is trusted |
| ProjectPath.ExtractProjectName | src-tauri/src/utils.rs:52-83 | whichever branch decides, the project name is a suffix of the encoded name |
| ProjectPath.ExtractProjectNameWithFs | src-tauri/src/utils.rs:87-106 | the disk gives an answer only for the Windows form `X--…`, and that answer is a non-empty suffix of the part after the drive. When it is taken is stated by `ExtractProjectNameWithFsTrust` |
| ProjectPath.ExtractProjectNameWithFsTrust | src-tauri/src/utils.rs:87-106 | for a Windows-form name, the disk's answer is given exactly when the deepest directory found has at least three backslashes and some of the name is left below it; that directory is then a real one and the answer is the leftover |
| ProjectPath.ExtractProjectNameTrusted | src-tauri/src/utils.rs:52-56 | once the disk's answer is trusted, `extract_project_name` returns it rather than the heuristic |
| ProjectPath.ExtractProjectNameDeep | src-tauri/src/utils.rs:545-561 | the test's scenario, with three levels: with `X:\a`, `X:\a\b` and `X:\a\b\g` real directories and no hyphen-ended prefix of `c` one below them, `X--a-b-g-c` names project `c`, hyphens kept |
| ProjectPath.ExtractProjectNameWindowsDeep | src-tauri/src/utils.rs:545-561 | on every disk, a Windows-form name with at least two hyphens after the drive is never returned whole |
| ProjectPath.NameHeuristic | src-tauri/src/utils.rs:59-82 | the answer read from the name alone is a suffix of the name |
| ProjectPath.ExtractProjectNameUnix | src-tauri/src/utils.rs:59-63 | `-a-b-c` with `a` and `b` free of hyphens gives the name `c`, with the hyphens inside `c` kept |
| ProjectPath.ExtractProjectNameUnixShort | src-tauri/src/utils.rs:59-66 | a `-`-prefixed name with fewer than three hyphens is returned unchanged |
| ProjectPath.ExtractProjectNameWindows | src-tauri/src/utils.rs:67-79 | when the disk gives no answer, `X--a-b-c` with `a` and `b` free of hyphens gives `c` |
| ProjectPath.ExtractProjectNameOther | src-tauri/src/utils.rs:80-82 | any other name, the empty name included, is returned unchanged |
| ProjectPath.ExtractProjectNameWindowsShort | src-tauri/src/utils.rs:67-79 | a `X--` name with fewer than two further hyphens is returned unchanged when the disk search gives no name, because the three-way split then has fewer than three parts |
| ProjectPath.EncodedStart | src-tauri/src/utils.rs:139-152 | there is no start exactly when neither `.claude/projects/` nor `.claude\projects\` occurs in the path. Otherwise the start is just after the first slash marker, or, when there is none, just after the first backslash marker |
| ProjectPath.DecodeProjectPathNoMarker | src-tauri/src/utils.rs:142-151 | a path containing neither marker is returned unchanged |
| ProjectPath.DecodeProjectPath | src-tauri/src/utils.rs:138-211 | defines `decode_project_path` after its index lookup: the decoding of the name after the marker, or the path unchanged when there is no marker or the name does not decode. `DecodeProjectPathNoMarker`, `DecodeProjectPathAfterMarker` and `DecodeProjectPathUnix` state its properties |
| ProjectPath.DecodeEncoded | src-tauri/src/utils.rs:153-209 | defines the two branches: the Unix form tries the disk, then `splitn(4, '-')`, then falls through to the Windows branch. `DecodeUnixThreeParts`, `DecodeUnixTwoParts`, `DecodeUnixOnePart` and `DecodeUnixAbsolute` state its properties |
| ProjectPath.DecodeProjectPathAfterMarker | src-tauri/src/utils.rs:139-210 | when the slash marker first occurs right after a prefix, the path decodes to whatever the name after the marker decodes to, and is returned unchanged when that name does not decode |
| ProjectPath.MarkerFirstAfterDotFree | src-tauri/src/utils.rs:139-141 | in prefix + `.claude/projects/` + name with no `.` in the prefix, the first marker is the one after the prefix |
| ProjectPath.DecodeProjectPathUnix | src-tauri/src/utils.rs:139-169 | a storage path whose prefix holds no `.` and whose name is `-a-b-c` (`a` and `b` free of hyphens, the disk settling nothing) decodes to `/a/b/c` |
| ProjectPath.DecodeProjectPathFound | src-tauri/src/utils.rs:116-169 | a storage path whose prefix holds no `.` and whose name is `-a-c` (`a` free of hyphens) decodes to `/a/c` when `/a` is a directory and `/a/c` exists; this is the doc comment's `-tmp-feature-my-project` → `/tmp/feature-my-project` |
| ProjectPath.DecodeProjectPathExamples | src-tauri/src/utils.rs:630-644 | under home `/Users/jack/`, when the disk settles nothing, the name `-Users-jack-my-project` decodes to `/Users/jack/my-project` and `-tmp-feature-my-project` to `/tmp/feature/my-project` |
| ProjectPath.DecodeUnixThreeParts | src-tauri/src/utils.rs:154-164 | when the disk decodes nothing, `-a-b-c` becomes `/a/b/c`, with the hyphens inside `c` kept |
| ProjectPath.DecodeUnixTwoParts | src-tauri/src/utils.rs:154-166 | when the disk decodes nothing, `-a-b` becomes `/a/b` |
| ProjectPath.DecodeUnixOnePart | src-tauri/src/utils.rs:154-168 | when the disk decodes nothing, `-a` becomes `/a` |
| ProjectPath.DecodeUnixAbsolute | src-tauri/src/utils.rs:154-169 | a `-`-prefixed name always decodes, to a path beginning with `/` |
| ProjectPath.DecodeWindowsOnDrive | src-tauri/src/utils.rs:172-208 | a `X--` name always decodes, to a path beginning with `X:` |
| ProjectPath.DecodeWindows | src-tauri/src/utils.rs:172-208 | defines the Windows branch: the disk below `X:`, then the deepest existing directory when it is at least three levels deep, then the drive heuristic |
| ProjectPath.DecodeWindowsShape | src-tauri/src/utils.rs:172-208 | the Windows branch always answers for a `X--` name, with a path that starts with `X:` |
| ProjectPath.DecodeWindowsTrusted | src-tauri/src/utils.rs:184-193 | when the disk-assisted decode fails and the deepest directory found has at least three backslashes with some of the name left, the result is that directory, a backslash and the leftover |
| ProjectPath.DecodeWindowsDeleted | src-tauri/src/utils.rs:184-193 | a project directory missing below existing directories `X:\a`, `X:\a\b` and `X:\a\b\g`: when the disk-assisted decode of the whole name fails, `X--a-b-g-c` decodes to `X:\a\b\g\c`, hyphens in `c` kept |
| ProjectPath.DecodeWindowsThreeParts | src-tauri/src/utils.rs:172-207 | a `X--a-b-c` name (`a` and `b` free of hyphens) decodes to `X:\a\b\c`, hyphens in `c` kept, when the disk-assisted search fails and the deepest directory found has fewer than three backslashes |
| ProjectPath.DriveHeuristic | src-tauri/src/utils.rs:196-207 | defines the last resort: `splitn(3, '-')` of the name after the drive, joined with backslashes below `X:` |
| ProjectPath.DriveHeuristicOnDrive | src-tauri/src/utils.rs:196-207 | the last-resort Windows decoding always yields a path on the same drive |
| Paths.GitDirParentPlain | src-tauri/src/utils.rs:401-405 | for an absolute directory in plain form, the parent of `dir/.git` is `dir` itself |
| GitWorktree.ExtractMainGitDir | src-tauri/src/utils.rs:357-363 | the result is present exactly when the worktrees marker occurs; it is then the text before the first occurrence followed by `/.git` |
| GitWorktree.ExtractMainGitDirWorktree | src-tauri/src/utils.rs:357-363 | the gitdir of a worktree of repository `main` gives `main/.git` when the marker first occurs right after `main` |
| GitWorktree.MarkerFirstAfter | src-tauri/src/utils.rs:357-363 | in `main` + marker + branch with no `.` in `main`, the first marker is the one after `main` |
| GitWorktree.ExtractMainGitDirExample | src-tauri/src/utils.rs:651-657 | `/Users/jack/main/.git/worktrees/feature` gives `/Users/jack/main/.git` |
| GitWorktree.ExtractMainGitDirNoMarkerExample | src-tauri/src/utils.rs:659-662 | `/some/path/without/worktrees` gives nothing |
| GitWorktree.MainProjectFromGitFile | src-tauri/src/utils.rs:394-405 | defines the reading of a `.git` file: strip `gitdir: `, trim, cut at the first worktrees marker, and take the parent of the resulting `.git` directory. `MainProjectRecognised` and `GitFileNamesMain` state its properties |
| GitWorktree.MainProjectRecognised | src-tauri/src/utils.rs:396-405 | a `.git` file names a main project exactly when it starts with `gitdir: ` and the trimmed path after that contains `/.git/worktrees/` |
| GitWorktree.GitdirLineTrimmed | src-tauri/src/utils.rs:397-399 | stripping `gitdir: ` and trimming gives back the path on the line, without trailing whitespace such as the final newline |
| GitWorktree.GitFileNamesMain | src-tauri/src/utils.rs:397-405 | a `.git` file reading `gitdir: main/.git/worktrees/branch` plus trailing whitespace names `main` as the main project. This holds when `main` is absolute and does not end in `/` or `/.`, the branch is non-empty and does not end in whitespace, and the marker first occurs right after `main` |
| GitWorktree.DetectGitWorktreeInfo | src-tauri/src/utils.rs:375-421 | detection always answers, and a main project path is reported exactly for a linked worktree |
| GitWorktree.DetectClassification | src-tauri/src/utils.rs:375-421 | the answer is Main exactly when `.git` is a directory, and Linked exactly when it is not a directory but a readable file whose text parses as a gitdir line into a repository's worktrees |
| GitWorktree.DetectLinkedWorktree | src-tauri/src/utils.rs:394-411 | under the same conditions on `main` and the branch, a project whose `.git` is a plain file holding that line is a linked worktree of `main` |
| GitWorktree.DetectUnparsableGitFile | src-tauri/src/utils.rs:394-420 | a `.git` file not starting with `gitdir: ` leaves the project classified as not a repository |
| SessionDelete.ValidateDeletePath | src-tauri/src/commands/session/delete.rs:79-139 | the method, which walks the ancestors nearest first, reports the error of the first failing check in the source's order: absolute, no symlinked ancestor, not a symlink itself, a file stem exists, the stem matches the pattern, the path canonicalises, a home directory exists, and the path is inside `~/.claude` |
| SessionDelete.Validation | src-tauri/src/commands/session/delete.rs:79-139 | defines the checks in the source's order, the first failure deciding the error. `ValidateDeletePath`, `ValidationPassIff`, `RelativePathRejected`, `OutsideClaudeDirRejected` and `ValidationNeverNotFound` state its properties |
| SessionDelete.Message | src-tauri/src/commands/session/delete.rs:45-135 | defines the text of each error as the source words it; for the three I/O failures (delete.rs:52, 58 and 124), only the prefix before the operating system's message |
| SessionDelete.ValidationNeverNotFound | src-tauri/src/commands/session/delete.rs:79-139 | validation never reports "not found"; only the existence check before it does |
| SessionDelete.ValidationPassIff | src-tauri/src/commands/session/delete.rs:79-139 | validation passes exactly when every check holds |
| SessionDelete.RelativePathRejected | src-tauri/src/commands/session/delete.rs:82-85 | a relative path is refused as not absolute, whatever the disk holds |
| SessionDelete.OutsideClaudeDirRejected | src-tauri/src/commands/session/delete.rs:121-136 | a path that resolves outside `~/.claude` is refused |
| SessionDelete.DeleteSession | src-tauri/src/commands/session/delete.rs:40-70 | the result and the disk afterwards are those of the deletion specification: existence first, then validation, then removal of the file, then of the companion directory if one is there |
| SessionDelete.Deletion | src-tauri/src/commands/session/delete.rs:40-70 | defines the result and the disk afterwards: "not found" first, then the validation error, then removal of the file, then of the companion directory when one is there. `DeleteSession` and the `Deletion…` lemmas state its properties |
| SessionDelete.DeletionNotFound | src-tauri/src/commands/session/delete.rs:43-46 | "not found" is reported exactly for paths that do not exist, and the disk is then untouched |
| SessionDelete.DeletionRefusalKeepsDisk | src-tauri/src/commands/session/delete.rs:49-59 | every error except the companion's leaves the disk as it was; after a failed companion removal, only the file is gone and the path had passed validation |
| SessionDelete.DeletionSuccess | src-tauri/src/commands/session/delete.rs:51-69 | on success every check held, the result reports success and echoes the path, the file is gone, and the companion is reported deleted exactly when a directory stood at the path without its extension |
| SessionDelete.CompanionSeenAfterFileRemoval | src-tauri/src/commands/session/delete.rs:52-56 | removing a plain file does not change whether the companion path is a directory |
| SessionDelete.DeletionFrame | src-tauri/src/commands/session/delete.rs:51-63 | deletion only removes entries, and only the file, the companion and what lies under the companion; nothing else on disk changes |
| FileSystems.Disk.RemoveFile | src-tauri/src/commands/session/delete.rs:52 | succeeds exactly when the entry is present, not a directory and not locked, and then removes just that entry; otherwise nothing changes |
| FileSystems.Disk.RemoveDirAll | src-tauri/src/commands/session/delete.rs:57-59 | succeeds exactly when the entry is present, is not a regular file, and nothing beneath it is locked, and then removes the entry and everything beneath it (a link only by itself) |
| SessionResume.IsSessionId | src-tauri/src/commands/session/resume.rs:11-14 | defines the pattern `^[A-Za-z0-9_-]+$`: non-empty, every character a letter, digit, `_` or `-` |
| SessionResume.ResumeCommand | src-tauri/src/commands/session/resume.rs:13-31 | an ID is accepted exactly when it is non-empty and every character is in `[A-Za-z0-9_-]`; the command is then `claude --resume ` followed by the ID, and otherwise the error is "Invalid session ID format" |
| SessionResume.AcceptedCommandInert | src-tauri/src/commands/session/resume.rs:21-31 | after the prefix, an accepted command holds no space, `;`, backslash or quote |
| SessionResume.FullCommand | src-tauri/src/commands/session/resume.rs:52 | defines the text typed into Terminal: `unset CLAUDECODE; ` then the command |
| SessionResume.Escape | src-tauri/src/commands/session/resume.rs:55 | defines the escaping: backslashes doubled first, then each quote preceded by a backslash. `EscapeCons`, `EscapeLength`, `UnescapeEscape`, `EscapeWellEscaped`, `EscapeUnescape` and `EscapePlain` state its properties |
| SessionResume.MacScript | src-tauri/src/commands/session/resume.rs:52-56 | defines the AppleScript: `tell application "Terminal"`, `activate`, then `do script` on the escaped command. `MacScriptCarriesCommand` and `AcceptedScriptVerbatim` state its properties |
| SessionResume.SessionIdExamples | src-tauri/src/commands/session/resume.rs:98-116 | a UUID is accepted; IDs with spaces or `;` are rejected; the empty ID gives "Invalid session ID format" |
| SessionResume.EscapeCons | src-tauri/src/commands/session/resume.rs:55 | doubling backslashes and then escaping quotes acts character by character |
| SessionResume.EscapeLength | src-tauri/src/commands/session/resume.rs:55 | the escaped text is longer by the number of backslashes plus the number of quotes |
| SessionResume.UnescapeEscape | src-tauri/src/commands/session/resume.rs:52-55 | reading the escaped text as a string literal body gives back the command |
| SessionResume.EscapeWellEscaped | src-tauri/src/commands/session/resume.rs:52-55 | the escaped text never contains a bare quote or a dangling backslash, so it cannot close the AppleScript literal early |
| SessionResume.EscapeUnescape | src-tauri/src/commands/session/resume.rs:52-55 | every well-formed literal body is the escape of what it reads as, so escaping is a bijection onto well-formed bodies |
| SessionResume.EscapePlain | src-tauri/src/commands/session/resume.rs:55 | text with no backslash or quote is left as it is |
| SessionResume.MacScriptCarriesCommand | src-tauri/src/commands/session/resume.rs:52-56 | the quoted body of the generated script is well formed and reads back as exactly `unset CLAUDECODE; ` followed by the command |
| SessionResume.AcceptedScriptVerbatim | src-tauri/src/commands/session/resume.rs:27-31 | for an accepted ID the script holds `unset CLAUDECODE; claude --resume ` and the ID verbatim |

## Left out

- Reading `originalPath` from `sessions-index.json` at the start of `decode_project_path` is not modelled. It is JSON parsing of a file's contents. `DecodeProjectPath` is the function's behaviour once that lookup has found nothing.
- `estimate_message_count_from_size` is not modelled. It works in floating point.
- Process spawning in `open_terminal_with_command` is not modelled. That covers the `cmd`, `osascript` and terminal-emulator launches, the Linux loop over terminal emulators, and clearing `CLAUDECODE` from the environment. The model stops at the text handed to the process.
- The Tauri `#[command]` and `async` plumbing is not modelled, and neither is `commands/session/mod.rs`, which only declares modules.
- The SIMD newline search (`memchr_iter`) is modelled as a plain left-to-right scan over the bytes.
- The `hyphen_positions` vector is modelled as a direct scan over the indices that hold a hyphen, in the same order.
- The disk is an oracle (`FileSystems.FileSystem`) keyed by the normalised path. Its answers are free, and real file systems, races between checks, and operating-system error texts are not modelled.
- `SessionDelete.Message`: for the I/O failures, it carries only the fixed prefix of the error text. The operating system's message that follows it is not modelled.
- `FileSystems.Disk.RemoveDirAll`: a refused `remove_dir_all` is modelled as removing nothing. The real call can stop part-way with some entries already gone.
- `Paths`: `std::path` is modelled with Unix semantics only. On Windows, prefixes such as `C:` and `\\?\` and the backslash as a separator are not modelled. The Windows-encoded project names are still decoded as text, as the source does.
- Only ASCII text is modelled: one character per byte. Rust slices by byte offset, and the names handled here are ASCII.
- `Lines.FindLineRanges`, `Lines.FindLineStarts`: the source's `Vec` capacity hint (`ESTIMATED_BYTES_PER_LINE`) only affects allocation and is not modelled.
