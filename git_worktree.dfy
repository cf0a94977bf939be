/** Telling a project's checkout apart: not a repository, the main working
    tree, or a linked worktree whose `.git` file points back at the main
    repository. */
module GitWorktree {
  import opened Wrappers
  import opened Text
  import opened Paths
  import opened FileSystems
  import opened ProjectPath

  const WorktreesMarker: string := "/.git/worktrees/"
  const GitdirPrefix: string := "gitdir: "

  datatype WorktreeType = NotGit | Main | Linked

  datatype GitInfo = GitInfo(worktreeType: WorktreeType, mainProjectPath: Option<string>)

  /** `extract_main_git_dir`: the repository directory a worktree's gitdir
      lives under, cut at the first worktrees marker. */
  function ExtractMainGitDir(gitdir: string): (r: Option<string>)
    ensures r.Some? <==> exists i :: OccursAt(gitdir, WorktreesMarker, i)
    ensures r.Some? ==>
      var i := |r.value| - 5;
      i >= 0 && OccursAt(gitdir, WorktreesMarker, i) && r.value == gitdir[..i] + "/.git"
      && forall j :: 0 <= j < i ==> !OccursAt(gitdir, WorktreesMarker, j)
  {
    match Find(gitdir, WorktreesMarker)
    case Some(pos) => Some(gitdir[..pos] + "/.git")
    case None => None
  }

  /** The main project named by a `.git` file, when its text is a gitdir
      line pointing into some repository's worktrees directory. */
  function MainProjectFromGitFile(content: string): Option<string> {
    match StripPrefix(content, GitdirPrefix)
    case None => None
    case Some(rest) =>
      var gitdir := Trim(rest);
      match Find(gitdir, WorktreesMarker)
      case None => None
      case Some(pos) => Some(GitDirParent(gitdir[..pos]))
  }

  /** `detect_git_worktree_info`, over the decoded project directory. */
  function DetectGitWorktreeInfo(fs: FileSystem, projectPath: string): (r: Option<GitInfo>)
    ensures r.Some?
    ensures r.value.mainProjectPath.Some? <==> r.value.worktreeType == Linked
  {
    var actual := DecodeProjectPath(fs, projectPath);
    var gitPath := Join(actual, ".git");
    if !Exists(fs, gitPath) then Some(GitInfo(NotGit, None))
    else if IsDir(fs, gitPath) then Some(GitInfo(Main, None))
    else if IsFile(fs, gitPath) && ReadToString(fs, gitPath).Some?
         && MainProjectFromGitFile(ReadToString(fs, gitPath).value).Some? then
      Some(GitInfo(Linked, MainProjectFromGitFile(ReadToString(fs, gitPath).value)))
    else Some(GitInfo(NotGit, None))
  }

  /** A `.git` file names a main project exactly when it starts with the
      gitdir prefix and the trimmed path after it holds the worktrees marker. */
  lemma MainProjectRecognised(content: string)
    ensures MainProjectFromGitFile(content).Some? <==>
      (GitdirPrefix <= content && Contains(Trim(content[|GitdirPrefix|..]), WorktreesMarker))
  {
  }

  /** The `.git` entry a project is judged by. */
  function GitPath(fs: FileSystem, projectPath: string): string {
    Join(DecodeProjectPath(fs, projectPath), ".git")
  }

  /** The three outcomes and what on disk selects each. */
  lemma DetectClassification(fs: FileSystem, projectPath: string)
    ensures var g := GitPath(fs, projectPath);
      var t := DetectGitWorktreeInfo(fs, projectPath).value.worktreeType;
      (t == Main <==> IsDir(fs, g))
      && (t == Linked <==> !IsDir(fs, g) && ReadToString(fs, g).Some?
                           && MainProjectFromGitFile(ReadToString(fs, g).value).Some?)
  {
    var g := GitPath(fs, projectPath);
    assert IsDir(fs, g) ==> Exists(fs, g);
    assert ReadToString(fs, g).Some? ==> IsFile(fs, g) && Exists(fs, g);
  }

  /** The gitdir of a worktree of repository `main` yields `main/.git`, as
      long as the marker does not already occur earlier. */
  lemma ExtractMainGitDirWorktree(main: string, branch: string)
    requires Find(main + WorktreesMarker + branch, WorktreesMarker) == Some(|main|)
    ensures ExtractMainGitDir(main + WorktreesMarker + branch) == Some(main + "/.git")
  {
    assert (main + WorktreesMarker + branch)[..|main|] == main;
  }

  /** A `.git` file written by `git worktree add` for repository `main`
      (an absolute path in plain form) names `main` as the main project,
      whatever whitespace ends the file. */
  lemma GitFileNamesMain(main: string, branch: string, ws: string)
    requires |main| >= 2 && main[0] == '/' && main[|main| - 1] != '/'
    requires !(main[|main| - 2] == '/' && main[|main| - 1] == '.')
    requires branch != [] && !IsWhitespace(branch[|branch| - 1])
    requires forall i :: 0 <= i < |ws| ==> IsWhitespace(ws[i])
    requires Find(main + WorktreesMarker + branch, WorktreesMarker) == Some(|main|)
    ensures MainProjectFromGitFile(GitdirPrefix + main + WorktreesMarker + branch + ws) == Some(main)
  {
    var gitdir := main + WorktreesMarker + branch;
    var content := GitdirPrefix + gitdir + ws;
    assert GitdirPrefix + main + WorktreesMarker + branch + ws == content;
    GitdirLineTrimmed(gitdir, ws);
    MainProjectOfLine(content, gitdir, |main|);
    assert gitdir[..|main|] == main;
    GitDirParentPlain(main);
  }

  /** A gitdir line whose trimmed path holds the marker at `pos` names the
      parent of the text before it. */
  lemma MainProjectOfLine(content: string, gitdir: string, pos: nat)
    requires StripPrefix(content, GitdirPrefix).Some?
    requires Trim(StripPrefix(content, GitdirPrefix).value) == gitdir
    requires Find(gitdir, WorktreesMarker) == Some(pos)
    ensures pos <= |gitdir| && MainProjectFromGitFile(content) == Some(GitDirParent(gitdir[..pos]))
  {
  }

  /** Reading a gitdir line gives back the path it holds, minus trailing
      whitespace. */
  lemma GitdirLineTrimmed(gitdir: string, ws: string)
    requires gitdir != [] && !IsWhitespace(gitdir[0]) && !IsWhitespace(gitdir[|gitdir| - 1])
    requires forall i :: 0 <= i < |ws| ==> IsWhitespace(ws[i])
    ensures var rest := StripPrefix(GitdirPrefix + gitdir + ws, GitdirPrefix);
      rest.Some? && Trim(rest.value) == gitdir
  {
    var content := GitdirPrefix + gitdir + ws;
    assert content[..|GitdirPrefix|] == GitdirPrefix;
    assert content[|GitdirPrefix|..] == gitdir + ws;
    TrimDropsTail(gitdir, ws);
  }

  /** A project whose `.git` is such a file is a linked worktree of `main`. */
  lemma DetectLinkedWorktree(fs: FileSystem, projectPath: string, main: string, branch: string, ws: string)
    requires |main| >= 2 && main[0] == '/' && main[|main| - 1] != '/'
    requires !(main[|main| - 2] == '/' && main[|main| - 1] == '.')
    requires branch != [] && !IsWhitespace(branch[|branch| - 1])
    requires forall i :: 0 <= i < |ws| ==> IsWhitespace(ws[i])
    requires Find(main + WorktreesMarker + branch, WorktreesMarker) == Some(|main|)
    requires Lstat(fs, GitPath(fs, projectPath)) == Some(File)
    requires ReadToString(fs, GitPath(fs, projectPath)) == Some(GitdirPrefix + main + WorktreesMarker + branch + ws)
    ensures DetectGitWorktreeInfo(fs, projectPath) == Some(GitInfo(Linked, Some(main)))
  {
    GitFileNamesMain(main, branch, ws);
  }

  /** A `.git` file that is not a gitdir line leaves the project unclassified. */
  lemma DetectUnparsableGitFile(fs: FileSystem, projectPath: string)
    requires Lstat(fs, GitPath(fs, projectPath)) == Some(File)
    requires ReadToString(fs, GitPath(fs, projectPath)).Some?
    requires !(GitdirPrefix <= ReadToString(fs, GitPath(fs, projectPath)).value)
    ensures DetectGitWorktreeInfo(fs, projectPath) == Some(GitInfo(NotGit, None))
  {
  }

  /** The documented worktree case of `extract_main_git_dir`. */
  lemma ExtractMainGitDirExample()
    ensures ExtractMainGitDir("/Users/jack/main" + WorktreesMarker + "feature")
         == Some("/Users/jack/main" + "/.git")
  {
    MarkerFirstAfter("/Users/jack/main", "feature");
    ExtractMainGitDirWorktree("/Users/jack/main", "feature");
  }

  /** The marker cannot start before the first `.` of the text. */
  lemma MarkerFirstAfter(main: string, branch: string)
    requires '.' !in main
    ensures Find(main + WorktreesMarker + branch, WorktreesMarker) == Some(|main|)
  {
    var s := main + WorktreesMarker + branch;
    forall j | 0 <= j < |main| ensures !OccursAt(s, WorktreesMarker, j) {
      assert s[j + 1] != '.' by {
        if j + 1 < |main| {
          assert s[j + 1] == main[j + 1];
        }
      }
      MismatchAt(s, WorktreesMarker, j, 1);
    }
    assert s[|main|..|main| + |WorktreesMarker|] == WorktreesMarker;
    FindFirstOccurrence(s, WorktreesMarker, |main|);
  }

  /** The documented plain-path case of `extract_main_git_dir`. */
  lemma ExtractMainGitDirNoMarkerExample()
    ensures ExtractMainGitDir("/some/path/without/worktrees") == None
  {
    var bad := "/some/path/without/worktrees";
    assert forall k :: 0 <= k < |bad| ==> bad[k] != '.';
    forall j: nat ensures !OccursAt(bad, WorktreesMarker, j) {
      MismatchAt(bad, WorktreesMarker, j, 1);
    }
  }
}
