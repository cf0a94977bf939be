/** The parts of Rust's `std::path` the backend relies on, with Unix
    semantics: a path is split into components at '/', empty and `.`
    pieces vanish (except a leading `.` of a relative path), and `..` is
    kept. */
module Paths {
  import opened Wrappers
  import opened Text

  datatype Component = RootDir | CurDir | ParentDir | Normal(name: string)

  /** The components after the root (or after a leading `.`): no empty and no `.` pieces. */
  function BodyComponents(pieces: seq<string>): (cs: seq<Component>)
    ensures forall k :: 0 <= k < |cs| ==> cs[k].ParentDir? || (cs[k].Normal? && cs[k].name != [])
  {
    if pieces == [] then []
    else
      var head := if pieces[0] == "" || pieces[0] == "." then []
                  else if pieces[0] == ".." then [ParentDir]
                  else [Normal(pieces[0])];
      head + BodyComponents(pieces[1..])
  }

  /** `Path::new(p).components()`. */
  function Components(p: string): (cs: seq<Component>)
    ensures forall k :: 0 < k < |cs| ==> cs[k].ParentDir? || cs[k].Normal?
    ensures |p| > 0 && p[0] == '/' ==> |cs| > 0 && cs[0] == RootDir
  {
    var pieces := Split(p, '/');
    if |p| > 0 && p[0] == '/' then [RootDir] + BodyComponents(pieces[1..])
    else if pieces[0] == "." then [CurDir] + BodyComponents(pieces[1..])
    else BodyComponents(pieces)
  }

  function ComponentText(c: Component): string {
    match c
    case RootDir => "/"
    case CurDir => "."
    case ParentDir => ".."
    case Normal(n) => n
  }

  function JoinComponents(cs: seq<Component>): string {
    if cs == [] then []
    else if |cs| == 1 then ComponentText(cs[0])
    else ComponentText(cs[0]) + "/" + JoinComponents(cs[1..])
  }

  /** The normalised text of a component sequence: the path the operating
      system resolves. */
  function Render(cs: seq<Component>): string {
    if cs != [] && cs[0] == RootDir then "/" + JoinComponents(cs[1..]) else JoinComponents(cs)
  }

  /** `Path::is_absolute` on Unix: the path has a root. */
  predicate IsAbsolute(p: string) {
    |p| > 0 && p[0] == '/'
  }

  /** `Path::parent` on components: the last component dropped, unless it
      is the root or there is none. */
  function Parent(cs: seq<Component>): (r: Option<seq<Component>>)
    ensures r.Some? ==> |cs| > 0 && r.value == cs[..|cs| - 1]
  {
    if cs != [] && cs[|cs| - 1] != RootDir then Some(cs[..|cs| - 1]) else None
  }

  /** `Path::file_name`: the last component when it is a normal name. */
  function FileName(p: string): Option<string> {
    var cs := Components(p);
    if cs != [] && cs[|cs| - 1].Normal? then Some(cs[|cs| - 1].name) else None
  }

  /** The stem of a file name: everything before the last `.`, unless the
      name has no `.` or its only `.` leads (`.bashrc`), when it is the whole name. */
  function StemOf(name: string): (stem: string)
    ensures stem <= name
    ensures stem == name || (|stem| < |name| && name[|stem|] == '.' && '.' !in name[|stem| + 1..])
  {
    match LastIndexOf(name, '.')
    case None => name
    case Some(i) => if i == 0 then name else name[..i]
  }

  /** `Path::file_stem`. */
  function FileStem(p: string): Option<string> {
    match FileName(p)
    case None => None
    case Some(n) => Some(StemOf(n))
  }

  /** `Path::with_extension("")`, as the components of the result: the
      file name replaced by its stem. */
  function WithoutExtension(p: string): seq<Component> {
    var cs := Components(p);
    match FileStem(p)
    case None => cs
    case Some(stem) => cs[..|cs| - 1] + [Normal(stem)]
  }

  /** `Path::new(base).join(name)` for a relative `name`: a separator is
      added unless `base` is empty or already ends with one. */
  function Join(base: string, name: string): string {
    if base != [] && base[|base| - 1] != '/' then base + "/" + name else base + name
  }

  /** `Path::starts_with`: the components of `base` are a prefix of those of `p`. */
  predicate StartsWithPath(p: string, base: string) {
    Components(base) <= Components(p)
  }

  /** Length of the part of `p` before its body: the root, or a leading `.`
      of a relative path. */
  function BodyStart(p: string): nat {
    if |p| > 0 && p[0] == '/' then 1
    else if |p| > 0 && p[0] == '.' && (|p| == 1 || p[1] == '/') then 1
    else 0
  }

  /** How `Path::parent` trims the text left after its last component:
      trailing separators and `.` pieces go, down to the start of the body. */
  function TrimBack(s: string, floor: nat): (r: string)
    ensures r <= s
    decreases |s|
  {
    if |s| <= floor then s
    else
      var body := s[floor..];
      match LastIndexOf(body, '/')
      case None => if body == "." then s[..floor] else s
      case Some(i) =>
        var last := body[i + 1..];
        if last == "" || last == "." then
          var t := TrimBack(s[..|s| - |last| - 1], floor);
          assert s[..|s| - |last| - 1] <= s;
          t
        else s
  }

  /** `Path::new(dir + "/.git").parent()` as text: the parent of a `.git`
      directory named by `dir`. */
  function GitDirParent(dir: string): string {
    if dir == [] then "/" else TrimBack(dir, BodyStart(dir + "/.git"))
  }

  lemma {:induction false} GitDirParentPlain(dir: string)
    requires |dir| >= 2 && dir[0] == '/'
    requires dir[|dir| - 1] != '/'
    requires !(dir[|dir| - 2] == '/' && dir[|dir| - 1] == '.')
    ensures GitDirParent(dir) == dir
  {
    assert BodyStart(dir + "/.git") == 1;
    var body := dir[1..];
    match LastIndexOf(body, '/')
    case None =>
      assert body != ".";
    case Some(i) =>
      var last := body[i + 1..];
      assert last != "";
      assert |last| == 1 ==> body[i] == dir[|dir| - 2] && last[0] == dir[|dir| - 1];
  }
}
