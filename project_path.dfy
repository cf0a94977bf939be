/** Decoding the directory names under `~/.claude/projects/`, which encode
    a project's path with every separator turned into a hyphen. Where the
    code asks the disk which hyphens were separators, the disk is the
    `FileSystem` oracle. */
module ProjectPath {
  import opened Wrappers
  import opened Text
  import opened FileSystems

  /** Recursion stops below this depth. */
  const MaxDepth: nat := 20

  /** The separator `decode_recursive_inner` joins with: a backslash under
      a base that already holds one, a slash otherwise. */
  function SepFor(base: string): (sep: string)
    ensures sep == "/" || sep == "\\"
    ensures sep == "\\" <==> '\\' in base
  {
    if '\\' in base then "\\" else "/"
  }

  /** The path tried for a segment: `/segment` from an empty base,
      `base + sep + segment` otherwise. */
  function Candidate(base: string, sep: string, segment: string): string {
    if base == [] then "/" + segment else base + sep + segment
  }

  // ----- decode_recursive_inner -----

  /** `decode_recursive_inner(encoded, base, depth)`. */
  function DecodeInner(fs: FileSystem, encoded: string, base: string, depth: nat): Option<string>
    decreases |encoded|, 1
  {
    if depth > MaxDepth then None
    else if encoded == [] then
      if base != [] && Exists(fs, base) then Some(base) else None
    else TryHyphens(fs, encoded, base, depth, 0)
  }

  /** The loop over the hyphens of `encoded` from index `i` on, then the
      whole-segment fallback. */
  function TryHyphens(fs: FileSystem, encoded: string, base: string, depth: nat, i: nat): Option<string>
    decreases |encoded|, 0, |encoded| - i
  {
    if i >= |encoded| then WholeSegment(fs, encoded, base)
    else if encoded[i] != '-' || i == 0 then TryHyphens(fs, encoded, base, depth, i + 1)
    else
      var sep := SepFor(base);
      var candidate := Candidate(base, sep, encoded[..i]);
      if !IsRealDir(fs, candidate) then TryHyphens(fs, encoded, base, depth, i + 1)
      else
        var remaining := encoded[i + 1..];
        if remaining == [] then Some(candidate)
        else if IsRealEntry(fs, candidate + sep + remaining) then Some(candidate + sep + remaining)
        else match DecodeInner(fs, remaining, candidate, depth + 1)
          case Some(p) => Some(p)
          case None => TryHyphens(fs, encoded, base, depth, i + 1)
  }

  /** No hyphen worked: the whole of `encoded` as one segment under a non-empty base. */
  function WholeSegment(fs: FileSystem, encoded: string, base: string): Option<string> {
    if base != [] && Exists(fs, base + SepFor(base) + encoded) then Some(base + SepFor(base) + encoded)
    else None
  }

  /** `decode_recursive_inner`: tries each hyphen, left to right, as a
      separator; a directory found there is descended into. */
  method DecodeRecursiveInner(fs: FileSystem, encoded: string, base: string, depth: nat) returns (r: Option<string>)
    ensures r == DecodeInner(fs, encoded, base, depth)
    decreases |encoded|
  {
    if depth > MaxDepth {
      return None;
    }
    if encoded == [] {
      if base != [] && Exists(fs, base) {
        return Some(base);
      }
      return None;
    }
    var pos := 0;
    while pos < |encoded|
      invariant pos <= |encoded|
      invariant TryHyphens(fs, encoded, base, depth, 0) == TryHyphens(fs, encoded, base, depth, pos)
    {
      if encoded[pos] == '-' && pos > 0 {
        var sep := SepFor(base);
        var candidate := Candidate(base, sep, encoded[..pos]);
        if IsRealDir(fs, candidate) {
          var remaining := encoded[pos + 1..];
          if remaining == [] {
            TryHyphensHit(fs, encoded, base, depth, pos);
            return Some(candidate);
          }
          var full := candidate + sep + remaining;
          if IsRealEntry(fs, full) {
            TryHyphensHit(fs, encoded, base, depth, pos);
            return Some(full);
          }
          var sub := DecodeRecursiveInner(fs, remaining, candidate, depth + 1);
          TryHyphensHit(fs, encoded, base, depth, pos);
          if sub.Some? {
            return sub;
          }
        }
      }
      TryHyphensMiss(fs, encoded, base, depth, pos);
      pos := pos + 1;
    }
    if base != [] {
      var full := base + SepFor(base) + encoded;
      if Exists(fs, full) {
        return Some(full);
      }
    }
    return None;
  }

  /** A hyphen whose prefix is a real directory: the directory itself when
      nothing follows, the whole rest as one entry when that exists, else
      the descent, falling through to the next position when it fails. */
  lemma TryHyphensHit(fs: FileSystem, encoded: string, base: string, depth: nat, pos: nat)
    requires 0 < pos < |encoded| && encoded[pos] == '-'
    requires IsRealDir(fs, Candidate(base, SepFor(base), encoded[..pos]))
    ensures var sep := SepFor(base);
      var candidate := Candidate(base, sep, encoded[..pos]);
      var remaining := encoded[pos + 1..];
      TryHyphens(fs, encoded, base, depth, pos) ==
        if remaining == [] then Some(candidate)
        else if IsRealEntry(fs, candidate + sep + remaining) then Some(candidate + sep + remaining)
        else if DecodeInner(fs, remaining, candidate, depth + 1).Some? then DecodeInner(fs, remaining, candidate, depth + 1)
        else TryHyphens(fs, encoded, base, depth, pos + 1)
  {
  }

  /** A position that is not a hyphen, or whose prefix is no directory,
      passes straight to the next one. */
  lemma TryHyphensMiss(fs: FileSystem, encoded: string, base: string, depth: nat, pos: nat)
    requires pos < |encoded|
    requires encoded[pos] != '-' || pos == 0 || !IsRealDir(fs, Candidate(base, SepFor(base), encoded[..pos]))
      || (encoded[pos + 1..] != []
          && !IsRealEntry(fs, Candidate(base, SepFor(base), encoded[..pos]) + SepFor(base) + encoded[pos + 1..])
          && DecodeInner(fs, encoded[pos + 1..], Candidate(base, SepFor(base), encoded[..pos]), depth + 1).None?)
    ensures TryHyphens(fs, encoded, base, depth, pos) == TryHyphens(fs, encoded, base, depth, pos + 1)
  {
  }

  // ----- find_deepest_existing_dir -----

  /** `find_deepest_existing_dir(encoded, base, sep, depth)`: the deepest
      directory reached and the part of `encoded` left over. */
  function FindDeepest(fs: FileSystem, encoded: string, base: string, sep: string, depth: nat): (string, string)
    decreases |encoded|, 1
  {
    if depth > MaxDepth || encoded == [] then (base, encoded)
    else ScanDeepest(fs, encoded, base, sep, depth, 0)
  }

  /** The loop over the hyphens of `encoded` from index `i` on: the first
      hyphen whose prefix is a directory is committed to. */
  function ScanDeepest(fs: FileSystem, encoded: string, base: string, sep: string, depth: nat, i: nat): (string, string)
    decreases |encoded|, 0, |encoded| - i
  {
    if i >= |encoded| then (base, encoded)
    else if encoded[i] != '-' || i == 0 then ScanDeepest(fs, encoded, base, sep, depth, i + 1)
    else
      var candidate := Candidate(base, sep, encoded[..i]);
      if !IsRealDir(fs, candidate) then ScanDeepest(fs, encoded, base, sep, depth, i + 1)
      else if encoded[i + 1..] == [] then (candidate, [])
      else FindDeepest(fs, encoded[i + 1..], candidate, sep, depth + 1)
  }

  /** `find_deepest_existing_dir`: goes as deep into existing directories as
      the hyphens allow, never backtracking. */
  method FindDeepestExistingDir(fs: FileSystem, encoded: string, base: string, sep: string, depth: nat)
    returns (deepest: string, remaining: string)
    ensures (deepest, remaining) == FindDeepest(fs, encoded, base, sep, depth)
    decreases |encoded|
  {
    if depth > MaxDepth || encoded == [] {
      return base, encoded;
    }
    var pos := 0;
    while pos < |encoded|
      invariant pos <= |encoded|
      invariant ScanDeepest(fs, encoded, base, sep, depth, 0) == ScanDeepest(fs, encoded, base, sep, depth, pos)
    {
      if encoded[pos] == '-' && pos > 0 {
        var candidate := Candidate(base, sep, encoded[..pos]);
        if IsRealDir(fs, candidate) {
          var rest := encoded[pos + 1..];
          ScanHit(fs, encoded, base, sep, depth, pos);
          if rest == [] {
            return candidate, [];
          }
          deepest, remaining := FindDeepestExistingDir(fs, rest, candidate, sep, depth + 1);
          return;
        }
      }
      ScanMiss(fs, encoded, base, sep, depth, pos);
      pos := pos + 1;
    }
    return base, encoded;
  }

  /** The first hyphen whose prefix is a real directory ends the scan. */
  lemma ScanHit(fs: FileSystem, encoded: string, base: string, sep: string, depth: nat, pos: nat)
    requires 0 < pos < |encoded| && encoded[pos] == '-'
    requires IsRealDir(fs, Candidate(base, sep, encoded[..pos]))
    ensures var candidate := Candidate(base, sep, encoded[..pos]);
      ScanDeepest(fs, encoded, base, sep, depth, pos) ==
        if encoded[pos + 1..] == [] then (candidate, [])
        else FindDeepest(fs, encoded[pos + 1..], candidate, sep, depth + 1)
  {
  }

  /** Any other position passes to the next one. */
  lemma ScanMiss(fs: FileSystem, encoded: string, base: string, sep: string, depth: nat, pos: nat)
    requires pos < |encoded|
    requires encoded[pos] != '-' || pos == 0 || !IsRealDir(fs, Candidate(base, sep, encoded[..pos]))
    ensures ScanDeepest(fs, encoded, base, sep, depth, pos) == ScanDeepest(fs, encoded, base, sep, depth, pos + 1)
  {
  }

  // ----- extract_project_name -----

  /** The Windows form `X--rest`: a drive letter followed by two hyphens. */
  predicate IsWindowsEncoded(s: string) {
    |s| >= 3 && IsAsciiAlphabetic(s[0]) && s[1] == '-' && s[2] == '-'
  }

  /** `extract_project_name_with_fs`: for the Windows form only, the part
      left over below the deepest existing directory, trusted only when that
      directory is at least three levels deep (`X:\Users\Name\...`). */
  function ExtractProjectNameWithFs(fs: FileSystem, s: string): (r: Option<string>)
    ensures r.Some? ==> IsWindowsEncoded(s) && r.value != [] && IsSuffix(r.value, s[3..]) && IsSuffix(r.value, s)
  {
    if IsWindowsEncoded(s) then
      var (deepest, remaining) := FindDeepest(fs, s[3..], s[..1] + ":", "\\", 0);
      FindDeepestSound(fs, s[3..], s[..1] + ":", "\\", 0);
      if remaining != [] && Count(deepest, '\\') >= 3 then Some(remaining) else None
    else None
  }

  /** `extract_project_name`: the filesystem answer if there is one, else
      the Unix heuristic (everything after the third hyphen), else the
      Windows heuristic (everything after `X--Users-Name-`), else the name itself. */
  function ExtractProjectName(fs: FileSystem, s: string): (r: string)
    ensures IsSuffix(r, s)
  {
    match ExtractProjectNameWithFs(fs, s)
    case Some(name) => name
    case None => NameHeuristic(s)
  }

  /** The branch of `extract_project_name` that reads the name alone. */
  function NameHeuristic(s: string): (r: string)
    ensures IsSuffix(r, s)
  {
    if |s| > 0 && s[0] == '-' then
      var parts := SplitN(s, 4, '-');
      SplitNLast(s, 4, '-');
      if |parts| == 4 then parts[3] else s
    else if IsWindowsEncoded(s) then
      var parts := SplitN(s[3..], 3, '-');
      SplitNLast(s[3..], 3, '-');
      if |parts| == 3 then parts[2] else s
    else s
  }

  // ----- decode_project_path -----

  const Marker: string := ".claude/projects/"
  const MarkerWin: string := ".claude\\projects\\"

  /** Where the encoded directory name starts: after the first slash
      marker, or after the first backslash marker when there is none. */
  function EncodedStart(path: string): (r: Option<nat>)
    ensures r.Some? ==> r.value <= |path|
    ensures r.None? <==> !Contains(path, Marker) && !Contains(path, MarkerWin)
    ensures Contains(path, Marker) ==>
      r.Some? && r.value >= |Marker| && OccursAt(path, Marker, r.value - |Marker|)
      && forall j :: 0 <= j < r.value - |Marker| ==> !OccursAt(path, Marker, j)
    ensures !Contains(path, Marker) && Contains(path, MarkerWin) ==>
      r.Some? && r.value >= |MarkerWin| && OccursAt(path, MarkerWin, r.value - |MarkerWin|)
      && forall j :: 0 <= j < r.value - |MarkerWin| ==> !OccursAt(path, MarkerWin, j)
  {
    var markerLen := if Contains(path, Marker) then |Marker| else |MarkerWin|;
    match Find(path, Marker)
    case Some(pos) => Some(pos + markerLen)
    case None =>
      match Find(path, MarkerWin)
      case Some(pos) => Some(pos + markerLen)
      case None => None
  }

  /** The Windows branch of `decode_project_path`, given the encoded name. */
  function DecodeWindows(fs: FileSystem, encoded: string): Option<string> {
    if !IsWindowsEncoded(encoded) then None
    else
      var drive := encoded[..1];
      var afterDrive := encoded[3..];
      var winBase := drive + ":";
      match DecodeInner(fs, afterDrive, winBase, 0)
      case Some(p) => Some(p)
      case None =>
        var (deepest, remaining) := FindDeepest(fs, afterDrive, winBase, "\\", 0);
        var seps := Count(deepest, '\\');
        if seps >= 3 && remaining != [] then Some(deepest + "\\" + remaining)
        else if seps >= 3 then Some(deepest)
        else DriveHeuristic(drive, afterDrive)
  }

  /** Last resort for the Windows form: the first two hyphens become
      backslashes. */
  function DriveHeuristic(drive: string, afterDrive: string): Option<string> {
    DrivePath(drive, SplitN(afterDrive, 3, '-'))
  }

  /** The pieces of the name after the drive, joined with backslashes under it. */
  function DrivePath(drive: string, parts: seq<string>): Option<string> {
    if |parts| >= 3 then Some(drive + ":\\" + parts[0] + "\\" + parts[1] + "\\" + parts[2])
    else if |parts| == 2 then Some(drive + ":\\" + parts[0] + "\\" + parts[1])
    else if |parts| == 1 then Some(drive + ":\\" + parts[0])
    else None
  }

  /** Both branches of `decode_project_path`, given the encoded name; `None`
      when neither returns. */
  function DecodeEncoded(fs: FileSystem, encoded: string): Option<string> {
    if |encoded| > 0 && encoded[0] == '-' then
      match DecodeInner(fs, encoded[1..], "", 0)
      case Some(p) => Some(p)
      case None =>
        var parts := SplitN(encoded, 4, '-');
        if |parts| >= 4 then Some("/" + parts[1] + "/" + parts[2] + "/" + parts[3])
        else if |parts| == 3 then Some("/" + parts[1] + "/" + parts[2])
        else if |parts| == 2 then Some("/" + parts[1])
        else DecodeWindows(fs, encoded)
    else DecodeWindows(fs, encoded)
  }

  /** `decode_project_path` after its `sessions-index.json` lookup has
      failed: decode the name after the marker, or return the path unchanged. */
  function DecodeProjectPath(fs: FileSystem, path: string): string {
    match EncodedStart(path)
    case None => path
    case Some(start) =>
      match DecodeEncoded(fs, path[start..])
      case Some(p) => p
      case None => path
  }

  // ----- Properties of the decoding -----

  predicate IsSep(c: char) {
    c == '/' || c == '\\'
  }

  /** The character that joins a segment to `base`. */
  function JoinChar(base: string): char {
    if base == [] then '/' else SepFor(base)[0]
  }

  /** `t` is `encoded` with some hyphens turned into separators, less a
      trailing hyphen that ended on a directory. */
  predicate HyphensAsSeps(encoded: string, t: string) {
    && (|t| == |encoded| || (|t| + 1 == |encoded| && encoded[|encoded| - 1] == '-'))
    && forall i :: 0 <= i < |t| ==> t[i] == encoded[i] || (encoded[i] == '-' && IsSep(t[i]))
  }

  /** `p` is what decoding `encoded` below `base` may produce: `base` itself
      for an empty name, otherwise `base`, a separator, and the name with
      some hyphens read as separators. */
  predicate DecodedFrom(base: string, encoded: string, p: string) {
    || (p == base && encoded == [])
    || (|p| > |base| && p[..|base|] == base && p[|base|] == JoinChar(base)
        && HyphensAsSeps(encoded, p[|base| + 1..]))
  }

  /** Whatever `decode_recursive_inner` returns exists on disk and spells
      the encoded name with hyphens read as separators. */
  lemma {:induction false} DecodeInnerSound(fs: FileSystem, encoded: string, base: string, depth: nat)
    ensures DecodeInner(fs, encoded, base, depth).Some? ==>
      var p := DecodeInner(fs, encoded, base, depth).value;
      Exists(fs, p) && DecodedFrom(base, encoded, p)
    decreases |encoded|, 1
  {
    if depth <= MaxDepth && encoded != [] {
      TryHyphensSound(fs, encoded, base, depth, 0);
    }
  }

  /** The disk settles the decoding: when `/a` is a real directory and
      `/a/c` a real entry, the first hyphen after a hyphen-free `a` is read
      as a separator and `/a/c` comes back, with the hyphens inside `c` kept. */
  lemma DecodeInnerFindsEntry(fs: FileSystem, a: string, c: string)
    requires a != [] && c != [] && '-' !in a
    requires IsRealDir(fs, "/" + a) && IsRealEntry(fs, "/" + a + "/" + c)
    ensures DecodeInner(fs, a + "-" + c, "", 0) == Some("/" + a + "/" + c)
  {
    var e := a + "-" + c;
    assert e[..|a|] == a && e[|a|] == '-' && e[|a| + 1..] == c;
    assert Candidate("", SepFor(""), a) == "/" + a;
    TryHyphensHit(fs, e, "", 0, |a|);
    assert TryHyphens(fs, e, "", 0, |a|) == Some("/" + a + "/" + c);
    TryHyphensSkipPrefix(fs, e, "", 0, |a|);
  }

  /** Positions before the first hyphen are passed over. */
  lemma TryHyphensSkipPrefix(fs: FileSystem, encoded: string, base: string, depth: nat, k: nat)
    requires k <= |encoded| && forall j :: 0 < j < k ==> encoded[j] != '-'
    ensures TryHyphens(fs, encoded, base, depth, 0) == TryHyphens(fs, encoded, base, depth, k)
  {
    var i := k;
    while i > 0
      invariant 0 <= i <= k
      invariant TryHyphens(fs, encoded, base, depth, i) == TryHyphens(fs, encoded, base, depth, k)
    {
      i := i - 1;
      TryHyphensMiss(fs, encoded, base, depth, i);
    }
  }

  lemma {:induction false} TryHyphensSound(fs: FileSystem, encoded: string, base: string, depth: nat, i: nat)
    requires encoded != []
    ensures TryHyphens(fs, encoded, base, depth, i).Some? ==>
      var p := TryHyphens(fs, encoded, base, depth, i).value;
      Exists(fs, p) && DecodedFrom(base, encoded, p)
    decreases |encoded|, 0, |encoded| - i
  {
    var sep := SepFor(base);
    if i >= |encoded| {
      if base != [] {
        ShapeWhole(base, encoded);
      }
    } else if encoded[i] != '-' || i == 0 || !IsRealDir(fs, Candidate(base, sep, encoded[..i])) {
      TryHyphensMiss(fs, encoded, base, depth, i);
      TryHyphensSound(fs, encoded, base, depth, i + 1);
    } else {
      TryHyphensHit(fs, encoded, base, depth, i);
      var segment := encoded[..i];
      var candidate := Candidate(base, sep, segment);
      var remaining := encoded[i + 1..];
      SplitAtHyphen(encoded, i);
      if remaining == [] {
        ShapeLeaf(base, segment);
      } else if IsRealEntry(fs, candidate + sep + remaining) {
        ShapeFull(base, segment, remaining);
      } else {
        DecodeInnerSound(fs, remaining, candidate, depth + 1);
        var sub := DecodeInner(fs, remaining, candidate, depth + 1);
        if sub.Some? {
          ShapeNested(base, segment, remaining, sub.value);
        } else {
          TryHyphensSound(fs, encoded, base, depth, i + 1);
        }
      }
    }
  }

  /** A string is its part before a hyphen, the hyphen, and the part after. */
  lemma SplitAtHyphen(encoded: string, i: nat)
    requires i < |encoded| && encoded[i] == '-'
    ensures encoded == encoded[..i] + "-" + encoded[i + 1..]
  {
  }

  lemma ShapeWhole(base: string, encoded: string)
    requires base != []
    ensures DecodedFrom(base, encoded, base + SepFor(base) + encoded)
  {
    var p := base + SepFor(base) + encoded;
    assert p[..|base|] == base && p[|base| + 1..] == encoded;
  }

  lemma ShapeLeaf(base: string, segment: string)
    ensures DecodedFrom(base, segment + "-", Candidate(base, SepFor(base), segment))
  {
    var p := Candidate(base, SepFor(base), segment);
    assert p == base + [JoinChar(base)] + segment;
    assert p[..|base|] == base && p[|base| + 1..] == segment;
  }

  lemma ShapeFull(base: string, segment: string, remaining: string)
    ensures DecodedFrom(base, segment + "-" + remaining,
                        Candidate(base, SepFor(base), segment) + SepFor(base) + remaining)
  {
    var sep := SepFor(base);
    var p := Candidate(base, sep, segment) + sep + remaining;
    assert p == base + [JoinChar(base)] + segment + sep + remaining;
    assert p[..|base|] == base && p[|base| + 1..] == segment + sep + remaining;
  }

  lemma ShapeNested(base: string, segment: string, remaining: string, p: string)
    requires remaining != []
    requires DecodedFrom(Candidate(base, SepFor(base), segment), remaining, p)
    ensures DecodedFrom(base, segment + "-" + remaining, p)
  {
    var candidate := Candidate(base, SepFor(base), segment);
    CandidateJoins(base, segment);
    JoinCharIsSep(candidate);
    NestedPrefix(base, JoinChar(base), segment, remaining, p, JoinChar(candidate));
  }

  /** The candidate is the base, its joining character, and the segment. */
  lemma CandidateJoins(base: string, segment: string)
    ensures Candidate(base, SepFor(base), segment) == base + [JoinChar(base)] + segment
  {
  }

  lemma JoinCharIsSep(base: string)
    ensures IsSep(JoinChar(base))
  {
  }

  /** `ShapeNested` with the joining characters named. */
  lemma NestedPrefix(base: string, jb: char, segment: string, remaining: string, p: string, jc: char)
    requires IsSep(jc) && remaining != []
    requires var n := |base| + 1 + |segment|;
      |p| > n && p[..n] == base + [jb] + segment && p[n] == jc && HyphensAsSeps(remaining, p[n + 1..])
    ensures |p| > |base| && p[..|base|] == base && p[|base|] == jb
    ensures HyphensAsSeps(segment + "-" + remaining, p[|base| + 1..])
  {
    var n := |base| + 1 + |segment|;
    var tail := p[n + 1..];
    assert p == base + [jb] + segment + [jc] + tail by {
      assert p == p[..n] + [p[n]] + tail;
    }
    assert p[|base| + 1..] == segment + [jc] + tail;
    HyphensPrepend(segment, remaining, tail, jc);
  }

  /** Read below a directory, the hyphen that led to it counts as a separator. */
  lemma HyphensPrepend(segment: string, remaining: string, tail: string, j: char)
    requires IsSep(j) && remaining != [] && HyphensAsSeps(remaining, tail)
    ensures HyphensAsSeps(segment + "-" + remaining, segment + [j] + tail)
  {
    var e := segment + "-" + remaining;
    var t := segment + [j] + tail;
    var n := |segment| + 1;
    forall i | 0 <= i < |t|
      ensures t[i] == e[i] || (e[i] == '-' && IsSep(t[i]))
    {
      if i >= n {
        assert t[i] == tail[i - n] && e[i] == remaining[i - n];
      } else if i < |segment| {
        assert t[i] == segment[i] && e[i] == segment[i];
      }
    }
    assert e[|e| - 1] == remaining[|remaining| - 1];
  }

  /** What `find_deepest_existing_dir` returns, as text: `base` and all
      of `encoded`, or a path extending `base` and the part of `encoded`
      after the hyphen that ended it. The leftover is always a suffix of
      `encoded`. */
  predicate DeepestShape(encoded: string, base: string, r: (string, string)) {
    && IsSuffix(r.1, encoded)
    && ((r.0 == base && r.1 == encoded)
        || (|r.1| < |encoded| && encoded[|encoded| - |r.1| - 1] == '-'
            && |r.0| > |base| && r.0[..|base|] == base))
  }

  lemma {:induction false} FindDeepestSound(fs: FileSystem, encoded: string, base: string, sep: string, depth: nat)
    ensures DeepestShape(encoded, base, FindDeepest(fs, encoded, base, sep, depth))
    decreases |encoded|, 1
  {
    if !(depth > MaxDepth || encoded == []) {
      ScanDeepestSound(fs, encoded, base, sep, depth, 0);
    }
  }

  lemma {:induction false} ScanDeepestSound(fs: FileSystem, encoded: string, base: string, sep: string, depth: nat, i: nat)
    ensures DeepestShape(encoded, base, ScanDeepest(fs, encoded, base, sep, depth, i))
    decreases |encoded|, 0, |encoded| - i
  {
    if i >= |encoded| {
    } else if encoded[i] != '-' || i == 0 || !IsRealDir(fs, Candidate(base, sep, encoded[..i])) {
      ScanMiss(fs, encoded, base, sep, depth, i);
      ScanDeepestSound(fs, encoded, base, sep, depth, i + 1);
    } else {
      ScanHit(fs, encoded, base, sep, depth, i);
      var candidate := Candidate(base, sep, encoded[..i]);
      var rest := encoded[i + 1..];
      if rest != [] {
        FindDeepestSound(fs, rest, candidate, sep, depth + 1);
      }
      ScanDeepestHitSound(encoded, base, sep, i, candidate, ScanDeepest(fs, encoded, base, sep, depth, i),
                          if rest == [] then (candidate, []) else FindDeepest(fs, rest, candidate, sep, depth + 1));
    }
  }

  /** The shape after the scan commits to the directory ending at hyphen `i`. */
  lemma ScanDeepestHitSound(encoded: string, base: string, sep: string, i: nat, candidate: string,
                            r: (string, string), below: (string, string))
    requires 0 < i < |encoded| && encoded[i] == '-' && candidate == Candidate(base, sep, encoded[..i])
    requires r == below
    requires encoded[i + 1..] == [] ==> below == (candidate, [])
    requires encoded[i + 1..] != [] ==> DeepestShape(encoded[i + 1..], candidate, below)
    ensures DeepestShape(encoded, base, r)
  {
    CandidateExtends(base, sep, encoded[..i]);
    if encoded[i + 1..] == [] {
      assert encoded[|encoded|..] == [];
    } else {
      DeepestDescend(encoded, base, candidate, i, below);
    }
  }

  /** Whenever `find_deepest_existing_dir` moves below `base`, where it
      stops is a real directory, not a link to one. */
  lemma {:induction false} FindDeepestReachesDir(fs: FileSystem, encoded: string, base: string, sep: string, depth: nat)
    ensures var r := FindDeepest(fs, encoded, base, sep, depth);
      r == (base, encoded) || IsRealDir(fs, r.0)
    decreases |encoded|, 1
  {
    if !(depth > MaxDepth || encoded == []) {
      ScanDeepestReachesDir(fs, encoded, base, sep, depth, 0);
    }
  }

  lemma {:induction false} ScanDeepestReachesDir(fs: FileSystem, encoded: string, base: string, sep: string, depth: nat, i: nat)
    ensures var r := ScanDeepest(fs, encoded, base, sep, depth, i);
      r == (base, encoded) || IsRealDir(fs, r.0)
    decreases |encoded|, 0, |encoded| - i
  {
    if i >= |encoded| {
    } else if encoded[i] != '-' || i == 0 || !IsRealDir(fs, Candidate(base, sep, encoded[..i])) {
      ScanMiss(fs, encoded, base, sep, depth, i);
      ScanDeepestReachesDir(fs, encoded, base, sep, depth, i + 1);
    } else {
      ScanHit(fs, encoded, base, sep, depth, i);
      if encoded[i + 1..] != [] {
        FindDeepestReachesDir(fs, encoded[i + 1..], Candidate(base, sep, encoded[..i]), sep, depth + 1);
      }
    }
  }

  lemma CandidateExtends(base: string, sep: string, segment: string)
    requires segment != []
    ensures var c := Candidate(base, sep, segment); |c| > |base| && c[..|base|] == base
  {
    if base != [] {
      var c := base + sep + segment;
      assert c[..|base|] == base;
    }
  }

  /** Descending below the prefix that ends at hyphen `i` keeps the shape. */
  lemma DeepestDescend(encoded: string, base: string, candidate: string, i: nat, r: (string, string))
    requires 0 < i < |encoded| - 1 && encoded[i] == '-'
    requires |candidate| > |base| && candidate[..|base|] == base
    requires DeepestShape(encoded[i + 1..], candidate, r)
    ensures DeepestShape(encoded, base, r)
  {
    var (d, left) := r;
    SuffixOfRest(encoded, i, left);
    if d == candidate && left == encoded[i + 1..] {
      assert |encoded| - |left| - 1 == i;
    } else {
      PrefixOfPrefix(d, candidate, base);
    }
  }

  /** A suffix of what follows position `i` is a suffix of the whole, and
      the character before it is found at the same place in both. */
  lemma SuffixOfRest(encoded: string, i: nat, t: string)
    requires i < |encoded| && IsSuffix(t, encoded[i + 1..])
    ensures IsSuffix(t, encoded)
    ensures |t| < |encoded[i + 1..]| ==>
      encoded[|encoded| - |t| - 1] == encoded[i + 1..][|encoded[i + 1..]| - |t| - 1]
  {
    var rest := encoded[i + 1..];
    assert encoded[|encoded| - |t|..] == rest[|rest| - |t|..];
  }

  lemma PrefixOfPrefix(s: string, mid: string, short: string)
    requires |s| > |mid| > |short| && s[..|mid|] == mid && mid[..|short|] == short
    ensures s[..|short|] == short
  {
    assert s[..|short|] == s[..|mid|][..|short|];
  }

  /** When no hyphen-ended prefix of `encoded` names a directory, nothing is
      decoded: `(base, encoded)` comes back. */
  lemma {:induction false} FindDeepestNoDirectory(fs: FileSystem, encoded: string, base: string, sep: string, depth: nat)
    requires forall i :: 0 < i < |encoded| && encoded[i] == '-' ==> !IsRealDir(fs, Candidate(base, sep, encoded[..i]))
    ensures FindDeepest(fs, encoded, base, sep, depth) == (base, encoded)
  {
    if !(depth > MaxDepth || encoded == []) {
      var i := |encoded|;
      while i > 0
        invariant 0 <= i <= |encoded|
        invariant ScanDeepest(fs, encoded, base, sep, depth, i) == (base, encoded)
      {
        i := i - 1;
      }
    }
  }

  /** The other half of `FindDeepestNoDirectory`: the search descends into
      the first hyphen-ended prefix that is a real directory, and goes on
      from there. */
  lemma FindDeepestDescends(fs: FileSystem, encoded: string, base: string, sep: string, depth: nat, i: nat)
    requires depth <= MaxDepth && 0 < i < |encoded| && encoded[i] == '-'
    requires IsRealDir(fs, Candidate(base, sep, encoded[..i]))
    requires forall j :: 0 < j < i && encoded[j] == '-' ==> !IsRealDir(fs, Candidate(base, sep, encoded[..j]))
    ensures var candidate := Candidate(base, sep, encoded[..i]);
      FindDeepest(fs, encoded, base, sep, depth) ==
        if encoded[i + 1..] == [] then (candidate, [])
        else FindDeepest(fs, encoded[i + 1..], candidate, sep, depth + 1)
  {
    var k := i;
    while k > 0
      invariant 0 <= k <= i
      invariant ScanDeepest(fs, encoded, base, sep, depth, k) == ScanDeepest(fs, encoded, base, sep, depth, i)
    {
      k := k - 1;
      ScanMiss(fs, encoded, base, sep, depth, k);
    }
    ScanHit(fs, encoded, base, sep, depth, i);
  }

  /** One existing level: below a non-empty `base`, `a-rest` with `base/a`
      a real directory descends into it. */
  lemma FindDeepestStep(fs: FileSystem, base: string, sep: string, depth: nat, a: string, rest: string)
    requires base != [] && depth <= MaxDepth && a != [] && '-' !in a
    requires IsRealDir(fs, base + sep + a)
    ensures FindDeepest(fs, a + "-" + rest, base, sep, depth) ==
      if rest == [] then (base + sep + a, []) else FindDeepest(fs, rest, base + sep + a, sep, depth + 1)
  {
    var e := a + "-" + rest;
    assert e[..|a|] == a && e[|a|] == '-' && e[|a| + 1..] == rest;
    FindDeepestDescends(fs, e, base, sep, depth, |a|);
  }

  /** Two existing levels: `a-b-c` below `base`, with `base/a` and
      `base/a/b` real directories and no hyphen-ended prefix of `c` one
      below them, stops at `base/a/b` with `c` left over. */
  lemma FindDeepestTwoLevels(fs: FileSystem, base: string, sep: string, depth: nat, a: string, b: string, c: string)
    requires base != [] && depth + 2 <= MaxDepth
    requires a != [] && b != [] && '-' !in a && '-' !in b
    requires IsRealDir(fs, base + sep + a) && IsRealDir(fs, base + sep + a + sep + b)
    requires forall j :: 0 < j < |c| && c[j] == '-' ==> !IsRealDir(fs, base + sep + a + sep + b + sep + c[..j])
    ensures FindDeepest(fs, a + "-" + (b + "-" + c), base, sep, depth) == (base + sep + a + sep + b, c)
  {
    FindDeepestStep(fs, base, sep, depth, a, b + "-" + c);
    FindDeepestStep(fs, base + sep + a, sep, depth + 1, b, c);
    if c != [] {
      FindDeepestNoDirectory(fs, c, base + sep + a + sep + b, sep, depth + 2);
    }
  }

  /** Three existing levels: `a-b-g-c` below `base` stops at
      `base/a/b/g` with `c` left over. */
  lemma FindDeepestThreeLevels(fs: FileSystem, base: string, sep: string, depth: nat, a: string, b: string, g: string, c: string)
    requires base != [] && depth + 3 <= MaxDepth
    requires a != [] && b != [] && g != [] && '-' !in a && '-' !in b && '-' !in g
    requires IsRealDir(fs, base + sep + a) && IsRealDir(fs, base + sep + a + sep + b)
    requires IsRealDir(fs, base + sep + a + sep + b + sep + g)
    requires forall j :: 0 < j < |c| && c[j] == '-' ==> !IsRealDir(fs, base + sep + a + sep + b + sep + g + sep + c[..j])
    ensures FindDeepest(fs, a + "-" + (b + "-" + (g + "-" + c)), base, sep, depth) == (base + sep + a + sep + b + sep + g, c)
  {
    FindDeepestStep(fs, base, sep, depth, a, b + "-" + (g + "-" + c));
    FindDeepestTwoLevels(fs, base + sep + a, sep, depth + 1, b, g, c);
  }

  /** Three existing levels below a drive, `X:\a\b\g`: enough backslashes
      for the partial decode to be trusted. */
  lemma FindDeepestOnDrive(fs: FileSystem, d: char, a: string, b: string, g: string, c: string)
    requires a != [] && b != [] && g != [] && '-' !in a && '-' !in b && '-' !in g
    requires IsRealDir(fs, [d, ':'] + "\\" + a) && IsRealDir(fs, [d, ':'] + "\\" + a + "\\" + b)
    requires IsRealDir(fs, [d, ':'] + "\\" + a + "\\" + b + "\\" + g)
    requires forall j :: 0 < j < |c| && c[j] == '-' ==>
      !IsRealDir(fs, [d, ':'] + "\\" + a + "\\" + b + "\\" + g + "\\" + c[..j])
    ensures var r := FindDeepest(fs, a + "-" + (b + "-" + (g + "-" + c)), [d, ':'], "\\", 0);
      r == ([d, ':'] + "\\" + a + "\\" + b + "\\" + g, c) && Count(r.0, '\\') >= 3
  {
    FindDeepestThreeLevels(fs, [d, ':'], "\\", 0, a, b, g, c);
    ThreeBackslashes([d, ':'], a, b, g);
  }

  lemma ThreeBackslashes(drive: string, a: string, b: string, g: string)
    ensures Count(drive + "\\" + a + "\\" + b + "\\" + g, '\\') >= 3
  {
    var s := drive + "\\" + a + "\\" + b + "\\" + g;
    assert multiset(s) == multiset(drive) + multiset{'\\'} + multiset(a) + multiset{'\\'} + multiset(b) + multiset{'\\'} + multiset(g);
  }

  /** `-a-b-c` with hyphen-free `a` and `b` splits into four fields at
      its first three hyphens. */
  lemma SplitUnixFour(a: string, b: string, c: string)
    requires '-' !in a && '-' !in b
    ensures SplitN("-" + a + "-" + b + "-" + c, 4, '-') == ["", a, b, c]
  {
    var bc := b + ['-'] + c;
    var abc := a + ['-'] + bc;
    var s := [] + ['-'] + abc;
    assert "-" + a + "-" + b + "-" + c == s;
    SplitNStep([], '-', abc, 4);
    assert SplitN(s, 4, '-') == [[]] + SplitN(abc, 3, '-');
    SplitNStep(a, '-', bc, 3);
    assert SplitN(abc, 3, '-') == [a] + SplitN(bc, 2, '-');
    SplitNStep(b, '-', c, 2);
    assert SplitN(bc, 2, '-') == [b] + SplitN(c, 1, '-');
  }

  /** Unix form: `-a-b-c` names project `c`, hyphens in `c` kept. */
  lemma ExtractProjectNameUnix(fs: FileSystem, a: string, b: string, c: string)
    requires '-' !in a && '-' !in b
    ensures ExtractProjectName(fs, "-" + a + "-" + b + "-" + c) == c
  {
    var s := "-" + a + "-" + b + "-" + c;
    assert s[0] == '-';
    assert !IsWindowsEncoded(s);
    assert ExtractProjectNameWithFs(fs, s) == None;
    SplitUnixFour(a, b, c);
  }

  /** Unix form with fewer than three hyphens: the name is returned as it is. */
  lemma ExtractProjectNameUnixShort(fs: FileSystem, s: string)
    requires |s| > 0 && s[0] == '-' && Count(s, '-') < 3
    ensures ExtractProjectName(fs, s) == s
  {
    SplitNLength(s, 4, '-');
  }

  /** Windows form, when the disk does not settle it: `X--Users-Name-rest`
      names project `rest`, hyphens in `rest` kept. */
  lemma ExtractProjectNameWindows(fs: FileSystem, d: char, a: string, b: string, c: string)
    requires IsAsciiAlphabetic(d) && '-' !in a && '-' !in b
    requires ExtractProjectNameWithFs(fs, [d] + "--" + a + "-" + b + "-" + c) == None
    ensures ExtractProjectName(fs, [d] + "--" + a + "-" + b + "-" + c) == c
  {
    NameHeuristicWindows(d, a, b, c);
  }

  lemma NameHeuristicWindows(d: char, a: string, b: string, c: string)
    requires IsAsciiAlphabetic(d) && '-' !in a && '-' !in b
    ensures NameHeuristic([d] + "--" + a + "-" + b + "-" + c) == c
  {
    var s := [d] + "--" + a + "-" + b + "-" + c;
    assert s[0] == d && s[1] == '-' && s[2] == '-';
    assert s[3..] == a + "-" + b + "-" + c;
    SplitNThree(a, b, c);
    assert !(|s| > 0 && s[0] == '-') && IsWindowsEncoded(s);
  }

  /** Windows form with fewer than two hyphens after the drive, when the
      disk does not settle it: the name is returned as it is. */
  lemma ExtractProjectNameWindowsShort(fs: FileSystem, s: string)
    requires IsWindowsEncoded(s) && Count(s[3..], '-') < 2
    requires ExtractProjectNameWithFs(fs, s) == None
    ensures ExtractProjectName(fs, s) == s
  {
    SplitNLength(s[3..], 3, '-');
  }

  /** The disk's answer is taken exactly when the deepest directory found
      lies at least three backslashes down and something of the name is
      left below it; that directory is then a real one, and the leftover is
      the name. */
  lemma ExtractProjectNameWithFsTrust(fs: FileSystem, s: string)
    requires IsWindowsEncoded(s)
    ensures var (deepest, left) := FindDeepest(fs, s[3..], s[..1] + ":", "\\", 0);
      && (ExtractProjectNameWithFs(fs, s).Some? <==> left != [] && Count(deepest, '\\') >= 3)
      && (ExtractProjectNameWithFs(fs, s).Some? ==> IsRealDir(fs, deepest) && ExtractProjectNameWithFs(fs, s) == Some(left))
  {
    var drive := s[..1] + ":";
    FindDeepestReachesDir(fs, s[3..], drive, "\\", 0);
    assert drive == [s[0], ':'] && s[0] != '\\';
    assert Count(drive, '\\') == 0;
  }

  /** A Windows-form name with at least two hyphens after the drive never
      comes back whole, whatever the disk holds: the answer lies past the drive. */
  lemma ExtractProjectNameWindowsDeep(fs: FileSystem, s: string)
    requires IsWindowsEncoded(s) && Count(s[3..], '-') >= 2
    ensures ExtractProjectName(fs, s) != s
  {
    SplitNLength(s[3..], 3, '-');
    SplitNLast(s[3..], 3, '-');
  }

  /** Any other name, the empty one included, is returned unchanged. */
  lemma ExtractProjectNameOther(fs: FileSystem, s: string)
    requires s == [] || (s[0] != '-' && !IsWindowsEncoded(s))
    ensures ExtractProjectName(fs, s) == s
  {
  }

  /** Without either marker the path is returned unchanged. */
  lemma DecodeProjectPathNoMarker(fs: FileSystem, path: string)
    requires !Contains(path, Marker) && !Contains(path, MarkerWin)
    ensures DecodeProjectPath(fs, path) == path
  {
  }

  /** A path holding the marker first right after `pre` is decoded from
      what follows the marker, and is returned unchanged when that does not
      decode. */
  lemma DecodeProjectPathAfterMarker(fs: FileSystem, pre: string, encoded: string)
    requires Find(pre + Marker + encoded, Marker) == Some(|pre|)
    ensures var path := pre + Marker + encoded;
      DecodeProjectPath(fs, path) == match DecodeEncoded(fs, encoded) case Some(p) => p case None => path
  {
    var path := pre + Marker + encoded;
    assert path[|pre| + |Marker|..] == encoded;
  }

  /** With no `.` before it, the marker is first found right after `pre`. */
  lemma MarkerFirstAfterDotFree(pre: string, encoded: string)
    requires '.' !in pre
    ensures Find(pre + Marker + encoded, Marker) == Some(|pre|)
  {
    var path := pre + Marker + encoded;
    forall j | 0 <= j < |pre| ensures !OccursAt(path, Marker, j) {
      assert path[j] == pre[j];
      MismatchAt(path, Marker, j, 0);
    }
    assert path[|pre|..|pre| + |Marker|] == Marker;
    FindFirstOccurrence(path, Marker, |pre|);
  }

  /** The two documented decodings of a session storage path under home
      `/Users/jack/` when the disk settles nothing: `-Users-jack-my-project`
      becomes `/Users/jack/my-project` and `-tmp-feature-my-project` becomes
      `/tmp/feature/my-project`. The pieces are parameters so that the
      solver does not evaluate the decoder on literal strings. */
  lemma DecodeProjectPathExamples(fs: FileSystem, home: string, a: string, b: string, c: string)
    requires home == "/Users/jack/" && c == "my-project"
    requires (a == "Users" && b == "jack") || (a == "tmp" && b == "feature")
    requires DecodeInner(fs, a + "-" + b + "-" + c, "", 0) == None
    ensures DecodeProjectPath(fs, home + Marker + ("-" + a + "-" + b + "-" + c)) == "/" + a + "/" + b + "/" + c
  {
    assert forall k :: 0 <= k < |home| ==> home[k] != '.';
    assert '-' !in a && '-' !in b;
    DecodeProjectPathUnix(fs, home, a, b, c);
  }

  /** A storage path whose encoded name is in the Unix form the disk cannot
      decode, found after a prefix with no `.`, decodes to `/p1/p2/p3`. */
  lemma DecodeProjectPathUnix(fs: FileSystem, pre: string, a: string, b: string, c: string)
    requires '.' !in pre && '-' !in a && '-' !in b
    requires DecodeInner(fs, a + "-" + b + "-" + c, "", 0) == None
    ensures DecodeProjectPath(fs, pre + Marker + ("-" + a + "-" + b + "-" + c)) == "/" + a + "/" + b + "/" + c
  {
    var encoded := "-" + a + "-" + b + "-" + c;
    MarkerFirstAfterDotFree(pre, encoded);
    DecodeProjectPathAfterMarker(fs, pre, encoded);
    DecodeUnixThreeParts(fs, a, b, c);
  }

  /** A storage path whose encoded name the disk settles: with `/a` a real
      directory and `/a/c` a real entry, `-a-c` after a prefix with no `.`
      decodes to `/a/c`, hyphens in `c` kept. */
  lemma DecodeProjectPathFound(fs: FileSystem, pre: string, a: string, c: string)
    requires '.' !in pre && a != [] && c != [] && '-' !in a
    requires IsRealDir(fs, "/" + a) && IsRealEntry(fs, "/" + a + "/" + c)
    ensures DecodeProjectPath(fs, pre + Marker + ("-" + a + "-" + c)) == "/" + a + "/" + c
  {
    var encoded := "-" + a + "-" + c;
    MarkerFirstAfterDotFree(pre, encoded);
    DecodeProjectPathAfterMarker(fs, pre, encoded);
    DecodeEncodedFound(fs, a, c);
  }

  /** The Unix branch returns what the disk settles. */
  lemma DecodeEncodedFound(fs: FileSystem, a: string, c: string)
    requires a != [] && c != [] && '-' !in a
    requires IsRealDir(fs, "/" + a) && IsRealEntry(fs, "/" + a + "/" + c)
    ensures DecodeEncoded(fs, "-" + a + "-" + c) == Some("/" + a + "/" + c)
  {
    DecodeInnerFindsEntry(fs, a, c);
    assert "-" + a + "-" + c == "-" + (a + "-" + c);
    DecodeEncodedSettled(fs, a + "-" + c);
  }

  /** A Unix-form name the disk-assisted search decodes is decoded that way. */
  lemma DecodeEncodedSettled(fs: FileSystem, rest: string)
    requires DecodeInner(fs, rest, "", 0).Some?
    ensures DecodeEncoded(fs, "-" + rest) == DecodeInner(fs, rest, "", 0)
  {
    assert ("-" + rest)[1..] == rest;
  }

  /** Unix form the disk cannot decode: `-p1-p2-p3` becomes `/p1/p2/p3`,
      hyphens in `p3` kept. */
  lemma DecodeUnixThreeParts(fs: FileSystem, a: string, b: string, c: string)
    requires '-' !in a && '-' !in b
    requires DecodeInner(fs, a + "-" + b + "-" + c, "", 0) == None
    ensures DecodeEncoded(fs, "-" + a + "-" + b + "-" + c) == Some("/" + a + "/" + b + "/" + c)
  {
    var e := "-" + a + "-" + b + "-" + c;
    assert e[1..] == a + "-" + b + "-" + c;
    assert e == "" + "-" + (a + "-" + (b + "-" + c));
    SplitNStep("", '-', a + "-" + (b + "-" + c), 4);
    SplitNStep(a, '-', b + "-" + c, 3);
    SplitNStep(b, '-', c, 2);
  }

  /** Unix form with two hyphens the disk cannot decode: `-p1-p2` becomes `/p1/p2`. */
  lemma DecodeUnixTwoParts(fs: FileSystem, a: string, b: string)
    requires '-' !in a && '-' !in b
    requires DecodeInner(fs, a + "-" + b, "", 0) == None
    ensures DecodeEncoded(fs, "-" + a + "-" + b) == Some("/" + a + "/" + b)
  {
    var e := "-" + a + "-" + b;
    assert e[1..] == a + "-" + b;
    assert e == "" + "-" + (a + "-" + b);
    SplitNStep("", '-', a + "-" + b, 4);
    SplitNStep(a, '-', b, 3);
    IndexOfAbsent(b, '-');
  }

  /** Unix form with one hyphen the disk cannot decode: `-p1` becomes `/p1`. */
  lemma DecodeUnixOnePart(fs: FileSystem, a: string)
    requires '-' !in a
    requires DecodeInner(fs, a, "", 0) == None
    ensures DecodeEncoded(fs, "-" + a) == Some("/" + a)
  {
    var e := "-" + a;
    assert e[1..] == a;
    assert e == "" + "-" + a;
    SplitNStep("", '-', a, 4);
    IndexOfAbsent(a, '-');
  }

  /** The Unix form always decodes, to an absolute path. */
  lemma DecodeUnixAbsolute(fs: FileSystem, encoded: string)
    requires |encoded| > 0 && encoded[0] == '-'
    ensures var r := DecodeEncoded(fs, encoded); r.Some? && |r.value| > 0 && r.value[0] == '/'
  {
    var rest := encoded[1..];
    match DecodeInner(fs, rest, "", 0)
    case Some(p) =>
      assert rest != [];
      DecodeInnerSound(fs, rest, "", 0);
      DecodedFromRoot(rest, p);
    case None =>
      UnixHeuristicSplits(encoded);
  }

  /** A decoding below the empty base starts at the root. */
  lemma DecodedFromRoot(encoded: string, p: string)
    requires encoded != [] && DecodedFrom("", encoded, p)
    ensures |p| > 0 && p[0] == '/'
  {
  }

  /** A name starting with a hyphen splits into at least two fields. */
  lemma UnixHeuristicSplits(encoded: string)
    requires |encoded| > 0 && encoded[0] == '-'
    ensures |SplitN(encoded, 4, '-')| >= 2
  {
    var rest := encoded[1..];
    assert encoded == [encoded[0]] + rest;
    assert Count(encoded, '-') >= 1 by {
      assert multiset(encoded) == multiset{encoded[0]} + multiset(rest);
    }
    SplitNLength(encoded, 4, '-');
  }

  /** The Windows form always decodes, to a path on its own drive. */
  lemma DecodeWindowsOnDrive(fs: FileSystem, encoded: string)
    requires IsWindowsEncoded(encoded)
    ensures var r := DecodeEncoded(fs, encoded);
      r.Some? && |r.value| >= 2 && r.value[..2] == [encoded[0], ':']
  {
    assert encoded[0] != '-';
    assert DecodeEncoded(fs, encoded) == DecodeWindows(fs, encoded);
    DecodeWindowsShape(fs, encoded);
  }

  /** Windows form neither disk search settles: `X--a-b-c` becomes
      `X:\a\b\c`, hyphens in `c` kept. */
  lemma DecodeWindowsThreeParts(fs: FileSystem, d: char, a: string, b: string, c: string)
    requires IsAsciiAlphabetic(d) && '-' !in a && '-' !in b
    requires DecodeInner(fs, a + "-" + b + "-" + c, [d, ':'], 0) == None
    requires Count(FindDeepest(fs, a + "-" + b + "-" + c, [d, ':'], "\\", 0).0, '\\') < 3
    ensures DecodeEncoded(fs, [d] + "--" + a + "-" + b + "-" + c) == Some([d] + ":\\" + a + "\\" + b + "\\" + c)
  {
    var s := [d] + "--" + a + "-" + b + "-" + c;
    var rest := a + "-" + b + "-" + c;
    assert s[0] == d && s[1] == '-' && s[2] == '-';
    assert d != '-';
    assert s[..1] == [d] && s[..1] + ":" == [d, ':'];
    assert s[3..] == rest;
    SplitNThree(a, b, c);
    assert DriveHeuristic([d], rest) == Some([d] + ":\\" + a + "\\" + b + "\\" + c);
    assert DecodeWindows(fs, s) == DriveHeuristic([d], rest);
  }

  /** A project directory deleted from disk below an existing
      `X:\\a\\b\\g`: the partial decode keeps the directories found and
      joins the rest of the name on with one backslash. */
  lemma DecodeWindowsDeleted(fs: FileSystem, d: char, a: string, b: string, g: string, c: string)
    requires IsAsciiAlphabetic(d) && c != []
    requires a != [] && b != [] && g != [] && '-' !in a && '-' !in b && '-' !in g
    requires IsRealDir(fs, [d, ':'] + "\\" + a) && IsRealDir(fs, [d, ':'] + "\\" + a + "\\" + b)
    requires IsRealDir(fs, [d, ':'] + "\\" + a + "\\" + b + "\\" + g)
    requires forall j :: 0 < j < |c| && c[j] == '-' ==>
      !IsRealDir(fs, [d, ':'] + "\\" + a + "\\" + b + "\\" + g + "\\" + c[..j])
    requires DecodeInner(fs, a + "-" + (b + "-" + (g + "-" + c)), [d, ':'], 0) == None
    ensures DecodeEncoded(fs, [d] + "--" + (a + "-" + (b + "-" + (g + "-" + c))))
      == Some([d, ':'] + "\\" + a + "\\" + b + "\\" + g + "\\" + c)
  {
    var rest := a + "-" + (b + "-" + (g + "-" + c));
    FindDeepestOnDrive(fs, d, a, b, g, c);
    DecodeWindowsTrusted(fs, d, rest, [d, ':'] + "\\" + a + "\\" + b + "\\" + g, c);
  }

  /** The same disk names the project `c`: the part left below the three
      directories found, hyphens kept. */
  lemma ExtractProjectNameDeep(fs: FileSystem, d: char, a: string, b: string, g: string, c: string)
    requires IsAsciiAlphabetic(d) && c != []
    requires a != [] && b != [] && g != [] && '-' !in a && '-' !in b && '-' !in g
    requires IsRealDir(fs, [d, ':'] + "\\" + a) && IsRealDir(fs, [d, ':'] + "\\" + a + "\\" + b)
    requires IsRealDir(fs, [d, ':'] + "\\" + a + "\\" + b + "\\" + g)
    requires forall j :: 0 < j < |c| && c[j] == '-' ==>
      !IsRealDir(fs, [d, ':'] + "\\" + a + "\\" + b + "\\" + g + "\\" + c[..j])
    ensures ExtractProjectName(fs, [d] + "--" + (a + "-" + (b + "-" + (g + "-" + c)))) == c
  {
    var rest := a + "-" + (b + "-" + (g + "-" + c));
    FindDeepestOnDrive(fs, d, a, b, g, c);
    ExtractProjectNameTrusted(fs, d, rest, [d, ':'] + "\\" + a + "\\" + b + "\\" + g, c);
  }

  /** When the disk-assisted decode fails and the deepest directory found
      holds at least three backslashes, the Windows decode is that
      directory with the leftover joined on. */
  lemma DecodeWindowsTrusted(fs: FileSystem, d: char, rest: string, deepest: string, left: string)
    requires IsAsciiAlphabetic(d) && left != []
    requires DecodeInner(fs, rest, [d, ':'], 0) == None
    requires FindDeepest(fs, rest, [d, ':'], "\\", 0) == (deepest, left) && Count(deepest, '\\') >= 3
    ensures DecodeEncoded(fs, [d] + "--" + rest) == Some(deepest + "\\" + left)
  {
    DriveSplit(d, rest);
  }

  /** With the same deepest directory, the leftover is the project name. */
  lemma ExtractProjectNameTrusted(fs: FileSystem, d: char, rest: string, deepest: string, left: string)
    requires IsAsciiAlphabetic(d) && left != []
    requires FindDeepest(fs, rest, [d, ':'], "\\", 0) == (deepest, left) && Count(deepest, '\\') >= 3
    ensures ExtractProjectName(fs, [d] + "--" + rest) == left
  {
    DriveSplit(d, rest);
  }

  /** `X--rest` is in the Windows form, with drive base `X:` and `rest`
      after the drive. */
  lemma DriveSplit(d: char, rest: string)
    requires IsAsciiAlphabetic(d)
    ensures var s := [d] + "--" + rest;
      IsWindowsEncoded(s) && s[0] != '-' && s[..1] == [d] && s[..1] + ":" == [d, ':'] && s[3..] == rest
  {
    var s := [d] + "--" + rest;
    assert s[0] == d && s[1] == '-' && s[2] == '-';
    assert s[..1] == [d];
  }

  /** `splitn(3, '-')` of `a-b-c` with hyphen-free `a` and `b`. */
  lemma SplitNThree(a: string, b: string, c: string)
    requires '-' !in a && '-' !in b
    ensures SplitN(a + "-" + b + "-" + c, 3, '-') == [a, b, c]
  {
    var bc := b + "-" + c;
    assert a + "-" + b + "-" + c == a + "-" + bc;
    SplitNStep(b, '-', c, 2);
    SplitNStep(a, '-', bc, 3);
  }

  lemma DecodeWindowsShape(fs: FileSystem, encoded: string)
    requires IsWindowsEncoded(encoded)
    ensures var r := DecodeWindows(fs, encoded);
      r.Some? && |r.value| >= 2 && r.value[..2] == [encoded[0], ':']
  {
    var drive := encoded[..1];
    var winBase := drive + ":";
    var afterDrive := encoded[3..];
    assert winBase == [encoded[0], ':'];
    match DecodeInner(fs, afterDrive, winBase, 0)
    case Some(p) =>
      DecodeInnerSound(fs, afterDrive, winBase, 0);
    case None =>
      FindDeepestSound(fs, afterDrive, winBase, "\\", 0);
      var (deepest, remaining) := FindDeepest(fs, afterDrive, winBase, "\\", 0);
      assert |deepest| >= 2 && deepest[..2] == winBase;
      var seps := Count(deepest, '\\');
      if seps >= 3 && remaining != [] {
        PrefixKept(deepest, "\\" + remaining);
      } else if seps < 3 {
        DriveHeuristicOnDrive(drive, afterDrive);
      }
  }

  lemma DriveHeuristicOnDrive(drive: string, afterDrive: string)
    requires |drive| == 1
    ensures var r := DriveHeuristic(drive, afterDrive);
      r.Some? && |r.value| >= 2 && r.value[..2] == drive + ":"
  {
    DrivePathOnDrive(drive, SplitN(afterDrive, 3, '-'));
  }

  lemma DrivePathOnDrive(drive: string, parts: seq<string>)
    requires |drive| == 1 && |parts| >= 1
    ensures var r := DrivePath(drive, parts);
      r.Some? && |r.value| >= 2 && r.value[..2] == drive + ":"
  {
    var winBase := drive + ":";
    var tail: string;
    if |parts| >= 3 {
      tail := "\\" + parts[0] + "\\" + parts[1] + "\\" + parts[2];
      assert drive + ":\\" + parts[0] + "\\" + parts[1] + "\\" + parts[2] == winBase + tail;
    } else if |parts| == 2 {
      tail := "\\" + parts[0] + "\\" + parts[1];
      assert drive + ":\\" + parts[0] + "\\" + parts[1] == winBase + tail;
    } else {
      tail := "\\" + parts[0];
      assert drive + ":\\" + parts[0] == winBase + tail;
    }
    PrefixKept(winBase, tail);
  }

  lemma PrefixKept(x: string, y: string)
    requires |x| >= 2
    ensures (x + y)[..2] == x[..2]
  {
  }
}
