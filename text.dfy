/** String operations of Rust's `str` that the backend relies on, over
    `seq<char>` with one character per byte (the inputs are ASCII). */
module Text {
  import opened Wrappers

  /** `p` occurs in `s` starting at index `i`. */
  predicate OccursAt(s: string, p: string, i: nat) {
    i + |p| <= |s| && s[i..i + |p|] == p
  }

  /** `t` is a suffix of `s`. */
  predicate IsSuffix(t: string, s: string) {
    |t| <= |s| && s[|s| - |t|..] == t
  }

  /** Number of occurrences of `c` in `s` (`s.matches(c).count()`). */
  function Count(s: string, c: char): nat {
    multiset(s)[c]
  }

  /** Index of the first `c` in `s` (`s.find(c)`). */
  function IndexOf(s: string, c: char): (r: Option<nat>)
    ensures r.Some? ==> r.value < |s| && s[r.value] == c && c !in s[..r.value]
    ensures r.None? ==> c !in s
  {
    if s == [] then None
    else if s[0] == c then Some(0)
    else match IndexOf(s[1..], c)
      case None => None
      case Some(i) => Some(i + 1)
  }

  /** Index of the last `c` in `s` (`s.rfind(c)`). */
  function LastIndexOf(s: string, c: char): (r: Option<nat>)
    ensures r.Some? ==> r.value < |s| && s[r.value] == c && c !in s[r.value + 1..]
    ensures r.None? ==> c !in s
  {
    if s == [] then None
    else if s[|s| - 1] == c then Some(|s| - 1)
    else
      var r := LastIndexOf(s[..|s| - 1], c);
      assert r.Some? ==> s[r.value + 1..] == s[..|s| - 1][r.value + 1..] + [s[|s| - 1]];
      assert r.None? ==> s == s[..|s| - 1] + [s[|s| - 1]];
      r
  }

  /** Index of the first occurrence of `p` in `s` at or after `from`. */
  function FindFrom(s: string, p: string, from: nat): (r: Option<nat>)
    ensures r.Some? ==> from <= r.value && OccursAt(s, p, r.value)
    ensures r.Some? ==> forall j :: from <= j < r.value ==> !OccursAt(s, p, j)
    ensures r.None? ==> forall j :: from <= j ==> !OccursAt(s, p, j)
    decreases |s| - from
  {
    if from + |p| > |s| then None
    else if s[from..from + |p|] == p then Some(from)
    else FindFrom(s, p, from + 1)
  }

  /** Index of the first occurrence of `p` in `s` (`s.find(p)`). */
  function Find(s: string, p: string): Option<nat> {
    FindFrom(s, p, 0)
  }

  /** `s.contains(p)`. */
  predicate Contains(s: string, p: string) {
    Find(s, p).Some?
  }

  /** `s.strip_prefix(p)`. */
  function StripPrefix(s: string, p: string): Option<string> {
    if p <= s then Some(s[|p|..]) else None
  }

  /** `s.splitn(n, c)`: at most `n` pieces, the last holding the rest of `s`. */
  function SplitN(s: string, n: nat, c: char): (parts: seq<string>)
    requires n >= 1
    ensures 1 <= |parts| <= n
    decreases n
  {
    if n == 1 then [s]
    else match IndexOf(s, c)
      case None => [s]
      case Some(i) => [s[..i]] + SplitN(s[i + 1..], n - 1, c)
  }

  /** `s.split(c)`: every piece between occurrences of `c`. */
  function Split(s: string, c: char): (parts: seq<string>)
    ensures |parts| >= 1
    decreases |s|
  {
    if s == [] then [[]]
    else
      var rest := Split(s[1..], c);
      if s[0] == c then [[]] + rest else [[s[0]] + rest[0]] + rest[1..]
  }

  /** `s.replace(c, r)`: every `c` replaced by the string `r`. */
  function ReplaceChar(s: string, c: char, r: string): string {
    if s == [] then []
    else (if s[0] == c then r else [s[0]]) + ReplaceChar(s[1..], c, r)
  }

  /** Characters with the Unicode White_Space property (what `str::trim` removes). */
  predicate IsWhitespace(c: char) {
    ('\U{0009}' <= c <= '\U{000D}') || c == ' ' || c == '\U{0085}' || c == '\U{00A0}'
    || c == '\U{1680}' || ('\U{2000}' <= c <= '\U{200A}') || c == '\U{2028}' || c == '\U{2029}'
    || c == '\U{202F}' || c == '\U{205F}' || c == '\U{3000}'
  }

  function TrimStart(s: string): (r: string)
    ensures IsSuffix(r, s)
    ensures r == [] || !IsWhitespace(r[0])
    ensures forall i :: 0 <= i < |s| - |r| ==> IsWhitespace(s[i])
  {
    if s != [] && IsWhitespace(s[0]) then TrimStart(s[1..]) else s
  }

  function TrimEnd(s: string): (r: string)
    ensures r <= s
    ensures r == [] || !IsWhitespace(r[|r| - 1])
    ensures forall i :: |r| <= i < |s| ==> IsWhitespace(s[i])
  {
    if s != [] && IsWhitespace(s[|s| - 1]) then TrimEnd(s[..|s| - 1]) else s
  }

  /** `s.trim()`. */
  function Trim(s: string): string {
    TrimEnd(TrimStart(s))
  }

  predicate IsAsciiAlphabetic(c: char) {
    ('A' <= c <= 'Z') || ('a' <= c <= 'z')
  }

  /** A character of the class `[A-Za-z0-9_-]`. */
  predicate IsSafeNameChar(c: char) {
    IsAsciiAlphabetic(c) || ('0' <= c <= '9') || c == '_' || c == '-'
  }

  /** `s` matches the anchored pattern `^[A-Za-z0-9_-]+$`, which the backend
      uses both for session IDs and for session file names. */
  predicate MatchesSafeName(s: string) {
    |s| > 0 && forall i :: 0 <= i < |s| ==> IsSafeNameChar(s[i])
  }

  // ----- Lemmas -----

  /** An occurrence with none before it is the one `Find` reports. */
  lemma FindFirstOccurrence(s: string, p: string, i: nat)
    requires OccursAt(s, p, i)
    requires forall j :: 0 <= j < i ==> !OccursAt(s, p, j)
    ensures Find(s, p) == Some(i)
  {
  }

  /** `p` does not occur at `j` when one of its characters is missing there. */
  lemma MismatchAt(s: string, p: string, j: nat, k: nat)
    requires k < |p| && (j + k >= |s| || s[j + k] != p[k])
    ensures !OccursAt(s, p, j)
  {
    if j + |p| <= |s| {
      assert s[j..j + |p|][k] == s[j + k];
    }
  }


  /** The last piece is a suffix of `s`, free of `c` unless the limit `n` was reached. */
  lemma SplitNLast(s: string, n: nat, c: char)
    requires n >= 1
    ensures var parts := SplitN(s, n, c);
      IsSuffix(parts[|parts| - 1], s) && (|parts| < n ==> c !in parts[|parts| - 1])
  {
    SplitNLastSuffix(s, n, c);
    SplitNLastFree(s, n, c);
  }

  lemma {:induction false} SplitNLastSuffix(s: string, n: nat, c: char)
    requires n >= 1
    ensures var parts := SplitN(s, n, c); IsSuffix(parts[|parts| - 1], s)
    decreases n
  {
    if n > 1 && IndexOf(s, c).Some? {
      var i := IndexOf(s, c).value;
      var tail := s[i + 1..];
      SplitNLastSuffix(tail, n - 1, c);
      var rest := SplitN(tail, n - 1, c);
      var parts := [s[..i]] + rest;
      assert SplitN(s, n, c) == parts;
      assert parts[|parts| - 1] == rest[|rest| - 1];
      SuffixOfDrop(s, i + 1, rest[|rest| - 1]);
    }
  }

  /** A suffix of what is left after dropping a prefix is a suffix of the whole. */
  lemma SuffixOfDrop(s: string, k: nat, t: string)
    requires k <= |s| && IsSuffix(t, s[k..])
    ensures IsSuffix(t, s)
  {
    assert s[k..][|s| - k - |t|..] == s[|s| - |t|..];
  }

  lemma {:induction false} SplitNLastFree(s: string, n: nat, c: char)
    requires n >= 1
    ensures var parts := SplitN(s, n, c); |parts| < n ==> c !in parts[|parts| - 1]
    decreases n
  {
    if n > 1 && IndexOf(s, c).Some? {
      var i := IndexOf(s, c).value;
      SplitNLastFree(s[i + 1..], n - 1, c);
      assert SplitN(s, n, c) == [s[..i]] + SplitN(s[i + 1..], n - 1, c);
    }
  }

  /** `splitn` yields one more piece than there are separators, up to `n`. */
  lemma {:induction false} SplitNLength(s: string, n: nat, c: char)
    requires n >= 1
    ensures |SplitN(s, n, c)| == if Count(s, c) + 1 < n then Count(s, c) + 1 else n
    decreases n
  {
    if IndexOf(s, c).Some? {
      var i := IndexOf(s, c).value;
      var tail := s[i + 1..];
      CountAfterFirst(s, c, i);
      if n > 1 {
        SplitNLength(tail, n - 1, c);
        assert SplitN(s, n, c) == [s[..i]] + SplitN(tail, n - 1, c);
      }
    } else {
      assert Count(s, c) == 0;
    }
  }

  /** The occurrences of `c` after its first one, at `i`. */
  lemma CountAfterFirst(s: string, c: char, i: nat)
    requires i < |s| && s[i] == c && c !in s[..i]
    ensures Count(s, c) == Count(s[i + 1..], c) + 1
  {
    assert s == s[..i] + [c] + s[i + 1..];
    assert multiset(s) == multiset(s[..i]) + multiset{c} + multiset(s[i + 1..]);
    assert c !in multiset(s[..i]);
  }

  /** Locating `c` in a string whose first `|p|` characters are free of it. */
  lemma {:induction false} IndexOfAfter(p: string, c: char, q: string)
    requires c !in p
    ensures IndexOf(p + [c] + q, c) == Some(|p|)
    decreases |p|
  {
    if p != [] {
      IndexOfAfter(p[1..], c, q);
      assert (p + [c] + q)[1..] == p[1..] + [c] + q;
    }
  }

  lemma {:induction false} IndexOfAbsent(s: string, c: char)
    requires c !in s
    ensures IndexOf(s, c) == None
  {
  }

  /** `splitn` on `p + c + q` with `p` free of `c` peels off `p`. */
  lemma SplitNStep(p: string, c: char, q: string, n: nat)
    requires c !in p && n >= 2
    ensures SplitN(p + [c] + q, n, c) == [p] + SplitN(q, n - 1, c)
  {
    IndexOfAfter(p, c, q);
    var s := p + [c] + q;
    assert s[..|p|] == p && s[|p| + 1..] == q;
  }

  /** Trimming drops exactly a whitespace-only tail after a string that
      starts and ends with non-whitespace. */
  lemma TrimDropsTail(s: string, ws: string)
    requires s != [] && !IsWhitespace(s[0]) && !IsWhitespace(s[|s| - 1])
    requires forall i :: 0 <= i < |ws| ==> IsWhitespace(ws[i])
    ensures Trim(s + ws) == s
  {
    assert (s + ws)[0] == s[0];
    assert TrimStart(s + ws) == s + ws;
    TrimEndDropsTail(s, ws);
  }

  lemma {:induction false} TrimEndDropsTail(s: string, ws: string)
    requires s == [] || !IsWhitespace(s[|s| - 1])
    requires forall i :: 0 <= i < |ws| ==> IsWhitespace(ws[i])
    ensures TrimEnd(s + ws) == s
    decreases |ws|
  {
    var t := s + ws;
    if ws == [] {
      assert t == s;
    } else {
      var w := ws[..|ws| - 1];
      assert t[|t| - 1] == ws[|ws| - 1];
      assert t[..|t| - 1] == s + w;
      TrimEndDropsTail(s, w);
    }
  }

  lemma {:induction false} ReplaceCharAbsent(s: string, c: char, r: string)
    requires c !in s
    ensures ReplaceChar(s, c, r) == s
  {
    if s != [] {
      ReplaceCharAbsent(s[1..], c, r);
      assert s == [s[0]] + s[1..];
    }
  }

  lemma {:induction false} ReplaceCharAppend(s: string, t: string, c: char, r: string)
    ensures ReplaceChar(s + t, c, r) == ReplaceChar(s, c, r) + ReplaceChar(t, c, r)
  {
    if s != [] {
      ReplaceCharAppend(s[1..], t, c, r);
      assert (s + t)[1..] == s[1..] + t;
    } else {
      assert s + t == t;
    }
  }
}
