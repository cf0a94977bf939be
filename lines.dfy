/** Line splitting over a memory-mapped JSONL buffer. The SIMD search for
    newline bytes is modelled as a plain left-to-right scan. */
module Lines {

  const Newline: bv8 := 10

  /** No newline byte in `data[s..e]`. */
  ghost predicate NewlineFree(data: seq<bv8>, s: nat, e: nat)
    requires s <= e <= |data|
  {
    forall i :: s <= i < e ==> data[i] != Newline
  }

  /** What `find_line_ranges` promises: each range is a non-empty,
      newline-free run that starts at the buffer's start or just after a
      newline and ends at a newline or the buffer's end; the ranges are
      strictly increasing; and every non-newline byte lies in one of them. */
  ghost predicate IsLineRanges(data: seq<bv8>, r: seq<(nat, nat)>) {
    && (forall k :: 0 <= k < |r| ==> r[k].0 < r[k].1 <= |data|)
    && (forall k :: 0 <= k < |r| ==> NewlineFree(data, r[k].0, r[k].1))
    && (forall k :: 0 <= k < |r| ==> r[k].0 == 0 || data[r[k].0 - 1] == Newline)
    && (forall k :: 0 <= k < |r| ==> r[k].1 == |data| || data[r[k].1] == Newline)
    && (forall j, k :: 0 <= j < k < |r| ==> r[j].1 < r[k].0)
    && (forall i :: 0 <= i < |data| && data[i] != Newline ==> InSomeRange(r, i))
  }

  /** Index `i` lies inside one of the ranges `r`. */
  ghost predicate InSomeRange(r: seq<(nat, nat)>, i: nat) {
    exists k :: 0 <= k < |r| && r[k].0 <= i < r[k].1
  }

  lemma InSomeRangeAppend(r: seq<(nat, nat)>, x: (nat, nat), i: nat)
    requires InSomeRange(r, i) || x.0 <= i < x.1
    ensures InSomeRange(r + [x], i)
  {
    if x.0 <= i < x.1 {
      assert (r + [x])[|r|] == x;
    } else {
      var k :| 0 <= k < |r| && r[k].0 <= i < r[k].1;
      assert (r + [x])[k] == r[k];
    }
  }

  /** What `find_line_starts` promises: 0 first, then, in increasing order,
      exactly the positions just after a newline that lie inside the buffer. */
  ghost predicate IsLineStarts(data: seq<bv8>, st: seq<nat>) {
    && |st| >= 1 && st[0] == 0
    && (forall k :: 0 < k < |st| ==> 0 < st[k] < |data| && data[st[k] - 1] == Newline)
    && (forall j, k :: 0 <= j < k < |st| ==> st[j] < st[k])
    && (forall i :: 0 <= i < |data| - 1 && data[i] == Newline ==> i + 1 in st)
  }

  /** The ranges found in `data[..start]`, all of which end at a newline. */
  ghost predicate RangesBefore(data: seq<bv8>, r: seq<(nat, nat)>, start: nat)
    requires start <= |data|
  {
    && (forall k :: 0 <= k < |r| ==> r[k].0 < r[k].1 < start)
    && (forall k :: 0 <= k < |r| ==> NewlineFree(data, r[k].0, r[k].1))
    && (forall k :: 0 <= k < |r| ==> r[k].0 == 0 || data[r[k].0 - 1] == Newline)
    && (forall k :: 0 <= k < |r| ==> data[r[k].1] == Newline)
    && (forall j, k :: 0 <= j < k < |r| ==> r[j].1 < r[k].0)
    && (forall i :: 0 <= i < start && data[i] != Newline ==> InSomeRange(r, i))
  }

  /** Appending the run `[s, e)` that ends at a newline keeps the ranges'
      shape; coverage is extended separately. */
  lemma RangesAppend(data: seq<bv8>, r: seq<(nat, nat)>, start: nat, e: nat)
    requires start < e < |data| && data[e] == Newline
    requires start == 0 || data[start - 1] == Newline
    requires NewlineFree(data, start, e)
    requires RangesBefore(data, r, start)
    ensures RangesBefore(data, r + [(start, e)], e + 1)
  {
    var r' := r + [(start, e)];
    assert forall k :: 0 <= k < |r| ==> r'[k] == r[k];
    forall i | 0 <= i < e + 1 && data[i] != Newline ensures InSomeRange(r', i) {
      InSomeRangeAppend(r, (start, e), i);
    }
  }

  /** A newline that ends an empty run adds no range. */
  lemma RangesSkip(data: seq<bv8>, r: seq<(nat, nat)>, start: nat)
    requires start < |data| && data[start] == Newline
    requires RangesBefore(data, r, start)
    ensures RangesBefore(data, r, start + 1)
  {
  }

  /** The end of the buffer: a non-empty last run without a newline is a range. */
  lemma RangesFinish(data: seq<bv8>, r: seq<(nat, nat)>, start: nat)
    requires start < |data|
    requires start == 0 || data[start - 1] == Newline
    requires NewlineFree(data, start, |data|)
    requires RangesBefore(data, r, start)
    ensures IsLineRanges(data, r + [(start, |data|)])
  {
    var r' := r + [(start, |data|)];
    assert forall k :: 0 <= k < |r| ==> r'[k] == r[k];
    forall i | 0 <= i < |data| && data[i] != Newline ensures InSomeRange(r', i) {
      InSomeRangeAppend(r, (start, |data|), i);
    }
  }

  /** The end of the buffer right after a newline, or of an empty buffer. */
  lemma RangesFinishEmpty(data: seq<bv8>, r: seq<(nat, nat)>)
    requires |data| == 0 || data[|data| - 1] == Newline
    requires RangesBefore(data, r, |data|)
    ensures IsLineRanges(data, r)
  {
  }

  /** `find_line_ranges`: (start, end) of every non-empty line; a last line
      without a trailing newline still counts. */
  method FindLineRanges(data: seq<bv8>) returns (ranges: seq<(nat, nat)>)
    ensures IsLineRanges(data, ranges)
  {
    ranges := [];
    var start: nat := 0;
    for pos := 0 to |data|
      invariant start <= pos
      invariant start == 0 || data[start - 1] == Newline
      invariant NewlineFree(data, start, pos)
      invariant RangesBefore(data, ranges, start)
    {
      if data[pos] == Newline {
        if pos > start {
          RangesAppend(data, ranges, start, pos);
          ranges := ranges + [(start, pos)];
        } else {
          RangesSkip(data, ranges, start);
        }
        start := pos + 1;
      }
    }
    if start < |data| {
      RangesFinish(data, ranges, start);
      ranges := ranges + [(start, |data|)];
    } else {
      RangesFinishEmpty(data, ranges);
    }
  }

  /** `find_line_starts`: 0, then the position after every newline that is
      not the buffer's last byte. */
  method FindLineStarts(data: seq<bv8>) returns (starts: seq<nat>)
    ensures IsLineStarts(data, starts)
  {
    starts := [0];
    for pos := 0 to |data|
      invariant |starts| >= 1 && starts[0] == 0
      invariant forall k :: 0 < k < |starts| ==> 0 < starts[k] <= pos && starts[k] < |data| && data[starts[k] - 1] == Newline
      invariant forall j, k :: 0 <= j < k < |starts| ==> starts[j] < starts[k]
      invariant forall i :: 0 <= i < pos && i < |data| - 1 && data[i] == Newline ==> i + 1 in starts
    {
      if data[pos] == Newline && pos + 1 < |data| {
        starts := starts + [pos + 1];
      }
    }
  }

  /** `[s, e)` is a whole line: non-empty, newline-free, and bounded by
      newlines or the buffer's ends on both sides. */
  ghost predicate IsLine(data: seq<bv8>, s: nat, e: nat) {
    s < e <= |data| && NewlineFree(data, s, e)
    && (s == 0 || data[s - 1] == Newline) && (e == |data| || data[e] == Newline)
  }

  /** Two lines that share a byte are the same line. */
  lemma LinesOverlapSame(data: seq<bv8>, x: (nat, nat), y: (nat, nat), i: nat)
    requires IsLine(data, x.0, x.1) && IsLine(data, y.0, y.1)
    requires x.0 <= i < x.1 && y.0 <= i < y.1
    ensures x == y
  {
  }

  /** Two strictly increasing sequences with the same elements are equal. */
  lemma {:induction false} StrictlySortedEqual(a: seq<nat>, b: seq<nat>)
    requires forall j, k :: 0 <= j < k < |a| ==> a[j] < a[k]
    requires forall j, k :: 0 <= j < k < |b| ==> b[j] < b[k]
    requires forall x :: x in a <==> x in b
    ensures a == b
  {
    if a != [] { assert a[0] in a; }
    if b != [] { assert b[0] in b; }
    if a != [] && b != [] {
      assert a[0] == b[0] by {
        assert a[0] in b && b[0] in a;
      }
      forall x ensures x in a[1..] <==> x in b[1..] {
        if x in a[1..] {
          var j :| 1 <= j < |a| && a[j] == x;
          assert x in b && x != b[0];
        }
        if x in b[1..] {
          var j :| 1 <= j < |b| && b[j] == x;
          assert x in a && x != a[0];
        }
      }
      StrictlySortedEqual(a[1..], b[1..]);
      assert a == [a[0]] + a[1..] && b == [b[0]] + b[1..];
    }
  }

  /** The first byte of each range. */
  function RangeStarts(r: seq<(nat, nat)>): (st: seq<nat>)
    ensures |st| == |r| && forall k :: 0 <= k < |r| ==> st[k] == r[k].0
  {
    seq(|r|, k requires 0 <= k < |r| => r[k].0)
  }

  /** The line containing a non-newline byte is one of the ranges. */
  lemma LineOfByteIsRange(data: seq<bv8>, r: seq<(nat, nat)>, x: (nat, nat))
    requires IsLineRanges(data, r) && IsLine(data, x.0, x.1)
    ensures x.0 in RangeStarts(r) && x in r
  {
    assert data[x.0] != Newline;
    var m :| 0 <= m < |r| && r[m].0 <= x.0 < r[m].1;
    LinesOverlapSame(data, x, r[m], x.0);
    assert RangeStarts(r)[m] == x.0;
  }

  /** `IsLineRanges` admits one answer only: the method's result is the list
      of all lines in order, whatever way it was computed. */
  lemma LineRangesUnique(data: seq<bv8>, r1: seq<(nat, nat)>, r2: seq<(nat, nat)>)
    requires IsLineRanges(data, r1) && IsLineRanges(data, r2)
    ensures r1 == r2
  {
    var s1, s2 := RangeStarts(r1), RangeStarts(r2);
    forall x ensures x in s1 <==> x in s2 {
      if x in s1 {
        var k :| 0 <= k < |r1| && s1[k] == x;
        LineOfByteIsRange(data, r2, r1[k]);
      }
      if x in s2 {
        var k :| 0 <= k < |r2| && s2[k] == x;
        LineOfByteIsRange(data, r1, r2[k]);
      }
    }
    StrictlySortedEqual(s1, s2);
    forall k | 0 <= k < |r1| ensures r1[k] == r2[k] {
      LinesOverlapSame(data, r1[k], r2[k], r1[k].0);
    }
  }

  /** A buffer of nothing but newlines (or of nothing) has no lines. */
  lemma BlankHasNoLines(data: seq<bv8>, r: seq<(nat, nat)>)
    requires forall i :: 0 <= i < |data| ==> data[i] == Newline
    requires IsLineRanges(data, r)
    ensures r == []
  {
    LinesNeedContent(data, r);
  }

  /** A buffer with a line in it holds a byte that is not a newline. */
  lemma LinesNeedContent(data: seq<bv8>, r: seq<(nat, nat)>)
    requires IsLineRanges(data, r)
    ensures r != [] ==> exists i :: 0 <= i < |data| && data[i] != Newline
  {
    if r != [] {
      assert data[r[0].0] != Newline;
    }
  }

  /** Every line's start is a line start; and every line start that holds
      content is where a line begins. */
  lemma RangesMatchStarts(data: seq<bv8>, r: seq<(nat, nat)>, st: seq<nat>)
    requires IsLineRanges(data, r) && IsLineStarts(data, st)
    ensures forall k :: 0 <= k < |r| ==> r[k].0 in st
    ensures forall k :: 0 <= k < |st| && st[k] < |data| && data[st[k]] != Newline ==>
              st[k] in RangeStarts(r)
  {
    forall k | 0 <= k < |r| ensures r[k].0 in st {
      if r[k].0 != 0 {
        assert data[r[k].0 - 1] == Newline;
      }
    }
    forall k | 0 <= k < |st| && st[k] < |data| && data[st[k]] != Newline
      ensures st[k] in RangeStarts(r)
    {
      var m :| 0 <= m < |r| && r[m].0 <= st[k] < r[m].1;
      assert RangeStarts(r)[m] == st[k];
    }
  }

  /** `IsLineStarts` admits one answer only. */
  lemma LineStartsUnique(data: seq<bv8>, st1: seq<nat>, st2: seq<nat>)
    requires IsLineStarts(data, st1) && IsLineStarts(data, st2)
    ensures st1 == st2
  {
    forall x ensures x in st1 <==> x in st2 {
      if x in st1 {
        var k :| 0 <= k < |st1| && st1[k] == x;
        if k > 0 { assert data[x - 1] == Newline; }
      }
      if x in st2 {
        var k :| 0 <= k < |st2| && st2[k] == x;
        if k > 0 { assert data[x - 1] == Newline; }
      }
    }
    StrictlySortedEqual(st1, st2);
  }
}
