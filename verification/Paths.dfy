/** The few string operations the routers use on '/'-separated paths. */
module Paths {

  /** strings.Split(s, "/") */
  function Split(s: string): (r: seq<string>)
    ensures r != []
  {
    if s == "" then [""]
    else
      var r := Split(s[1..]);
      if s[0] == '/' then [""] + r else [[s[0]] + r[0]] + r[1..]
  }

  /** strings.Join(segments, "/") */
  function Join(segments: seq<string>): string {
    if segments == [] then ""
    else if |segments| == 1 then segments[0]
    else segments[0] + "/" + Join(segments[1..])
  }

  function TrimLeft(s: string): string {
    if s != "" && s[0] == '/' then TrimLeft(s[1..]) else s
  }

  function TrimRight(s: string): string {
    if s != "" && s[|s| - 1] == '/' then TrimRight(s[..|s| - 1]) else s
  }

  /** strings.Trim(s, "/") */
  function Trim(s: string): string {
    TrimRight(TrimLeft(s))
  }

  /** The segments of a pattern or of a request path; there is always at least one. */
  function Segments(path: string): (r: seq<string>)
    ensures r != []
  {
    Split(Trim(path))
  }

  predicate HasPrefix(s: string, c: char) {
    s != "" && s[0] == c
  }

  /** A segment as a router sees it: not empty and without a slash. */
  predicate Plain(segment: string) {
    segment != "" && '/' !in segment
  }

  /** The one way to write a list of plain segments as a path. */
  function Canonical(segments: seq<string>): string {
    "/" + Join(segments)
  }

  lemma {:induction false} JoinSplit(s: string)
    ensures Join(Split(s)) == s
  {
    if s != "" {
      JoinSplit(s[1..]);
      var r := Split(s[1..]);
      if s[0] == '/' {
        assert ([""] + r)[1..] == r;
      } else {
        var q := [[s[0]] + r[0]] + r[1..];
        assert q[1..] == r[1..];
        assert s == [s[0]] + s[1..];
      }
    }
  }

  lemma {:induction false} SplitPlain(s: string)
    requires '/' !in s
    ensures Split(s) == [s]
  {
    if s != "" {
      SplitPlain(s[1..]);
      assert s == [s[0]] + s[1..];
    }
  }

  lemma {:induction false} SplitAppend(a: string, b: string)
    requires '/' !in a
    ensures Split(a + "/" + b) == [a] + Split(b)
  {
    var s := a + "/" + b;
    if a == "" {
      assert s[1..] == b;
    } else {
      SplitAppend(a[1..], b);
      assert s[1..] == a[1..] + "/" + b;
      assert [a[0]] + a[1..] == a;
    }
  }

  lemma {:induction false} SplitJoin(segments: seq<string>)
    requires segments != [] && forall i :: 0 <= i < |segments| ==> '/' !in segments[i]
    ensures Split(Join(segments)) == segments
  {
    if |segments| == 1 {
      SplitPlain(segments[0]);
    } else {
      SplitJoin(segments[1..]);
      SplitAppend(segments[0], Join(segments[1..]));
    }
  }

  lemma {:induction false} JoinEnds(segments: seq<string>)
    requires segments != [] && forall i :: 0 <= i < |segments| ==> Plain(segments[i])
    ensures var s := Join(segments); s != "" && s[0] != '/' && s[|s| - 1] != '/'
  {
    if |segments| == 1 {
      assert Plain(segments[0]);
    } else {
      assert Plain(segments[0]) && Plain(segments[1]);
      JoinEnds(segments[1..]);
      var t := Join(segments[1..]);
      assert Join(segments)[|Join(segments)| - 1] == t[|t| - 1];
    }
  }

  predicate AllSlashes(s: string) {
    forall i :: 0 <= i < |s| ==> s[i] == '/'
  }

  lemma {:induction false} TrimLeftIs(s: string) returns (i: nat)
    ensures i <= |s| && AllSlashes(s[..i]) && TrimLeft(s) == s[i..] && (i < |s| ==> s[i] != '/')
  {
    if s != "" && s[0] == '/' {
      i := TrimLeftIs(s[1..]);
      i := i + 1;
      assert s[i..] == s[1..][i - 1..] && s[..i] == [s[0]] + s[1..][..i - 1];
    } else {
      i := 0;
      assert s[0..] == s;
    }
  }

  lemma {:induction false} TrimRightIs(s: string) returns (j: nat)
    ensures j <= |s| && AllSlashes(s[j..]) && TrimRight(s) == s[..j] && (0 < j ==> s[j - 1] != '/')
  {
    if s != "" && s[|s| - 1] == '/' {
      var front := s[..|s| - 1];
      j := TrimRightIs(front);
      assert s[j..] == front[j..] + [s[|s| - 1]] && s[..j] == front[..j];
    } else {
      j := |s|;
      assert s[..j] == s;
    }
  }

  /** Trimming takes away the slashes at both ends, all of them, and nothing else. */
  lemma TrimTakesSlashes(s: string) returns (i: nat, j: nat)
    ensures i <= j <= |s| && Trim(s) == s[i..j] && AllSlashes(s[..i]) && AllSlashes(s[j..])
    ensures i < j ==> s[i] != '/' && s[j - 1] != '/'
  {
    i := TrimLeftIs(s);
    var k := TrimRightIs(s[i..]);
    j := i + k;
    assert s[i..j] == s[i..][..k] && s[j..] == s[i..][k..];
    if k > 0 {
      assert s[j - 1] == s[i..][k - 1] && i < |s|;
    }
  }

  /** So slashes around a canonical path do not change its segments, as in "/users/5/". */
  lemma SlashesAroundDoNotCount(before: string, segments: seq<string>, after: string)
    requires segments != [] && forall i :: 0 <= i < |segments| ==> Plain(segments[i])
    requires AllSlashes(before) && AllSlashes(after)
    ensures Segments(before + Join(segments) + after) == segments
  {
    var j := Join(segments);
    JoinEnds(segments);
    SkipLeft(before, j + after);
    assert before + j + after == before + (j + after);
    SkipRight(j, after);
    SplitJoin(segments);
  }

  lemma {:induction false} SkipLeft(before: string, s: string)
    requires AllSlashes(before) && s != "" && s[0] != '/'
    ensures TrimLeft(before + s) == s
  {
    if before != "" {
      SkipLeft(before[1..], s);
      assert (before + s)[1..] == before[1..] + s;
    } else {
      assert before + s == s;
    }
  }

  lemma {:induction false} SkipRight(s: string, after: string)
    requires AllSlashes(after) && s != "" && s[|s| - 1] != '/'
    ensures TrimRight(s + after) == s
  {
    if after != "" {
      var rest := after[..|after| - 1];
      SkipRight(s, rest);
      assert (s + after)[..|s + after| - 1] == s + rest;
    } else {
      assert s + after == s;
    }
  }

  /** Reading a canonical path back gives its segments. */
  lemma SegmentsOfCanonical(segments: seq<string>)
    requires segments != [] && forall i :: 0 <= i < |segments| ==> Plain(segments[i])
    ensures Segments(Canonical(segments)) == segments
  {
    var s, j := Canonical(segments), Join(segments);
    JoinEnds(segments);
    assert s[0] == '/' && s[1..] == j;
    assert TrimLeft(j) == j && TrimRight(j) == j;
    assert TrimLeft(s) == TrimLeft(s[1..]);
    assert forall i :: 0 <= i < |segments| ==> Plain(segments[i]);
    SplitJoin(segments);
  }

  lemma {:induction false} JoinContains(segments: seq<string>, c: char)
    requires c != '/'
    ensures c in Join(segments) <==> exists i :: 0 <= i < |segments| && c in segments[i]
  {
    if |segments| > 1 {
      JoinContains(segments[1..], c);
      var t := Join(segments[1..]);
      assert c in Join(segments) <==> c in segments[0] || c in t;
      if c in t {
        var i :| 0 <= i < |segments[1..]| && c in segments[1..][i];
        assert c in segments[i + 1];
      } else {
        assert forall i :: 0 < i < |segments| ==> segments[i] == segments[1..][i - 1];
      }
    }
  }
}
