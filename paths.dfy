/** Splitting a URL path into segments, as the router does for both patterns and request paths
    (`Router.parsePath`): split at every '/' and drop the empty pieces. */
module Paths {

  /** A segment the router stores or matches: non-empty and free of '/'. */
  ghost predicate IsSegment(s: string)
  {
    s != [] && '/' !in s
  }

  /** All pieces between the '/' characters of `s`, empty ones included (there is always one
      more piece than there are slashes). */
  function Split(s: string): (r: seq<string>)
    ensures |r| >= 1
    ensures forall i :: 0 <= i < |r| ==> '/' !in r[i]
  {
    if s == [] then [[]]
    else
      var rest := Split(s[1..]);
      if s[0] == '/' then [[]] + rest
      else [[s[0]] + rest[0]] + rest[1..]
  }

  /** The non-empty pieces of `ps`, in order. */
  function NonEmpty(ps: seq<string>): (r: seq<string>)
    ensures forall i :: 0 <= i < |r| ==> r[i] != [] && exists j :: 0 <= j < |ps| && ps[j] == r[i]
  {
    if ps == [] then []
    else if ps[0] == [] then NonEmpty(ps[1..])
    else [ps[0]] + NonEmpty(ps[1..])
  }

  /** The segments of a path or pattern. */
  function ParsePath(path: string): (r: seq<string>)
    ensures forall i :: 0 <= i < |r| ==> IsSegment(r[i])
  {
    NonEmpty(Split(path))
  }

  /** The canonical path of a segment list: "/" before every segment, "" for no segment. */
  function JoinPath(parts: seq<string>): string
  {
    if parts == [] then "" else "/" + parts[0] + JoinPath(parts[1..])
  }

  lemma {:induction false} SplitConcat(a: string, b: string)
    ensures Split(a + "/" + b) == Split(a) + Split(b)
  {
    if a == [] {
      assert a + "/" + b == "/" + b;
      assert ("/" + b)[1..] == b;
    } else {
      assert (a + "/" + b)[0] == a[0];
      assert (a + "/" + b)[1..] == a[1..] + "/" + b;
      SplitConcat(a[1..], b);
    }
  }

  lemma {:induction false} NonEmptyConcat(x: seq<string>, y: seq<string>)
    ensures NonEmpty(x + y) == NonEmpty(x) + NonEmpty(y)
  {
    if x == [] {
      assert x + y == y;
    } else {
      assert (x + y)[0] == x[0];
      assert (x + y)[1..] == x[1..] + y;
      NonEmptyConcat(x[1..], y);
    }
  }

  /** A '/' only separates: the segments of `a/b` are those of `a` followed by those of `b`.
      So leading, trailing and repeated slashes change nothing. */
  lemma ParsePathConcat(a: string, b: string)
    ensures ParsePath(a + "/" + b) == ParsePath(a) + ParsePath(b)
  {
    SplitConcat(a, b);
    NonEmptyConcat(Split(a), Split(b));
  }

  /** No slash, no split. */
  lemma {:induction false} SplitSegment(s: string)
    requires '/' !in s
    ensures Split(s) == [s]
  {
    if s != [] {
      assert '/' !in s[1..] by {
        forall i | 0 <= i < |s[1..]| ensures s[1..][i] != '/' { assert s[1..][i] == s[i + 1]; }
      }
      SplitSegment(s[1..]);
      assert [s[0]] + s[1..] == s;
    }
  }

  /** The empty path and "/" have no segment. */
  lemma ParsePathRoot()
    ensures ParsePath("") == []
    ensures ParsePath("/") == []
  {
    ParsePathConcat("", "");
    assert "" + "/" + "" == "/";
  }

  /** A slash before or after a path changes nothing. */
  lemma ParsePathSlashes(s: string)
    ensures ParsePath("/" + s) == ParsePath(s)
    ensures ParsePath(s + "/") == ParsePath(s)
  {
    ParsePathConcat("", s);
    assert "" + "/" + s == "/" + s;
    ParsePathConcat(s, "");
    assert s + "/" + "" == s + "/";
    ParsePathRoot();
  }

  lemma {:induction false} ParsePathPrepend(p: string, rest: string)
    requires IsSegment(p)
    requires rest == [] || rest[0] == '/'
    ensures ParsePath(p + rest) == [p] + ParsePath(rest)
  {
    SplitSegment(p);
    assert ParsePath(p) == [p] by {
      assert NonEmpty([p]) == [p] + NonEmpty([]);
    }
    if rest == [] {
      assert p + rest == p;
      ParsePathRoot();
    } else {
      assert p + rest == p + "/" + rest[1..];
      ParsePathConcat(p, rest[1..]);
      assert rest == "/" + rest[1..];
      ParsePathSlashes(rest[1..]);
      assert ParsePath(rest) == ParsePath(rest[1..]);
    }
  }

  /** Round trip: the segments of the canonical path of a segment list are that list. */
  lemma {:induction false} ParseJoin(parts: seq<string>)
    requires forall i :: 0 <= i < |parts| ==> IsSegment(parts[i])
    ensures ParsePath(JoinPath(parts)) == parts
  {
    if parts == [] {
      ParsePathRoot();
    } else {
      var rest := JoinPath(parts[1..]);
      assert rest == [] || rest[0] == '/';
      ParseJoin(parts[1..]);
      ParsePathPrepend(parts[0], rest);
      assert JoinPath(parts) == "/" + (parts[0] + rest);
      ParsePathSlashes(parts[0] + rest);
      assert parts == [parts[0]] + parts[1..];
    }
  }

  /** Parsing is a normalisation: a path and its canonical form have the same segments. */
  lemma Normalised(path: string)
    ensures ParsePath(JoinPath(ParsePath(path))) == ParsePath(path)
  {
    ParseJoin(ParsePath(path));
  }

  lemma SingleSegment(p: string)
    requires IsSegment(p)
    ensures ParsePath(p) == [p]
  {
    SplitSegment(p);
    assert NonEmpty([p]) == [p] + NonEmpty([]);
  }

  /** `/a//b/` and `a/b` are the same pattern, for any two segments `a` and `b`. */
  lemma EmptySegmentsDropped(a: string, b: string)
    requires IsSegment(a) && IsSegment(b)
    ensures ParsePath("/" + a + "//" + b + "/") == ParsePath(a + "/" + b) == [a, b]
  {
    SingleSegment(a);
    SingleSegment(b);
    ParsePathConcat(a, b);
    var tail := "/" + (b + "/");
    ParsePathSlashes(b);
    ParsePathSlashes(b + "/");
    assert ParsePath(tail) == [b];
    ParsePathConcat(a, tail);
    var inner := a + "/" + tail;
    assert ParsePath(inner) == [a, b];
    ParsePathSlashes(inner);
    assert "/" + inner == "/" + a + "//" + b + "/";
  }
}
