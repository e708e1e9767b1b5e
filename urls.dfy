/** The pure string logic of the location service: slash stripping, the
    path part of a URL, the document-path test, and the `indexOf` and
    `split` primitives those are built on. A string is a sequence of Unicode
    scalar values; JavaScript's UTF-16 code units, and lone surrogates in
    particular, are not represented. */
module Urls {

  import opened Options

  /** `/^prefix/.test(s)` for a literal prefix: `s` is `prefix` followed by
      the rest of `s`. */
  predicate StartsWith(s: string, prefix: string): (r: bool)
    ensures r ==> |prefix| <= |s| && s == prefix + s[|prefix|..]
  {
    |prefix| <= |s| && s[..|prefix|] == prefix
  }

  /** Any string beginning with `prefix` matches `/^prefix/`. */
  lemma {:induction false} StartsWithAppend(prefix: string, rest: string)
    ensures StartsWith(prefix + rest, prefix)
  {
    assert (prefix + rest)[..|prefix|] == prefix;
  }

  /** `s.indexOf(c)`: the first position of `c`, or -1 when there is none. */
  function IndexOf(s: string, c: char): (i: int)
    ensures -1 <= i < |s|
    ensures i == -1 <==> c !in s
    ensures 0 <= i ==> s[i] == c && c !in s[..i]
  {
    if |s| == 0 then -1
    else if s[0] == c then 0
    else
      var j := IndexOf(s[1..], c);
      assert s == [s[0]] + s[1..];
      if j == -1 then -1
      else
        assert s[..j + 1] == [s[0]] + s[1..][..j];
        j + 1
  }

  /** `s.lastIndexOf(c)`: the last position of `c`, or -1 when there is none. */
  function LastIndexOf(s: string, c: char): (i: int)
    ensures -1 <= i < |s|
    ensures i == -1 <==> c !in s
    ensures 0 <= i ==> s[i] == c && c !in s[i + 1..]
  {
    if |s| == 0 then -1
    else if s[|s| - 1] == c then |s| - 1
    else
      var i := LastIndexOf(s[..|s| - 1], c);
      SplitLast(s, i + 1);
      i
  }

  /** `s` is its prefix without the last element, then that element; a
      suffix from `k` keeps the last element after the prefix's suffix. */
  lemma {:induction false} SplitLast<T>(s: seq<T>, k: int)
    requires 0 <= k < |s|
    ensures s == s[..|s| - 1] + [s[|s| - 1]]
    ensures s[k..] == s[..|s| - 1][k..] + [s[|s| - 1]]
  {
  }

  /** `parts.join(sep)`. */
  function Join(parts: seq<string>, sep: char): string {
    if |parts| == 0 then ""
    else if |parts| == 1 then parts[0]
    else parts[0] + [sep] + Join(parts[1..], sep)
  }

  /** `s.split(sep)` for a one-character separator: never empty, and its
      parts hold no separator. */
  function Split(s: string, sep: char): (parts: seq<string>)
    ensures |parts| >= 1
    ensures forall k :: 0 <= k < |parts| ==> sep !in parts[k]
    decreases |s|
  {
    var i := IndexOf(s, sep);
    if i == -1 then [s]
    else
      var rest := Split(s[i + 1..], sep);
      var parts := [s[..i]] + rest;
      assert forall k :: 1 <= k < |parts| ==> parts[k] == rest[k - 1];
      parts
  }

  /** Joining the parts of `s.split(sep)` back with `sep` gives `s`. */
  lemma {:induction false} JoinSplit(s: string, sep: char)
    ensures Join(Split(s, sep), sep) == s
    decreases |s|
  {
    var i := IndexOf(s, sep);
    if i != -1 {
      var rest := Split(s[i + 1..], sep);
      assert Split(s, sep) == [s[..i]] + rest;
      JoinSplit(s[i + 1..], sep);
      JoinCons(s[..i], rest, sep);
      assert s == s[..i] + [sep] + s[i + 1..];
    }
  }

  /** Joining a part in front of a non-empty list puts the separator after it. */
  lemma {:induction false} JoinCons(a: string, rest: seq<string>, sep: char)
    requires |rest| >= 1
    ensures Join([a] + rest, sep) == a + [sep] + Join(rest, sep)
  {
    assert ([a] + rest)[1..] == rest;
  }

  /** The first separator of `a + [sep] + b` is the one after `a`. */
  lemma {:induction false} IndexOfAfter(a: string, sep: char, b: string)
    requires sep !in a
    ensures IndexOf(a + [sep] + b, sep) == |a|
  {
    var s := a + [sep] + b;
    assert s[|a|] == sep;
    assert s[..|a|] == a;
  }

  /** Splitting `a + [sep] + b` cuts at the separator after `a`. */
  lemma {:induction false} SplitAfter(a: string, sep: char, b: string)
    requires sep !in a
    ensures Split(a + [sep] + b, sep) == [a] + Split(b, sep)
  {
    var s := a + [sep] + b;
    IndexOfAfter(a, sep, b);
    assert s[..|a|] == a;
    assert s[|a| + 1..] == b;
  }

  /** Two separator-free pieces in front of `rest` come out as the first
      two parts. */
  lemma {:induction false} SplitTwoPieces(a: string, b: string, sep: char, rest: string)
    requires sep !in a && sep !in b
    ensures Split(a + [sep] + b + [sep] + rest, sep) == [a, b] + Split(rest, sep)
  {
    var tail := b + [sep] + rest;
    var s := a + [sep] + b + [sep] + rest;
    assert s == a + [sep] + tail;
    SplitAfter(a, sep, tail);
    SplitAfter(b, sep, rest);
    PrependTwo(a, b, Split(rest, sep));
  }

  lemma {:induction false} PrependTwo<T>(x: T, y: T, xs: seq<T>)
    ensures [x] + ([y] + xs) == [x, y] + xs
  {
  }

  /** Split undoes Join when no part holds the separator. */
  lemma {:induction false} SplitJoin(parts: seq<string>, sep: char)
    requires |parts| >= 1
    requires forall k :: 0 <= k < |parts| ==> sep !in parts[k]
    ensures Split(Join(parts, sep), sep) == parts
    decreases |parts|
  {
    if |parts| == 1 {
      assert IndexOf(parts[0], sep) == -1;
    } else {
      SplitAfter(parts[0], sep, Join(parts[1..], sep));
      SplitJoin(parts[1..], sep);
      assert parts == [parts[0]] + parts[1..];
    }
  }

  // ---------------------------------------------------------------------
  // stripSlashes: url.replace(/^\/+/, '').replace(/\/+(\?|#|$)/, '$1')
  // ---------------------------------------------------------------------

  /** The first replace: `^\/+` anchored at the start, greedy, so the whole
      leading run of '/' goes. */
  function StripLeadingSlashes(s: string): (r: string)
    ensures |r| <= |s| && r == s[|s| - |r|..]
    ensures forall k :: 0 <= k < |s| - |r| ==> s[k] == '/'
    ensures r == [] || r[0] != '/'
  {
    if |s| > 0 && s[0] == '/' then StripLeadingSlashes(s[1..]) else s
  }

  /** The end of the run of '/' that starts at `i`. */
  function SlashRunEnd(s: string, i: nat): (j: nat)
    requires i <= |s|
    ensures i <= j <= |s|
    ensures forall k :: i <= k < j ==> s[k] == '/'
    ensures j == |s| || s[j] != '/'
    decreases |s| - i
  {
    if i < |s| && s[i] == '/' then SlashRunEnd(s, i + 1) else i
  }

  /** The second pattern `\/+(\?|#|$)` can match at `i`: the greedy run of
      '/' starting there is followed by '?', '#' or the end. Backtracking
      to a shorter run never helps, since a '/' follows it. */
  predicate TrailingRunAt(s: string, i: nat) {
    i < |s| && s[i] == '/' &&
    var j := SlashRunEnd(s, i);
    j == |s| || s[j] == '?' || s[j] == '#'
  }

  /** Leftmost position from `from` on where the second pattern matches. */
  function FirstTrailingRun(s: string, from: nat): (i: Option<nat>)
    requires from <= |s|
    ensures i.Some? ==> from <= i.value < |s| && TrailingRunAt(s, i.value)
    ensures forall k :: from <= k < |s| && (i.None? || k < i.value) ==> !TrailingRunAt(s, k)
    decreases |s| - from
  {
    if from == |s| then None
    else if TrailingRunAt(s, from) then Some(from)
    else FirstTrailingRun(s, from + 1)
  }

  /** `stripSlashes(url)`. The second replace is not global: only the
      leftmost matching run goes; the captured '?' or '#' is put back by
      '$1', so the text from the end of the run on is kept. */
  function StripSlashes(url: string): (r: string)
    ensures r == [] || r[0] != '/'
  {
    var t := StripLeadingSlashes(url);
    match FirstTrailingRun(t, 0)
    case None => t
    case Some(i) => t[..i] + t[SlashRunEnd(t, i)..]
  }

  /** Regular-expression reading of the second pattern: its slashes span
      exactly `s[i..j]`, a non-empty run of '/' followed by '?', '#' or the
      end of the string. */
  ghost predicate RunMatches(s: string, i: int, j: int) {
    0 <= i < j <= |s| &&
    (forall k :: i <= k < j ==> s[k] == '/') &&
    (j == |s| || s[j] == '?' || s[j] == '#')
  }

  /** A match starting at `i` has exactly one end: the end of the greedy run. */
  lemma {:induction false} RunMatchesIsGreedyRun(s: string, i: nat, j: nat)
    ensures RunMatches(s, i, j) <==> TrailingRunAt(s, i) && j == SlashRunEnd(s, i)
  {
  }

  /** stripSlashes is the regular-expression replacement: after the leading
      run is gone, either the pattern matches nowhere and the text is kept,
      or the leftmost match, which is a whole run of '/', is cut out. */
  lemma {:induction false} StripSlashesReplacesLeftmostMatch(url: string)
    ensures var t := StripLeadingSlashes(url);
      || ((forall i, j :: !RunMatches(t, i, j)) && StripSlashes(url) == t)
      || exists i, j ::
           && RunMatches(t, i, j)
           && 0 < i && t[i - 1] != '/'
           && (forall i', j' :: i' < i ==> !RunMatches(t, i', j'))
           && StripSlashes(url) == t[..i] + t[j..]
  {
    var t := StripLeadingSlashes(url);
    match FirstTrailingRun(t, 0)
    case None =>
      forall i, j ensures !RunMatches(t, i, j) {
        if 0 <= i && 0 <= j { RunMatchesIsGreedyRun(t, i, j); }
      }
    case Some(i) =>
      var j := SlashRunEnd(t, i);
      RunMatchesIsGreedyRun(t, i, j);
      forall i', j' | i' < i ensures !RunMatches(t, i', j') {
        if 0 <= i' && 0 <= j' { RunMatchesIsGreedyRun(t, i', j'); }
      }
      if t[i - 1] == '/' {
        assert SlashRunEnd(t, i - 1) == SlashRunEnd(t, i);
        assert TrailingRunAt(t, i - 1);
      }
  }

  /** A path whose first and last characters are not '/' and which holds
      neither '?' nor '#' is left alone by stripSlashes. */
  lemma {:induction false} StripSlashesKeepsPlainPath(p: string)
    requires '?' !in p && '#' !in p
    requires p == [] || (p[0] != '/' && p[|p| - 1] != '/')
    ensures StripSlashes(p) == p
  {
  }

  /** Without '?' and '#', the only run the second pattern can match is
      the one that ends the string, and cutting it leaves a string whose
      last character is not '/'. */
  lemma {:induction false} TrailingRunEndsString(t: string)
    requires '?' !in t && '#' !in t
    requires t == [] || t[0] != '/'
    ensures match FirstTrailingRun(t, 0)
      case None => t == [] || t[|t| - 1] != '/'
      case Some(i) => 0 < i && SlashRunEnd(t, i) == |t| && t[i - 1] != '/'
  {
    assert t != [] && t[|t| - 1] == '/' ==> SlashRunEnd(t, |t| - 1) == |t|;
    match FirstTrailingRun(t, 0)
    case None =>
      assert t != [] ==> !TrailingRunAt(t, |t| - 1);
    case Some(i) =>
      assert forall k :: 0 <= k < |t| ==> t[k] != '?' && t[k] != '#';
      forall k | 0 < k < |t| && t[k - 1] == '/' && TrailingRunAt(t, k)
        ensures TrailingRunAt(t, k - 1)
      {
        assert SlashRunEnd(t, k - 1) == SlashRunEnd(t, k);
      }
  }

  /** On a URL with neither query nor hash, stripSlashes is idempotent and
      its result does not end with '/'. */
  lemma {:induction false} StripSlashesIdempotentWithoutQuery(url: string)
    requires '?' !in url && '#' !in url
    ensures var r := StripSlashes(url);
      (r == [] || r[|r| - 1] != '/') && StripSlashes(r) == r
  {
    var t := StripLeadingSlashes(url);
    var r := StripSlashes(url);
    assert '?' !in t && '#' !in t by {
      assert t == url[|url| - |t|..];
    }
    TrailingRunEndsString(t);
    var run := FirstTrailingRun(t, 0);
    if run.None? {
      assert r == t;
      StripSlashesKeepsPlainPath(t);
    } else {
      var i := run.value;
      assert r == t[..i] + t[|t|..];
      assert r == t[..i];
      assert '?' !in r && '#' !in r;
      StripSlashesKeepsPlainPath(r);
    }
  }

  /** stripSlashes is not idempotent: a second pass, as `currentUrl` makes
      over a URL `go` has already stripped, can remove another run. The
      first pass cuts the run before '?' ... */
  lemma StripSlashesFirstPass()
    ensures StripSlashes("a/?b/") == "a?b/"
  {
    var s := "a/?b/";
    assert StripLeadingSlashes(s) == s;
    assert SlashRunEnd(s, 1) == 2;
    assert FirstTrailingRun(s, 1) == Some(1);
    assert FirstTrailingRun(s, 0) == Some(1);
  }

  /** ... and the second pass cuts the run at the end. */
  lemma StripSlashesSecondPass()
    ensures StripSlashes("a?b/") == "a?b"
  {
    var t := "a?b/";
    assert StripLeadingSlashes(t) == t;
    assert SlashRunEnd(t, 3) == 4;
    assert FirstTrailingRun(t, 3) == Some(3);
    assert FirstTrailingRun(t, 0) == Some(3);
  }

  /** The mapping behind `currentPath`: `url.match(/[^?#]*\/)[0]`, which
      always matches at the start, so the result is the longest prefix of
      the URL holding neither '?' nor '#'. */
  function PathOf(url: string): (path: string)
    ensures |path| <= |url| && path == url[..|path|]
    ensures '?' !in path && '#' !in path
    ensures |path| == |url| || url[|path|] == '?' || url[|path|] == '#'
  {
    if |url| == 0 || url[0] == '?' || url[0] == '#' then ""
    else [url[0]] + PathOf(url[1..])
  }

  // ---------------------------------------------------------------------
  // The document-path test /\/[^/.]*$/ of handleAnchorClick
  // ---------------------------------------------------------------------

  /** Regular-expression reading of `/\/[^/.]*$/.test(p)`: some '/' is
      followed only by characters that are neither '/' nor '.'. */
  ghost predicate DocumentPathMatches(p: string) {
    exists i :: 0 <= i < |p| && p[i] == '/' && SegmentFrom(p, i + 1)
  }

  /** `[^/.]*$` matches from position `i`. */
  ghost predicate SegmentFrom(p: string, i: nat) {
    forall k :: i <= k < |p| ==> p[k] != '/' && p[k] != '.'
  }

  /** The test as a check on the last path segment: the path has a '/', and
      the text after its last '/' holds no '.'. */
  predicate IsDocumentPath(p: string) {
    var i := LastIndexOf(p, '/');
    i >= 0 && '.' !in p[i + 1..]
  }

  lemma {:induction false} IsDocumentPathMatchesRegex(p: string)
    ensures IsDocumentPath(p) <==> DocumentPathMatches(p)
  {
  }
}
