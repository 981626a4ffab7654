/**
 * The path rewrite `handle_file` applies before asking the file server:
 * append ".html" when `%r{(^|/)[^./]+$}` matches a path other than "/",
 * then replace every "+" with a space.
 */
module StaticPath {

  /** `[^./]`: every character except a dot and a slash (a newline included). */
  predicate InSegmentClass(ch: char) {
    ch != '.' && ch != '/'
  }

  /** `s[i..k]` is a run of `[^./]` that ends where Ruby's `$` holds. */
  ghost predicate RunToLineEnd(s: string, i: int, k: int) {
    && 0 <= i <= k <= |s|
    && (forall m :: i <= m < k ==> InSegmentClass(s[m]))
    && (k == |s| || s[k] == '\n')
  }

  /**
   * `%r{(^|/)[^./]+$}` matches with its `[^./]+` part on `s[j..k]`: the run
   * starts at the start of the string, after a "/" or after a "\n", and
   * ends at the end of the string or before a "\n".
   */
  ghost predicate HtmlPatternMatchesAt(s: string, j: int, k: int) {
    && RunToLineEnd(s, j, k)
    && j < k
    && (j == 0 || s[j - 1] == '/' || s[j - 1] == '\n')
  }

  ghost predicate HtmlPatternMatches(s: string) {
    exists j, k :: HtmlPatternMatchesAt(s, j, k)
  }

  /** Scans forward from `i` for a line end, giving up at a dot or a slash. */
  function ReachesLineEnd(s: string, i: nat): bool
    requires i <= |s|
    decreases |s| - i
  {
    if i == |s| || s[i] == '\n' then true
    else if !InSegmentClass(s[i]) then false
    else ReachesLineEnd(s, i + 1)
  }

  /** Tries every start position from `j` on, as the regular-expression engine does. */
  function MatchesFrom(s: string, j: nat): bool
    requires j <= |s|
    decreases |s| - j
  {
    if j == |s| then false
    else if (j == 0 || s[j - 1] == '/' || s[j - 1] == '\n') && InSegmentClass(s[j]) && ReachesLineEnd(s, j + 1) then true
    else MatchesFrom(s, j + 1)
  }

  lemma {:induction false} ReachesLineEndIff(s: string, i: nat)
    requires i <= |s|
    ensures ReachesLineEnd(s, i) <==> exists k :: RunToLineEnd(s, i, k)
    decreases |s| - i
  {
    if i == |s| || s[i] == '\n' {
      assert RunToLineEnd(s, i, i);
    } else if InSegmentClass(s[i]) {
      ReachesLineEndIff(s, i + 1);
      if ReachesLineEnd(s, i + 1) {
        var k :| RunToLineEnd(s, i + 1, k);
        assert RunToLineEnd(s, i, k);
      }
      forall k | RunToLineEnd(s, i, k)
        ensures RunToLineEnd(s, i + 1, k)
      {
      }
    }
  }

  lemma {:induction false} MatchesFromIff(s: string, j: nat)
    requires j <= |s|
    ensures MatchesFrom(s, j) <==> exists j', k :: j <= j' && HtmlPatternMatchesAt(s, j', k)
    decreases |s| - j
  {
    if j < |s| {
      ReachesLineEndIff(s, j + 1);
      MatchesFromIff(s, j + 1);
      if (j == 0 || s[j - 1] == '/' || s[j - 1] == '\n') && InSegmentClass(s[j]) && ReachesLineEnd(s, j + 1) {
        var k :| RunToLineEnd(s, j + 1, k);
        assert HtmlPatternMatchesAt(s, j, k);
      } else {
        forall k | HtmlPatternMatchesAt(s, j, k)
          ensures RunToLineEnd(s, j + 1, k)
        {
        }
      }
    }
  }

  /** The test `%r{(^|/)[^./]+$} =~ path`, decided by a scan. */
  function HtmlPattern(path: string): (b: bool)
    ensures b <==> HtmlPatternMatches(path)
  {
    MatchesFromIff(path, 0);
    MatchesFrom(path, 0)
  }

  /** `gsub('+', ' ')`. */
  function ReplacePlus(s: string): (r: string)
    ensures |r| == |s|
    ensures forall i :: 0 <= i < |s| ==> r[i] == (if s[i] == '+' then ' ' else s[i])
  {
    if s == [] then [] else [if s[0] == '+' then ' ' else s[0]] + ReplacePlus(s[1..])
  }

  lemma {:induction false} ReplacePlusIdempotent(s: string)
    ensures ReplacePlus(ReplacePlus(s)) == ReplacePlus(s)
  {
    var once := ReplacePlus(s);
    var twice := ReplacePlus(once);
    assert forall i :: 0 <= i < |s| ==> twice[i] == once[i];
  }

  /** The path handed to the file server. */
  function RewritePath(path: string): (r: string)
    ensures var suffixed := path != "/" && HtmlPatternMatches(path);
      && |r| == |path| + (if suffixed then 5 else 0)
      && (forall i :: 0 <= i < |path| ==> r[i] == (if path[i] == '+' then ' ' else path[i]))
      && (suffixed ==> r[|path|..] == ".html")
    ensures '+' !in r
  {
    var withSuffix := if path != "/" && HtmlPattern(path) then path + ".html" else path;
    ReplacePlus(withSuffix)
  }

  /** The text after the last "/" of `s` (all of `s` when it has no "/"). */
  function LastSegment(s: string): (seg: string)
    ensures |seg| <= |s| && seg == s[|s| - |seg|..]
    ensures '/' !in seg
    ensures |seg| < |s| ==> s[|s| - |seg| - 1] == '/'
  {
    if s == [] || s[|s| - 1] == '/' then []
    else LastSegment(s[..|s| - 1]) + [s[|s| - 1]]
  }

  /** A match on a newline-free path runs to the end of the path. */
  lemma {:induction false} MatchRunsToEnd(path: string, j: int, k: int)
    requires '\n' !in path
    requires HtmlPatternMatchesAt(path, j, k)
    ensures k == |path| && (j == 0 || path[j - 1] == '/')
  {
    assert forall i :: 0 <= i < |path| ==> path[i] != '\n';
  }

  /**
   * Two positions that both start a slash-free tail of `s`, each at the
   * start of `s` or right after a "/", are the same position.
   */
  lemma {:induction false} SlashFreeTailStart(s: string, a: int, b: int)
    requires 0 <= a <= |s| && 0 <= b <= |s|
    requires a == 0 || s[a - 1] == '/'
    requires b == 0 || s[b - 1] == '/'
    requires forall i :: a <= i < |s| ==> s[i] != '/'
    requires forall i :: b <= i < |s| ==> s[i] != '/'
    ensures a == b
  {
  }

  /** A match on a newline-free path covers exactly the last path piece. */
  lemma {:induction false} MatchIsLastSegment(path: string, j: int, k: int)
    requires '\n' !in path
    requires HtmlPatternMatchesAt(path, j, k)
    ensures j == |path| - |LastSegment(path)| && k == |path|
  {
    MatchRunsToEnd(path, j, k);
    var seg := LastSegment(path);
    var start := |path| - |seg|;
    assert forall i :: start <= i < |path| ==> path[i] == seg[i - start];
    SlashFreeTailStart(path, start, j);
  }

  /** The last path piece of a matching newline-free path is non-empty and has no dot. */
  lemma {:induction false} MatchHasUndottedSegment(path: string)
    requires '\n' !in path
    requires HtmlPatternMatches(path)
    ensures LastSegment(path) != [] && '.' !in LastSegment(path)
  {
    var seg := LastSegment(path);
    var j, k :| HtmlPatternMatchesAt(path, j, k);
    MatchIsLastSegment(path, j, k);
    forall i | 0 <= i < |seg|
      ensures seg[i] != '.'
    {
      assert seg[i] == path[j + i];
    }
  }

  /** Any path whose last piece is non-empty and undotted matches on that piece, newlines or not. */
  lemma {:induction false} UndottedSegmentMatches(path: string)
    requires LastSegment(path) != [] && '.' !in LastSegment(path)
    ensures HtmlPatternMatches(path)
  {
    var seg := LastSegment(path);
    var start := |path| - |seg|;
    assert start < |path| && (start == 0 || path[start - 1] == '/');
    forall m | start <= m < |path|
      ensures InSegmentClass(path[m])
    {
      assert path[m] == seg[m - start];
      assert seg[m - start] in seg;
    }
    assert RunToLineEnd(path, start, |path|);
    assert HtmlPatternMatchesAt(path, start, |path|);
  }

  /**
   * On a path without newlines the pattern matches exactly when the last
   * path piece is non-empty and has no dot (so never on "/" or on a path
   * ending in "/").
   */
  lemma {:induction false} HtmlPatternBySegment(path: string)
    requires '\n' !in path
    ensures HtmlPatternMatches(path) <==> LastSegment(path) != [] && '.' !in LastSegment(path)
  {
    if HtmlPatternMatches(path) {
      MatchHasUndottedSegment(path);
    }
    if LastSegment(path) != [] && '.' !in LastSegment(path) {
      UndottedSegmentMatches(path);
    }
  }

  /**
   * Because `^` and `$` are line anchors, a path holding a newline can get
   * ".html" although its last piece has a dot.
   */
  lemma LineAnchoredSuffix()
    ensures RewritePath("/a\n/b.c") == "/a\n/b.c.html"
  {
    assert HtmlPatternMatchesAt("/a\n/b.c", 1, 2);
    var r := RewritePath("/a\n/b.c");
    var p := "/a\n/b.c.html";
    forall i | 0 <= i < |p|
      ensures r[i] == p[i]
    {
    }
  }
}
