/**
 * The shape shared by the servlet's anchored regular expressions
 * `/^[\r\n]+/` (splitting the handler's output) and `/^(\d+)/` (reading the
 * status pseudo-header). In Ruby, `^` holds at the start of the string and
 * just after every "\n"; the leftmost position where the pattern matches
 * wins, and the greedy `+` then takes the longest run of the class.
 */
module LineAnchors {
  import opened Common

  /** A `^c+` match can start at `p`: `^` holds there and `s[p]` is in class `c`. */
  predicate RunStartsAt(s: string, p: nat, c: char -> bool) {
    p < |s| && (p == 0 || s[p - 1] == '\n') && c(s[p])
  }

  /** The leftmost position at or after `from` where a `^c+` match starts. */
  function FirstRunStart(s: string, from: nat, c: char -> bool): (r: Option<nat>)
    requires from <= |s|
    ensures r.Some? ==> from <= r.value < |s| && RunStartsAt(s, r.value, c)
    ensures r.Some? ==> forall p :: from <= p < r.value ==> !RunStartsAt(s, p, c)
    ensures r.None? ==> forall p :: from <= p < |s| ==> !RunStartsAt(s, p, c)
    decreases |s| - from
  {
    if from == |s| then None
    else if RunStartsAt(s, from, c) then Some(from)
    else FirstRunStart(s, from + 1, c)
  }

  /** The end of the longest run of class `c` that starts at `p`. */
  function RunEnd(s: string, p: nat, c: char -> bool): (e: nat)
    requires p <= |s|
    ensures p <= e <= |s|
    ensures forall i :: p <= i < e ==> c(s[i])
    ensures e == |s| || !c(s[e])
    decreases |s| - p
  {
    if p == |s| || !c(s[p]) then p else RunEnd(s, p + 1, c)
  }

  /** The slice `s[start..end]` matched by a regular expression. */
  datatype Span = Span(start: nat, end: nat)

  /** The match of `^c+` in `s`, or `None` when the pattern does not match. */
  function FirstRun(s: string, c: char -> bool): (r: Option<Span>)
    ensures r.Some? ==> r.value.start < r.value.end <= |s| && RunStartsAt(s, r.value.start, c)
    ensures r.Some? ==> forall p :: 0 <= p < r.value.start ==> !RunStartsAt(s, p, c)
    ensures r.Some? ==> forall i :: r.value.start <= i < r.value.end ==> c(s[i])
    ensures r.Some? ==> r.value.end == |s| || !c(s[r.value.end])
    ensures r.None? <==> forall p :: 0 <= p < |s| ==> !RunStartsAt(s, p, c)
  {
    match FirstRunStart(s, 0, c)
    case None => None
    case Some(p) => Some(Span(p, RunEnd(s, p, c)))
  }
}
