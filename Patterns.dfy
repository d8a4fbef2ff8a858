/**
 * The regular expressions of the intent handler, as `String.prototype.match`
 * runs them without the `g` flag:
 *
 *   /open\s+(.+)/i                 (the generic "open" fallback)
 *   /search\s+(?:for\s+)?(.+)/i    and  /google\s+(?:for\s+)?(.+)/i
 *
 * All three have the shape `KW\s+G?(.+)` where the optional group `G` is
 * `(?:for\s+)?` or absent. ECMAScript matching is backtracking: the leftmost
 * start index that admits any match wins; at that index `\s+` tries its
 * longest run first, then shorter ones; the optional group is tried before it
 * is skipped; `(.+)` is greedy. `.` matches anything but a line terminator
 * (there is no `s` flag), and `\s` is the `trim` set.
 *
 * The matcher below searches in exactly that order; its contract states the
 * order declaratively: the parse it returns is valid and no valid parse is
 * tried before it.
 */
module Patterns {
  import opened Wrappers
  import opened JsString

  /** The keyword occurs at `i`. Under the `i` flag without `u`, a character
      matches a lower-case ASCII letter of the pattern exactly when it is that
      letter in either case, which is what ASCII lower-casing compares. */
  predicate KeywordAt(s: string, kw: string, i: nat)
  {
    i + |kw| <= |s| && ToLowerCase(s[i..i + |kw|]) == kw
  }

  predicate SpacesIn(s: string, a: nat, b: nat)
    requires a <= b <= |s|
  {
    forall t :: a <= t < b ==> IsSpace(s[t])
  }

  predicate NoLineTerminatorIn(s: string, a: nat, b: nat)
    requires a <= b <= |s|
  {
    forall t :: a <= t < b ==> !IsLineTerminator(s[t])
  }

  /** One way of matching `\s+G?(.+)` from index `j` on: `\s+` covers
      `[j, sep)`; when `viaFor`, the group's `for` sits at `sep` and its `\s+`
      covers `[sep + 3, start)`; the capture is `[start, stop)`. */
  datatype Parse = Parse(sep: nat, viaFor: bool, start: nat, stop: nat)

  ghost predicate ValidParse(s: string, j: nat, withFor: bool, p: Parse)
  {
    && j < p.sep <= p.start < p.stop <= |s|
    && SpacesIn(s, j, p.sep)
    && (if p.viaFor
        then withFor && KeywordAt(s, "for", p.sep) && p.sep + 3 < p.start && SpacesIn(s, p.sep + 3, p.start)
        else p.start == p.sep)
    && NoLineTerminatorIn(s, p.start, p.stop)
  }

  /** Backtracking tries `p` before `q`: a longer first `\s+`, then the
      group taken rather than skipped, then a longer second `\s+`, then a
      longer capture. */
  predicate TriedBefore(p: Parse, q: Parse)
  {
    || p.sep > q.sep
    || (p.sep == q.sep && p.viaFor && !q.viaFor)
    || (p.sep == q.sep && p.viaFor == q.viaFor && p.start > q.start)
    || (p.sep == q.sep && p.viaFor == q.viaFor && p.start == q.start && p.stop > q.stop)
  }

  /** The parse backtracking settles on: valid, and no valid parse is tried before it. */
  ghost predicate IsFirstParse(s: string, j: nat, withFor: bool, p: Parse)
  {
    ValidParse(s, j, withFor, p) && forall q :: ValidParse(s, j, withFor, q) ==> q == p || TriedBefore(p, q)
  }

  /** The first line terminator at or after `m`, or the end of `s`. */
  function LineEnd(s: string, m: nat): (e: nat)
    requires m <= |s|
    ensures m <= e <= |s|
    ensures NoLineTerminatorIn(s, m, e)
    ensures e < |s| ==> IsLineTerminator(s[e])
    decreases |s| - m
  {
    if m < |s| && !IsLineTerminator(s[m]) then LineEnd(s, m + 1) else m
  }

  /** `(.+)` at `m`: greedy, so it stops at the next line terminator. */
  function DotPlus(s: string, m: nat): (r: Option<nat>)
    requires m <= |s|
    ensures r.Some? <==> m < |s| && !IsLineTerminator(s[m])
    ensures r.Some? ==> m < r.value <= |s| && NoLineTerminatorIn(s, m, r.value)
    ensures r.Some? ==> forall e :: r.value < e <= |s| ==> !NoLineTerminatorIn(s, m, e)
  {
    if m < |s| && !IsLineTerminator(s[m]) then
      var e := LineEnd(s, m);
      assert forall e' :: e < e' <= |s| ==> !NoLineTerminatorIn(s, m, e') by {
        forall e' | e < e' <= |s| ensures !NoLineTerminatorIn(s, m, e') {
          assert IsLineTerminator(s[e]);
        }
      }
      Some(e)
    else None
  }

  /** The continuation of `\s+` once it ends at `m`, trying `m`, `m - 1`, ...,
      `j + 1` in turn. */
  function MatchFrom(s: string, j: nat, m: nat, withFor: bool): (r: Option<Parse>)
    requires j < m <= |s| && SpacesIn(s, j, m)
    ensures r.Some? ==> ValidParse(s, j, withFor, r.value) && r.value.sep <= m
    ensures r.Some? ==> forall q :: ValidParse(s, j, withFor, q) && q.sep <= m ==> q == r.value || TriedBefore(r.value, q)
    ensures r.None? ==> forall q :: ValidParse(s, j, withFor, q) ==> q.sep > m
    decreases if withFor then 1 else 0, m
  {
    var group := if withFor && KeywordAt(s, "for", m) then MatchAfterKeyword(s, m + 3, false) else None;
    if group.Some? then
      var g := group.value;
      var p := Parse(m, true, g.start, g.stop);
      ForGroupFirst(s, j, m, g, p);
      Some(p)
    else
      NoForGroup(s, j, m, withFor);
      match DotPlus(s, m)
      case Some(e) =>
        Some(Parse(m, false, m, e))
      case None =>
        if m - 1 > j then MatchFrom(s, j, m - 1, withFor) else None
  }

  /** `\s+G?(.+)` from index `j`: `\s+` first takes the whole run of spaces. */
  function MatchAfterKeyword(s: string, j: nat, withFor: bool): (r: Option<Parse>)
    requires j <= |s|
    ensures r.Some? ==> IsFirstParse(s, j, withFor, r.value)
    ensures r.None? ==> forall q :: !ValidParse(s, j, withFor, q)
    decreases if withFor then 1 else 0, |s| + 1
  {
    var k := SkipSpaces(s, j);
    SepWithinSpaces(s, j, withFor, k);
    if k == j then None else MatchFrom(s, j, k, withFor)
  }

  /** Every valid parse's first `\s+` ends within the run of spaces from `j`. */
  lemma SepWithinSpaces(s: string, j: nat, withFor: bool, k: nat)
    requires j <= |s| && k == SkipSpaces(s, j)
    ensures forall q :: ValidParse(s, j, withFor, q) ==> q.sep <= k
  {
    forall q | ValidParse(s, j, withFor, q) ensures q.sep <= k {
    }
  }

  /** When the group matches at `m`, the parse through it is tried before
      every valid parse whose first `\s+` ends at or before `m`. */
  lemma ForGroupFirst(s: string, j: nat, m: nat, g: Parse, p: Parse)
    requires j < m <= |s| && SpacesIn(s, j, m)
    requires KeywordAt(s, "for", m) && IsFirstParse(s, m + 3, false, g)
    requires p == Parse(m, true, g.start, g.stop)
    ensures ValidParse(s, j, true, p)
    ensures forall q :: ValidParse(s, j, true, q) && q.sep <= m ==> q == p || TriedBefore(p, q)
  {
    forall q | ValidParse(s, j, true, q) && q.sep == m && q.viaFor
      ensures q == p || TriedBefore(p, q)
    {
      var q' := Parse(q.start, false, q.start, q.stop);
      assert ValidParse(s, m + 3, false, q');
    }
  }

  /** When the group does not match at `m`, no valid parse takes it there. */
  lemma NoForGroup(s: string, j: nat, m: nat, withFor: bool)
    requires j < m <= |s|
    requires withFor && KeywordAt(s, "for", m) ==> !HasParse(s, m + 3, false)
    ensures forall q :: ValidParse(s, j, withFor, q) && q.sep == m ==> !q.viaFor
  {
    forall q | ValidParse(s, j, withFor, q) && q.sep == m && q.viaFor ensures false {
      assert ValidParse(s, m + 3, false, Parse(q.start, false, q.start, q.stop));
    }
  }

  /** A match: the keyword's index and the parse of the rest. */
  datatype Match = Match(index: nat, parse: Parse)

  /** Some parse of the rest of the pattern exists after the keyword at `i`. */
  ghost predicate MatchesAt(s: string, kw: string, withFor: bool, i: nat)
  {
    KeywordAt(s, kw, i) && HasParse(s, i + |kw|, withFor)
  }

  ghost predicate HasParse(s: string, j: nat, withFor: bool)
  {
    exists q :: ValidParse(s, j, withFor, q)
  }

  /** The leftmost match starting at or after `i`: the first index where the
      keyword sits and the rest of the pattern parses after it. */
  function ExecFrom(s: string, kw: string, withFor: bool, i: nat): (r: Option<Match>)
    ensures r.Some? ==> i <= r.value.index && KeywordAt(s, kw, r.value.index)
    ensures r.Some? ==> IsFirstParse(s, r.value.index + |kw|, withFor, r.value.parse)
    decreases |s| - i
  {
    if i + |kw| > |s| then None
    else
      var rest := MatchAfterKeyword(s, i + |kw|, withFor);
      if KeywordAt(s, kw, i) && rest.Some? then Some(Match(i, rest.value))
      else ExecFrom(s, kw, withFor, i + 1)
  }

  /** The scan stops at the leftmost index that matches, and finds nothing
      only when no index from `i` on matches. */
  lemma {:induction false} ExecFromLeftmost(s: string, kw: string, withFor: bool, i: nat)
    ensures ExecFrom(s, kw, withFor, i).Some? ==>
      forall i' :: i <= i' < ExecFrom(s, kw, withFor, i).value.index ==> !MatchesAt(s, kw, withFor, i')
    ensures ExecFrom(s, kw, withFor, i).None? ==> forall i' :: i <= i' ==> !MatchesAt(s, kw, withFor, i')
    decreases |s| - i
  {
    if i + |kw| > |s| {
      assert ExecFrom(s, kw, withFor, i).None?;
      NoMatchPastEnd(s, kw, withFor, i);
    } else if !(KeywordAt(s, kw, i) && MatchAfterKeyword(s, i + |kw|, withFor).Some?) {
      assert ExecFrom(s, kw, withFor, i) == ExecFrom(s, kw, withFor, i + 1);
      NoMatchHere(s, kw, withFor, i);
      ExecFromLeftmost(s, kw, withFor, i + 1);
    } else {
      assert ExecFrom(s, kw, withFor, i).value.index == i;
    }
  }

  lemma NoMatchPastEnd(s: string, kw: string, withFor: bool, i: nat)
    requires i + |kw| > |s|
    ensures forall i' :: i <= i' ==> !MatchesAt(s, kw, withFor, i')
  {
  }

  lemma NoMatchHere(s: string, kw: string, withFor: bool, i: nat)
    requires i + |kw| <= |s|
    requires !(KeywordAt(s, kw, i) && MatchAfterKeyword(s, i + |kw|, withFor).Some?)
    ensures !MatchesAt(s, kw, withFor, i)
  {
  }

  /** `s.match(/KW\s+G?(.+)/i)`, reduced to its capture group 1. */
  function Exec(s: string, kw: string, withFor: bool): (r: Option<string>)
    ensures r.Some? <==> exists i :: MatchesAt(s, kw, withFor, i)
    ensures r.Some? ==> r.value != [] && forall t :: 0 <= t < |r.value| ==> !IsLineTerminator(r.value[t])
  {
    ExecFromLeftmost(s, kw, withFor, 0);
    match ExecFrom(s, kw, withFor, 0)
    case None => None
    case Some(m) =>
      assert MatchesAt(s, kw, withFor, m.index);
      Some(s[m.parse.start..m.parse.stop])
  }

  // ---------------------------------------------------------------------
  // What the match is, in the shapes the commands take.

  /** Backtracking settles on one parse: the order it tries them in is strict. */
  lemma FirstParseUnique(s: string, j: nat, withFor: bool, p: Parse, q: Parse)
    requires IsFirstParse(s, j, withFor, p) && IsFirstParse(s, j, withFor, q)
    ensures p == q
  {
  }

  /** At the leftmost index where the pattern can match, the capture is the
      one delimited by the first parse after the keyword. */
  lemma ExecLeftmost(s: string, kw: string, withFor: bool, i: nat, p: Parse)
    requires KeywordAt(s, kw, i) && IsFirstParse(s, i + |kw|, withFor, p)
    requires forall i' :: 0 <= i' < i ==> !MatchesAt(s, kw, withFor, i')
    ensures Exec(s, kw, withFor) == Some(s[p.start..p.stop])
  {
    assert MatchesAt(s, kw, withFor, i);
    ExecFromLeftmost(s, kw, withFor, 0);
    var r := ExecFrom(s, kw, withFor, 0);
    assert r.Some?;
    assert MatchesAt(s, kw, withFor, r.value.index);
    assert r.value.index == i;
    FirstParseUnique(s, i + |kw|, withFor, r.value.parse, p);
  }

  /** Spaces from `j` up to a non-space at `k`, then a rest without line
      terminators that either does not begin with the group's `for` or is
      exactly that word: `\s+` takes all the spaces and `(.+)` all the rest. */
  lemma CaptureRest(s: string, j: nat, k: nat, withFor: bool)
    requires j < k < |s| && SpacesIn(s, j, k) && !IsSpace(s[k])
    requires NoLineTerminatorIn(s, k, |s|)
    requires withFor ==> !KeywordAt(s, "for", k) || k + 3 == |s| || !IsSpace(s[k + 3])
    ensures IsFirstParse(s, j, withFor, Parse(k, false, k, |s|))
  {
    forall q | ValidParse(s, j, withFor, q)
      ensures q.sep <= k
    {
    }
  }

  /** Spaces from `j` up to `for`, spaces after it up to a non-space at `k2`,
      then a rest without line terminators: the group is taken and `(.+)`
      captures the rest. */
  lemma CaptureAfterFor(s: string, j: nat, k: nat, k2: nat)
    requires j < k && k + 3 < k2 < |s|
    requires SpacesIn(s, j, k) && KeywordAt(s, "for", k) && SpacesIn(s, k + 3, k2)
    requires !IsSpace(s[k2]) && NoLineTerminatorIn(s, k2, |s|)
    ensures IsFirstParse(s, j, true, Parse(k, true, k2, |s|))
  {
    assert ToLowerCase(s[k..k + 3])[0] == 'f';
    assert !IsSpace(s[k]);
    forall q | ValidParse(s, j, true, q)
      ensures q.sep <= k
    {
    }
    forall q | ValidParse(s, j, true, q) && q.sep == k && q.viaFor
      ensures q.start <= k2
    {
    }
  }

  /** Nothing can follow a keyword that fills the whole input. */
  lemma ShortInputNoMatch(s: string, kw: string, withFor: bool)
    requires |s| <= |kw|
    ensures Exec(s, kw, withFor).None?
  {
    forall i ensures !MatchesAt(s, kw, withFor, i) {
    }
  }
}
