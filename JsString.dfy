/**
 * The ECMAScript `String.prototype` built-ins the intent handler relies on:
 * `toLowerCase` (restricted to ASCII letters), `trim`, `includes` and
 * `startsWith`. A Dafny `string` is a sequence of Unicode scalar values,
 * which is what a well-formed JavaScript string denotes.
 */
module JsString {
  import opened Wrappers

  /** ECMAScript WhiteSpace: TAB, VT, FF, ZWNBSP and the category Zs. */
  predicate IsWhiteSpace(c: char)
  {
    || c == '\t' || c == '\U{000B}' || c == '\U{000C}' || c == '\U{FEFF}'
    || c == ' ' || c == '\U{00A0}' || c == '\U{1680}'
    || ('\U{2000}' <= c <= '\U{200A}')
    || c == '\U{202F}' || c == '\U{205F}' || c == '\U{3000}'
  }

  /** ECMAScript LineTerminator: LF, CR, LINE SEPARATOR, PARAGRAPH SEPARATOR. */
  predicate IsLineTerminator(c: char)
  {
    c == '\n' || c == '\r' || c == '\U{2028}' || c == '\U{2029}'
  }

  /** The characters `trim` removes and the regular-expression class `\s` matches. */
  predicate IsSpace(c: char)
  {
    IsWhiteSpace(c) || IsLineTerminator(c)
  }

  predicate AllSpace(s: string)
  {
    forall i :: 0 <= i < |s| ==> IsSpace(s[i])
  }

  /** A string `trim` leaves as it is: empty, or non-space at both ends. */
  predicate IsTrimmed(s: string)
  {
    s == [] || (!IsSpace(s[0]) && !IsSpace(s[|s| - 1]))
  }

  // ---------------------------------------------------------------------
  // toLowerCase

  predicate IsAsciiUpper(c: char)
  {
    'A' <= c <= 'Z'
  }

  function LowerChar(c: char): char
  {
    if IsAsciiUpper(c) then (c as int + 32) as char else c
  }

  /** `toLowerCase`, folding the ASCII letters only. */
  function ToLowerCase(s: string): (r: string)
    ensures |r| == |s|
    ensures forall i :: 0 <= i < |s| ==> r[i] == LowerChar(s[i])
  {
    seq(|s|, i requires 0 <= i < |s| => LowerChar(s[i]))
  }

  /** Every character of a lower-cased string is already lower-case. */
  predicate IsLower(s: string)
  {
    forall i :: 0 <= i < |s| ==> !IsAsciiUpper(s[i])
  }

  lemma ToLowerCaseIsLower(s: string)
    ensures IsLower(ToLowerCase(s))
  {
  }

  lemma LowerFixed(s: string)
    requires IsLower(s)
    ensures ToLowerCase(s) == s
  {
  }

  /** Case folding works character by character, so it commutes with concatenation. */
  lemma ToLowerCaseAppend(a: string, b: string)
    ensures ToLowerCase(a + b) == ToLowerCase(a) + ToLowerCase(b)
  {
  }

  /** Spaces have no case. */
  lemma SpacesAreLower(s: string)
    requires AllSpace(s)
    ensures ToLowerCase(s) == s
  {
  }

  // ---------------------------------------------------------------------
  // trim

  /** The first index at or after `i` that does not hold a space. */
  function SkipSpaces(s: string, i: nat): (k: nat)
    requires i <= |s|
    ensures i <= k <= |s|
    ensures forall t :: i <= t < k ==> IsSpace(s[t])
    ensures k < |s| ==> !IsSpace(s[k])
    decreases |s| - i
  {
    if i < |s| && IsSpace(s[i]) then SkipSpaces(s, i + 1) else i
  }

  /** The index just past the last non-space character of `s[lo..j]`, or `lo`. */
  function SkipSpacesBack(s: string, lo: nat, j: nat): (k: nat)
    requires lo <= j <= |s|
    ensures lo <= k <= j
    ensures forall t :: k <= t < j ==> IsSpace(s[t])
    ensures k > lo ==> !IsSpace(s[k - 1])
    decreases j
  {
    if j > lo && IsSpace(s[j - 1]) then SkipSpacesBack(s, lo, j - 1) else j
  }

  /** `trim`: drop the leading and the trailing spaces. */
  function Trim(s: string): (r: string)
    ensures IsTrimmed(r)
    ensures |r| <= |s|
  {
    var lo := SkipSpaces(s, 0);
    var hi := SkipSpacesBack(s, lo, |s|);
    s[lo..hi]
  }

  /** What `trim` cuts off: `s` is its result wrapped in spaces. */
  lemma TrimSplit(s: string) returns (p: string, q: string)
    ensures s == p + Trim(s) + q
    ensures AllSpace(p) && AllSpace(q)
  {
    var lo := SkipSpaces(s, 0);
    var hi := SkipSpacesBack(s, lo, |s|);
    p, q := s[..lo], s[hi..];
    assert s == s[..lo] + s[lo..hi] + s[hi..];
  }

  /** `trim` is determined by its specification: whatever non-space-ended
      string is wrapped in spaces, `trim` returns exactly it. */
  lemma {:induction false} TrimUnique(p: string, t: string, q: string)
    requires AllSpace(p) && AllSpace(q) && IsTrimmed(t)
    ensures Trim(p + t + q) == t
  {
    var s := p + t + q;
    var lo := SkipSpaces(s, 0);
    var hi := SkipSpacesBack(s, lo, |s|);
    if t == [] {
      assert s == p + q;
      assert forall i :: 0 <= i < |s| ==> IsSpace(s[i]) by {
        forall i | 0 <= i < |s| ensures IsSpace(s[i]) {
          if i < |p| { assert s[i] == p[i]; } else { assert s[i] == q[i - |p|]; }
        }
      }
      assert lo == |s|;
    } else {
      assert s[|p|] == t[0];
      assert s[|p| + |t| - 1] == t[|t| - 1];
      assert lo == |p|;
      assert hi == |p| + |t|;
      assert s[lo..hi] == t;
    }
  }

  lemma TrimIdempotent(s: string)
    ensures Trim(Trim(s)) == Trim(s)
  {
    TrimUnique([], Trim(s), []);
    assert [] + Trim(s) + [] == Trim(s);
  }

  /** Surrounding a string with more spaces does not change its trimmed form. */
  lemma TrimPadded(p: string, s: string, q: string)
    requires AllSpace(p) && AllSpace(q)
    ensures Trim(p + s + q) == Trim(s)
  {
    var p', q' := TrimSplit(s);
    var t := Trim(s);
    assert p + s + q == (p + p') + t + (q' + q);
    TrimUnique(p + p', t, q' + q);
  }

  /** Trimming a lower-case string keeps it lower-case. */
  lemma TrimKeepsLower(s: string)
    requires IsLower(s)
    ensures IsLower(Trim(s))
  {
    var p, q := TrimSplit(s);
    forall i | 0 <= i < |Trim(s)| ensures !IsAsciiUpper(Trim(s)[i]) {
      assert Trim(s)[i] == s[|p| + i];
    }
  }

  // ---------------------------------------------------------------------
  // includes, startsWith

  predicate OccursAt(s: string, pat: string, i: nat)
  {
    i + |pat| <= |s| && s[i..i + |pat|] == pat
  }

  /** The leftmost occurrence of `pat` in `s` at or after `from`. */
  function IndexOf(s: string, pat: string, from: nat): (r: Option<nat>)
    ensures r.Some? ==> from <= r.value && OccursAt(s, pat, r.value)
    ensures r.Some? ==> forall j :: from <= j < r.value ==> !OccursAt(s, pat, j)
    ensures r.None? ==> forall j :: from <= j ==> !OccursAt(s, pat, j)
    decreases |s| - from
  {
    if from + |pat| > |s| then None
    else if s[from..from + |pat|] == pat then Some(from)
    else IndexOf(s, pat, from + 1)
  }

  /** `s.includes(pat)`. */
  function Includes(s: string, pat: string): (b: bool)
    ensures b <==> exists i :: OccursAt(s, pat, i)
  {
    IndexOf(s, pat, 0).Some?
  }

  /** `s.startsWith(prefix)`: every character of `prefix` stands at the
      same position in `s`. */
  function StartsWith(s: string, prefix: string): (b: bool)
    ensures b <==> |prefix| <= |s| && forall i :: 0 <= i < |prefix| ==> s[i] == prefix[i]
  {
    |prefix| <= |s| && s[..|prefix|] == prefix
  }
}
