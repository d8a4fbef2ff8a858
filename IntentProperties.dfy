/**
 * Properties of the command-intent resolver that relate several calls or
 * hold for every input: normalisation, the order of the rules, the order of
 * the application directory, and what the "open" and "search" patterns
 * extract from a command of the usual shape.
 */
module IntentProperties {
  import opened Wrappers
  import opened JsString
  import opened UriComponent
  import opened Patterns
  import opened IntentHandler

  // ---------------------------------------------------------------------
  // Normalisation.

  /** Normalising twice is normalising once. */
  lemma NormalizeIdempotent(s: string)
    ensures Normalize(Normalize(s)) == Normalize(s)
  {
    var l := ToLowerCase(s);
    ToLowerCaseIsLower(s);
    TrimKeepsLower(l);
    LowerFixed(Trim(l));
    TrimIdempotent(l);
  }

  /** The outcome depends on the input only through its normal form. */
  lemma OutcomeOfNormalized(s: string, clock: Clock)
    ensures VoiceCommandOutcome(Normalize(s), clock) == VoiceCommandOutcome(s, clock)
  {
    NormalizeIdempotent(s);
  }

  /** Neither the case of the ASCII letters nor surrounding whitespace changes
      the outcome: `a` padded with spaces reads like any `s` that lower-cases
      to the same text. */
  lemma OutcomeIgnoresCaseAndPadding(p: string, a: string, q: string, s: string, clock: Clock)
    requires AllSpace(p) && AllSpace(q) && ToLowerCase(a) == ToLowerCase(s)
    ensures Normalize(p + a + q) == Normalize(s)
    ensures VoiceCommandOutcome(p + a + q, clock) == VoiceCommandOutcome(s, clock)
  {
    ToLowerCaseAppend(p + a, q);
    ToLowerCaseAppend(p, a);
    SpacesAreLower(p);
    SpacesAreLower(q);
    TrimPadded(p, ToLowerCase(a), q);
  }

  // ---------------------------------------------------------------------
  // The order of the rules.

  /** The rules in the order `handleVoiceCommand` tries them, each with the
      words that make it fire. */
  const RuleWords: seq<seq<string>> := [["open"], ["search", "google"], ["time"], ["date", "today"], ["weather"]]

  predicate Fires(n: string, k: nat)
  {
    k < |RuleWords| && exists w :: w in RuleWords[k] && Includes(n, w)
  }

  /** What rule `k` answers. */
  function RuleOutcome(k: nat, n: string, clock: Clock): IntentResult
  {
    if k == 0 then OpenOutcome(n)
    else if k == 1 then SearchOutcome(n)
    else if k == 2 then TimeOutcome(clock)
    else if k == 3 then DateOutcome(clock)
    else WeatherOutcome()
  }

  lemma FiresWords(n: string)
    ensures Fires(n, 0) <==> Includes(n, "open")
    ensures Fires(n, 1) <==> Includes(n, "search") || Includes(n, "google")
    ensures Fires(n, 2) <==> Includes(n, "time")
    ensures Fires(n, 3) <==> Includes(n, "date") || Includes(n, "today")
    ensures Fires(n, 4) <==> Includes(n, "weather")
  {
    assert "open" in RuleWords[0];
    assert "search" in RuleWords[1] && "google" in RuleWords[1];
    assert "time" in RuleWords[2];
    assert "date" in RuleWords[3] && "today" in RuleWords[3];
    assert "weather" in RuleWords[4];
  }

  /** The seven words of the rules are exactly the words that make the
      resolver claim a command. */
  lemma CommandWordIffSomeRuleFires(n: string)
    ensures HasCommandWord(n) <==> exists k :: 0 <= k < |RuleWords| && Fires(n, k)
  {
    FiresWords(n);
    if HasCommandWord(n) {
      if Fires(n, 0) {} else if Fires(n, 1) {} else if Fires(n, 2) {} else if Fires(n, 3) {}
      else { assert Fires(n, 4); }
    }
  }

  /** First match wins: the first rule in order whose word occurs in the
      normalised input answers, whatever later rules' words occur too. So
      "open weather" is an "open" command, "search the weather" a search and
      "time today" a time request. */
  lemma FirstMatchWins(input: string, clock: Clock, k: nat)
    requires Fires(Normalize(input), k)
    requires forall j :: 0 <= j < k ==> !Fires(Normalize(input), j)
    ensures VoiceCommandOutcome(input, clock) == RuleOutcome(k, Normalize(input), clock)
  {
    var n := Normalize(input);
    FiresWords(n);
    if k > 0 { assert !Fires(n, 0); }
    if k > 1 { assert !Fires(n, 1); }
    if k > 2 { assert !Fires(n, 2); }
    if k > 3 { assert !Fires(n, 3); }
  }

  /** No rule fires exactly when the resolver leaves the command unclaimed. */
  lemma UnclaimedIffNoRule(input: string, clock: Clock)
    ensures VoiceCommandOutcome(input, clock) == Unhandled <==>
      forall k :: 0 <= k < |RuleWords| ==> !Fires(Normalize(input), k)
  {
    var n := Normalize(input);
    FiresWords(n);
    assert (forall k :: 0 <= k < |RuleWords| ==> !Fires(n, k)) <==>
      !Fires(n, 0) && !Fires(n, 1) && !Fires(n, 2) && !Fires(n, 3) && !Fires(n, 4);
  }

  // ---------------------------------------------------------------------
  // The directory order.

  /** A pattern occurs only in a string that holds each of its characters. */
  lemma IncludesChars(s: string, pat: string, c: char)
    ensures Includes(s, pat) && c in pat ==> c in s
  {
    if Includes(s, pat) && c in pat {
      var i: nat :| OccursAt(s, pat, i);
      var j :| 0 <= j < |pat| && pat[j] == c;
      assert s[i..i + |pat|][j] == c;
    }
  }

  lemma CharIncluded(s: string, c: char)
    requires c in s
    ensures Includes(s, [c])
  {
    var i :| 0 <= i < |s| && s[i] == c;
    assert OccursAt(s, [c], i);
  }

  /** The one-letter key `x` is the sixth entry: a command holding an `x`
      anywhere opens one of the first six entries. */
  lemma XShadowsLaterKeys(s: string)
    requires Includes(s, "x")
    ensures FirstApp(s, 0).Some? && FirstApp(s, 0).value <= 5
  {
    assert AppTable[5].key == "x";
  }

  /** Because "netflix" holds an `x`, the Netflix entry is never the one
      opened: "open netflix" opens X (Twitter). */
  lemma NetflixShadowed(s: string)
    ensures FirstApp(s, 0) != Some(11)
  {
    assert AppTable[11].key == "netflix";
    IncludesChars(s, "netflix", 'x');
    if 'x' in s {
      CharIncluded(s, 'x');
      XShadowsLaterKeys(s);
    }
  }

  // ---------------------------------------------------------------------
  // The generic "open" fallback.

  /** `site` with nothing around it, under the spaces `trim` would remove. */
  lemma TrimmedFixed(site: string)
    requires IsTrimmed(site)
    ensures Trim(site) == site
  {
    TrimUnique([], site, []);
    assert [] + site + [] == site;
  }

  /** The shape `kw + spaces + rest`, in indices. */
  lemma SpacesThenRest(s: string, kw: string, sp: string, rest: string)
    requires s == kw + sp + rest && sp != [] && AllSpace(sp) && rest != [] && !IsSpace(rest[0])
    ensures |kw| < |kw| + |sp| < |s|
    ensures SpacesIn(s, |kw|, |kw| + |sp|) && !IsSpace(s[|kw| + |sp|])
    ensures s[|kw| + |sp|..] == rest
  {
    var k := |kw| + |sp|;
    assert forall t :: |kw| <= t < k ==> s[t] == sp[t - |kw|];
    assert s[k..] == rest;
  }

  lemma NoLineTerminatorTail(s: string, k: nat, rest: string)
    requires k <= |s| && s[k..] == rest
    requires forall t :: 0 <= t < |rest| ==> !IsLineTerminator(rest[t])
    ensures NoLineTerminatorIn(s, k, |s|)
  {
    assert forall t :: k <= t < |s| ==> s[t] == rest[t - k];
  }

  lemma KeywordStarts(s: string, kw: string, sp: string, rest: string)
    requires s == kw + sp + rest && IsLower(kw)
    ensures KeywordAt(s, kw, 0)
  {
    assert s[0..|kw|] == kw;
    LowerFixed(kw);
  }

  /** `/open\s+(.+)/i` on "open", spaces and a site: the capture is the site. */
  lemma ExecOpenSite(sp: string, site: string)
    requires sp != [] && AllSpace(sp) && site != [] && IsTrimmed(site)
    requires forall t :: 0 <= t < |site| ==> !IsLineTerminator(site[t])
    ensures Exec("open" + sp + site, "open", false) == Some(site)
  {
    var s := "open" + sp + site;
    var k := 4 + |sp|;
    SpacesThenRest(s, "open", sp, site);
    NoLineTerminatorTail(s, k, site);
    KeywordStarts(s, "open", sp, site);
    CaptureRest(s, 4, k, false);
    ExecLeftmost(s, "open", false, 0, Parse(k, false, k, |s|));
    assert s[k..|s|] == s[k..];
  }

  /** With no directory key in the command, "open" followed by spaces and a
      site gives the site, trimmed, to a deferred action that opens it with a
      web scheme. */
  lemma OpenFallback(sp: string, site: string)
    requires sp != [] && AllSpace(sp) && site != [] && IsTrimmed(site)
    requires forall t :: 0 <= t < |site| ==> !IsLineTerminator(site[t])
    requires NoApp("open" + sp + site)
    ensures OpenOutcome("open" + sp + site) ==
      IntentResult(true, "I'll try to open " + site + " for you.", Some(Deferred(WithScheme(site))))
  {
    ExecOpenSite(sp, site);
    TrimmedFixed(site);
  }

  /** With no directory key in the command and nothing after "open" but
      spaces (which the normalisation removes), the command is claimed and
      the user is asked to be more specific: the instance of `OpenOutcome`'s
      no-match case for the command "open" itself. */
  lemma BareOpenClarifies(n: string)
    requires |n| <= |"open"| && NoApp(n)
    ensures OpenOutcome(n) == IntentResult(true, OpenClarification, None)
  {
    ShortInputNoMatch(n, "open", false);
  }

  /** Adding the scheme twice is adding it once. */
  lemma WithSchemeIdempotent(site: string)
    ensures WithScheme(WithScheme(site)) == WithScheme(site)
  {
  }

  // ---------------------------------------------------------------------
  // The search query.

  /** `/kw\s+(?:for\s+)?(.+)/i` on the keyword, spaces and a rest that does
      not begin with "for" and spaces (it may be "for" alone or run on into a
      word like "forecast"): the capture is the rest. */
  lemma ExecSearchPlain(kw: string, sp: string, rest: string)
    requires kw == "search" || kw == "google"
    requires sp != [] && AllSpace(sp) && rest != [] && !IsSpace(rest[0])
    requires forall t :: 0 <= t < |rest| ==> !IsLineTerminator(rest[t])
    requires !KeywordAt(rest, "for", 0) || |rest| == 3 || !IsSpace(rest[3])
    ensures Exec(kw + sp + rest, kw, true) == Some(rest)
  {
    var s := kw + sp + rest;
    var k := |kw| + |sp|;
    SpacesThenRest(s, kw, sp, rest);
    NoLineTerminatorTail(s, k, rest);
    KeywordStarts(s, kw, sp, rest);
    if k + 3 <= |s| {
      assert s[k..k + 3] == rest[0..3];
    }
    if |rest| > 3 {
      assert s[k + 3] == rest[3];
    }
    CaptureRest(s, |kw|, k, true);
    ExecLeftmost(s, kw, true, 0, Parse(k, false, k, |s|));
    assert s[k..|s|] == s[k..];
  }

  /** The shape `"for" + spaces + rest`, found at index `k` of `s`. */
  lemma ForAt(s: string, k: nat, t: string, sp2: string, rest: string)
    requires k <= |s| && s[k..] == t && t == "for" + sp2 + rest
    requires sp2 != [] && AllSpace(sp2) && rest != [] && !IsSpace(rest[0])
    ensures k + 3 + |sp2| < |s|
    ensures KeywordAt(s, "for", k) && SpacesIn(s, k + 3, k + 3 + |sp2|)
    ensures !IsSpace(s[k + 3 + |sp2|]) && s[k + 3 + |sp2|..] == rest
  {
    SpacesThenRest(t, "for", sp2, rest);
    assert forall u :: 0 <= u < |t| ==> s[k + u] == t[u];
    assert s[k..k + 3] == t[0..3] == "for";
    LowerFixed("for");
    assert s[k + 3 + |sp2|..] == t[3 + |sp2|..];
  }

  /** The shape `kw + spaces + "for" + spaces + rest`, in indices. */
  lemma ForShape(s: string, kw: string, sp: string, sp2: string, rest: string)
    requires kw == "search" || kw == "google"
    requires s == kw + sp + "for" + sp2 + rest
    requires sp != [] && AllSpace(sp) && sp2 != [] && AllSpace(sp2) && rest != [] && !IsSpace(rest[0])
    requires forall t :: 0 <= t < |rest| ==> !IsLineTerminator(rest[t])
    ensures var k, k2 := |kw| + |sp|, |kw| + |sp| + 3 + |sp2|;
      && |kw| < k && k + 3 < k2 < |s| && s[k2..] == rest
      && KeywordAt(s, kw, 0) && SpacesIn(s, |kw|, k) && KeywordAt(s, "for", k) && SpacesIn(s, k + 3, k2)
      && !IsSpace(s[k2]) && NoLineTerminatorIn(s, k2, |s|)
  {
    var t := "for" + sp2 + rest;
    var k := |kw| + |sp|;
    assert s == kw + sp + t;
    SpacesThenRest(s, kw, sp, t);
    ForAt(s, k, t, sp2, rest);
    NoLineTerminatorTail(s, k + 3 + |sp2|, rest);
    KeywordStarts(s, kw, sp, t);
  }

  /** The same pattern on the keyword, spaces, "for", spaces and a rest: the
      group takes the "for" and the capture is the rest. */
  lemma ExecSearchFor(kw: string, sp: string, sp2: string, rest: string)
    requires kw == "search" || kw == "google"
    requires sp != [] && AllSpace(sp) && sp2 != [] && AllSpace(sp2) && rest != [] && !IsSpace(rest[0])
    requires forall t :: 0 <= t < |rest| ==> !IsLineTerminator(rest[t])
    ensures Exec(kw + sp + "for" + sp2 + rest, kw, true) == Some(rest)
  {
    var s := kw + sp + "for" + sp2 + rest;
    var k := |kw| + |sp|;
    var k2 := k + 3 + |sp2|;
    ForShape(s, kw, sp, sp2, rest);
    CaptureAfterFor(s, |kw|, k, k2);
    ExecLeftmost(s, kw, true, 0, Parse(k, true, k2, |s|));
    assert s[k2..|s|] == s[k2..];
  }

  /** "search" (or "google", when the search pattern finds nothing) followed
      by spaces and a query that does not begin with "for" and a space: the
      query is everything after the spaces. A lone "for" is itself the query,
      since the optional group then leaves nothing for `(.+)`; so is a word
      such as "forecast", since the group's `\s+` fails after its "for". */
  lemma SearchPlain(kw: string, sp: string, rest: string)
    requires kw == "search" || kw == "google"
    requires sp != [] && AllSpace(sp) && rest != [] && IsTrimmed(rest)
    requires forall t :: 0 <= t < |rest| ==> !IsLineTerminator(rest[t])
    requires !KeywordAt(rest, "for", 0) || |rest| == 3 || !IsSpace(rest[3])
    requires kw == "google" ==> Exec(kw + sp + rest, "search", true).None?
    ensures SearchQuery(kw + sp + rest) == rest
  {
    ExecSearchPlain(kw, sp, rest);
    TrimmedFixed(rest);
  }

  /** "search for" (or "google for") followed by spaces and a query: the
      optional group swallows the "for" and its spaces. */
  lemma SearchForSkipped(kw: string, sp: string, sp2: string, rest: string)
    requires kw == "search" || kw == "google"
    requires sp != [] && AllSpace(sp) && sp2 != [] && AllSpace(sp2) && rest != [] && IsTrimmed(rest)
    requires forall t :: 0 <= t < |rest| ==> !IsLineTerminator(rest[t])
    requires kw == "google" ==> Exec(kw + sp + "for" + sp2 + rest, "search", true).None?
    ensures SearchQuery(kw + sp + "for" + sp2 + rest) == rest
  {
    ExecSearchFor(kw, sp, sp2, rest);
    TrimmedFixed(rest);
  }

  /** A command with nothing after "search" or "google" is claimed and asks
      what to search for: the instance of `SearchOutcome`'s empty-query case
      for the commands "search" and "google" themselves. */
  lemma BareSearchClarifies(n: string)
    requires |n| <= |"search"|
    ensures SearchOutcome(n) == IntentResult(true, SearchClarification, None)
  {
    ShortInputNoMatch(n, "search", true);
    ShortInputNoMatch(n, "google", true);
  }

  /** The search URL carries the query percent-encoded, and decoding its
      parameter gives the query back. */
  lemma SearchUrlCarriesQuery(input: string)
    requires SearchOutcome(input).nav.Some?
    ensures var url := SearchOutcome(input).nav.value.url;
      && url == SearchUrlPrefix + EncodeURIComponent(SearchQuery(input))
      && IsPercentEncoded(url[|SearchUrlPrefix|..])
      && DecodeURIComponent(url[|SearchUrlPrefix|..]) == Some(SearchQuery(input))
  {
    var query := SearchQuery(input);
    var url := SearchUrlPrefix + EncodeURIComponent(query);
    assert url[|SearchUrlPrefix|..] == EncodeURIComponent(query);
    URIComponentRoundTrip(query);
  }
}
