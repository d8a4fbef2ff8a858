/**
 * The command-intent resolver of the voice assistant: `handleVoiceCommand`
 * and the handlers it dispatches to.
 *
 * The functions here are the specification: they compute the outcome of a
 * command as a value, and the dispatch, which is conditional code, stays a
 * function. The methods at the end are the two handlers that work step by
 * step (a loop over the application directory with an early return, a
 * `query` variable that is reassigned) and are proved to compute exactly
 * the specified outcome.
 *
 * The browser effects become data: `window.open(url)` performed by a handler
 * before it returns is `Immediate(url)`; the returned `action` closure, which
 * would open `url` if anyone called it, is `Deferred(url)`. The clock readings
 * of the time and date commands are passed in already formatted.
 */
module IntentHandler {
  import opened Wrappers
  import opened JsString
  import opened UriComponent
  import opened Patterns

  datatype Nav = Immediate(url: string) | Deferred(url: string)

  /** `IntentResult`: whether the command was claimed, the text to show and
      speak, and the navigation that comes with it. */
  datatype IntentResult = IntentResult(handled: bool, response: string, nav: Option<Nav>)

  /** The output of `toLocaleTimeString` and `toLocaleDateString` at call time. */
  datatype Clock = Clock(time: string, date: string)

  /** An entry of the application directory: the keyword looked for, where to go, what to say. */
  datatype App = App(key: string, url: string, name: string)

  /** The directory, in declaration order, which is the order it is searched in. */
  const AppTable: seq<App> := [
    App("youtube", "https://youtube.com", "YouTube"),
    App("whatsapp", "https://web.whatsapp.com", "WhatsApp"),
    App("instagram", "https://instagram.com", "Instagram"),
    App("facebook", "https://facebook.com", "Facebook"),
    App("twitter", "https://twitter.com", "Twitter"),
    App("x", "https://x.com", "X (Twitter)"),
    App("gmail", "https://gmail.com", "Gmail"),
    App("maps", "https://maps.google.com", "Google Maps"),
    App("github", "https://github.com", "GitHub"),
    App("reddit", "https://reddit.com", "Reddit"),
    App("spotify", "https://spotify.com", "Spotify"),
    App("netflix", "https://netflix.com", "Netflix"),
    App("amazon", "https://amazon.com", "Amazon"),
    App("linkedin", "https://linkedin.com", "LinkedIn"),
    App("tiktok", "https://tiktok.com", "TikTok"),
    App("discord", "https://discord.com", "Discord"),
    App("slack", "https://slack.com", "Slack"),
    App("zoom", "https://zoom.us", "Zoom"),
    App("drive", "https://drive.google.com", "Google Drive"),
    App("docs", "https://docs.google.com", "Google Docs"),
    App("calendar", "https://calendar.google.com", "Google Calendar")
  ]

  const WeatherUrl: string := "https://weather.com"
  const SearchUrlPrefix: string := "https://www.google.com/search?q="
  const WeatherResponse: string := "I can help you check the weather! Opening a weather website for you."
  const OpenClarification: string := "I'm not sure which app or website you want to open. Could you be more specific?"
  const SearchClarification: string := "What would you like me to search for?"

  /** The result for a command no rule claims: the caller then asks the chat model. */
  const Unhandled: IntentResult := IntentResult(false, "", None)

  /** The first step of `handleVoiceCommand`: lower-case, then trim. The
      normal form has no upper-case ASCII letter and no surrounding space. */
  function Normalize(input: string): (n: string)
    ensures IsLower(n) && IsTrimmed(n) && |n| <= |input|
  {
    var l := ToLowerCase(input);
    ToLowerCaseIsLower(input);
    TrimKeepsLower(l);
    Trim(l)
  }

  /** What the normal form is: the lower-cased command is the normal form
      wrapped in spaces (and `TrimUnique` says no other string is). */
  lemma NormalizeSplit(input: string) returns (p: string, q: string)
    ensures AllSpace(p) && AllSpace(q) && ToLowerCase(input) == p + Normalize(input) + q
  {
    p, q := TrimSplit(ToLowerCase(input));
  }

  /** One of the seven words that make the resolver claim a command. */
  predicate HasCommandWord(n: string)
  {
    || Includes(n, "open") || Includes(n, "search") || Includes(n, "google")
    || Includes(n, "time") || Includes(n, "date") || Includes(n, "today")
    || Includes(n, "weather")
  }

  predicate HasWebScheme(url: string)
  {
    StartsWith(url, "http://") || StartsWith(url, "https://")
  }

  /** Directory entry `k` is the first whose key occurs in `s`. */
  predicate IsFirstApp(s: string, k: nat)
  {
    k < |AppTable| && Includes(s, AppTable[k].key) && forall j :: 0 <= j < k ==> !Includes(s, AppTable[j].key)
  }

  predicate NoApp(s: string)
  {
    forall k :: 0 <= k < |AppTable| ==> !Includes(s, AppTable[k].key)
  }

  /** The directory search, from entry `from` on. */
  function FirstApp(s: string, from: nat): (r: Option<nat>)
    requires from <= |AppTable|
    ensures r.Some? ==> from <= r.value < |AppTable| && Includes(s, AppTable[r.value].key)
    ensures r.Some? ==> forall k :: from <= k < r.value ==> !Includes(s, AppTable[k].key)
    ensures r.None? ==> forall k :: from <= k < |AppTable| ==> !Includes(s, AppTable[k].key)
    decreases |AppTable| - from
  {
    if from == |AppTable| then None
    else if Includes(s, AppTable[from].key) then Some(from)
    else FirstApp(s, from + 1)
  }

  /** The directory search finds the first hit. */
  lemma FirstAppFindsFirst(s: string, k: nat)
    requires IsFirstApp(s, k)
    ensures FirstApp(s, 0) == Some(k)
  {
  }

  /** The URL the generic "open" action navigates to. It always carries a web
      scheme, and a site that already has one is left as it is. */
  function WithScheme(site: string): (url: string)
    ensures HasWebScheme(url)
    ensures HasWebScheme(site) ==> url == site
    ensures !HasWebScheme(site) ==> url == "https://" + site
  {
    if HasWebScheme(site) then site
    else
      assert ("https://" + site)[..8] == "https://";
      "https://" + site
  }

  /** The outcome of a directory hit: the site is opened at once. */
  function AppOpened(app: App): IntentResult
  {
    IntentResult(true, "Opening " + app.name + " for you!", Some(Immediate(app.url)))
  }

  /** `handleOpenCommand`: the first directory key found in the input wins and
      is opened at once; otherwise the text after "open" is opened as a site by
      a deferred action; otherwise the command is still claimed, with a request
      to be more specific. */
  function OpenOutcome(input: string): (r: IntentResult)
    ensures r.handled && r.response != []
    ensures NoApp(input) && Exec(input, "open", false).Some? ==>
      var site := Trim(Exec(input, "open", false).value);
      r == IntentResult(true, "I'll try to open " + site + " for you.", Some(Deferred(WithScheme(site))))
    ensures NoApp(input) && Exec(input, "open", false).None? ==> r == IntentResult(true, OpenClarification, None)
  {
    match FirstApp(input, 0)
    case Some(k) =>
      AppOpened(AppTable[k])
    case None =>
      match Exec(input, "open", false)
      case Some(capture) =>
        var site := Trim(capture);
        IntentResult(true, "I'll try to open " + site + " for you.", Some(Deferred(WithScheme(site))))
      case None =>
        IntentResult(true, OpenClarification, None)
  }

  /** The query of `handleSearchCommand`: the trimmed capture of the `search`
      pattern when it matches anywhere, else that of the `google` pattern. */
  function SearchQuery(input: string): (query: string)
    ensures IsTrimmed(query)
    ensures Exec(input, "search", true).Some? ==> query == Trim(Exec(input, "search", true).value)
    ensures Exec(input, "search", true).None? && Exec(input, "google", true).Some? ==>
      query == Trim(Exec(input, "google", true).value)
    ensures Exec(input, "search", true).None? && Exec(input, "google", true).None? ==> query == []
  {
    match Exec(input, "search", true)
    case Some(capture) => Trim(capture)
    case None =>
      match Exec(input, "google", true)
      case Some(capture) => Trim(capture)
      case None => ""
  }

  /** In the "open" rule, the first directory entry in declaration order
      whose key occurs in the input decides the outcome. */
  lemma OpenFirstApp(input: string, k: nat)
    requires IsFirstApp(input, k)
    ensures OpenOutcome(input) == IntentResult(true, "Opening " + AppTable[k].name + " for you!", Some(Immediate(AppTable[k].url)))
  {
    FirstAppFindsFirst(input, k);
  }

  /** `handleSearchCommand`: a non-empty query is searched at once; an empty
      one still claims the command and asks what to search for. */
  function SearchOutcome(input: string): (r: IntentResult)
    ensures r.handled && r.response != []
    ensures r.nav.Some? <==> SearchQuery(input) != []
    ensures r.nav.Some? ==> r.nav.value.Immediate? && StartsWith(r.nav.value.url, SearchUrlPrefix)
    ensures r.nav.Some? ==> r.response == "Searching Google for \"" + SearchQuery(input) + "\"!"
    ensures r.nav.None? ==> r.response == SearchClarification
  {
    var query := SearchQuery(input);
    if query != [] then
      var url := SearchUrlPrefix + EncodeURIComponent(query);
      assert url[..|SearchUrlPrefix|] == SearchUrlPrefix;
      IntentResult(true, "Searching Google for \"" + query + "\"!", Some(Immediate(url)))
    else
      IntentResult(true, SearchClarification, None)
  }

  /** `handleTimeCommand`. */
  function TimeOutcome(clock: Clock): (r: IntentResult)
    ensures r.handled && r.nav.None?
    ensures r.response == "The current time is " + clock.time + "."
  {
    IntentResult(true, "The current time is " + clock.time + ".", None)
  }

  /** `handleDateCommand`. */
  function DateOutcome(clock: Clock): (r: IntentResult)
    ensures r.handled && r.nav.None?
    ensures r.response == "Today is " + clock.date + "."
  {
    IntentResult(true, "Today is " + clock.date + ".", None)
  }

  /** The weather rule: a fixed text and a deferred visit to a weather site. */
  function WeatherOutcome(): (r: IntentResult)
    ensures r.handled && r.response == WeatherResponse && r.nav == Some(Deferred(WeatherUrl))
  {
    IntentResult(true, WeatherResponse, Some(Deferred(WeatherUrl)))
  }

  /** The rules of `handleVoiceCommand` on the normalised command `n`, tried
      in the order open, search/google, time, date/today, weather. `n` is
      claimed exactly when one of the seven words occurs in it; an unclaimed
      command carries no text and no navigation, a claimed one always has
      text, and every navigation goes to a web URL. */
  function Dispatch(n: string, clock: Clock): (r: IntentResult)
    ensures r.handled <==> HasCommandWord(n)
    ensures !r.handled ==> r.response == [] && r.nav.None?
    ensures r.handled ==> r.response != []
    ensures r.nav.Some? ==> HasWebScheme(r.nav.value.url)
  {
    var r :=
      if Includes(n, "open") then OpenOutcome(n)
      else if Includes(n, "search") || Includes(n, "google") then SearchOutcome(n)
      else if Includes(n, "time") then TimeOutcome(clock)
      else if Includes(n, "date") || Includes(n, "today") then DateOutcome(clock)
      else if Includes(n, "weather") then WeatherOutcome()
      else Unhandled;
    assert r.nav.Some? ==> HasWebScheme(r.nav.value.url) by {
      OpenNavIsWeb(n);
      SearchNavIsWeb(n);
      assert WeatherUrl[..8] == "https://";
    }
    r
  }

  /** `handleVoiceCommand`: normalise, then dispatch on the normal form. */
  function VoiceCommandOutcome(input: string, clock: Clock): (r: IntentResult)
    ensures r.handled <==> HasCommandWord(Normalize(input))
    ensures !r.handled ==> r.response == [] && r.nav.None?
    ensures r.handled ==> r.response != []
    ensures r.nav.Some? ==> HasWebScheme(r.nav.value.url)
  {
    Dispatch(Normalize(input), clock)
  }

  /** Every directory entry points at an https:// URL. */
  lemma AppUrlIsWeb(k: nat)
    requires k < |AppTable|
    ensures StartsWith(AppTable[k].url, "https://")
  {
  }

  /** Whatever the open rule navigates to has a web scheme. */
  lemma OpenNavIsWeb(n: string)
    ensures OpenOutcome(n).nav.Some? ==> HasWebScheme(OpenOutcome(n).nav.value.url)
  {
    match FirstApp(n, 0)
    case Some(k) => AppUrlIsWeb(k);
    case None =>
  }

  /** Whatever the search rule navigates to has a web scheme. */
  lemma SearchNavIsWeb(n: string)
    ensures SearchOutcome(n).nav.Some? ==> HasWebScheme(SearchOutcome(n).nav.value.url)
  {
    if SearchOutcome(n).nav.Some? {
      var url := SearchOutcome(n).nav.value.url;
      assert url[..8] == SearchUrlPrefix[..8] == "https://";
    }
  }

  // ---------------------------------------------------------------------
  // The handlers as the program runs them.

  /** `handleOpenCommand`: a scan of the directory with an early return. */
  method HandleOpenCommand(input: string) returns (r: IntentResult)
    ensures r == OpenOutcome(input)
  {
    for i := 0 to |AppTable|
      invariant FirstApp(input, i) == FirstApp(input, 0)
    {
      var app := AppTable[i];
      if Includes(input, app.key) {
        return IntentResult(true, "Opening " + app.name + " for you!", Some(Immediate(app.url)));
      }
    }
    var urlMatch := Exec(input, "open", false);
    if urlMatch.Some? {
      var site := Trim(urlMatch.value);
      var url := site;
      if !StartsWith(url, "http://") && !StartsWith(url, "https://") {
        url := "https://" + url;
      }
      return IntentResult(true, "I'll try to open " + site + " for you.", Some(Deferred(url)));
    }
    return IntentResult(true, OpenClarification, None);
  }

  /** `handleSearchCommand`: `query` starts empty and takes the first capture. */
  method HandleSearchCommand(input: string) returns (r: IntentResult)
    ensures r == SearchOutcome(input)
  {
    var query := "";
    var searchMatch := Exec(input, "search", true);
    var googleMatch := Exec(input, "google", true);
    if searchMatch.Some? {
      query := Trim(searchMatch.value);
    } else if googleMatch.Some? {
      query := Trim(googleMatch.value);
    }
    if query != "" {
      var searchUrl := SearchUrlPrefix + EncodeURIComponent(query);
      return IntentResult(true, "Searching Google for \"" + query + "\"!", Some(Immediate(searchUrl)));
    }
    return IntentResult(true, SearchClarification, None);
  }
}
