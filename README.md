# Command-intent resolver of the voice assistant

This project models the assistant's command-intent resolver,
`utils/intentHandler.ts`, and proves properties of it. The resolver takes
the text of a spoken or typed command and decides whether one of its fixed
rules answers it. If a rule answers, it gives the reply text and the web
page to open. If none does, the command goes to the chat model.

The resolver works in these steps:

- **Normalisation.** The command is lower-cased and trimmed.
- **Dispatch.** The rules are tried in order, first match wins, on
  substring tests:
  - `open`;
  - `search` or `google`;
  - `time`;
  - `date` or `today`;
  - `weather`.
- **Open rule.**
  - It scans a 21-entry directory of applications in declaration order.
  - Failing that, it falls back to the pattern `/open\s+(.+)/i`.
  - Failing that, it asks the user to be more specific.
- **Search rule.**
  - The query comes from `/search\s+(?:for\s+)?(.+)/i`, and from the
    `google` variant when that fails.
  - The query is sent to Google through `encodeURIComponent`.
- **Time and date rules** fill fixed reply templates.
- **Weather rule** returns a fixed text and a deferred action that would
  open a weather site.

The file also builds the `tel:`, `sms:` and `mailto:` URIs of the system
actions. These schemes are defined in RFC 3966 section 3, RFC 5724 section
2.2 and RFC 6068 section 2. A built URI conforms to them only for a
well-formed number or address:

- the builders insert the number and the address unescaped;
- `encodeURIComponent` leaves `!*'()` as they are, which the escaped values
  of RFC 5724 do not allow.

The project has one module per file:

- `Wrappers.dfy`: `Option`.
- `JsString.dfy`: the ECMAScript string built-ins the resolver calls.
  - `toLowerCase`.
  - `trim`, over the full WhiteSpace and LineTerminator set of ECMA-262
    section 12.2 and 12.3.
  - `includes` and `startsWith`.
  - Each comes with its defining properties. For example, `Trim` is the
    unique non-space-ended string that the input wraps in spaces.
- `UriComponent.dfy`: `encodeURIComponent` (ECMA-262 section 19.2.6.4).
  - The unreserved set of RFC 2396 section 2.3 passes through; everything
    else becomes UTF-8 (RFC 3629) as `%XX` upper-case hex.
  - Its partner is a decoder, proved to undo it on every string.
- `Patterns.dfy`: the three regular expressions, run the way ECMAScript
  backtracking runs them.
  - The leftmost start wins; `\s+` tries its longest run first; the
    optional group is tried before it is skipped; `(.+)` is greedy and
    stops at a line terminator.
  - The matcher is proved equal to a declarative description: the parse it
    returns is valid and no valid parse is tried before it.
- `IntentHandler.dfy`: the resolver.
  - The specification functions compute each handler's outcome as a value.
  - The dispatch is conditional code in the source, so it stays a function.
  - The methods are the two handlers that work step by step: the directory
    loop with its early return, and the reassigned `query`.
  - Each method is proved to return exactly the specified outcome.
- `IntentProperties.dfy`: properties that hold for every input.
  - Normalisation is idempotent, and the outcome ignores case and padding.
  - First match wins.
  - A command is unclaimed exactly when no rule word occurs.
  - The directory order decides, and the `x` key shadows `netflix`.
  - What the open and search patterns extract.
  - The search URL decodes back to the query.
- `SystemActions.dfy`: the three URI builders.
  - `sendEmail` is a method that pushes fields onto a list, as the source
    does.
  - The partner is a reader that splits a URI into its target and its
    query fields. The round-trip lemmas show that it recovers every
    argument.

The browser effects are data. An `IntentResult` carries `nav: Option<Nav>`:

- `Immediate(url)` is a `window.open(url)` the handler performs before it
  returns. Directory hits and searches use it.
- `Deferred(url)` is the returned `action` closure, which would open `url`
  when called. The generic open and the weather rule use it.

The formatted clock readings are an input, `Clock(time, date)`.

The open rule behaves in ways that are easy to miss:

- **The `x` key.** Any command holding an `x` opens one of the first six
  entries. So "open netflix" opens X (Twitter).
- **Lower-casing comes first.** The generic open therefore sees the
  lower-cased text. "open zzzNotARealSitezzz" gets the reply "I'll try to
  open zzznotarealsitezzz for you." and a deferred action (`Deferred`) for
  `https://zzznotarealsitezzz`.

## Model

| member | source | states |
|---|---|---|
| JsString.ToLowerCase | utils/intentHandler.ts:13 | the result has the input's length and each character is the input's character with ASCII upper case folded |
| JsString.Trim | utils/intentHandler.ts:13 | the result neither starts nor ends with a WhiteSpace or LineTerminator character and is no longer than the input |
| JsString.TrimUnique | utils/intentHandler.ts:13 | trim returns exactly the non-space-ended text that the input wraps in spaces (trim's defining property) |
| JsString.Includes | utils/intentHandler.ts:16 | `includes` holds exactly when the pattern occurs at some index |
| JsString.StartsWith | utils/intentHandler.ts:95 | `startsWith` holds exactly when the prefix is no longer than the string and each of its characters stands at the same position in the string |
| IntentHandler.Normalize | utils/intentHandler.ts:13 | the normal form has no upper-case ASCII letter, neither starts nor ends with a space, and is no longer than the command |
| IntentHandler.NormalizeSplit | utils/intentHandler.ts:13 | the lower-cased command is the normal form with only spaces before and after it (so, with `Normalize`, it is exactly the trimmed lower-cased command) |
| IntentProperties.NormalizeIdempotent | utils/intentHandler.ts:13 | lower-casing then trimming a normalised command changes nothing |
| IntentProperties.OutcomeOfNormalized | utils/intentHandler.ts:13 | the outcome of a command equals the outcome of its normal form |
| IntentProperties.OutcomeIgnoresCaseAndPadding | utils/intentHandler.ts:13 | a command padded with whitespace on both sides and differing only in ASCII case has the same normal form and the same outcome |
| IntentHandler.Dispatch | utils/intentHandler.ts:16-47 | on a normalised command: claimed exactly when one of the seven rule words occurs; unclaimed means empty text and no navigation; a claimed command has text; every navigation has a web scheme |
| IntentHandler.VoiceCommandOutcome | utils/intentHandler.ts:12-48 | claimed exactly when one of the seven rule words occurs in the normal form; unclaimed means empty text and no navigation; a claimed command has text; every navigation has a web scheme |
| IntentProperties.CommandWordIffSomeRuleFires | utils/intentHandler.ts:16-35 | a command holds one of the seven words exactly when one of the five rules fires on it |
| IntentProperties.FirstMatchWins | utils/intentHandler.ts:16-41 | when rule k fires and no earlier rule does, the outcome is rule k's, whatever later rules' words also occur |
| IntentProperties.UnclaimedIffNoRule | utils/intentHandler.ts:12-48 | the outcome is the unclaimed result exactly when none of the five rules fires on the normal form |
| IntentHandler.FirstApp | utils/intentHandler.ts:76-84 | the directory search returns an entry whose key occurs and no earlier entry's key occurs; empty only when no key occurs |
| IntentHandler.OpenFirstApp | utils/intentHandler.ts:76-83 | the first entry in declaration order whose key occurs is opened at once with the reply "Opening {name} for you!" |
| IntentProperties.XShadowsLaterKeys | utils/intentHandler.ts:51-77 | any command containing "x" hits one of the first six directory entries |
| IntentProperties.NetflixShadowed | utils/intentHandler.ts:51-77 | the Netflix entry is never the one hit, because its key contains "x" |
| IntentHandler.OpenOutcome | utils/intentHandler.ts:50-107 | the open rule always claims the command with some text; with no key hit, a match of the open pattern gives the deferred visit to the trimmed capture, otherwise the clarification with no navigation |
| IntentHandler.HandleOpenCommand | utils/intentHandler.ts:50-107 | the loop over the directory with early return computes exactly the open rule's outcome |
| IntentHandler.WithScheme | utils/intentHandler.ts:94-97 | the deferred URL always starts with http:// or https://; a site with one is kept and any other gets https:// in front |
| IntentProperties.WithSchemeIdempotent | utils/intentHandler.ts:94-97 | adding the scheme twice gives the same URL as adding it once |
| IntentProperties.OpenFallback | utils/intentHandler.ts:87-101 | "open", spaces and a trimmed one-line site with no directory key: the reply names the site and the deferred URL is the site with a scheme |
| IntentProperties.BareOpenClarifies | utils/intentHandler.ts:87-106 | a command no longer than "open" with no directory key is claimed with the clarification and no navigation |
| Patterns.Exec | utils/intentHandler.ts:87 | the pattern matches exactly when some index starts the keyword followed by a valid parse of the rest; the capture is a non-empty run without line terminators |
| Patterns.MatchAfterKeyword | utils/intentHandler.ts:113 | the parse returned after the keyword is valid and no valid parse comes before it in backtracking order; none is returned only when no valid parse exists |
| Patterns.ExecFromLeftmost | utils/intentHandler.ts:113-114 | the match found is at the leftmost index where the pattern can match, and no match is found only when no index can match |
| Patterns.ExecLeftmost | utils/intentHandler.ts:87 | at the leftmost index where the keyword is followed by a valid parse, the capture is the span of the first parse in backtracking order |
| IntentHandler.SearchQuery | utils/intentHandler.ts:111-120 | the query is trimmed; the search pattern's capture wins whenever it matches, wherever the words are; otherwise the google pattern's capture; otherwise empty |
| IntentHandler.SearchOutcome | utils/intentHandler.ts:122-134 | always claimed; navigates, at once and to the search prefix, exactly when the query is non-empty, with the reply quoting the query; otherwise the clarification |
| IntentHandler.HandleSearchCommand | utils/intentHandler.ts:109-135 | the handler with its reassigned query returns exactly the specified search outcome |
| IntentProperties.SearchPlain | utils/intentHandler.ts:113-119 | keyword, spaces and a trimmed one-line query not starting with "for" and a space (so also "for" alone, or a word like "forecast"): the query is the text after the spaces |
| IntentProperties.SearchForSkipped | utils/intentHandler.ts:113-119 | keyword, spaces, "for", spaces and a query: the optional group takes "for" and its spaces, and the query is the rest |
| IntentProperties.BareSearchClarifies | utils/intentHandler.ts:131-134 | a command no longer than "search" gives an empty query and so the clarification with no navigation |
| IntentProperties.SearchUrlCarriesQuery | utils/intentHandler.ts:123 | the search URL is the prefix plus the encoded query; its suffix is only unreserved characters and %XX triples and decodes back to the query |
| UriComponent.EncodeURIComponent | utils/intentHandler.ts:123 | the result is only unreserved characters and %XX triples, and a string of unreserved characters is returned unchanged |
| UriComponent.EncodeAppend | utils/intentHandler.ts:123 | the encoding of a concatenation is the concatenation of the encodings |
| UriComponent.UnreservedPassesThrough | utils/intentHandler.ts:123 | an unreserved character is copied unchanged wherever it stands, also between characters that are escaped |
| UriComponent.URIComponentRoundTrip | utils/intentHandler.ts:123 | decoding the encoding gives back every string |
| IntentHandler.TimeOutcome | utils/intentHandler.ts:145-148 | always claimed, no navigation, reply "The current time is {time}." |
| IntentHandler.DateOutcome | utils/intentHandler.ts:160-163 | always claimed, no navigation, reply "Today is {date}." |
| IntentHandler.WeatherOutcome | utils/intentHandler.ts:35-41 | always claimed, the fixed reply, and a deferred visit to https://weather.com |
| SystemActions.TelUri | utils/intentHandler.ts:167-170 | the URI is "tel:" followed by the number unchanged |
| SystemActions.SmsUri | utils/intentHandler.ts:174-176 | the URI is "sms:" and the number unchanged, followed by "?" and a query exactly when the message is non-empty |
| SystemActions.SmsRoundTrip | utils/intentHandler.ts:172-178 | for a number without "?": the URI starts with "sms:", the number reads back, a query is present exactly when the message is non-empty, and its body field decodes to the message |
| SystemActions.SmsSingleField | utils/intentHandler.ts:174-176 | for a number without "?" and a non-empty message, the query splits at "&" into exactly one field, the encoded `body` field |
| SystemActions.MailtoUri | utils/intentHandler.ts:181-189 | the URI is "mailto:" and the address unchanged, followed by "?" and a query exactly when the subject or the body is non-empty |
| SystemActions.SendEmail | utils/intentHandler.ts:180-192 | the method that pushes fields and appends them returns exactly the mailto URI |
| SystemActions.MailtoRoundTrip | utils/intentHandler.ts:180-192 | for an address without "?": the URI starts with "mailto:", the address reads back, "?" is present exactly when subject or body is non-empty, and each of them reads back from its field exactly when non-empty |
| SystemActions.MailtoFieldOrder | utils/intentHandler.ts:181-188 | for an address without "?" and a non-empty subject or body, the query splits at "&" into exactly the pushed fields: the encoded `subject` field first when the subject is non-empty, then the encoded `body` field when the body is non-empty, and nothing else |
| SystemActions.Truthy | utils/intentHandler.ts:174 | an optional argument is falsy exactly when it is missing or the empty string (also the tests at lines 184-185) |
| SystemActions.Join | utils/intentHandler.ts:188 | `join('&')` of no parts is empty; of one or more parts it starts with the first part and is as long as all parts plus one separator between each pair of neighbours (`SplitJoin` reads the parts back) |
| SystemActions.SplitJoin | utils/intentHandler.ts:188 | joining one or more parts that do not contain the separator, then splitting at the separator, gives back exactly the parts in order |

## Left out

- **Clock readings.** Reading the clock and formatting it with
  `toLocaleTimeString` and `toLocaleDateString` (Intl library calls) are
  not modelled. The formatted strings are the `Clock` input.
- **Navigation effects.** `window.open` and `window.location.href` are not
  performed. The URL each would open is returned as data (`Nav`, or the URI
  string of a builder).
- **The action closure.** It is represented by the URL it would open
  (`Deferred`). The closure itself, and whether anyone calls it, are not
  modelled.
- `JsString.ToLowerCase`: folds ASCII letters only. Full Unicode case
  mapping (for example of accented capitals) is not modelled, because it
  needs the Unicode data tables.
- **The `URIError` of `encodeURIComponent`.** It is thrown on lone
  surrogates. A Dafny `char` is a Unicode scalar value, so that input
  cannot be written and the error path does not exist in the model.
- **The regular expressions are modelled only for the three patterns the
  resolver uses.** There is no general regex engine, and only capture
  group 1 of a match is returned.
- `IntentProperties.OpenFallback`: it assumes that no directory key occurs
  in the command. Whether one does is decided by `FirstApp`, which
  `OpenFirstApp` covers.
- `IntentProperties.SearchPlain`, `IntentProperties.SearchForSkipped`: for
  the `google` keyword, both assume that the `search` pattern does not
  match anywhere in the command. When it does, `SearchQuery` says its
  capture wins.
- `SystemActions.SmsRoundTrip`, `SystemActions.MailtoRoundTrip`: both
  require a number or address without `?`. The builders insert it
  unescaped, so a `?` in it cannot be told apart from the query separator.
  The URI built in that case is still the one `SmsUri` and `MailtoUri`
  define.
- **Concrete commands are not stated as lemmas on literal strings.**
  Examples such as "open netflix", "open weather" and "time today" are
  covered by the general lemmas (`NetflixShadowed`, `FirstMatchWins`).
- **`openCamera` and `setReminder`.** They are not modelled: they only
  call `alert`, the Notification API and promises.
- **The rest of the application.** The chat interface, speech
  recognition and synthesis, the chat API route, the theme context and
  the other components are not part of this model.
