/**
 * The URI builders of the intent handler: `makePhoneCall`, `sendSMS` and
 * `sendEmail`. Each sets `window.location.href`; here each returns the URI
 * it would navigate to. The schemes are `tel:` (RFC 3966 section 3), `sms:`
 * (RFC 5724 section 2.2) and `mailto:` (RFC 6068 section 2). The number and
 * the address are inserted as given; only the message, subject and body go
 * through `encodeURIComponent`.
 *
 * The partner of each builder is a reader that splits the URI back into its
 * target and its query fields; the lemmas show that it recovers every
 * argument whenever the number or address holds no `?`.
 */
module SystemActions {
  import opened Wrappers
  import opened JsString
  import opened UriComponent

  /** JavaScript truthiness of an optional string argument: the only falsy
      values are a missing argument and the empty string. */
  function Truthy(o: Option<string>): (b: bool)
    ensures !b <==> o == None || o == Some("")
  {
    o.Some? && o.value != []
  }

  /** `makePhoneCall`. */
  function TelUri(number: string): (href: string)
    ensures StartsWith(href, "tel:") && href[4..] == number
  {
    "tel:" + number
  }

  /** `sendSMS`: the message, when truthy, becomes an encoded `body` field.
      The number follows the scheme unchanged, and a `?` and a query follow
      it exactly when the message is truthy. */
  function SmsUri(number: string, message: Option<string>): (href: string)
    ensures StartsWith(href, "sms:" + number)
    ensures |href| > |"sms:" + number| <==> Truthy(message)
    ensures Truthy(message) ==> href[|"sms:" + number|] == '?'
  {
    if Truthy(message) then "sms:" + number + "?" + EncodedField("body", message.value)
    else "sms:" + number
  }

  /** The URI `sendEmail` builds: a `?` and the fields only when the subject
      or the body is truthy. */
  function MailtoUri(email: string, subject: Option<string>, body: Option<string>): (href: string)
    ensures StartsWith(href, "mailto:" + email)
    ensures |href| > |"mailto:" + email| <==> Truthy(subject) || Truthy(body)
    ensures Truthy(subject) || Truthy(body) ==> href[|"mailto:" + email|] == '?'
  {
    if Truthy(subject) || Truthy(body) then "mailto:" + email + "?" + MailtoFields(subject, body)
    else "mailto:" + email
  }

  /** The fields of the query, case by case: `subject` before `body`, `&`
      between them, a field only for a truthy argument. */
  function MailtoFields(subject: Option<string>, body: Option<string>): string
    requires Truthy(subject) || Truthy(body)
  {
    if Truthy(subject) && Truthy(body) then
      EncodedField("subject", subject.value) + "&" + EncodedField("body", body.value)
    else if Truthy(subject) then EncodedField("subject", subject.value)
    else EncodedField("body", body.value)
  }

  /** One `name=value` field as the builders write it. */
  function EncodedField(name: string, value: string): string
  {
    name + "=" + EncodeURIComponent(value)
  }

  /** Total length of the parts. */
  function SumLengths(parts: seq<string>): nat
  {
    if |parts| == 0 then 0 else |parts[0]| + SumLengths(parts[1..])
  }

  /** `Array.prototype.join` with a one-character separator: the parts in
      order with one separator between neighbours (`SplitJoin` reads them back). */
  function Join(parts: seq<string>, sep: char): (r: string)
    ensures |parts| == 0 ==> r == ""
    ensures |parts| >= 1 ==> |r| == SumLengths(parts) + |parts| - 1
    ensures |parts| >= 1 ==> StartsWith(r, parts[0])
  {
    if |parts| == 0 then ""
    else if |parts| == 1 then parts[0]
    else parts[0] + [sep] + Join(parts[1..], sep)
  }

  /** `sendEmail`: collects the fields in a list, then appends them. */
  method SendEmail(email: string, subject: Option<string>, body: Option<string>) returns (href: string)
    ensures href == MailtoUri(email, subject, body)
  {
    var mailtoUrl := "mailto:" + email;
    var params: seq<string> := [];
    if Truthy(subject) {
      params := params + [EncodedField("subject", subject.value)];
    }
    if Truthy(body) {
      params := params + [EncodedField("body", body.value)];
    }
    if |params| > 0 {
      if |params| == 2 {
        JoinPair(params);
      }
      mailtoUrl := mailtoUrl + "?" + Join(params, '&');
    }
    href := mailtoUrl;
  }

  lemma JoinPair(params: seq<string>)
    requires |params| == 2
    ensures Join(params, '&') == params[0] + "&" + params[1]
  {
    assert params[1..] == [params[1]];
  }

  // ---------------------------------------------------------------------
  // Reading a URI back.

  /** The first index of `c` in `s`. */
  function FirstIndex(s: string, c: char): (r: Option<nat>)
    ensures r.Some? ==> r.value < |s| && s[r.value] == c && c !in s[..r.value]
    ensures r.None? ==> c !in s
  {
    if s == [] then None
    else if s[0] == c then Some(0)
    else match FirstIndex(s[1..], c)
      case None => None
      case Some(i) =>
        assert s[..i + 1] == [s[0]] + s[1..][..i];
        Some(i + 1)
  }

  /** `String.prototype.split` with a one-character separator. */
  function SplitOn(s: string, sep: char): seq<string>
    decreases |s|
  {
    match FirstIndex(s, sep)
    case None => [s]
    case Some(i) => [s[..i]] + SplitOn(s[i + 1..], sep)
  }

  /** A URI's text after the scheme, split at its first `?` into the target
      and the query. */
  function SplitQuery(rest: string): (string, Option<string>)
  {
    match FirstIndex(rest, '?')
    case None => (rest, None)
    case Some(i) => (rest[..i], Some(rest[i + 1..]))
  }

  /** The decoded value of the first `name=value` field of a query. */
  function Field(query: Option<string>, name: string): Option<string>
  {
    if query.None? then None else FirstField(SplitOn(query.value, '&'), name)
  }

  function FirstField(fields: seq<string>, name: string): Option<string>
  {
    if fields == [] then None
    else if StartsWith(fields[0], name + "=") then DecodeURIComponent(fields[0][|name| + 1..])
    else FirstField(fields[1..], name)
  }

  /** The value a builder put into a field, as the reader should find it. */
  function Expected(o: Option<string>): Option<string>
  {
    if Truthy(o) then o else None
  }

  // ---------------------------------------------------------------------
  // Round trips.

  /** An encoded field holds no `&`, so `&` separates fields unambiguously. */
  lemma EncodedFieldLacksAmp(name: string, value: string)
    requires '&' !in name
    ensures '&' !in EncodedField(name, value)
  {
    var enc := EncodeURIComponent(value);
    forall i | 0 <= i < |enc| ensures enc[i] != '&' {
      assert IsEncodedAt(enc, i);
    }
    assert EncodedField(name, value) == name + "=" + enc;
  }

  lemma {:induction false} FirstIndexAt(s: string, c: char, n: nat)
    requires n < |s| && s[n] == c
    requires forall t :: 0 <= t < n ==> s[t] != c
    ensures FirstIndex(s, c) == Some(n)
  {
    if n > 0 {
      FirstIndexAt(s[1..], c, n - 1);
    }
  }

  lemma {:induction false} SplitJoin(parts: seq<string>, sep: char)
    requires |parts| >= 1
    requires forall k :: 0 <= k < |parts| ==> sep !in parts[k]
    ensures SplitOn(Join(parts, sep), sep) == parts
  {
    if |parts| == 1 {
      assert FirstIndex(parts[0], sep) == None;
    } else {
      var s := Join(parts, sep);
      var n := |parts[0]|;
      assert s == parts[0] + [sep] + Join(parts[1..], sep);
      FirstIndexAt(s, sep, n);
      assert s[..n] == parts[0];
      assert s[n + 1..] == Join(parts[1..], sep);
      SplitJoin(parts[1..], sep);
      assert [parts[0]] + parts[1..] == parts;
    }
  }

  /** The first `?` after a `?`-free target is the one before the query. */
  lemma SplitQueryAt(target: string, query: string)
    requires '?' !in target
    ensures SplitQuery(target + "?" + query) == (target, Some(query))
  {
    var s := target + "?" + query;
    FirstIndexAt(s, '?', |target|);
    assert s[..|target|] == target && s[|target| + 1..] == query;
  }

  /** A field written by a builder reads back as its value. */
  lemma FieldReadsBack(name: string, value: string, others: seq<string>)
    ensures FirstField([EncodedField(name, value)] + others, name) == Some(value)
  {
    var f := EncodedField(name, value);
    assert ([f] + others)[0] == f;
    assert f[..|name + "="|] == name + "=";
    assert f[|name| + 1..] == EncodeURIComponent(value);
    URIComponentRoundTrip(value);
  }

  /** A query built by joining `&`-free fields is split back into them. */
  lemma QueryReadsBack(target: string, fields: seq<string>, name: string)
    requires '?' !in target && |fields| >= 1
    requires forall k :: 0 <= k < |fields| ==> '&' !in fields[k]
    ensures SplitQuery(target + "?" + Join(fields, '&')) == (target, Some(Join(fields, '&')))
    ensures Field(Some(Join(fields, '&')), name) == FirstField(fields, name)
  {
    SplitQueryAt(target, Join(fields, '&'));
    SplitJoin(fields, '&');
  }

  /** A string with no `?` is all target and no query. */
  lemma NoQuery(target: string)
    requires '?' !in target
    ensures SplitQuery(target) == (target, None)
  {
  }

  /** The text after a URI's scheme. */
  lemma AfterScheme(scheme: string, target: string, sep: string, query: string)
    ensures var uri := scheme + target + sep + query;
      StartsWith(uri, scheme) && uri[|scheme|..] == target + sep + query
  {
    var uri := scheme + target + sep + query;
    assert uri == scheme + (target + sep + query);
  }

  /** `sendSMS`: the number comes back as the target, and the message comes
      back from the `body` field exactly when it was truthy. */
  lemma SmsRoundTrip(number: string, message: Option<string>)
    requires '?' !in number
    ensures StartsWith(SmsUri(number, message), "sms:")
    ensures SplitQuery(SmsUri(number, message)[4..]).0 == number
    ensures SplitQuery(SmsUri(number, message)[4..]).1.Some? <==> Truthy(message)
    ensures Field(SplitQuery(SmsUri(number, message)[4..]).1, "body") == Expected(message)
  {
    if Truthy(message) {
      var f := EncodedField("body", message.value);
      AfterScheme("sms:", number, "?", f);
      EncodedFieldLacksAmp("body", message.value);
      QueryReadsBack(number, [f], "body");
      FieldReadsBack("body", message.value, []);
      assert [f] + [] == [f];
    } else {
      AfterScheme("sms:", number, "", "");
      NoQuery(number);
    }
  }

  /** `sendEmail`: the address comes back as the target, the query is there
      exactly when the subject or the body is truthy, and each of them comes
      back from its field exactly when it was truthy. */
  lemma MailtoRoundTrip(email: string, subject: Option<string>, body: Option<string>)
    requires '?' !in email
    ensures StartsWith(MailtoUri(email, subject, body), "mailto:")
    ensures SplitQuery(MailtoUri(email, subject, body)[7..]).0 == email
    ensures SplitQuery(MailtoUri(email, subject, body)[7..]).1.Some? <==> Truthy(subject) || Truthy(body)
    ensures Field(SplitQuery(MailtoUri(email, subject, body)[7..]).1, "subject") == Expected(subject)
    ensures Field(SplitQuery(MailtoUri(email, subject, body)[7..]).1, "body") == Expected(body)
  {
    if !Truthy(subject) && !Truthy(body) {
      AfterScheme("mailto:", email, "", "");
      NoQuery(email);
    } else {
      var fs := MailtoFieldsRead(subject, body);
      AfterScheme("mailto:", email, "?", MailtoFields(subject, body));
      QueryReadsBack(email, fs, "subject");
      QueryReadsBack(email, fs, "body");
    }
  }

  /** The fields `sendEmail` pushes, in order: `subject` first, then `body`,
      each only for a truthy argument. */
  function PushedFields(subject: Option<string>, body: Option<string>): seq<string>
  {
    (if Truthy(subject) then [EncodedField("subject", subject.value)] else [])
    + (if Truthy(body) then [EncodedField("body", body.value)] else [])
  }

  /** The query of a `mailto` URI splits at `&` into exactly the pushed
      fields: `subject=` before `body=`, and no field of any other kind. */
  lemma MailtoFieldOrder(email: string, subject: Option<string>, body: Option<string>)
    requires '?' !in email && (Truthy(subject) || Truthy(body))
    ensures SplitQuery(MailtoUri(email, subject, body)[7..]).1.Some?
    ensures SplitOn(SplitQuery(MailtoUri(email, subject, body)[7..]).1.value, '&') == PushedFields(subject, body)
  {
    var fs := MailtoFieldsRead(subject, body);
    AfterScheme("mailto:", email, "?", MailtoFields(subject, body));
    SplitQueryAt(email, Join(fs, '&'));
    SplitJoin(fs, '&');
  }

  /** The query of an `sms` URI is the single encoded `body` field. */
  lemma SmsSingleField(number: string, message: Option<string>)
    requires '?' !in number && Truthy(message)
    ensures SplitQuery(SmsUri(number, message)[4..]).1.Some?
    ensures SplitOn(SplitQuery(SmsUri(number, message)[4..]).1.value, '&') == [EncodedField("body", message.value)]
  {
    var f := EncodedField("body", message.value);
    AfterScheme("sms:", number, "?", f);
    EncodedFieldLacksAmp("body", message.value);
    QueryReadsBack(number, [f], "body");
    SplitJoin([f], '&');
  }

  /** The fields of a non-empty `mailto` query, and what each name reads back as. */
  lemma MailtoFieldsRead(subject: Option<string>, body: Option<string>) returns (fs: seq<string>)
    requires Truthy(subject) || Truthy(body)
    ensures fs == PushedFields(subject, body)
    ensures MailtoFields(subject, body) == Join(fs, '&')
    ensures |fs| >= 1 && forall k :: 0 <= k < |fs| ==> '&' !in fs[k]
    ensures FirstField(fs, "subject") == Expected(subject)
    ensures FirstField(fs, "body") == Expected(body)
  {
    if Truthy(subject) && Truthy(body) {
      fs := BothFieldsRead(subject.value, body.value);
    } else if Truthy(subject) {
      fs := OneFieldRead("subject", "body", subject.value);
      assert fs + [] == fs;
    } else {
      fs := OneFieldRead("body", "subject", body.value);
      assert [] + fs == fs;
    }
  }

  /** A field whose first letter differs from the name is passed over. */
  lemma FieldPassedOver(f: string, rest: seq<string>, name: string)
    requires f != [] && name != [] && f[0] != name[0]
    ensures FirstField([f] + rest, name) == FirstField(rest, name)
  {
    assert ([f] + rest)[0] == f && ([f] + rest)[1..] == rest;
  }

  lemma BothFieldsRead(subject: string, body: string) returns (fs: seq<string>)
    ensures fs == [EncodedField("subject", subject), EncodedField("body", body)]
    ensures Join(fs, '&') == EncodedField("subject", subject) + "&" + EncodedField("body", body)
    ensures forall k :: 0 <= k < |fs| ==> '&' !in fs[k]
    ensures FirstField(fs, "subject") == Some(subject)
    ensures FirstField(fs, "body") == Some(body)
  {
    var fsub, fbody := EncodedField("subject", subject), EncodedField("body", body);
    fs := [fsub, fbody];
    JoinPair(fs);
    assert [fsub] + [fbody] == fs;
    FieldReadsBack("subject", subject, [fbody]);
    FieldReadsBack("body", body, []);
    assert [fbody] + [] == [fbody];
    assert fsub[0] == 's';
    FieldPassedOver(fsub, [fbody], "body");
    EncodedFieldLacksAmp("subject", subject);
    EncodedFieldLacksAmp("body", body);
  }

  lemma OneFieldRead(name: string, other: string, value: string) returns (fs: seq<string>)
    requires name != [] && other != [] && name[0] != other[0] && '&' !in name
    ensures fs == [EncodedField(name, value)] && Join(fs, '&') == EncodedField(name, value)
    ensures '&' !in fs[0]
    ensures FirstField(fs, name) == Some(value)
    ensures FirstField(fs, other) == None
  {
    var f := EncodedField(name, value);
    fs := [f];
    assert [f] + [] == fs;
    FieldReadsBack(name, value, []);
    assert f[0] == name[0];
    FieldPassedOver(f, [], other);
    EncodedFieldLacksAmp(name, value);
  }
}
