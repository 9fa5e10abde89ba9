/** ECMA-262 `encodeURIComponent`, and the legacy signer's `percentEncode`, which also
    escapes `*`. `encodeURIComponent` leaves alone the letters, the digits and
    ``-_.!~*'()``; everything else is escaped as UTF-8 octets. */
module UriComponent {
  import opened Wrappers
  import Utf8
  import Percent
  import Rfc3986

  predicate IsUriUnescaped(c: char) {
    || 'A' <= c <= 'Z' || 'a' <= c <= 'z' || '0' <= c <= '9'
    || c == '-' || c == '_' || c == '.' || c == '!' || c == '~' || c == '*'
    || c == '\'' || c == '(' || c == ')'
  }

  function EncodeUriComponent(s: string): string {
    Percent.Encode(IsUriUnescaped, s)
  }

  /** `.replace(/\*\/g, "%2A")`. */
  function ReplaceStar(s: string): string {
    if |s| == 0 then ""
    else (if s[0] == '*' then "%2A" else [s[0]]) + ReplaceStar(s[1..])
  }

  /** `percentEncode` of the legacy signer. */
  function PercentEncode(s: string): string {
    ReplaceStar(EncodeUriComponent(s))
  }

  /** The characters `percentEncode` leaves alone. */
  predicate IsPercentKept(c: char) {
    IsUriUnescaped(c) && c != '*'
  }

  /** The four characters `encodeURIComponent` leaves alone and RFC 3986 escapes. */
  predicate IsSubDelim(c: char) {
    c == '!' || c == '\'' || c == '(' || c == ')'
  }

  /** No character of `s` is one of those four. */
  predicate NoSubDelims(s: string) {
    forall i :: 0 <= i < |s| ==> !IsSubDelim(s[i])
  }

  lemma {:induction false} ReplaceStarAppend(a: string, b: string)
    ensures ReplaceStar(a + b) == ReplaceStar(a) + ReplaceStar(b)
  {
    if |a| > 0 {
      assert (a + b)[1..] == a[1..] + b;
      ReplaceStarAppend(a[1..], b);
    } else {
      assert a + b == b;
    }
  }

  lemma {:induction false} ReplaceStarNoStar(s: string)
    requires '*' !in s
    ensures ReplaceStar(s) == s
  {
    if |s| > 0 {
      ReplaceStarNoStar(s[1..]);
    }
  }

  lemma ReplaceStarChar(c: char)
    ensures ReplaceStar(Percent.EncodeChar(IsUriUnescaped, c)) == Percent.EncodeChar(IsPercentKept, c)
  {
    if c == '*' {
      assert Percent.EncodeChar(IsUriUnescaped, c) == [c];
      assert ReplaceStar([c]) == "%2A" + ReplaceStar([]);
      assert Utf8.EncodeChar(c) == [42];
      assert Percent.EscapeBytes([42]) == Percent.Escape(42) + Percent.EscapeBytes([]);
    } else if IsUriUnescaped(c) {
      assert ReplaceStar([c]) == [c] + ReplaceStar([]);
    } else {
      ReplaceStarNoStar(Percent.EncodeChar(IsUriUnescaped, c));
    }
  }

  /** `percentEncode` is encoding with the unescaped set of `encodeURIComponent`
      less `*`. */
  lemma {:induction false} PercentEncodeIsEncode(s: string)
    ensures PercentEncode(s) == Percent.Encode(IsPercentKept, s)
  {
    if |s| > 0 {
      ReplaceStarAppend(Percent.EncodeChar(IsUriUnescaped, s[0]), EncodeUriComponent(s[1..]));
      ReplaceStarChar(s[0]);
      PercentEncodeIsEncode(s[1..]);
    }
  }

  /** The output holds no `*`, `&` or `=`, and decodes back to the input. */
  lemma PercentEncodeProperties(s: string)
    ensures '*' !in PercentEncode(s) && '&' !in PercentEncode(s) && '=' !in PercentEncode(s)
    ensures Percent.Decode(PercentEncode(s)) == Ok(s)
  {
    PercentEncodeIsEncode(s);
    Percent.EncodeDropsRejected(IsPercentKept, s, '*');
    Percent.EncodeDropsRejected(IsPercentKept, s, '&');
    Percent.EncodeDropsRejected(IsPercentKept, s, '=');
    Percent.DecodeEncode(IsPercentKept, s);
  }

  lemma PercentEncodeInjective(a: string, b: string)
    requires PercentEncode(a) == PercentEncode(b)
    ensures a == b
  {
    PercentEncodeProperties(a);
    PercentEncodeProperties(b);
  }

  /** `!`, `'`, `(` and `)` pass through unescaped. */
  lemma PercentEncodeKeepsSubDelims(s: string, c: char)
    requires IsSubDelim(c)
    ensures c in PercentEncode(s) <==> c in s
  {
    PercentEncodeIsEncode(s);
    Percent.EncodeKeepsAdmitted(IsPercentKept, s, c);
  }

  /** `percentEncode` agrees with the RFC 3986 encoding exactly on the texts that hold
      none of `!`, `'`, `(` and `)`. */
  lemma PercentEncodeVersusRfc3986(s: string)
    ensures PercentEncode(s) == Rfc3986.Encode(s) <==> NoSubDelims(s)
  {
    PercentEncodeIsEncode(s);
    if NoSubDelims(s) {
      Percent.EncodeAgree(IsPercentKept, Rfc3986.IsUnreserved, s);
    } else {
      var i :| 0 <= i < |s| && IsSubDelim(s[i]);
      PercentEncodeKeepsSubDelims(s, s[i]);
      Percent.EncodeDropsRejected(Rfc3986.IsUnreserved, s, s[i]);
    }
  }

  /** `encodeURIComponent` escapes the delimiters the legacy encoders put around it. */
  lemma EncodeUriComponentDelimiters(s: string)
    ensures '"' !in EncodeUriComponent(s) && ',' !in EncodeUriComponent(s)
    ensures '&' !in EncodeUriComponent(s) && '=' !in EncodeUriComponent(s)
  {
    Percent.EncodeDropsRejected(IsUriUnescaped, s, '"');
    Percent.EncodeDropsRejected(IsUriUnescaped, s, ',');
    Percent.EncodeDropsRejected(IsUriUnescaped, s, '&');
    Percent.EncodeDropsRejected(IsUriUnescaped, s, '=');
  }
}

/** The legacy signer of the reference page: the defaults that `_.extend` lets the
    caller's parameters override, the oauth parameter dictionary, the sorted query
    string, its own base string and HMAC key, the `encodeURIComponent` renderings of
    fields and header, and the signed URL and curl command built from them. */
module OAuthSignerOld {
  import opened Wrappers
  import Text
  import Percent
  import Rfc3986
  import JsObject
  import UriComponent
  import ParametersLoader
  import UrlElement
  import HmacSha1
  import HmacSha1Signature
  import OAuthSignature

  /** What the caller passes in: the values without a default, and the accessors with
      one, where None keeps the default. */
  datatype Parameters = Parameters(
    consumerKey: string, nonce: string, url: string, consumerSecret: string,
    body: string, bodyEncoding: string,
    token: Option<string>, tokenSecret: Option<string>, version: Option<string>,
    signatureMethod: Option<string>, httpMethod: Option<string>, timestamp: Option<string>,
    fields: Option<JsObject.Object>)

  /** The signer `_.extend` builds: every accessor resolved to its value. */
  datatype Signer = Signer(
    consumerKey: string, nonce: string, url: string, consumerSecret: string,
    body: string, bodyEncoding: string,
    token: string, tokenSecret: string, version: string,
    signatureMethod: string, httpMethod: string, timestamp: string,
    fields: JsObject.Object)

  /** `Math.floor(now / 1000)`, for a clock reading in milliseconds, as the decimal text
      it becomes in the query string. */
  function Timestamp(nowMillis: nat): string {
    Text.Decimal(nowMillis / 1000)
  }

  /** `_.extend(defaults, parameters)`: a caller's accessor replaces the default of the
      same name, because it is applied last. */
  function Extend(p: Parameters, nowMillis: nat): Signer {
    Signer(p.consumerKey, p.nonce, p.url, p.consumerSecret, p.body, p.bodyEncoding,
           p.token.GetOr(""), p.tokenSecret.GetOr(""), p.version.GetOr("1.0"),
           p.signatureMethod.GetOr("HMAC-SHA1"), p.httpMethod.GetOr("GET"),
           p.timestamp.GetOr(Timestamp(nowMillis)), p.fields.GetOr(JsObject.Dict([])))
  }

  /** A caller that sets no token, version, signature method or timestamp gets
      HMAC-SHA1, the current second and version 1.0 in its oauth parameters, and no
      `oauth_token`; a version set to "" drops `oauth_version`. */
  lemma ExtendDefaultParameters(p: Parameters, nowMillis: nat)
    requires p.token.None? && p.signatureMethod.None? && p.timestamp.None?
    ensures var d := OAuthParametersOf(Extend(p, nowMillis));
      && JsObject.Get(d, "oauth_signature_method") == Some("HMAC-SHA1")
      && JsObject.Get(d, "oauth_timestamp") == Some(Timestamp(nowMillis))
      && JsObject.Get(d, "oauth_token") == None
    ensures p.version.None? ==>
      && JsObject.Keys(OAuthParametersOf(Extend(p, nowMillis))) == MandatoryKeys + ["oauth_version"]
      && JsObject.Get(OAuthParametersOf(Extend(p, nowMillis)), "oauth_version") == Some("1.0")
    ensures p.version == Some("") ==>
      JsObject.Keys(OAuthParametersOf(Extend(p, nowMillis))) == MandatoryKeys
  {
    var s := Extend(p, nowMillis);
    OAuthParametersKeys(s);
    OAuthParametersMandatoryValues(s);
    OAuthParametersOptionalValues(s);
  }

  // ---------------------------------------------------------------------------
  // The oauth parameters and the query fields.

  /** The four keys every request carries, in the order they are assigned. */
  const MandatoryKeys: seq<string> :=
    ["oauth_consumer_key", "oauth_nonce", "oauth_timestamp", "oauth_signature_method"]

  function OptionalEntry(k: string, v: string): seq<(string, string)> {
    if v != "" then [(k, v)] else []
  }

  /** What `oauthParameters` returns: the mandatory keys, then `oauth_token` when the
      token is non-empty, then `oauth_version` when the version is non-empty. */
  function OAuthParametersOf(s: Signer): JsObject.Object {
    var es := [("oauth_consumer_key", s.consumerKey), ("oauth_nonce", s.nonce),
               ("oauth_timestamp", s.timestamp), ("oauth_signature_method", s.signatureMethod)]
              + OptionalEntry("oauth_token", s.token) + OptionalEntry("oauth_version", s.version);
    OAuthKeysDistinct(es);
    JsObject.Dict(es)
  }

  /** The oauth keys are six different names. */
  lemma OAuthKeysDistinct(es: seq<(string, string)>)
    requires 4 <= |es| <= 6
    requires es[0].0 == "oauth_consumer_key" && es[1].0 == "oauth_nonce"
    requires es[2].0 == "oauth_timestamp" && es[3].0 == "oauth_signature_method"
    requires |es| >= 5 ==> es[4].0 == "oauth_token" || es[4].0 == "oauth_version"
    requires |es| == 6 ==> es[4].0 == "oauth_token" && es[5].0 == "oauth_version"
    ensures JsObject.Valid(JsObject.Dict(es))
  {
    assert "oauth_nonce"[6] != "oauth_token"[6];
  }

  /** `oauthParameters`, assignment by assignment. */
  method OAuthParameters(s: Signer) returns (d: JsObject.Object)
    ensures d == OAuthParametersOf(s)
  {
    d := JsObject.Dict([("oauth_consumer_key", s.consumerKey), ("oauth_nonce", s.nonce),
                        ("oauth_timestamp", s.timestamp), ("oauth_signature_method", s.signatureMethod)]);
    if s.token != "" {
      NewKey(d, "oauth_token", s.token);
      d := JsObject.Put(d, "oauth_token", s.token);
    }
    if s.version != "" {
      NewKey(d, "oauth_version", s.version);
      d := JsObject.Put(d, "oauth_version", s.version);
    }
  }

  /** Assigning a name the dictionary does not hold appends it. */
  lemma NewKey(d: JsObject.Dict, k: string, v: string)
    requires forall i :: 0 <= i < |d.entries| ==> d.entries[i].0 != k
    ensures JsObject.Put(d, k, v) == JsObject.Dict(d.entries + [(k, v)])
  {
    JsObject.FindIs(d.entries, k, |d.entries|);
  }

  /** The keys, in order: `oauth_token` is there exactly when the token is non-empty
      and `oauth_version` exactly when the version is. */
  lemma OAuthParametersKeys(s: Signer)
    ensures JsObject.Keys(OAuthParametersOf(s)) == MandatoryKeys
      + (if s.token != "" then ["oauth_token"] else [])
      + (if s.version != "" then ["oauth_version"] else [])
  {
  }

  /** The mandatory keys read the consumer key, the nonce, the timestamp and the
      signature method. */
  lemma OAuthParametersMandatoryValues(s: Signer)
    ensures JsObject.Get(OAuthParametersOf(s), "oauth_consumer_key") == Some(s.consumerKey)
    ensures JsObject.Get(OAuthParametersOf(s), "oauth_nonce") == Some(s.nonce)
    ensures JsObject.Get(OAuthParametersOf(s), "oauth_timestamp") == Some(s.timestamp)
    ensures JsObject.Get(OAuthParametersOf(s), "oauth_signature_method") == Some(s.signatureMethod)
  {
    var d := OAuthParametersOf(s);
    JsObject.GetAt(d, 0);
    JsObject.GetAt(d, 1);
    JsObject.GetAt(d, 2);
    JsObject.GetAt(d, 3);
  }

  /** `oauth_token` reads the token when it is non-empty and is absent otherwise; the
      same for `oauth_version` and the version. */
  lemma OAuthParametersOptionalValues(s: Signer)
    ensures JsObject.Get(OAuthParametersOf(s), "oauth_token") == if s.token != "" then Some(s.token) else None
    ensures JsObject.Get(OAuthParametersOf(s), "oauth_version") == if s.version != "" then Some(s.version) else None
  {
    var d := OAuthParametersOf(s);
    var n := |d.entries|;
    if s.token != "" {
      JsObject.GetAt(d, 4);
    } else {
      JsObject.FindIs(d.entries, "oauth_token", n);
    }
    if s.version != "" {
      JsObject.GetAt(d, n - 1);
    } else {
      JsObject.FindIs(d.entries, "oauth_version", n);
    }
  }

  /** What `queryStringFields` returns: the oauth parameters with the caller's fields
      assigned over them, in the fields' order. */
  function QueryStringFieldsOf(s: Signer): JsObject.Object {
    JsObject.AssignValid(OAuthParametersOf(s), s.fields);
    JsObject.Assign(OAuthParametersOf(s), s.fields)
  }

  /** `queryStringFields`: the oauth parameters, then each field assigned in turn. */
  method QueryStringFields(s: Signer) returns (d: JsObject.Object)
    ensures d == QueryStringFieldsOf(s)
  {
    var q := OAuthParameters(s);
    d := JsObject.AssignEach(q, s.fields);
  }

  /** A field wins over an oauth parameter of the same name, every other oauth
      parameter keeps its value, and the names are those of either, the oauth
      parameters first in their own order. */
  lemma QueryStringFieldsContents(s: Signer)
    ensures forall k :: (JsObject.Get(QueryStringFieldsOf(s), k)
      == if k in JsObject.Keys(s.fields) then JsObject.Get(s.fields, k) else JsObject.Get(OAuthParametersOf(s), k))
    ensures forall k :: (k in JsObject.Keys(QueryStringFieldsOf(s))
      <==> k in JsObject.Keys(OAuthParametersOf(s)) || k in JsObject.Keys(s.fields))
    ensures |JsObject.Keys(OAuthParametersOf(s))| <= |JsObject.Keys(QueryStringFieldsOf(s))|
    ensures JsObject.Keys(QueryStringFieldsOf(s))[..|JsObject.Keys(OAuthParametersOf(s))|]
         == JsObject.Keys(OAuthParametersOf(s))
  {
    forall k {
      JsObject.AssignGet(OAuthParametersOf(s), s.fields, k);
    }
    JsObject.AssignKeys(OAuthParametersOf(s), s.fields);
  }

  // ---------------------------------------------------------------------------
  // The query string.

  /** `_.keys(queryArguments).sort()`. */
  function OrderedFields(s: Signer): (r: seq<string>)
    ensures Text.Sorted(r)
    ensures multiset(r) == multiset(JsObject.Keys(QueryStringFieldsOf(s)))
  {
    Text.SortStrings(JsObject.Keys(QueryStringFieldsOf(s)))
  }

  /** `fieldName + "=" + percentEncode(queryArguments[fieldName])`. */
  function QueryPart(d: JsObject.Dict, k: string): string {
    k + "=" + UriComponent.PercentEncode(JsObject.Get(d, k).GetOr(""))
  }

  function QueryParts(d: JsObject.Dict, names: seq<string>): (r: seq<string>)
    ensures |r| == |names|
    ensures forall i :: 0 <= i < |names| ==> r[i] == QueryPart(d, names[i])
  {
    seq(|names|, i requires 0 <= i < |names| => QueryPart(d, names[i]))
  }

  /** `queryString`: one `name=value` per field in sorted name order, the value
      percent-encoded and the name as it is, joined by `&`. */
  function QueryString(s: Signer): string {
    Text.Join(QueryParts(QueryStringFieldsOf(s), OrderedFields(s)), "&")
  }

  /** No name of the query fields holds `&` or `=` when no field name does. */
  predicate PlainNames(names: seq<string>) {
    forall i :: 0 <= i < |names| ==> '&' !in names[i] && '=' !in names[i]
  }

  /** Every name `oauthParameters` may assign. */
  const OAuthNames: seq<string> := MandatoryKeys + ["oauth_token", "oauth_version"]

  /** A name of lower-case letters and `_`. */
  predicate IsSnakeName(k: string) {
    forall i :: 0 <= i < |k| ==> 'a' <= k[i] <= 'z' || k[i] == '_'
  }

  lemma OAuthNamesSnake()
    ensures forall i :: 0 <= i < |OAuthNames| ==> IsSnakeName(OAuthNames[i])
  {
  }

  /** Such a name holds none of the delimiters of the encoders. */
  lemma SnakeNamePlain(k: string)
    requires IsSnakeName(k)
    ensures '&' !in k && '=' !in k && ',' !in k && '"' !in k
  {
  }

  /** The names of the oauth parameters are among `OAuthNames`. */
  lemma OAuthKeysAmong(s: Signer)
    ensures forall i :: 0 <= i < |OAuthParametersOf(s).entries| ==> OAuthParametersOf(s).entries[i].0 in OAuthNames
  {
    var es := OAuthParametersOf(s).entries;
    forall i | 0 <= i < |es|
      ensures es[i].0 in OAuthNames
    {
      if i < 4 {
        assert es[i].0 == OAuthNames[i];
      } else if i == 4 && s.token != "" {
        assert es[i].0 == OAuthNames[4];
      } else {
        assert es[i].0 == OAuthNames[5];
      }
    }
  }

  /** The oauth parameter names hold no delimiter of the encoders. */
  lemma OAuthNamesPlain(s: Signer)
    ensures PlainNames(JsObject.Keys(OAuthParametersOf(s)))
    ensures forall i :: 0 <= i < |OAuthParametersOf(s).entries| ==>
      ',' !in OAuthParametersOf(s).entries[i].0 && '"' !in OAuthParametersOf(s).entries[i].0
  {
    var es := OAuthParametersOf(s).entries;
    OAuthNamesSnake();
    OAuthKeysAmong(s);
    forall i | 0 <= i < |es|
      ensures '&' !in es[i].0 && '=' !in es[i].0 && ',' !in es[i].0 && '"' !in es[i].0
    {
      var j :| 0 <= j < |OAuthNames| && OAuthNames[j] == es[i].0;
      SnakeNamePlain(es[i].0);
    }
  }

  lemma OrderedFieldsPlain(s: Signer)
    requires PlainNames(JsObject.Keys(s.fields))
    ensures PlainNames(OrderedFields(s))
  {
    var names := OrderedFields(s);
    var q := QueryStringFieldsOf(s);
    OAuthNamesPlain(s);
    JsObject.AssignKeys(OAuthParametersOf(s), s.fields);
    forall i | 0 <= i < |names|
      ensures '&' !in names[i] && '=' !in names[i]
    {
      assert names[i] in multiset(JsObject.Keys(q));
      assert names[i] in JsObject.Keys(q);
    }
  }

  /** The parts of the query string, for plain names, hold no `&`. */
  lemma QueryPartsPlain(d: JsObject.Dict, names: seq<string>)
    requires PlainNames(names)
    ensures forall i :: 0 <= i < |names| ==> '&' !in QueryParts(d, names)[i]
  {
    forall i | 0 <= i < |names|
      ensures '&' !in QueryParts(d, names)[i]
    {
      UriComponent.PercentEncodeProperties(JsObject.Get(d, names[i]).GetOr(""));
    }
  }

  /** With no `&` in a field name, the query string has one `&` fewer than it has
      fields. */
  lemma QueryStringSeparators(s: Signer)
    requires PlainNames(JsObject.Keys(s.fields))
    ensures multiset(QueryString(s))['&'] == |JsObject.Keys(QueryStringFieldsOf(s))| - 1
  {
    var names := OrderedFields(s);
    var parts := QueryParts(QueryStringFieldsOf(s), names);
    OrderedFieldsPlain(s);
    QueryPartsPlain(QueryStringFieldsOf(s), names);
    Text.JoinCount(parts, "&", '&');
    assert multiset("&")['&'] == 1;
    assert |parts| == |names| == |multiset(names)| == |JsObject.Keys(QueryStringFieldsOf(s))|;
    QueryStringFieldsContents(s);
    assert |OAuthParametersOf(s).entries| >= 4;
    assert multiset(Text.Join(parts, "&"))['&'] == |parts| - 1;
  }

  /** One part splits back into the name and the value. */
  lemma QueryPartInjective(d1: JsObject.Dict, k1: string, d2: JsObject.Dict, k2: string)
    requires '=' !in k1 && '=' !in k2
    requires QueryPart(d1, k1) == QueryPart(d2, k2)
    ensures k1 == k2 && JsObject.Get(d1, k1).GetOr("") == JsObject.Get(d2, k2).GetOr("")
  {
    var v1, v2 := JsObject.Get(d1, k1).GetOr(""), JsObject.Get(d2, k2).GetOr("");
    UriComponent.PercentEncodeProperties(v1);
    Text.SplitAtFirst(k1, UriComponent.PercentEncode(v1), k2, UriComponent.PercentEncode(v2), '=');
    UriComponent.PercentEncodeInjective(v1, v2);
  }

  /** Joined query parts with plain names determine the names and their values. */
  lemma QueryPartsDetermine(q1: JsObject.Dict, n1: seq<string>, q2: JsObject.Dict, n2: seq<string>)
    requires PlainNames(n1) && PlainNames(n2) && |n1| == |n2|
    requires Text.Join(QueryParts(q1, n1), "&") == Text.Join(QueryParts(q2, n2), "&")
    ensures n1 == n2
    ensures forall i :: 0 <= i < |n1| ==> JsObject.Get(q1, n1[i]).GetOr("") == JsObject.Get(q2, n2[i]).GetOr("")
  {
    QueryPartsPlain(q1, n1);
    QueryPartsPlain(q2, n2);
    Text.JoinInjective(QueryParts(q1, n1), QueryParts(q2, n2), '&');
    forall i | 0 <= i < |n1|
      ensures n1[i] == n2[i] && JsObject.Get(q1, n1[i]).GetOr("") == JsObject.Get(q2, n2[i]).GetOr("")
    {
      QueryPartInjective(q1, n1[i], q2, n2[i]);
    }
  }

  /** The query string determines the query fields, when no field name holds `&` or
      `=`: two signers with the same query string send the same names with the same
      values. */
  lemma QueryStringDetermines(s1: Signer, s2: Signer)
    requires PlainNames(JsObject.Keys(s1.fields)) && PlainNames(JsObject.Keys(s2.fields))
    requires QueryString(s1) == QueryString(s2)
    ensures OrderedFields(s1) == OrderedFields(s2)
    ensures forall k :: k in JsObject.Keys(QueryStringFieldsOf(s1)) ==>
      JsObject.Get(QueryStringFieldsOf(s1), k) == JsObject.Get(QueryStringFieldsOf(s2), k)
  {
    var q1, q2 := QueryStringFieldsOf(s1), QueryStringFieldsOf(s2);
    var n1, n2 := OrderedFields(s1), OrderedFields(s2);
    var p1, p2 := QueryParts(q1, n1), QueryParts(q2, n2);
    assert |n1| == |multiset(n1)| == |JsObject.Keys(q1)|;
    assert |n2| == |multiset(n2)| == |JsObject.Keys(q2)|;
    QueryStringSeparators(s1);
    QueryStringSeparators(s2);
    OrderedFieldsPlain(s1);
    OrderedFieldsPlain(s2);
    QueryPartsDetermine(q1, n1, q2, n2);
    SameReadings(q1, q2, n1);
  }

  /** Two dictionaries over the same names that read the same text for each name read
      the same. */
  lemma SameReadings(q1: JsObject.Dict, q2: JsObject.Dict, names: seq<string>)
    requires multiset(names) == multiset(JsObject.Keys(q1)) == multiset(JsObject.Keys(q2))
    requires forall i :: 0 <= i < |names| ==> JsObject.Get(q1, names[i]).GetOr("") == JsObject.Get(q2, names[i]).GetOr("")
    ensures forall k :: k in JsObject.Keys(q1) ==> JsObject.Get(q1, k) == JsObject.Get(q2, k)
  {
    forall k | k in JsObject.Keys(q1)
      ensures JsObject.Get(q1, k) == JsObject.Get(q2, k)
    {
      assert k in multiset(names);
      var i :| 0 <= i < |names| && names[i] == k;
      assert k in multiset(JsObject.Keys(q2));
      assert k in JsObject.Keys(q2);
    }
  }

  // ---------------------------------------------------------------------------
  // The legacy base string and HMAC key.

  function PercentEncodeAll(fields: seq<string>): (r: seq<string>)
    ensures |r| == |fields|
    ensures forall i :: 0 <= i < |fields| ==> r[i] == UriComponent.PercentEncode(fields[i])
  {
    seq(|fields|, i requires 0 <= i < |fields| => UriComponent.PercentEncode(fields[i]))
  }

  /** `parameterEncoded`: each field percent-encoded, joined by `&`. */
  function ParameterEncoded(fields: seq<string>): string {
    Text.Join(PercentEncodeAll(fields), "&")
  }

  lemma PercentEncodeAllPlain(fields: seq<string>)
    ensures forall i :: 0 <= i < |fields| ==> '&' !in PercentEncodeAll(fields)[i]
  {
    forall i | 0 <= i < |fields|
      ensures '&' !in PercentEncodeAll(fields)[i]
    {
      UriComponent.PercentEncodeProperties(fields[i]);
    }
  }

  /** `n` fields are joined by `n - 1` separators, whatever they hold. */
  lemma ParameterEncodedSeparators(fields: seq<string>)
    ensures multiset(ParameterEncoded(fields))['&'] == if |fields| == 0 then 0 else |fields| - 1
  {
    PercentEncodeAllPlain(fields);
    Text.JoinSeparatorCount(PercentEncodeAll(fields), '&');
  }

  /** The same number of fields with the same encoding are the same fields. */
  lemma ParameterEncodedInjective(f1: seq<string>, f2: seq<string>)
    requires |f1| == |f2|
    requires ParameterEncoded(f1) == ParameterEncoded(f2)
    ensures f1 == f2
  {
    PercentEncodeAllPlain(f1);
    PercentEncodeAllPlain(f2);
    Text.JoinInjective(PercentEncodeAll(f1), PercentEncodeAll(f2), '&');
    forall i | 0 <= i < |f1|
      ensures f1[i] == f2[i]
    {
      UriComponent.PercentEncodeInjective(f1[i], f2[i]);
    }
  }

  /** `baseString`: the method, the URL and the query string as they are, each
      percent-encoded once. */
  function BaseString(s: Signer): string {
    ParameterEncoded([s.httpMethod, s.url, QueryString(s)])
  }

  /** Exactly two separators, and the three components come back out of it: method
      and URL are taken as given, with no normalisation. */
  lemma BaseStringDetermines(s1: Signer, s2: Signer)
    requires BaseString(s1) == BaseString(s2)
    ensures s1.httpMethod == s2.httpMethod && s1.url == s2.url && QueryString(s1) == QueryString(s2)
  {
    var f1, f2 := [s1.httpMethod, s1.url, QueryString(s1)], [s2.httpMethod, s2.url, QueryString(s2)];
    ParameterEncodedInjective(f1, f2);
    assert f1[0] == f2[0] && f1[1] == f2[1] && f1[2] == f2[2];
  }

  lemma BaseStringSeparators(s: Signer)
    ensures multiset(BaseString(s))['&'] == 2
  {
    ParameterEncodedSeparators([s.httpMethod, s.url, QueryString(s)]);
  }

  /** A method name of letters is copied into the base string in its own case. */
  lemma BaseStringKeepsMethod(s: Signer)
    requires forall i :: 0 <= i < |s.httpMethod| ==> Text.IsAsciiUpper(s.httpMethod[i]) || Text.IsAsciiLower(s.httpMethod[i])
    ensures |s.httpMethod| < |BaseString(s)| && BaseString(s)[..|s.httpMethod| + 1] == s.httpMethod + "&"
  {
    var m := s.httpMethod;
    UriComponent.PercentEncodeIsEncode(m);
    Percent.EncodeLength(UriComponent.IsPercentKept, m);
    var rest := Text.Join(PercentEncodeAll([s.httpMethod, s.url, QueryString(s)])[1..], "&");
    assert BaseString(s) == m + "&" + rest;
  }

  /** `hmacKey`: the percent-encoded consumer secret and token secret joined by `&`. */
  function HmacKey(s: Signer): string {
    ParameterEncoded([s.consumerSecret, s.tokenSecret])
  }

  /** One separator; with the default empty token secret the key ends with it. */
  lemma HmacKeyShape(s: Signer)
    ensures HmacKey(s) == UriComponent.PercentEncode(s.consumerSecret) + "&" + UriComponent.PercentEncode(s.tokenSecret)
    ensures multiset(HmacKey(s))['&'] == 1
    ensures s.tokenSecret == "" ==> HmacKey(s) == UriComponent.PercentEncode(s.consumerSecret) + "&"
  {
    var es := PercentEncodeAll([s.consumerSecret, s.tokenSecret]);
    Text.JoinPair(es[0], es[1], "&");
    assert es == [es[0], es[1]];
    ParameterEncodedSeparators([s.consumerSecret, s.tokenSecret]);
    assert UriComponent.PercentEncode("") == "";
  }

  /** The legacy key is the signing key of RFC 5849 exactly when neither secret holds
      one of `!`, `'`, `(` and `)`, which `percentEncode` leaves alone. */
  lemma HmacKeyVersusSigningKey(s: Signer)
    ensures HmacKey(s) == HmacSha1Signature.SigningKey(Some(s.consumerSecret), Some(s.tokenSecret))
        <==> UriComponent.NoSubDelims(s.consumerSecret) && UriComponent.NoSubDelims(s.tokenSecret)
  {
    HmacKeyShape(s);
    UriComponent.PercentEncodeVersusRfc3986(s.consumerSecret);
    UriComponent.PercentEncodeVersusRfc3986(s.tokenSecret);
    if HmacKey(s) == HmacSha1Signature.SigningKey(Some(s.consumerSecret), Some(s.tokenSecret)) {
      SameKeySameEncodings(s.consumerSecret, s.tokenSecret);
    }
  }

  lemma SameKeySameEncodings(cs: string, ts: string)
    requires UriComponent.PercentEncode(cs) + "&" + UriComponent.PercentEncode(ts)
          == Rfc3986.Encode(cs) + "&" + Rfc3986.Encode(ts)
    ensures UriComponent.PercentEncode(cs) == Rfc3986.Encode(cs)
    ensures UriComponent.PercentEncode(ts) == Rfc3986.Encode(ts)
  {
    var a1, b1 := UriComponent.PercentEncode(cs), UriComponent.PercentEncode(ts);
    var a2, b2 := Rfc3986.Encode(cs), Rfc3986.Encode(ts);
    UriComponent.PercentEncodeProperties(cs);
    Rfc3986.EncodeHasNoDelimiters(cs);
    Text.SplitAtFirst(a1, b1, a2, b2, '&');
  }

  /** `base64Signature`: the digest of the legacy base string under the legacy key. */
  function Base64Signature(s: Signer, hmac: HmacSha1.Hmac): string {
    hmac(BaseString(s), HmacKey(s))
  }

  // ---------------------------------------------------------------------------
  // The `encodeURIComponent` renderings.

  function UrlEncodedParts(d: JsObject.Dict): (r: seq<string>)
    ensures |r| == |d.entries|
    ensures forall i :: 0 <= i < |r| ==> r[i] == d.entries[i].0 + "=" + UriComponent.EncodeUriComponent(d.entries[i].1)
  {
    seq(|d.entries|, i requires 0 <= i < |d.entries| =>
      d.entries[i].0 + "=" + UriComponent.EncodeUriComponent(d.entries[i].1))
  }

  /** `urlEncoded`: `name=value` per field in the fields' own order, the value passed
      through `encodeURIComponent`, joined by `&`. */
  function UrlEncoded(d: JsObject.Object): string {
    Text.Join(UrlEncodedParts(d), "&")
  }

  /** Empty exactly when there are no fields; otherwise one `&` between neighbours
      when no name holds `&`. */
  lemma UrlEncodedShape(d: JsObject.Object)
    ensures UrlEncoded(d) == "" <==> |d.entries| == 0
    ensures PlainNames(JsObject.Keys(d)) ==>
      multiset(UrlEncoded(d))['&'] == if |d.entries| == 0 then 0 else |d.entries| - 1
  {
    var ps := UrlEncodedParts(d);
    if |ps| > 0 {
      Text.JoinFirst(ps, "&");
      assert |ps[0]| > 0;
    }
    if PlainNames(JsObject.Keys(d)) {
      forall i | 0 <= i < |ps|
        ensures '&' !in ps[i]
      {
        UriComponent.EncodeUriComponentDelimiters(d.entries[i].1);
      }
      Text.JoinSeparatorCount(ps, '&');
    }
  }

  function HeaderParts(d: JsObject.Dict): (r: seq<string>)
    ensures |r| == |d.entries|
    ensures forall i :: 0 <= i < |r| ==>
      r[i] == d.entries[i].0 + "=\"" + UriComponent.EncodeUriComponent(d.entries[i].1) + "\""
  {
    seq(|d.entries|, i requires 0 <= i < |d.entries| =>
      d.entries[i].0 + "=\"" + UriComponent.EncodeUriComponent(d.entries[i].1) + "\"")
  }

  lemma HeaderPartsNoComma(d: JsObject.Dict)
    requires forall i :: 0 <= i < |d.entries| ==> ',' !in d.entries[i].0
    ensures forall i :: 0 <= i < |d.entries| ==> ',' !in HeaderParts(d)[i]
  {
    forall i | 0 <= i < |d.entries|
      ensures ',' !in HeaderParts(d)[i]
    {
      UriComponent.EncodeUriComponentDelimiters(d.entries[i].1);
      NoCommaIn(d.entries[i].0, UriComponent.EncodeUriComponent(d.entries[i].1));
    }
  }

  lemma CommaOnce()
    ensures multiset(", ")[','] == 1
  {
  }

  lemma NoCommaIn(k: string, v: string)
    requires ',' !in k && ',' !in v
    ensures ',' !in k + "=\"" + v + "\""
  {
  }

  /** `headerEncoded`: `name="value"` per field, the value passed through
      `encodeURIComponent`, joined by `, `. */
  function HeaderEncoded(d: JsObject.Object): string {
    Text.Join(HeaderParts(d), ", ")
  }

  /** With no `,` in a name there is one `,` between neighbouring fields. */
  lemma HeaderEncodedSeparators(d: JsObject.Object)
    requires forall i :: 0 <= i < |d.entries| ==> ',' !in d.entries[i].0
    ensures multiset(HeaderEncoded(d))[','] == if |d.entries| == 0 then 0 else |d.entries| - 1
  {
    var ps := HeaderParts(d);
    HeaderPartsNoComma(d);
    CommaOnce();
    Text.JoinCountOnce(ps, ", ", ',');
  }

  /** `urlEncodedFields`. */
  function UrlEncodedFields(s: Signer): string {
    UrlEncoded(s.fields)
  }

  /** `urlAndFields`: the URL, followed by `?` and the encoded fields when there are
      any. */
  function UrlAndFields(s: Signer): string {
    var encoded := UrlEncodedFields(s);
    if encoded != "" then s.url + "?" + encoded else s.url
  }

  /** The URL alone exactly when there are no fields. */
  lemma UrlAndFieldsShape(s: Signer)
    ensures UrlAndFields(s) == s.url <==> |s.fields.entries| == 0
    ensures |s.fields.entries| > 0 ==> UrlAndFields(s) == s.url + "?" + UrlEncoded(s.fields)
  {
    UrlEncodedShape(s.fields);
    if |s.fields.entries| > 0 {
      assert |UrlAndFields(s)| > |s.url|;
    }
  }

  // ---------------------------------------------------------------------------
  // The Authorization header.

  /** The fields of `authorizationHeader`: the oauth parameters with `oauth_signature`
      assigned. */
  function AuthorizationFields(s: Signer, signature: string): JsObject.Object {
    JsObject.Put(OAuthParametersOf(s), "oauth_signature", signature)
  }

  /** `oauth_signature` is not among the names `oauthParameters` assigns, and holds no
      `,`. */
  lemma SignatureNameNew()
    ensures "oauth_signature" !in OAuthNames
    ensures ',' !in "oauth_signature"
  {
  }

  /** The oauth parameters in their order, then `oauth_signature`; it reads the
      signature and every other name reads as in the oauth parameters. */
  lemma AuthorizationFieldsContents(s: Signer, signature: string)
    ensures JsObject.Keys(AuthorizationFields(s, signature)) == JsObject.Keys(OAuthParametersOf(s)) + ["oauth_signature"]
    ensures forall k :: JsObject.Get(AuthorizationFields(s, signature), k)
                     == (if k == "oauth_signature" then Some(signature) else JsObject.Get(OAuthParametersOf(s), k))
  {
    var d := OAuthParametersOf(s);
    OAuthKeysAmong(s);
    SignatureNameNew();
    assert "oauth_signature" !in JsObject.Keys(d);
    JsObject.PutNew(d, "oauth_signature", signature);
  }

  /** `authorizationHeader`. */
  function AuthorizationHeader(s: Signer, hmac: HmacSha1.Hmac): string {
    HeaderEncoded(AuthorizationFields(s, Base64Signature(s, hmac)))
  }

  /** The header carries one field per oauth parameter plus the signature, separated
      by `, `. */
  lemma AuthorizationHeaderSeparators(s: Signer, hmac: HmacSha1.Hmac)
    ensures multiset(AuthorizationHeader(s, hmac))[','] == |JsObject.Keys(OAuthParametersOf(s))|
  {
    var d := AuthorizationFields(s, Base64Signature(s, hmac));
    AuthorizationFieldsContents(s, Base64Signature(s, hmac));
    OAuthNamesPlain(s);
    SignatureNameNew();
    assert d.entries == OAuthParametersOf(s).entries + [("oauth_signature", Base64Signature(s, hmac))] by {
      NewKey(OAuthParametersOf(s), "oauth_signature", Base64Signature(s, hmac));
    }
    HeaderEncodedSeparators(d);
  }

  // ---------------------------------------------------------------------------
  // The signature, the signed URL and the curl command.

  /** The fields as `oauthSignature.generate` receives them: an object with one text
      value per name. */
  function AsInput(d: JsObject.Dict): ParametersLoader.Input {
    ParametersLoader.Object(map k | k in JsObject.Keys(d) :: ParametersLoader.Text(JsObject.Get(d, k).GetOr("")))
  }

  /** The loader reads exactly the names of the fields. */
  lemma AsInputNames(d: JsObject.Object)
    ensures ParametersLoader.Get(AsInput(d)).Keys == set i | 0 <= i < |d.entries| :: d.entries[i].0
  {
    var o := AsInput(d).fields;
    assert ParametersLoader.Get(AsInput(d)).Keys == o.Keys;
    forall k | k in o.Keys ensures exists i :: 0 <= i < |d.entries| && d.entries[i].0 == k {
      assert k in JsObject.Keys(d);
    }
  }

  /** The loader reads each name of the fields with its one value. */
  lemma AsInputValues(d: JsObject.Object, i: nat)
    requires i < |d.entries|
    ensures d.entries[i].0 in ParametersLoader.Get(AsInput(d))
    ensures ParametersLoader.Get(AsInput(d))[d.entries[i].0] == [d.entries[i].1]
  {
    var o := AsInput(d).fields;
    JsObject.GetAt(d, i);
    assert d.entries[i].0 in JsObject.Keys(d);
    assert o[d.entries[i].0] == ParametersLoader.Text(d.entries[i].1);
  }


  /** `signature`: `oauthSignature.generate` over the method, the URL, the query
      fields and both secrets, RFC 3986 encoded as by default. */
  function Signature(s: Signer, parse: UrlElement.UrlParser, hmac: HmacSha1.Hmac): string {
    OAuthSignature.Generate(Some(s.httpMethod), Some(s.url), AsInput(QueryStringFieldsOf(s)),
                            Some(s.consumerSecret), Some(s.tokenSecret), None, parse, hmac)
  }

  /** The encoded signature holds neither `&`, `=` nor `'`, so it closes a query
      string and a quoted shell word. */
  lemma SignatureDelimiters(s: Signer, parse: UrlElement.UrlParser, hmac: HmacSha1.Hmac)
    ensures '&' !in Signature(s, parse, hmac) && '=' !in Signature(s, parse, hmac)
    ensures '\'' !in Signature(s, parse, hmac)
  {
    var raw := OAuthSignature.Generate(Some(s.httpMethod), Some(s.url), AsInput(QueryStringFieldsOf(s)),
                                       Some(s.consumerSecret), Some(s.tokenSecret), Some(false), parse, hmac);
    Rfc3986.EncodeHasNoDelimiters(raw);
    Rfc3986.EncodeAlphabet(raw);
  }

  /** `signedUrl`: the URL, `?`, the query string, and the signature as the last
      parameter. */
  function SignedUrl(s: Signer, parse: UrlElement.UrlParser, hmac: HmacSha1.Hmac): string {
    s.url + "?" + QueryString(s) + "&oauth_signature=" + Signature(s, parse, hmac)
  }

  /** `url?query&oauth_signature=sig` adds one `&` to those of the query when neither
      the URL nor the signature holds one. */
  lemma SignedUrlCount(url: string, query: string, signature: string)
    requires '&' !in url && '&' !in signature
    ensures multiset(url + "?" + query + "&oauth_signature=" + signature)['&'] == multiset(query)['&'] + 1
  {
    SignatureMarker(url, query, signature);
    var head, tail := url + "?", "oauth_signature=" + signature;
    NoAmpersandCount(head);
    NoAmpersandCount(tail);
    Text.CountAppend(head, query, '&');
    Text.CountAppend("&", tail, '&');
    Text.CountAppend(head + query, "&" + tail, '&');
    assert multiset("&")['&'] == 1;
  }

  lemma SignatureMarker(url: string, query: string, signature: string)
    requires '&' !in url && '&' !in signature
    ensures url + "?" + query + "&oauth_signature=" + signature
         == (url + "?") + query + ("&" + ("oauth_signature=" + signature))
    ensures '&' !in url + "?" && '&' !in "oauth_signature=" + signature
  {
  }

  lemma NoAmpersandCount(x: string)
    requires '&' !in x
    ensures multiset(x)['&'] == 0
  {
  }

  /** With no `&` in the URL or a field name, the signed URL has one `&` per query
      field: a separator before each field but the first, and one before the
      signature. */
  lemma SignedUrlSeparators(s: Signer, parse: UrlElement.UrlParser, hmac: HmacSha1.Hmac)
    requires '&' !in s.url && PlainNames(JsObject.Keys(s.fields))
    ensures multiset(SignedUrl(s, parse, hmac))['&'] == |JsObject.Keys(QueryStringFieldsOf(s))|
  {
    QueryStringSeparators(s);
    SignatureDelimiters(s, parse, hmac);
    SignedUrlCount(s.url, QueryString(s), Signature(s, parse, hmac));
  }

  /** The texts a curl command is assembled from, each computed by its own accessor. */
  datatype CurlPieces = CurlPieces(httpMethod: string, url: string, body: string, bodyEncoding: string,
                                   signedUrl: string, urlAndFields: string, authorizationHeader: string,
                                   queryString: string, signature: string)

  function Pieces(s: Signer, parse: UrlElement.UrlParser, hmac: HmacSha1.Hmac): CurlPieces {
    CurlPieces(s.httpMethod, s.url, s.body, s.bodyEncoding, SignedUrl(s, parse, hmac), UrlAndFields(s),
               AuthorizationHeader(s, hmac), QueryString(s), Signature(s, parse, hmac))
  }

  /** `curl` of the legacy signer, over its pieces: GET puts the signed query in the
      URL, POST and PUT send the body with the Authorization header or else the signed
      query as data, and every other method is sent as DELETE. */
  function CurlCommand(p: CurlPieces): string {
    if p.httpMethod == "GET" then
      "curl '" + p.signedUrl + "'"
    else if p.httpMethod == "POST" || p.httpMethod == "PUT" then
      if p.body != "" then
        "curl -X " + p.httpMethod + " '" + p.urlAndFields + "' -d '" + p.body
        + "' -H 'Authorization: " + p.authorizationHeader + "' -H 'Content-Type: " + p.bodyEncoding + "'"
      else
        "curl -X " + p.httpMethod + " '" + p.url + "' -d '" + p.queryString + "&oauth_signature=" + p.signature + "'"
    else
      "curl -X DELETE '" + p.signedUrl + "'"
  }

  function Curl(s: Signer, parse: UrlElement.UrlParser, hmac: HmacSha1.Hmac): string {
    CurlCommand(Pieces(s, parse, hmac))
  }
}
