/** The replacement signer of the reference page. It keeps the defaults and the oauth
    parameters of the legacy signer, builds its base string with the signature base
    string of RFC 5849 and signs with `oauthSignature.generate`; the query string, the
    HMAC key, the Authorization header and the form fields still come from the legacy
    signer built from the same parameters. Its curl command names the request's own
    method and appends the output, verbose and header options. */
module OAuthSigner {
  import opened Wrappers
  import Text
  import Rfc3986
  import JsObject
  import HttpMethodElement
  import UrlElement
  import HmacSha1
  import HmacSha1Signature
  import OAuthSignature
  import SignatureBaseString
  import Old = OAuthSignerOld

  /** `parameters`: the oauth parameters, then `parameters[field] = fields[field]` for
      each name of the fields in turn. */
  method Parameters(s: Old.Signer) returns (d: JsObject.Object)
    ensures d == Old.QueryStringFieldsOf(s)
  {
    d := Old.OAuthParameters(s);
    var fields := s.fields;
    var names := JsObject.Keys(fields);
    for i := 0 to |names|
      invariant d == JsObject.Assign(Old.OAuthParametersOf(s), JsObject.Dict(fields.entries[..i]))
    {
      JsObject.GetAt(fields, i);
      assert fields.entries[..i + 1][..i] == fields.entries[..i];
      d := JsObject.Put(d, names[i], JsObject.Get(fields, names[i]).GetOr(""));
    }
    assert fields.entries[..|fields.entries|] == fields.entries;
  }

  /** `baseString`: the signature base string of the method, the URL and the merged
      parameters. */
  function BaseString(s: Old.Signer, parse: UrlElement.UrlParser): string {
    SignatureBaseString.Generate(Some(s.httpMethod), Some(s.url), Old.AsInput(Old.QueryStringFieldsOf(s)), parse)
  }

  /** Two separators besides any `&` in the method name. */
  lemma BaseStringSeparators(s: Old.Signer, parse: UrlElement.UrlParser)
    ensures multiset(BaseString(s, parse))['&'] == multiset(HttpMethodElement.Get(Some(s.httpMethod)))['&'] + 2
  {
    SignatureBaseString.SeparatorCount(Some(s.httpMethod), Some(s.url), Old.AsInput(Old.QueryStringFieldsOf(s)), parse);
  }

  /** The signature `signature` computes and evidently means to return
      (`SignatureAsWritten` below throws first): `oauthSignature.generate` over the
      merged parameters, which is the legacy signer's `signature`. It decodes to the
      digest of this signer's base string under the RFC 5849 signing key, not under the
      legacy `hmacKey`. */
  lemma SignatureSignsBaseString(s: Old.Signer, parse: UrlElement.UrlParser, hmac: HmacSha1.Hmac)
    ensures Rfc3986.Decode(Old.Signature(s, parse, hmac))
         == Ok(hmac(BaseString(s, parse), HmacSha1Signature.SigningKey(Some(s.consumerSecret), Some(s.tokenSecret))))
  {
    OAuthSignature.Composition(Some(s.httpMethod), Some(s.url), Old.AsInput(Old.QueryStringFieldsOf(s)),
                               Some(s.consumerSecret), Some(s.tokenSecret), None, parse, hmac);
  }

  // ---------------------------------------------------------------------------
  // `signature` as written: the comparison with the legacy signer.

  /** What a call on the page throws: the TypeError "<receiver>.<member> is not a
      function". */
  datatype JsError = NotAFunction(receiver: string, member: string)

  /** The names the legacy signer object answers to: its own members
      (oauth-signer-old.js:4-135) and the page's parameters that `_.extend` copies
      over them (ui.js:10-47). */
  const OldSignerMembers: set<string> := {
    "token", "tokenSecret", "version", "signatureMethod", "method", "timestamp", "fields",
    "oauthParameters", "queryStringFields", "queryString", "urlEncoded", "headerEncoded",
    "urlEncodedFields", "authorizationHeader", "urlAndFields", "parameterEncoded",
    "baseString", "hmacKey", "hmac", "base64Signature", "signature", "signedUrl", "curl",
    "percentEncode", "url", "consumerKey", "consumerSecret", "nonce", "body",
    "bodyEncoding", "curlParameters", "addField", "fieldsArray", "removeField"}

  /** `oauthSignerOld.name()`: a TypeError when the object has no member of that
      name. */
  function CallOld(name: string): (r: Result<(), JsError>)
    ensures r.Ok? <==> name in OldSignerMembers
  {
    if name in OldSignerMembers then Ok(())
    else Err(NotAFunction("oauthSignerOld", name))
  }

  /** The names the page's `parameters` object answers to (ui.js:10-47); the
      replacement signer reads `curlParameters` and `headersArray` on it
      (oauth.js:126-134). */
  const PageParameterMembers: set<string> := {
    "method", "url", "consumerKey", "consumerSecret", "token", "tokenSecret", "nonce",
    "timestamp", "version", "body", "bodyEncoding", "curlParameters", "fields",
    "addField", "fieldsArray", "removeField"}

  /** `parameters.headersArray()` on a parameters object with the given members: the
      headers when it has that member, nothing (a TypeError) when it does not. */
  function HeadersArray(members: set<string>, headers: seq<Header>): (r: Option<seq<Header>>)
    ensures r.Some? <==> "headersArray" in members
    ensures r.Some? ==> r.value == headers
  {
    if "headersArray" in members then Some(headers) else None
  }

  /** The page's parameters have no `headersArray`. */
  lemma PageHasNoHeadersArray(headers: seq<Header>)
    ensures HeadersArray(PageParameterMembers, headers) == None
    ensures "curlParameters" in PageParameterMembers
  {
  }

  /** The other members the replacement signer calls on the legacy one
      (oauth.js:54-94, 119). */
  const OldMembersCalled: set<string> := {
    "queryStringFields", "percentEncode", "oauthParameters", "headerEncoded",
    "parameterEncoded", "hmac", "baseString", "urlAndFields"}

  /** Those calls resolve; `encodedBase64Signature` does not. */
  lemma OldCallsResolve()
    ensures forall name :: name in OldMembersCalled ==> CallOld(name).Ok?
    ensures CallOld("encodedBase64Signature").Err?
  {
  }

  /** `signature` as the source has it: `signatureNew` is computed, then the call of
      `oauthSignerOld.encodedBase64Signature()` throws before `signatureNew` is
      returned. */
  function SignatureAsWritten(s: Old.Signer, parse: UrlElement.UrlParser, hmac: HmacSha1.Hmac): Result<string, JsError> {
    var signatureNew := Old.Signature(s, parse, hmac);
    match CallOld("encodedBase64Signature")
    case Err(e) => Err(e)
    case Ok(_) => Ok(signatureNew)
  }

  /** `signedUrl` as the source has it: it calls `signature`. */
  function SignedUrlAsWritten(s: Old.Signer, parse: UrlElement.UrlParser, hmac: HmacSha1.Hmac): Result<string, JsError> {
    match SignatureAsWritten(s, parse, hmac)
    case Err(e) => Err(e)
    case Ok(signature) => Ok(s.url + "?" + Old.QueryString(s) + "&oauth_signature=" + signature)
  }

  /** The request part of `curl` as the source has it: only a POST or PUT with a body
      is built without `signature`; every other branch calls it. */
  function RequestAsWritten(s: Old.Signer, parse: UrlElement.UrlParser, hmac: HmacSha1.Hmac): Result<string, JsError> {
    if (s.httpMethod == "POST" || s.httpMethod == "PUT") && s.body != "" then Ok(CurlRequest(s, parse, hmac))
    else
      match SignatureAsWritten(s, parse, hmac)
      case Err(e) => Err(e)
      case Ok(_) => Ok(CurlRequest(s, parse, hmac))
  }

  /** `curl` as the source has it: the options follow a request that did not throw,
      then `parameters.headersArray()` is called, which throws when the parameters
      have no such member (`headersArray` is None). */
  function CurlAsWritten(s: Old.Signer, options: CurlParameters, headersArray: Option<seq<Header>>,
                         parse: UrlElement.UrlParser, hmac: HmacSha1.Hmac): Result<string, JsError>
  {
    match RequestAsWritten(s, parse, hmac)
    case Err(e) => Err(e)
    case Ok(request) =>
      match headersArray
      case None => Err(NotAFunction("parameters", "headersArray"))
      case Some(headers) => Ok(request + OutputFlag(options) + VerboseFlag(options) + HeaderFlags(headers))
  }

  /** As written, `signature` and `signedUrl` throw a TypeError for every signer, where
      the evident intent is to return the new signature and the URL signed with it. */
  lemma SignatureAsWrittenThrows(s: Old.Signer, parse: UrlElement.UrlParser, hmac: HmacSha1.Hmac)
    ensures SignatureAsWritten(s, parse, hmac) == Err(NotAFunction("oauthSignerOld", "encodedBase64Signature"))
    ensures SignatureAsWritten(s, parse, hmac) != Ok(Old.Signature(s, parse, hmac))
    ensures SignedUrlAsWritten(s, parse, hmac).Err? && SignedUrlAsWritten(s, parse, hmac) != Ok(Old.SignedUrl(s, parse, hmac))
  {
    OldCallsResolve();
  }

  /** As written, `curl` returns a command only for a POST or PUT with a body on
      parameters that have `headersArray`, and that command is the intended one; every
      other request throws. */
  lemma CurlAsWrittenOnlyWithBody(s: Old.Signer, options: CurlParameters, headersArray: Option<seq<Header>>,
                                  parse: UrlElement.UrlParser, hmac: HmacSha1.Hmac)
    ensures CurlAsWritten(s, options, headersArray, parse, hmac).Ok?
        <==> (s.httpMethod == "POST" || s.httpMethod == "PUT") && s.body != "" && headersArray.Some?
    ensures CurlAsWritten(s, options, headersArray, parse, hmac).Ok?
        ==> CurlAsWritten(s, options, headersArray, parse, hmac).value
            == CurlOf(s, options, headersArray.value, parse, hmac)
  {
    SignatureAsWrittenThrows(s, parse, hmac);
  }

  /** On the page itself `curl` always throws: a request that needs `signature` throws
      at `encodedBase64Signature`, and a POST or PUT with a body then throws at
      `headersArray`. */
  lemma PageCurlThrows(s: Old.Signer, options: CurlParameters, headers: seq<Header>,
                       parse: UrlElement.UrlParser, hmac: HmacSha1.Hmac)
    ensures CurlAsWritten(s, options, HeadersArray(PageParameterMembers, headers), parse, hmac)
         == if (s.httpMethod == "POST" || s.httpMethod == "PUT") && s.body != ""
            then Err(NotAFunction("parameters", "headersArray"))
            else Err(NotAFunction("oauthSignerOld", "encodedBase64Signature"))
  {
    PageHasNoHeadersArray(headers);
    SignatureAsWrittenThrows(s, parse, hmac);
  }

  // ---------------------------------------------------------------------------
  // The curl command.

  /** One entry of `headersArray`. */
  datatype Header = Header(name: string, value: string)

  /** `curlParameters`: the output file and the verbose switch. */
  datatype CurlParameters = CurlParameters(output: string, verbose: bool)

  /** The request part of `curl`, branch by branch, over the pieces the legacy signer
      computes: as the legacy command, except that a method other than GET, POST and
      PUT is sent as itself. */
  function CurlCommand(p: Old.CurlPieces): string {
    if p.httpMethod == "GET" then
      "curl '" + p.signedUrl + "'"
    else if p.httpMethod == "POST" || p.httpMethod == "PUT" then
      if p.body != "" then
        "curl -X " + p.httpMethod + " '" + p.urlAndFields + "' -d '" + p.body
        + "' -H 'Authorization: " + p.authorizationHeader + "' -H 'Content-Type: " + p.bodyEncoding + "'"
      else
        "curl -X " + p.httpMethod + " '" + p.url + "' -d '" + p.queryString + "&oauth_signature=" + p.signature + "'"
    else
      "curl -X " + p.httpMethod + " '" + p.signedUrl + "'"
  }

  function CurlRequest(s: Old.Signer, parse: UrlElement.UrlParser, hmac: HmacSha1.Hmac): string {
    CurlCommand(Old.Pieces(s, parse, hmac))
  }

  /** ` -H "name"`, or ` -H "name:value"` with a value; nothing for a header without a
      name. */
  function HeaderFlag(h: Header): string {
    if h.name == "" then ""
    else " -H \"" + h.name + (if h.value != "" then ":" + h.value else "") + "\""
  }

  /** The flags of the headers, in array order. */
  function HeaderFlags(headers: seq<Header>): string
    decreases |headers|
  {
    if |headers| == 0 then ""
    else HeaderFlags(headers[..|headers| - 1]) + HeaderFlag(headers[|headers| - 1])
  }

  /** ` -o output` when there is an output file. */
  function OutputFlag(options: CurlParameters): string {
    if options.output != "" then " -o " + options.output else ""
  }

  /** ` -v` when verbose. */
  function VerboseFlag(options: CurlParameters): string {
    if options.verbose then " -v" else ""
  }

  /** The whole command: the request, the output and verbose options, then the header
      flags. */
  function CurlOf(s: Old.Signer, options: CurlParameters, headers: seq<Header>,
                  parse: UrlElement.UrlParser, hmac: HmacSha1.Hmac): string
  {
    CurlRequest(s, parse, hmac) + OutputFlag(options) + VerboseFlag(options) + HeaderFlags(headers)
  }

  /** `curl`, accumulating the command with `+=`: the request for the method, then
      the options, then the headers; the command it builds when `signature` returns
      (`CurlAsWritten` below is the source as it stands). */
  method Curl(s: Old.Signer, options: CurlParameters, headers: seq<Header>,
              parse: UrlElement.UrlParser, hmac: HmacSha1.Hmac) returns (command: string)
    ensures command == CurlOf(s, options, headers, parse, hmac)
  {
    command := Request(s, parse, hmac);
    command := AppendOptions(command, options);
    if |headers| > 0 {
      command := AppendHeaders(command, headers);
    } else {
      assert command == command + HeaderFlags(headers);
    }
  }

  /** The `if` over the method that starts the command. */
  method Request(s: Old.Signer, parse: UrlElement.UrlParser, hmac: HmacSha1.Hmac) returns (command: string)
    ensures command == CurlRequest(s, parse, hmac)
  {
    var p := Old.Pieces(s, parse, hmac);
    command := "";
    if p.httpMethod == "GET" {
      command := "curl '" + p.signedUrl + "'";
    } else if p.httpMethod == "POST" || p.httpMethod == "PUT" {
      if p.body != "" {
        command := "curl -X " + p.httpMethod + " '" + p.urlAndFields + "' -d '" + p.body
          + "' -H 'Authorization: " + p.authorizationHeader + "' -H 'Content-Type: " + p.bodyEncoding + "'";
      } else {
        command := "curl -X " + p.httpMethod + " '" + p.url + "' -d '" + p.queryString
          + "&oauth_signature=" + p.signature + "'";
      }
    } else {
      command := "curl -X " + p.httpMethod + " '" + p.signedUrl + "'";
    }
  }

  /** ` -o output` when there is an output file, then ` -v` when verbose. */
  method AppendOptions(prefix: string, options: CurlParameters) returns (command: string)
    ensures command == prefix + OutputFlag(options) + VerboseFlag(options)
  {
    command := prefix;
    if options.output != "" {
      Text.AppendAssoc(command, " -o ", options.output);
      command := command + " -o " + options.output;
    } else {
      assert command == command + "";
    }
    if options.verbose {
      command := command + " -v";
    } else {
      assert command == command + "";
    }
  }

  /** The `forEach` over the headers: each named header appended to the command. */
  method AppendHeaders(prefix: string, headers: seq<Header>) returns (command: string)
    ensures command == prefix + HeaderFlags(headers)
  {
    command := prefix;
    for i := 0 to |headers|
      invariant command == prefix + HeaderFlags(headers[..i])
    {
      HeaderFlagsPrefix(headers, i);
      Text.AppendAssoc(prefix, HeaderFlags(headers[..i]), HeaderFlag(headers[i]));
      command := AppendHeader(command, headers[i]);
    }
    assert headers[..|headers|] == headers;
  }

  lemma HeaderFlagsPrefix(headers: seq<Header>, i: nat)
    requires i < |headers|
    ensures HeaderFlags(headers[..i + 1]) == HeaderFlags(headers[..i]) + HeaderFlag(headers[i])
  {
    assert headers[..i + 1][..i] == headers[..i];
  }

  /** One header: ` -H "name`, then `:value` when there is a value, then the closing
      quote; nothing when the header has no name. */
  method AppendHeader(prefix: string, h: Header) returns (command: string)
    ensures command == prefix + HeaderFlag(h)
  {
    command := prefix;
    if h.name != "" {
      command := command + " -H \"" + h.name;
      if h.value != "" {
        command := command + ":" + h.value;
        assert command == prefix + (" -H \"" + h.name + (":" + h.value));
      } else {
        assert command == prefix + (" -H \"" + h.name + "");
      }
      command := command + "\"";
    }
  }

  // ---------------------------------------------------------------------------
  // What the command holds.

  /** The headers that have a name, in array order. */
  function Named(headers: seq<Header>): (r: seq<Header>)
    ensures |r| <= |headers|
    ensures forall i :: 0 <= i < |r| ==> r[i].name != "" && r[i] in headers
    decreases |headers|
  {
    if |headers| == 0 then []
    else
      var init, last := headers[..|headers| - 1], headers[|headers| - 1];
      if last.name != "" then Named(init) + [last] else Named(init)
  }

  /** The flags of two runs of headers, one after the other. */
  lemma {:induction false} HeaderFlagsAppend(a: seq<Header>, b: seq<Header>)
    ensures HeaderFlags(a + b) == HeaderFlags(a) + HeaderFlags(b)
    decreases |b|
  {
    if |b| == 0 {
      assert a + b == a;
    } else {
      var init := b[..|b| - 1];
      assert (a + b)[..|a + b| - 1] == a + init;
      HeaderFlagsAppend(a, init);
      Text.AppendAssoc(HeaderFlags(a), HeaderFlags(init), HeaderFlag(b[|b| - 1]));
    }
  }

  /** A header without a name adds nothing: the flags are those of the named
      headers. */
  lemma {:induction false} HeaderFlagsNamed(headers: seq<Header>)
    ensures HeaderFlags(headers) == HeaderFlags(Named(headers))
    decreases |headers|
  {
    if |headers| > 0 {
      var init, last := headers[..|headers| - 1], headers[|headers| - 1];
      HeaderFlagsNamed(init);
      if last.name != "" {
        HeaderFlagsAppend(Named(init), [last]);
        assert [last][..0] == [];
      }
    }
  }

  /** Each named header adds exactly one quoted flag, when no name or value holds a
      quote. */
  lemma {:induction false} HeaderFlagsQuotes(headers: seq<Header>)
    requires forall i :: 0 <= i < |headers| ==> '"' !in headers[i].name && '"' !in headers[i].value
    ensures multiset(HeaderFlags(headers))['"'] == 2 * |Named(headers)|
    decreases |headers|
  {
    if |headers| > 0 {
      var init, last := headers[..|headers| - 1], headers[|headers| - 1];
      HeaderFlagsQuotes(init);
      HeaderFlagQuotes(last);
      Text.CountAppend(HeaderFlags(init), HeaderFlag(last), '"');
    }
  }

  lemma HeaderFlagQuotes(h: Header)
    requires '"' !in h.name && '"' !in h.value
    ensures multiset(HeaderFlag(h))['"'] == if h.name != "" then 2 else 0
  {
    if h.name != "" {
      var v := if h.value != "" then ":" + h.value else "";
      assert '"' !in v;
      Text.CountAppend(" -H \"", h.name, '"');
      Text.CountAppend(" -H \"" + h.name, v, '"');
      Text.CountAppend(" -H \"" + h.name + v, "\"", '"');
      QuoteCounts();
    }
  }

  lemma QuoteCounts()
    ensures multiset(" -H \"")['"'] == 1 && multiset("\"")['"'] == 1
  {
  }

  /** The command is the request followed by options: nothing is added exactly when
      there is no output file, no verbose switch and no named header. */
  lemma CurlOfExtendsRequest(s: Old.Signer, options: CurlParameters, headers: seq<Header>,
                             parse: UrlElement.UrlParser, hmac: HmacSha1.Hmac)
    ensures CurlRequest(s, parse, hmac) <= CurlOf(s, options, headers, parse, hmac)
    ensures CurlOf(s, options, headers, parse, hmac) == CurlRequest(s, parse, hmac)
        <==> options.output == "" && !options.verbose && Named(headers) == []
  {
    HeaderFlagsNamed(headers);
    NamedFlagsEmpty(Named(headers));
    Extends(CurlRequest(s, parse, hmac), OutputFlag(options), VerboseFlag(options), HeaderFlags(headers));
  }

  lemma Extends(r: string, o: string, v: string, h: string)
    ensures r <= r + o + v + h
    ensures r + o + v + h == r <==> o == "" && v == "" && h == ""
  {
    assert |r + o + v + h| == |r| + |o| + |v| + |h|;
    assert (r + o + v + h)[..|r|] == r;
  }

  /** Named headers give no flags only when there are none. */
  lemma NamedFlagsEmpty(named: seq<Header>)
    requires forall i :: 0 <= i < |named| ==> named[i].name != ""
    ensures HeaderFlags(named) == "" <==> named == []
  {
    if |named| > 0 {
      var init, last := named[..|named| - 1], named[|named| - 1];
      assert |HeaderFlag(last)| > 0;
    }
  }

  // ---------------------------------------------------------------------------
  // The method the command sends, and the legacy command.

  /** `curl` sends GET by default; for any other method the command names the
      signer's own method with `-X`. */
  lemma CurlCommandNamesMethod(p: Old.CurlPieces)
    ensures "curl -X " + p.httpMethod + " '" <= CurlCommand(p) <==> p.httpMethod != "GET"
    ensures p.httpMethod == "GET" ==> "curl '" <= CurlCommand(p)
  {
    var r := CurlCommand(p);
    var w := "curl -X " + p.httpMethod + " '";
    if p.httpMethod == "GET" {
      Text.AppendAssoc("curl '", p.signedUrl, "'");
      PrefixOf("curl '", p.signedUrl + "'");
      GetIsNotNamed(w, r, p.signedUrl + "'");
    } else {
      PrefixOf(w, r[|w|..]);
    }
  }

  lemma PrefixOf(p: string, rest: string)
    ensures p <= p + rest
  {
    assert (p + rest)[..|p|] == p;
  }

  /** `curl '` and `curl -X` part at the sixth character. */
  lemma GetIsNotNamed(p: string, r: string, tail: string)
    requires p == "curl -X " + "GET" + " '" && r == "curl '" + tail
    ensures !(p <= r)
  {
    assert p[5] == '-';
    assert r[5] == '\'';
  }

  /** The legacy command agrees with this one exactly for GET, POST, PUT and DELETE:
      for every other method it still sends `-X DELETE`. */
  lemma OldCurlAgreement(p: Old.CurlPieces)
    ensures Old.CurlCommand(p) == CurlCommand(p) <==> p.httpMethod in {"GET", "POST", "PUT", "DELETE"}
  {
    var m := p.httpMethod;
    if m != "GET" && m != "POST" && m != "PUT" {
      var rest := " '" + p.signedUrl + "'";
      DeleteWord(rest);
      Text.AppendAssoc("curl -X " + m, " '" + p.signedUrl, "'");
      Text.AppendAssoc("curl -X " + m, " '", p.signedUrl);
      Text.AppendAssoc("curl -X ", m, rest);
      if Old.CurlCommand(p) == CurlCommand(p) {
        MethodWordInjective("DELETE", m, rest);
      }
    }
  }

  lemma DeleteWord(rest: string)
    ensures "curl -X DELETE" + rest == "curl -X " + ("DELETE" + rest)
  {
  }

  /** The word after `curl -X ` is recovered from the command. */
  lemma MethodWordInjective(m1: string, m2: string, rest: string)
    requires "curl -X " + (m1 + rest) == "curl -X " + (m2 + rest)
    ensures m1 == m2
  {
    var a, b := "curl -X " + (m1 + rest), "curl -X " + (m2 + rest);
    assert a[8..] == m1 + rest && b[8..] == m2 + rest;
    assert m1 == (m1 + rest)[..|m1|];
    assert m2 == (m2 + rest)[..|m2|];
  }

  /** A HEAD request, for instance: the legacy command sends DELETE, this one HEAD. */
  lemma OldCurlHead(p: Old.CurlPieces)
    requires p.httpMethod == "HEAD"
    ensures "curl -X DELETE '" <= Old.CurlCommand(p)
    ensures "curl -X HEAD '" <= CurlCommand(p)
    ensures Old.CurlCommand(p) != CurlCommand(p)
  {
    Text.AppendAssoc("curl -X DELETE '", p.signedUrl, "'");
    PrefixOf("curl -X DELETE '", p.signedUrl + "'");
    CurlCommandNamesMethod(p);
    OldCurlAgreement(p);
  }
}
