/** The signature base string of section 3.4.1 of RFC 5849: the normalised method, the
    encoded base string URI and the encoded normalised parameters, joined by `&`. */
module SignatureBaseString {
  import opened Wrappers
  import Text
  import Rfc3986
  import HttpMethodElement
  import UrlElement
  import ParametersLoader
  import ParametersElement

  /** `METHOD&enc(url)&enc(parameters)`; the parameter string is encoded a second time. */
  function Generate(httpMethod: Option<string>, url: Option<string>, parameters: ParametersLoader.Input,
                    parse: UrlElement.UrlParser): string
  {
    HttpMethodElement.Get(httpMethod)
    + "&" + Rfc3986.Encode(UrlElement.Get(url, parse))
    + "&" + Rfc3986.Encode(ParametersElement.Get(ParametersLoader.Get(parameters)))
  }

  /** The encoded URL and parameter components hold no `&`, so the base string holds
      exactly the method's `&` (none for a real method name) plus the two separators,
      whichever inputs are missing. */
  lemma SeparatorCount(httpMethod: Option<string>, url: Option<string>, parameters: ParametersLoader.Input,
                       parse: UrlElement.UrlParser)
    ensures multiset(Generate(httpMethod, url, parameters, parse))['&']
         == multiset(HttpMethodElement.Get(httpMethod))['&'] + 2
  {
    var u := UrlElement.Get(url, parse);
    var p := ParametersElement.Get(ParametersLoader.Get(parameters));
    Rfc3986.EncodeHasNoDelimiters(u);
    Rfc3986.EncodeHasNoDelimiters(p);
  }

  /** A base string determines its three elements when the method holds no `&`: the
      method element, the URL element and the parameter string. */
  lemma Decompose(m1: Option<string>, u1: Option<string>, p1: ParametersLoader.Input,
                  m2: Option<string>, u2: Option<string>, p2: ParametersLoader.Input,
                  parse: UrlElement.UrlParser)
    requires '&' !in HttpMethodElement.Get(m1) && '&' !in HttpMethodElement.Get(m2)
    requires Generate(m1, u1, p1, parse) == Generate(m2, u2, p2, parse)
    ensures HttpMethodElement.Get(m1) == HttpMethodElement.Get(m2)
    ensures UrlElement.Get(u1, parse) == UrlElement.Get(u2, parse)
    ensures ParametersElement.Get(ParametersLoader.Get(p1)) == ParametersElement.Get(ParametersLoader.Get(p2))
  {
    var a1, a2 := HttpMethodElement.Get(m1), HttpMethodElement.Get(m2);
    var b1, b2 := Rfc3986.Encode(UrlElement.Get(u1, parse)), Rfc3986.Encode(UrlElement.Get(u2, parse));
    var c1 := Rfc3986.Encode(ParametersElement.Get(ParametersLoader.Get(p1)));
    var c2 := Rfc3986.Encode(ParametersElement.Get(ParametersLoader.Get(p2)));
    Rfc3986.EncodeHasNoDelimiters(UrlElement.Get(u1, parse));
    Rfc3986.EncodeHasNoDelimiters(UrlElement.Get(u2, parse));
    assert Generate(m1, u1, p1, parse) == a1 + "&" + b1 + "&" + c1;
    assert Generate(m2, u2, p2, parse) == a2 + "&" + b2 + "&" + c2;
    Text.SplitAtBoth(a1, b1, c1, a2, b2, c2, '&');
    Rfc3986.EncodeInjective(UrlElement.Get(u1, parse), UrlElement.Get(u2, parse));
    Rfc3986.EncodeInjective(ParametersElement.Get(ParametersLoader.Get(p1)),
                            ParametersElement.Get(ParametersLoader.Get(p2)));
  }

  /** Missing, null and empty inputs keep both separators and nothing else. */
  lemma NonValues(httpMethod: Option<string>, url: Option<string>, parameters: ParametersLoader.Input,
                  parse: UrlElement.UrlParser)
    requires OrEmpty(httpMethod) == "" && OrEmpty(url) == ""
    requires parameters.Missing? || parameters == ParametersLoader.Object(map[])
          || parameters == ParametersLoader.Array([])
    ensures Generate(httpMethod, url, parameters, parse) == "&&"
  {
    Rfc3986.EncodeAlphabet("");
  }

  /** The method alone: `get` gives `GET&&` and `pOsT` gives `POST&&`. */
  lemma MethodOnly(parse: UrlElement.UrlParser)
    ensures Generate(Some("get"), None, ParametersLoader.Missing, parse) == "GET&&"
    ensures Generate(Some("pOsT"), None, ParametersLoader.Missing, parse) == "POST&&"
  {
    Rfc3986.EncodeAlphabet("");
    assert HttpMethodElement.Get(Some("get")) == "GET";
    assert HttpMethodElement.Get(Some("pOsT")) == "POST";
  }

  /** The parameter name `c@` is encoded once by the parameter element and once more as
      the third component: `&&c%2540%3D`. */
  lemma ParameterEncodedTwice(parse: UrlElement.UrlParser)
    ensures Generate(Some(""), Some(""), ParametersLoader.Object(map["c@" := ParametersLoader.Text("")]), parse)
         == "&&c%2540%3D"
  {
    var input := ParametersLoader.Object(map["c@" := ParametersLoader.Text("")]);
    var m := HttpMethodElement.Get(Some(""));
    var u := Rfc3986.Encode(UrlElement.Get(Some(""), parse));
    var p := Rfc3986.Encode(ParametersElement.Get(ParametersLoader.Get(input)));
    assert m == "";
    assert u == "" by {
      Rfc3986.EncodeAlphabet("");
    }
    assert p == "c%2540%3D" by {
      SingleParameter();
      ParametersElement.SingleCAt();
      EncodeCAtElement();
    }
    assert Generate(Some(""), Some(""), input, parse) == m + "&" + u + "&" + p;
    Separators(p);
  }

  lemma Separators(p: string)
    requires p == "c%2540%3D"
    ensures "" + "&" + "" + "&" + p == "&&c%2540%3D"
  {
  }

  lemma SingleParameter()
    ensures ParametersLoader.Get(ParametersLoader.Object(map["c@" := ParametersLoader.Text("")])) == map["c@" := [""]]
  {
    var o := map["c@" := ParametersLoader.Text("")];
    ParametersLoader.SameMaps(ParametersLoader.LoadObject(o), map["c@" := [""]]);
  }

  lemma EncodeCAtElement()
    ensures Rfc3986.Encode("c%40=") == "c%2540%3D"
  {
    EncodeEscapedAt();
    Rfc3986.EncodeAppend("c", "%40=");
    assert "c" + "%40=" == "c%40=";
    Rfc3986.EncodeAlphabet("c");
    assert "c" + "%2540%3D" == "c%2540%3D";
  }

  lemma EncodeEscapedAt()
    ensures Rfc3986.Encode("%40=") == "%2540%3D"
  {
    EncodeFortyEquals();
    Rfc3986.EncodeAppend("%", "40=");
    assert "%" + "40=" == "%40=";
    Rfc3986.EncodeAsciiReserved('%');
    assert "%25" + "40%3D" == "%2540%3D";
  }

  lemma EncodeFortyEquals()
    ensures Rfc3986.Encode("40=") == "40%3D"
  {
    Rfc3986.EncodeAsciiReserved('=');
    Rfc3986.EncodeAppend("40", "=");
    assert "40" + "=" == "40=";
    Rfc3986.EncodeAlphabet("40");
    assert "40" + "%3D" == "40%3D";
  }
}

/** The HMAC-SHA1 digest of a text under a key, in base64. The digest and base64 are
    the cryptography library's work: the model receives them as one function. */
module HmacSha1 {
  import opened Wrappers

  /** Base64 of HMAC-SHA1(text, key). */
  type Hmac = (string, string) -> string

  /** Null and missing text or key are hashed as "". */
  function GetBase64EncodedHash(text: Option<string>, key: Option<string>, hmac: Hmac): string {
    hmac(OrEmpty(text), OrEmpty(key))
  }

  /** Undefined, null and empty inputs all hash the same pair of empty strings. */
  lemma NonValues(text: Option<string>, key: Option<string>, hmac: Hmac)
    requires OrEmpty(text) == "" && OrEmpty(key) == ""
    ensures GetBase64EncodedHash(text, key, hmac) == GetBase64EncodedHash(None, None, hmac)
    ensures GetBase64EncodedHash(text, key, hmac) == hmac("", "")
  {
  }
}

/** The HMAC-SHA1 signature of section 3.4.2 of RFC 5849: the key is the encoded consumer
    secret and the encoded token secret joined by `&`; the base64 digest is returned
    RFC 3986 encoded unless the caller asks for it raw. */
module HmacSha1Signature {
  import opened Wrappers
  import Text
  import Rfc3986
  import HmacSha1

  /** `enc(consumerSecret)&enc(tokenSecret)`; a missing secret counts as "". */
  function SigningKey(consumerSecret: Option<string>, tokenSecret: Option<string>): string {
    Rfc3986.Encode(OrEmpty(consumerSecret)) + "&" + Rfc3986.Encode(OrEmpty(tokenSecret))
  }

  /** The key holds exactly one `&`, and ends with it when the token secret is empty. */
  lemma SigningKeySeparator(consumerSecret: Option<string>, tokenSecret: Option<string>)
    ensures multiset(SigningKey(consumerSecret, tokenSecret))['&'] == 1
    ensures OrEmpty(tokenSecret) == "" ==>
      SigningKey(consumerSecret, tokenSecret) == Rfc3986.Encode(OrEmpty(consumerSecret)) + "&"
  {
    Rfc3986.EncodeHasNoDelimiters(OrEmpty(consumerSecret));
    Rfc3986.EncodeHasNoDelimiters(OrEmpty(tokenSecret));
    Rfc3986.EncodeAlphabet("");
  }

  /** Different pairs of secrets give different keys. */
  lemma SigningKeyInjective(cs1: Option<string>, ts1: Option<string>, cs2: Option<string>, ts2: Option<string>)
    requires SigningKey(cs1, ts1) == SigningKey(cs2, ts2)
    ensures OrEmpty(cs1) == OrEmpty(cs2) && OrEmpty(ts1) == OrEmpty(ts2)
  {
    var a1, a2 := Rfc3986.Encode(OrEmpty(cs1)), Rfc3986.Encode(OrEmpty(cs2));
    var b1, b2 := Rfc3986.Encode(OrEmpty(ts1)), Rfc3986.Encode(OrEmpty(ts2));
    Rfc3986.EncodeHasNoDelimiters(OrEmpty(cs1));
    Rfc3986.EncodeHasNoDelimiters(OrEmpty(cs2));
    assert a1 + ['&'] + b1 == a2 + ['&'] + b2;
    Text.SplitAtFirst(a1, b1, a2, b2, '&');
    Rfc3986.EncodeInjective(OrEmpty(cs1), OrEmpty(cs2));
    Rfc3986.EncodeInjective(OrEmpty(ts1), OrEmpty(ts2));
  }

  /** The signature; `encode` is the argument of `generate`, whose only value that
      asks for the raw base64 is `false`. */
  function Generate(signatureBaseString: Option<string>, consumerSecret: Option<string>,
                    tokenSecret: Option<string>, encode: Option<bool>, hmac: HmacSha1.Hmac): string
  {
    var hash := HmacSha1.GetBase64EncodedHash(signatureBaseString, Some(SigningKey(consumerSecret, tokenSecret)), hmac);
    if encode == Some(false) then hash else Rfc3986.Encode(hash)
  }

  /** The raw signature is the digest of the base string under the signing key, and the
      default signature is its RFC 3986 encoding, which decodes back to it. */
  lemma EncodedAndRaw(signatureBaseString: Option<string>, consumerSecret: Option<string>,
                      tokenSecret: Option<string>, encode: Option<bool>, hmac: HmacSha1.Hmac)
    requires encode != Some(false)
    ensures Generate(signatureBaseString, consumerSecret, tokenSecret, Some(false), hmac)
         == hmac(OrEmpty(signatureBaseString), SigningKey(consumerSecret, tokenSecret))
    ensures Rfc3986.Decode(Generate(signatureBaseString, consumerSecret, tokenSecret, encode, hmac))
         == Ok(Generate(signatureBaseString, consumerSecret, tokenSecret, Some(false), hmac))
  {
    Rfc3986.DecodeEncode(Generate(signatureBaseString, consumerSecret, tokenSecret, Some(false), hmac));
  }

  /** The characters of base64 text. */
  predicate IsBase64Char(c: char) {
    'A' <= c <= 'Z' || 'a' <= c <= 'z' || '0' <= c <= '9' || c == '+' || c == '/' || c == '='
  }

  /** Base64 text with `+`, `/` and `=` written as `%2B`, `%2F` and `%3D`. */
  function EscapeBase64(h: string): string {
    if |h| == 0 then ""
    else
      var c := h[0];
      (if c == '+' then "%2B" else if c == '/' then "%2F" else if c == '=' then "%3D" else [c])
      + EscapeBase64(h[1..])
  }

  lemma EncodeBase64Char(c: char)
    requires IsBase64Char(c)
    ensures Rfc3986.Encode([c]) == EscapeBase64([c])
  {
    if c == '+' || c == '/' || c == '=' {
      Rfc3986.EncodeAsciiReserved(c);
    } else {
      Rfc3986.EncodeAlphabet([c]);
    }
  }

  /** On base64 text the RFC 3986 encoding escapes exactly `+`, `/` and `=`, so an
      encoded signature such as `sI3tgv7FRWmRT0TmLifBAFF12lU%3D` is the raw one with
      its padding escaped. */
  lemma {:induction false} EncodeBase64(h: string)
    requires forall i :: 0 <= i < |h| ==> IsBase64Char(h[i])
    ensures Rfc3986.Encode(h) == EscapeBase64(h)
  {
    if |h| == 0 {
      Rfc3986.EncodeAlphabet("");
    } else {
      assert h == [h[0]] + h[1..];
      Rfc3986.EncodeAppend([h[0]], h[1..]);
      EncodeBase64Char(h[0]);
      EncodeBase64(h[1..]);
    }
  }
}

/** `oauthSignature.generate`: the signature base string of the request, signed. */
module OAuthSignature {
  import opened Wrappers
  import Rfc3986
  import UrlElement
  import ParametersLoader
  import SignatureBaseString
  import HmacSha1
  import HmacSha1Signature

  /** `encodeSignature` is the option of that name; only `false` asks for the raw base64. */
  function Generate(httpMethod: Option<string>, url: Option<string>, parameters: ParametersLoader.Input,
                    consumerSecret: Option<string>, tokenSecret: Option<string>, encodeSignature: Option<bool>,
                    parse: UrlElement.UrlParser, hmac: HmacSha1.Hmac): string
  {
    HmacSha1Signature.Generate(Some(SignatureBaseString.Generate(httpMethod, url, parameters, parse)),
                               consumerSecret, tokenSecret, encodeSignature, hmac)
  }

  /** The raw signature is the digest of the request's base string under the signing
      key; the default one decodes to it; a missing token secret signs as "" does. */
  lemma Composition(httpMethod: Option<string>, url: Option<string>, parameters: ParametersLoader.Input,
                    consumerSecret: Option<string>, tokenSecret: Option<string>, encodeSignature: Option<bool>,
                    parse: UrlElement.UrlParser, hmac: HmacSha1.Hmac)
    requires encodeSignature != Some(false)
    ensures Generate(httpMethod, url, parameters, consumerSecret, tokenSecret, Some(false), parse, hmac)
         == hmac(SignatureBaseString.Generate(httpMethod, url, parameters, parse),
                 HmacSha1Signature.SigningKey(consumerSecret, tokenSecret))
    ensures Rfc3986.Decode(Generate(httpMethod, url, parameters, consumerSecret, tokenSecret, encodeSignature, parse, hmac))
         == Ok(Generate(httpMethod, url, parameters, consumerSecret, tokenSecret, Some(false), parse, hmac))
    ensures Generate(httpMethod, url, parameters, consumerSecret, None, encodeSignature, parse, hmac)
         == Generate(httpMethod, url, parameters, consumerSecret, Some(""), encodeSignature, parse, hmac)
  {
    HmacSha1Signature.EncodedAndRaw(Some(SignatureBaseString.Generate(httpMethod, url, parameters, parse)),
                                    consumerSecret, tokenSecret, encodeSignature, hmac);
  }
}
