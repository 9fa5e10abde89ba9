# OAuth 1.0a signing on the 7digital OAuth reference page, in Dafny

The reference page signs requests with HMAC-SHA1 as described in RFC 5849. This project models its signing pipeline and proves properties of that model.

**The new pipeline (`oauthSignature`).** Its behaviour is fixed by the test file `src/app/oauth-signature.tests.js`. It runs in this order:

- Normalise the HTTP method (`HttpMethodElement`).
- Normalise the base string URI (`UrlElement`, section 3.4.1.2 of RFC 5849).
- Load the request parameters into a map from each name to a list of values (`ParametersLoader`).
- Normalise them into the sorted `name=value&…` string (`ParametersElement`).
- Percent-encode as section 3.6 of RFC 5849 requires (`Rfc3986`).
  This works over UTF-8 octets, as RFC 3629 specifies.
- Assemble the base string `METHOD&enc(url)&enc(parameters)` (`SignatureBaseString`).
- Derive the key `enc(consumerSecret)&enc(tokenSecret)` and sign (`HmacSha1Signature`).
- Compose these steps into `oauthSignature.generate` (`OAuthSignature`).

**The legacy signer.** `oauth-signer-old.js` is modelled as module `OAuthSignerOld`. It covers:

- the defaults that `_.extend` lets a caller override;
- the oauth parameter dictionary, with its conditional `oauth_token` and `oauth_version`;
- the form fields merged over that dictionary;
- the sorted query string;
- `percentEncode`, which is ECMA-262 `encodeURIComponent` with `*` escaped (module `UriComponent`);
- `parameterEncoded` and the legacy base string and HMAC key;
- the URL and header encoders;
- the signed URL and the curl command.

**The replacement signer.** `oauth.js` is modelled as module `OAuthSigner`. It keeps the legacy oauth parameters, merges the fields in its own loop, and builds its base string with `SignatureBaseString`. Its curl command is built with `+=` over the method branches, the options and the headers.

JavaScript objects used as dictionaries are modelled as `JsObject.Dict`: an association list in insertion order, which is the order `_.keys` returns. `Text` holds the string helpers: case mapping, code-point order, insertion sort and `join`. `Utf8` and `Percent` hold UTF-8 and percent-encoding.

**What cannot be computed here** is passed in as a parameter:

- The URL library's splitting of a URL text is a function `parse: string -> UrlParts`.
- HMAC-SHA1 followed by base64 is a function `hmac: (string, string) -> string`.
- The clock reading is an argument in milliseconds.

## Model

| member | source | states |
|---|---|---|
| HttpMethodElement.Get | src/app/oauth-signature.tests.js:7-20 | Keeps the length. Each lower-case ASCII letter becomes its upper-case letter and every other character is kept. An undefined, null or empty method gives "". |
| HttpMethodElement.GetIdempotent | src/app/oauth-signature.tests.js:7-12 | Normalising an already normalised method changes nothing. |
| HttpMethodElement.GetIgnoresCase | src/app/oauth-signature.tests.js:7-12 | Two methods give the same element exactly when they agree character by character up to the case of ASCII letters (`SameUpToCase`). |
| UrlElement.Normalize | src/app/oauth-signature.tests.js:23-52 | Scheme lower-cased, `http` when missing. Host lower-cased, path kept as given. The port is dropped exactly when it is 80 for http or 443 for https, even when the scheme was defaulted. Query and fragment are removed. The result is normalised parts. |
| UrlElement.NormalizeFixedPoints | src/app/oauth-signature.tests.js:23-52 | Normalisation is idempotent. Its fixed points are exactly the normalised parts. |
| UrlElement.RenderInjective | src/app/oauth-signature.tests.js:23-40 | Two normalised parts with the same element are equal when both are delimited (`Delimited`). That means: a scheme as section 3.1 of RFC 3986 defines it; a non-empty host without `:`, `/`, `?`, `#` or `@`; and a path that is empty or starts with `/` and holds no `?` or `#`. The element loses only the query and the fragment, and it keeps the port and a trailing `/`. |
| UrlElement.NormalizeCaseVectors | src/app/oauth-signature.tests.js:24-31 | The parts of `http://example.co.uk` stay as they are. `EXAMPLE.co.UK` is lower-cased, with `/endpoint` and the trailing `/` of `/endpoint/` kept. `HTTP` becomes `http`. |
| UrlElement.NormalizePortVectors | src/app/oauth-signature.tests.js:32-40 | Port 80 under http and 443 under https are dropped, `https://example.org` stays, and 8080 is kept under both schemes. |
| UrlElement.NormalizeQueryVectors | src/app/oauth-signature.tests.js:41-44 | The query `foo=bar` and the fragment `anchor` of `http://example.org/` are dropped. |
| UrlElement.NormalizeSchemeVectors | src/app/oauth-signature.tests.js:45-50 | Without a scheme, `http` is supplied. Port 100 is kept and port 80 is dropped. |
| UrlElement.QueryAndFragmentDropped | src/app/oauth-signature.tests.js:41-44 | The query and the fragment have no effect on the element. |
| UrlElement.Get | src/app/oauth-signature.tests.js:53-60 | The element is "" exactly when the URL is undefined, null or empty. |
| UrlElement.GetIdempotent | src/app/oauth-signature.tests.js:23-52 | Suppose the URL library reads back every rendered normalised, delimited URL (`ReadsBack`), and the URL's parts are delimited. Then normalising the element again returns it. |
| UrlElement.LowerCaseKeepsScheme | src/app/oauth-signature.tests.js:23-30 | Lower-casing a valid scheme gives a valid scheme. |
| UrlElement.SplitUrlReadsBack | src/app/oauth-signature.tests.js:23-52 | The reference splitter `SplitUrl` (scheme at `://`, host at `:` `/` `?` `#`, decimal port, path at `?` `#`, query at `#`) meets `ReadsBack`. |
| UrlElement.SplitUrlCutsQuery | src/app/oauth-signature.tests.js:41-44 | `SplitUrl` reads a rendered delimited URL followed by `?query` (no `#`) as its parts with that query. Its element is the URL without the query. |
| UrlElement.SplitUrlWithoutScheme | src/app/oauth-signature.tests.js:45-50 | A URL without a scheme, such as `example.org:100`, is read as the host, the decimal port and the path, with no scheme. Its path must hold no `:`. |
| UrlElement.SplitUrlOf | src/app/oauth-signature.tests.js:23-52 | A rendered delimited URL followed by a query or fragment splits into its scheme, host, port and path, plus what the splitter reads in that tail. |
| UrlElement.SplitAuthorityOf | src/app/oauth-signature.tests.js:31-40 | A host free of delimiters, an optional port and a rest starting with `/`, `?` or `#` split back into that host, port and rest. |
| Text.DecimalValue | src/app/oauth-signature.tests.js:31-40 | Reading the decimal rendering of a port back gives the port. |
| ParametersLoader.Get | src/app/oauth-signature.tests.js:93-104 | Undefined, empty, `{}` and `[]` input give the empty map. An object keeps exactly its names. Every name has at least one value. |
| ParametersLoader.LoadArrayConcatenates | src/app/oauth-signature.tests.js:63-83 | An array input has exactly the names of its objects. Each name gets the values of every object holding it, concatenated in array order. |
| ParametersLoader.ArrayMatchesObject | src/app/oauth-signature.tests.js:63-83 | An array input and an object input load to the same map when, name by name, the object's values are the array's values concatenated. |
| ParametersLoader.LoadObjectExample | src/app/oauth-signature.tests.js:63-81 | The object example loads to `{a: [b], foo: [bar, baz, qux]}`. |
| ParametersLoader.LoadArrayExample | src/app/oauth-signature.tests.js:63-83 | The array example, with `foo` split over two objects, loads to the same map. |
| ParametersLoader.EmptyPropertyKept | src/app/oauth-signature.tests.js:84-91 | A null or empty-array property is kept with the single value "", in an object and in an array alike. |
| ParametersElement.SortedNames | src/app/oauth-signature.tests.js:107-131 | Each name exactly once, strictly ascending in the order of their RFC 3986 encodings. |
| ParametersElement.RawPairsSorted | src/app/oauth-signature.tests.js:107-131 | The emitted pairs are ordered by encoded name, then by value. |
| ParametersElement.RawPairsContent | src/app/oauth-signature.tests.js:107-131 | Every value of every name is emitted as often as it occurs, and nothing else is emitted. |
| ParametersElement.PairsSortedUnique | src/app/oauth-signature.tests.js:107-131 | Two sorted pair sequences with the same multiset are equal. |
| ParametersElement.RawPairsCanonical | src/app/oauth-signature.tests.js:107-131 | Any sorted sequence holding exactly the map's pairs is the emitted one, so the output does not depend on input order. |
| ParametersElement.SeparatorCount | src/app/oauth-signature.tests.js:107-131 | The parameter string has one `&` between neighbouring pairs and no other. |
| ParametersElement.Get | src/app/oauth-signature.tests.js:133-142 | The empty map gives "". |
| ParametersElement.GetEmptyExactly | src/app/oauth-signature.tests.js:133-142 | A loaded map gives "" exactly when it is empty. |
| ParametersElement.OfInput | src/app/oauth-signature.tests.js:133-142 | `new ParametersElement(input).get()` gives "" exactly when the input loads to no parameter. |
| ParametersElement.NonValues | src/app/oauth-signature.tests.js:133-142 | Undefined, "", null and `{}` input give "" (and so does `[]`). |
| ParametersElement.OrderByEncodedName | src/app/oauth-signature.tests.js:127-130 | `{c2: [""], "c@": [""]}` gives `c%40=&c2=`: names order by their encoded form. |
| ParametersElement.ValuesOrderedRaw | src/app/oauth-signature.tests.js:109-126 | The values `ß` and `bar` of one name come out as `bar` then `ß`. |
| Percent.Encode | src/app/oauth-signature.tests.js:145-166 | Every output character is admitted, `%` or an upper-case hex digit. |
| Percent.EncodeLength | src/app/oauth-signature.tests.js:145-166 | Encoding never shortens. It keeps the length exactly when every character is admitted, and then returns the input. |
| Percent.EncodeDropsRejected | src/app/oauth-signature.tests.js:145-166 | A rejected character other than `%` and the upper-case hex digits never appears in the output. |
| Percent.DecodeEncode | src/app/oauth-signature.tests.js:181-208 | Decoding undoes encoding whenever `%` is escaped. |
| Rfc3986.EncodeAlphabet | src/app/oauth-signature.tests.js:145-157 | The output uses only unreserved characters and `%`. It equals the input exactly when the input is all unreserved. |
| Rfc3986.EncodeAsciiReserved | src/app/oauth-signature.tests.js:150-163 | An ASCII character outside the unreserved set becomes exactly one `%XX`, upper-case hex. |
| Rfc3986.EncodeReservedVectors | src/app/oauth-signature.tests.js:150-163 | The first nine reserved vectors: `!#$&'()*+` encode to `%21`, `%23`, `%24`, `%26`, `%27`, `%28`, `%29`, `%2A` and `%2B`. |
| Rfc3986.EncodeReservedVectorsRest | src/app/oauth-signature.tests.js:150-165 | The other nine: `,/:;=?@[]` encode to `%2C`, `%2F`, `%3A`, `%3B`, `%3D`, `%3F`, `%40`, `%5B` and `%5D`. `%` encodes to `%25`. |
| Rfc3986.DecodeReservedVectors | src/app/oauth-signature.tests.js:186-197 | Each of the eighteen escapes decodes to its reserved character. |
| Rfc3986.EncodeTwoOctetVector | src/app/oauth-signature.tests.js:167-169 | `åçñ` encodes to `%C3%A5%C3%A7%C3%B1`: two escaped octets per character. |
| Rfc3986.EncodeUtf8Vector | src/app/oauth-signature.tests.js:167-172 | `你好` encodes to `%E4%BD%A0%E5%A5%BD`, one escape per UTF-8 octet. |
| Rfc3986.DecodeEncode | src/app/oauth-signature.tests.js:181-208 | Decoding undoes encoding, for every text. |
| Rfc3986.DecodeVectors | src/app/oauth-signature.tests.js:198-207 | `%25` decodes to `%`, `%C3%A5%C3%A7%C3%B1` to `åçñ` and `%E4%BD%A0%E5%A5%BD` to `你好`. |
| Rfc3986.EncodeValue | src/app/oauth-signature.tests.js:173-180 | `encode` of an optional value: decoding the result gives back the value, with undefined and null read as "". |
| Rfc3986.NonValues | src/app/oauth-signature.tests.js:173-216 | Undefined, null and "" encode to "" and decode to "". |
| Rfc3986.DecodeFullyEscaped | src/app/oauth-signature.tests.js:200-201 | Escapes of characters that encoding keeps are decoded too. The fully escaped form of any text decodes to it. |
| Rfc3986.EncodeInjective | src/app/oauth-signature.tests.js:145-166 | Different texts have different encodings. |
| Rfc3986.EncodeHasNoDelimiters | src/app/oauth-signature.tests.js:145-166 | An encoding never holds `&` or `=`. |
| Rfc3986.Decode | src/app/oauth-signature.tests.js:181-197 | Text without `%` decodes to itself. |
| Utf8.DecodeEncodeChar | src/app/oauth-signature.tests.js:167-172 | Decoding the UTF-8 octets of any character gives that character back. |
| SignatureBaseString.SeparatorCount | src/app/oauth-signature.tests.js:219-286 | The base string holds exactly two `&` beyond those in the method element, whichever inputs are missing. |
| SignatureBaseString.Decompose | src/app/oauth-signature.tests.js:219-270 | With no `&` in the methods, equal base strings have equal method, URL and parameter elements. |
| SignatureBaseString.NonValues | src/app/oauth-signature.tests.js:271-286 | A missing or empty method and URL, and missing, `{}` or `[]` parameters, give `&&`. |
| SignatureBaseString.MethodOnly | src/app/oauth-signature.tests.js:219-224 | `get` gives `GET&&` and `pOsT` gives `POST&&`. |
| SignatureBaseString.ParameterEncodedTwice | src/app/oauth-signature.tests.js:268-269 | The parameter `c@` appears as `c%2540%3D`: it is encoded once as a parameter and once more as a component. |
| HmacSha1.NonValues | src/app/oauth-signature.tests.js:353-362 | Undefined, null and empty text and key all hash as two empty strings. |
| HmacSha1Signature.SigningKeySeparator | src/app/oauth-signature.tests.js:382-386 | The key holds exactly one `&`. It ends with that `&` when the token secret is empty. |
| HmacSha1Signature.SigningKeyInjective | src/app/oauth-signature.tests.js:370-374 | Equal keys come from equal consumer secrets and equal token secrets. |
| HmacSha1Signature.EncodedAndRaw | src/app/oauth-signature.tests.js:364-369 | `generate(false)` is the digest of the base string under the key. The default result decodes to it. |
| HmacSha1Signature.EncodeBase64 | src/app/oauth-signature.tests.js:364-369 | On base64 text the encoding escapes exactly `+`, `/` and `=`, as `%2B`, `%2F` and `%3D`. |
| OAuthSignature.Composition | src/app/oauth-signature.tests.js:397-471 | The raw signature is the digest of the request's base string under the signing key. The default signature decodes to it. A missing token secret signs like "". |
| UriComponent.PercentEncodeIsEncode | oauth-signer-old.js:133-135 | `percentEncode` is percent-encoding keeping the `encodeURIComponent` unescaped set minus `*`. |
| UriComponent.PercentEncodeProperties | oauth-signer-old.js:133-135 | The output has no `*`, `&` or `=`, and it decodes back to the input. |
| UriComponent.PercentEncodeKeepsSubDelims | oauth-signer-old.js:133-135 | `!`, `'`, `(` and `)` are in the output exactly when they are in the input. |
| UriComponent.PercentEncodeVersusRfc3986 | oauth-signer-old.js:133-135 | `percentEncode` equals the RFC 3986 encoding exactly on texts holding none of `!'()`. |
| UriComponent.PercentEncodeInjective | oauth-signer-old.js:133-135 | Different texts have different `percentEncode` results. |
| OAuthSignerOld.ExtendDefaultParameters | oauth-signer-old.js:3-40 | If the caller gives no token, signature method or timestamp, the oauth parameters read HMAC-SHA1 and the current second, and have no `oauth_token`. With no version they end in `oauth_version` = `1.0`. With a version of "" they hold only the four mandatory names. |
| OAuthSignerOld.OAuthParameters | oauth-signer-old.js:25-40 | The assign-by-assign method builds the oauth parameter dictionary `OAuthParametersOf`. |
| OAuthSignerOld.OAuthParametersKeys | oauth-signer-old.js:25-40 | The names, in order: the four mandatory ones, then `oauth_token` exactly when the token is non-empty, then `oauth_version` exactly when the version is non-empty. |
| OAuthSignerOld.OAuthParametersMandatoryValues | oauth-signer-old.js:27-32 | The four mandatory names read the consumer key, nonce, timestamp and signature method. |
| OAuthSignerOld.OAuthParametersOptionalValues | oauth.js:26-41 | `oauth_token` reads the token when it is non-empty and is absent otherwise. `oauth_version` behaves the same with the version. |
| OAuthSignerOld.QueryStringFields | oauth-signer-old.js:41-49 | The `_.each` loop gives the oauth parameters with each field assigned in turn. |
| OAuthSignerOld.QueryStringFieldsContents | oauth-signer-old.js:41-49 | A field name reads the field's value. Every other name reads its oauth value. The names are those of either, with the oauth names first in their own order. |
| OAuthSigner.Parameters | oauth.js:42-50 | The loop of `parameters` computes the same dictionary as the legacy `queryStringFields`. |
| Text.SortStrings | oauth-signer-old.js:54 | `_.keys(…).sort()` returns the keys in ascending order, as a permutation of them. |
| OAuthSignerOld.OrderedFields | oauth-signer-old.js:53-54 | The query names are sorted and are a permutation of the merged dictionary's names. |
| OAuthSignerOld.QueryStringSeparators | oauth-signer-old.js:50-58 | With no `&` or `=` in a field name, the query string holds one `&` fewer than it has names. |
| OAuthSignerOld.QueryPartInjective | oauth-signer-old.js:55-57 | With plain names, equal `name=value` parts have equal names and equal values. |
| OAuthSignerOld.QueryStringDetermines | oauth-signer-old.js:50-58 | With plain field names, equal query strings give the same sorted names, each reading the same value. |
| OAuthSignerOld.ParameterEncodedSeparators | oauth-signer-old.js:86-91 | `n` fields are joined by `n - 1` separators, whatever they hold. |
| OAuthSignerOld.ParameterEncodedInjective | oauth-signer-old.js:86-91 | The same number of fields with the same output are the same fields. |
| OAuthSignerOld.BaseStringSeparators | oauth-signer-old.js:92-94 | The legacy base string holds exactly two `&`. |
| OAuthSignerOld.BaseStringDetermines | oauth-signer-old.js:92-94 | The legacy base string determines the method, the URL and the query string, so neither the method nor the URL is normalised. |
| OAuthSignerOld.BaseStringKeepsMethod | oauth-signer-old.js:92-94 | A method made of letters begins the legacy base string, case unchanged, followed by `&`. |
| OAuthSignerOld.HmacKeyShape | oauth-signer-old.js:95-97 | The key is `percentEncode(consumerSecret) & percentEncode(tokenSecret)` with exactly one `&`. With the default empty token secret it ends in `&`. |
| OAuthSignerOld.HmacKeyVersusSigningKey | oauth.js:70-74 | The legacy key equals the RFC 5849 signing key exactly when neither secret holds `!'()`. |
| OAuthSignerOld.UrlEncodedShape | oauth-signer-old.js:59-63 | "" exactly when there are no fields. With plain names there is one `&` between neighbours. |
| OAuthSignerOld.HeaderEncodedSeparators | oauth-signer-old.js:64-68 | With no `,` in a name there is one `,` between neighbouring fields. |
| OAuthSignerOld.UrlAndFieldsShape | oauth-signer-old.js:77-85 | The URL alone exactly when there are no fields, otherwise `url + "?" + urlEncoded(fields)`. |
| OAuthSignerOld.AuthorizationFieldsContents | oauth.js:60-65 | The names are the oauth names followed by `oauth_signature`. That name reads the signature and every other name reads its oauth value. |
| OAuthSignerOld.AuthorizationHeaderSeparators | oauth-signer-old.js:72-76 | The header holds one `,` per oauth parameter: one per neighbouring pair of its fields, signature included. |
| OAuthSignerOld.AsInputNames | oauth-signer-old.js:114-116 | The dictionary handed to `generate` loads with exactly its own names. |
| OAuthSignerOld.AsInputValues | oauth-signer-old.js:114-116 | Each name of the dictionary handed to `generate` loads with its single value. |
| OAuthSignerOld.SignatureDelimiters | oauth-signer-old.js:114-119 | The encoded signature holds no `&`, `=` or `'`. |
| OAuthSignerOld.SignedUrlSeparators | oauth-signer-old.js:117-119 | With no `&` in the URL or a field name, the signed URL holds one `&` per query field. |
| OAuthSigner.BaseStringSeparators | oauth.js:66-69 | The new base string holds two `&` beyond those of the method element. |
| OAuthSigner.SignatureSignsBaseString | oauth.js:80-103 | The signature `signature` computes and evidently means to return decodes to the digest of this signer's base string under the RFC 5849 signing key. This is the corrected half of the `encodedBase64Signature` finding. |
| OAuthSigner.OldCallsResolve | oauth.js:54-94 | Every member the new signer calls on the legacy one exists, except `encodedBase64Signature`. |
| OAuthSigner.SignatureAsWrittenThrows | oauth.js:80-109 | As written, `signature` throws the TypeError for `encodedBase64Signature` for every signer. So does `signedUrl`. Neither returns the intended value. |
| OAuthSigner.CurlAsWrittenOnlyWithBody | oauth.js:110-146 | As written, `curl` returns a command exactly for a POST or PUT with a body on parameters that define `headersArray`, and that command is the intended one. Every other request throws. |
| OAuthSigner.PageHasNoHeadersArray | oauth.js:134 | On the page's parameters, `parameters.headersArray()` throws: they have `curlParameters` but no `headersArray`. |
| OAuthSigner.PageCurlThrows | oauth.js:110-146 | On the page's own parameters, `curl` throws for every request. A POST or PUT with a body throws at `headersArray`. Every other request throws at `encodedBase64Signature`. |
| OAuthSigner.Request | oauth.js:114-125 | The method-branch part of `curl` equals `CurlRequest`, the command it builds once `signature` returns. |
| OAuthSigner.AppendOptions | oauth.js:126-132 | ` -o output` is appended only for a non-empty output, and ` -v` only when verbose. |
| OAuthSigner.AppendHeaders | oauth.js:134-144 | The `forEach` appends the flags of the headers in array order. |
| OAuthSigner.AppendHeader | oauth.js:136-142 | One header adds ` -H "name"`, or ` -H "name:value"` when it has a value, and nothing when it has no name. |
| OAuthSigner.Curl | oauth.js:110-146 | The command is the request part, then the output and verbose options, then the header flags. This is the command once `signature` returns. |
| OAuthSigner.HeaderFlagsNamed | oauth.js:134-144 | The headers without a name contribute nothing: the flags are those of the named headers. |
| OAuthSigner.HeaderFlagsAppend | oauth.js:134-144 | The flags of two runs of headers are the flags of each, one after the other. |
| OAuthSigner.HeaderFlagsQuotes | oauth.js:134-144 | With no `"` in names or values, each named header adds exactly one quoted flag (two `"`). |
| OAuthSigner.CurlOfExtendsRequest | oauth.js:110-146 | The request part is a prefix of the command. Nothing is added exactly when there is no output, no verbose switch and no named header. |
| OAuthSigner.CurlCommandNamesMethod | oauth.js:115-125 | The command begins `curl -X <method> '` exactly when the method is not GET. For GET it begins `curl '`. |
| OAuthSigner.OldCurlAgreement | oauth-signer-old.js:120-132 | The legacy and the new request part agree exactly when the method is GET, POST, PUT or DELETE. |
| OAuthSigner.OldCurlHead | oauth-signer-old.js:129-131 | For HEAD the legacy command begins `curl -X DELETE '` and the new one `curl -X HEAD '`. |

## Left out

- The HMAC-SHA1 digest and its base64 rendering belong to the cryptography library, which is not part of this model. They are the parameter `hmac`. The digest vectors of src/app/oauth-signature.tests.js:340-352, and the signature values it checks, are therefore not stated.
- The legacy `hmac` with its default `binary` encoding (oauth-signer-old.js:98-108): only the `base64` use, through `base64Signature`, is modelled.
- The URL library that splits a URL text is not part of this model. It is the parameter `parse`. The URL vectors of src/app/oauth-signature.tests.js:23-52 are stated over the parts it returns and the parts of the expected element (`UrlElement.NormalizeCaseVectors`, `NormalizePortVectors`, `NormalizeQueryVectors` and `NormalizeSchemeVectors`). The step from those parts to the text is `Render`, which `RenderInjective` shows loses nothing. The signed-request vectors of lines 225-252 are covered by the general `SignatureBaseString` and `OAuthSignature` contracts, not as literals. `UrlElement.SplitUrl` is a reference splitter after section 3 of RFC 3986 that meets the read-back assumption `ReadsBack`. It does not split user information, and it reads a port that is not a number as no port, where a URL library may reject the URL.
- The long base string reference samples (src/app/oauth-signature.tests.js:287-338) are not stated as literal vectors. Their structure is covered by `SignatureBaseString.Decompose`, `SeparatorCount` and the `ParametersElement` lemmas.
- `timestamp` reads `Date`. The clock is an argument in milliseconds, and the model calls `Extend` once. The page calls the accessor again on every use and could see two different seconds.
- Numbers and strings: JavaScript would give a timestamp as a number. It is modelled as the decimal text it becomes in the query string.
- The random nonce of ui.js is an input of the signer.
- The console logging and the warnings in `signature` (oauth.js:86-101) are left out. Line 89 compares `baseStringNew` and `baseStringOld` before lines 93-94 assign them. Both are still undefined, so the comparison is false and that warning never fires.
- The call `oauthSignerOld.encodedBase64Signature()` at oauth.js:84 is not left out. The legacy signer has no such member, so as written `signature` throws a TypeError before it returns. That error is modelled by `OAuthSigner.SignatureAsWritten`, `SignedUrlAsWritten` and `CurlAsWritten`, and reported under "## Findings".
- OAuthSigner.SignatureSignsBaseString: states the value `signature` evidently means to return. As written, the function throws at oauth.js:84 (see "## Findings").
- OAuthSigner.Request: states the command built once `signature` returns. As written, the GET branch, the POST or PUT branch without a body and the other-method branch throw at oauth.js:84.
- OAuthSigner.Curl: states the command built once `signature` returns and the headers are read. As written, `curl` also calls `parameters.headersArray()` at oauth.js:134, which the page's parameters (ui.js:9-47) do not define. So on the page every `curl` throws (`PageCurlThrows`), and a command comes only from parameters that define it (`CurlAsWrittenOnlyWithBody`). The options `parameters.curlParameters.output()` and `verbose()` (oauth.js:126-130) are taken as present, as the page defines them (ui.js:21-24). Parameters without `curlParameters` would throw at line 126, and that error is not modelled.
- OAuthSignerOld.SignedUrlSeparators: counts the legacy `signedUrl` (oauth-signer-old.js:117-119). The new signer's `signedUrl` (oauth.js:105-109) would be the same text, but as written it throws through `signature` (`SignatureAsWrittenThrows`).
- HttpMethodElement.Get: `toUpperCase` is modelled on ASCII letters only. JavaScript also maps other letters, such as `é` to `É` and `ß` to `SS`, and the last one changes the length. So the length clause and `GetIgnoresCase` hold for the model but not for such methods. Text.UpperCase has the same limit. Text.LowerCase, and so the scheme and host in `UrlElement.Normalize`, has it too: JavaScript's `toLowerCase` also maps `É` to `é`. Full Unicode case mapping is not part of this model.
- ui.js (Knockout bindings) and Gruntfile.js (build) are not part of this model, with two exceptions used in the findings below. One is the HEAD method the page offers at ui.js:61. The other is the member names of the page's parameters (ui.js:10-47), as `OAuthSigner.PageParameterMembers`.
- Text.SortStrings: orders by code point, where JavaScript's default sort compares UTF-16 code units. The two orders differ only between characters above U+FFFF and those from U+E000 to U+FFFF.
- JsObject.Keys: `_.keys` in JavaScript lists integer-like names first, in numeric order. The model keeps insertion order for every name, which changes only the field order of `urlEncoded` and `headerEncoded`.
- ParametersElement.RawPairsSorted: the values of one name are sorted as raw text, not by their encodings as section 3.4.1.3.2 of RFC 5849 says. The test at src/app/oauth-signature.tests.js:125 expects `foo=bar&foo=%C3%9F`, which is the raw order, so the model follows the tests and not the RFC.
- A JavaScript string may hold a lone UTF-16 surrogate, and `encodeURIComponent` (oauth-signer-old.js:134) and the RFC 3986 encoder then throw a URIError. Dafny's `char` is a Unicode scalar value, so such strings and that error are not modelled.
- Dictionaries hold strings. A field whose value is not a string (a number, an array) is not modelled.
- The new signer's `queryString`, `authorizationHeader` and `hmacKey` (oauth.js:52-59, 60-65, 70-74) call the legacy signer's functions, so the model reuses those functions.
- `oauthParameters` of oauth.js (26-41) is a copy of the legacy one, so it is modelled once, by `OAuthSignerOld.OAuthParameters`.

## Findings

| source | as written | input that shows it | evidently intended | confidence | as-written member | corrected member |
|---|---|---|---|---|---|---|
| oauth-signer-old.js:129-131 | Any method other than GET, POST and PUT is sent as `curl -X DELETE`. | method `HEAD`, which the page offers at ui.js:61 | `curl -X <method>`, as oauth.js:123-125 writes it | not executed | OAuthSignerOld.CurlCommand, shown by OAuthSigner.OldCurlHead and OAuthSigner.OldCurlAgreement | OAuthSigner.CurlCommand, with OAuthSigner.CurlCommandNamesMethod |
| oauth.js:84 | `signature` calls `oauthSignerOld.encodedBase64Signature()`, which the legacy signer does not define. It throws a TypeError before `return signatureNew` at line 103. `signedUrl` (line 108) and three of the four `curl` branches (lines 116, 121 and 124) call `signature` and throw too. | any signer, e.g. the page's defaults with method GET | `signature` returns `signatureNew`, and the comparison only logs | not executed | OAuthSigner.SignatureAsWritten, SignedUrlAsWritten and CurlAsWritten, shown by OAuthSigner.SignatureAsWrittenThrows and OAuthSigner.CurlAsWrittenOnlyWithBody | OAuthSigner.SignatureSignsBaseString, with OAuthSigner.Request and OAuthSigner.Curl |
| oauth.js:134 | `curl` calls `parameters.headersArray()`. The page's parameters (ui.js:9-47) define no such member, so this throws a TypeError after the request part is built. That makes even the one `curl` branch that avoids `signature` throw. | the page's parameters with method POST and a non-empty body | the command ends with a `-H` flag per named header of a header list the page keeps | not executed | OAuthSigner.CurlAsWritten with `OAuthSigner.HeadersArray(PageParameterMembers, …)`, shown by OAuthSigner.PageCurlThrows | OAuthSigner.Curl, with OAuthSigner.AppendHeaders and OAuthSigner.CurlOfExtendsRequest |
