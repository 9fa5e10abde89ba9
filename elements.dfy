/** The HTTP request method as the first element of the signature base string
    (section 3.4.1.1 of RFC 5849). */
module HttpMethodElement {
  import opened Wrappers
  import Text

  /** The method upper-cased; a null, undefined or empty method gives "". */
  function Get(httpMethod: Option<string>): (r: string)
    ensures |r| == |OrEmpty(httpMethod)|
    ensures httpMethod == None ==> r == ""
    ensures forall i :: 0 <= i < |r| ==> !Text.IsAsciiLower(r[i])
    ensures forall i :: 0 <= i < |r| ==> var c := OrEmpty(httpMethod)[i];
      if Text.IsAsciiLower(c) then r[i] as int == c as int - 32 else r[i] == c
  {
    Text.UpperCase(OrEmpty(httpMethod))
  }

  /** Normalising a normalised method changes nothing. */
  lemma GetIdempotent(httpMethod: Option<string>)
    ensures Get(Some(Get(httpMethod))) == Get(httpMethod)
  {
  }

  /** `a` and `b` agree character by character, except that a lower-case ASCII letter
      may stand where the other has its upper-case form. */
  predicate SameUpToCase(a: string, b: string) {
    && |a| == |b|
    && forall i :: 0 <= i < |a| ==>
      || a[i] == b[i]
      || (Text.IsAsciiLower(a[i]) && b[i] as int == a[i] as int - 32)
      || (Text.IsAsciiLower(b[i]) && a[i] as int == b[i] as int - 32)
  }

  /** Two methods give the same element exactly when they differ only in the case of
      their ASCII letters. */
  lemma GetIgnoresCase(a: string, b: string)
    ensures Get(Some(a)) == Get(Some(b)) <==> SameUpToCase(a, b)
  {
    var ra, rb := Get(Some(a)), Get(Some(b));
    if SameUpToCase(a, b) {
      forall i | 0 <= i < |a| ensures ra[i] == rb[i] {
      }
      assert ra == rb;
    }
    if ra == rb {
      forall i | 0 <= i < |a|
        ensures || a[i] == b[i]
                || (Text.IsAsciiLower(a[i]) && b[i] as int == a[i] as int - 32)
                || (Text.IsAsciiLower(b[i]) && a[i] as int == b[i] as int - 32)
      {
        assert ra[i] == rb[i];
      }
    }
  }
}

/** The base string URI of section 3.4.1.2 of RFC 5849. Splitting the URL text into its
    parts is the URL library's work; the model receives that split as a parameter and
    normalises the parts. */
module UrlElement {
  import opened Wrappers
  import Text

  /** A URL as the URL library splits it. */
  datatype UrlParts = UrlParts(
    scheme: Option<string>,
    host: string,
    port: Option<nat>,
    path: string,
    query: Option<string>,
    fragment: Option<string>)

  /** The URL library: it splits a non-empty URL text into its parts. */
  type UrlParser = string -> UrlParts

  /** 80 for http and 443 for https. */
  predicate IsDefaultPort(scheme: string, port: nat) {
    (scheme == "http" && port == 80) || (scheme == "https" && port == 443)
  }

  /** The parts a base string URI keeps: the scheme (http when missing) and the host in
      lower case, the port unless it is the scheme's default, the path as it is, and no
      query or fragment. */
  function Normalize(p: UrlParts): (n: UrlParts)
    ensures IsNormalized(n)
    ensures n.path == p.path
    ensures n.scheme == Some(Text.LowerCase(p.scheme.GetOr("http")))
    ensures n.host == Text.LowerCase(p.host)
    ensures n.port.Some? <==> p.port.Some? && !IsDefaultPort(n.scheme.value, p.port.value)
    ensures n.port.Some? ==> n.port == p.port
  {
    var scheme := Text.LowerCase(p.scheme.GetOr("http"));
    var port := if p.port.Some? && IsDefaultPort(scheme, p.port.value) then None else p.port;
    Text.LowerCaseIdempotent(p.scheme.GetOr("http"));
    Text.LowerCaseIdempotent(p.host);
    UrlParts(Some(scheme), Text.LowerCase(p.host), port, p.path, None, None)
  }

  /** Parts that normalisation leaves as they are. */
  predicate IsNormalized(p: UrlParts) {
    && p.scheme.Some?
    && Text.LowerCase(p.scheme.value) == p.scheme.value
    && Text.LowerCase(p.host) == p.host
    && (p.port.Some? ==> !IsDefaultPort(p.scheme.value, p.port.value))
    && p.query == None
    && p.fragment == None
  }

  /** Normalisation is idempotent, and its fixed points are exactly the normalised parts. */
  lemma NormalizeFixedPoints(p: UrlParts)
    ensures Normalize(Normalize(p)) == Normalize(p)
    ensures Normalize(p) == p <==> IsNormalized(p)
  {
  }

  /** `scheme://host[:port]path`. */
  function Render(p: UrlParts): (r: string)
    requires p.scheme.Some?
  {
    var port := if p.port.Some? then ":" + Text.Decimal(p.port.value) else "";
    p.scheme.value + "://" + p.host + port + p.path
  }

  /** The normalised URL; a null, undefined or empty URL gives "" without being parsed. */
  function Get(url: Option<string>, parse: UrlParser): (r: string)
    ensures OrEmpty(url) == "" <==> r == ""
  {
    if OrEmpty(url) == "" then "" else Render(Normalize(parse(OrEmpty(url))))
  }

  /** The query and the fragment never reach the element. */
  lemma QueryAndFragmentDropped(p: UrlParts, query: Option<string>, fragment: Option<string>)
    ensures Render(Normalize(p.(query := query, fragment := fragment))) == Render(Normalize(p))
  {
  }

  // ---------------------------------------------------------------------------
  // The normalisation vectors, over the parts the URL library returns for each URL
  // and the parts of the expected element.

  lemma LowerCaseExample()
    ensures Text.LowerCase("EXAMPLE.co.UK") == "example.co.uk"
    ensures Text.LowerCase("example.co.uk") == "example.co.uk"
    ensures Text.LowerCase("example.org") == "example.org"
    ensures Text.LowerCase("HTTP") == "http"
    ensures Text.LowerCase("http") == "http" && Text.LowerCase("https") == "https"
  {
    Text.LowerCaseOfLower("example.co.uk");
    Text.LowerCaseOfLower("example.org");
  }

  /** "http://example.co.uk" stays as it is; the authority and the scheme are
      lower-cased, and a trailing `/` is kept. */
  lemma NormalizeCaseVectors()
    ensures Normalize(UrlParts(Some("http"), "example.co.uk", None, "", None, None))
         == UrlParts(Some("http"), "example.co.uk", None, "", None, None)
    ensures Normalize(UrlParts(Some("http"), "EXAMPLE.co.UK", None, "/endpoint", None, None))
         == UrlParts(Some("http"), "example.co.uk", None, "/endpoint", None, None)
    ensures Normalize(UrlParts(Some("http"), "EXAMPLE.co.UK", None, "/endpoint/", None, None))
         == UrlParts(Some("http"), "example.co.uk", None, "/endpoint/", None, None)
    ensures Normalize(UrlParts(Some("HTTP"), "example.org", None, "", None, None))
         == UrlParts(Some("http"), "example.org", None, "", None, None)
  {
    LowerCaseExample();
  }

  /** The default ports 80 and 443 are dropped; other ports are kept. */
  lemma NormalizePortVectors()
    ensures Normalize(UrlParts(Some("http"), "example.org", Some(80), "", None, None))
         == UrlParts(Some("http"), "example.org", None, "", None, None)
    ensures Normalize(UrlParts(Some("https"), "example.org", Some(443), "", None, None))
         == UrlParts(Some("https"), "example.org", None, "", None, None)
    ensures Normalize(UrlParts(Some("https"), "example.org", None, "", None, None))
         == UrlParts(Some("https"), "example.org", None, "", None, None)
    ensures Normalize(UrlParts(Some("http"), "example.org", Some(8080), "", None, None))
         == UrlParts(Some("http"), "example.org", Some(8080), "", None, None)
    ensures Normalize(UrlParts(Some("https"), "example.org", Some(8080), "", None, None))
         == UrlParts(Some("https"), "example.org", Some(8080), "", None, None)
  {
    LowerCaseExample();
  }

  /** The query "?foo=bar" and the fragment "#anchor" are dropped. */
  lemma NormalizeQueryVectors()
    ensures Normalize(UrlParts(Some("http"), "example.org", None, "/", Some("foo=bar"), None))
         == UrlParts(Some("http"), "example.org", None, "/", None, None)
    ensures Normalize(UrlParts(Some("http"), "example.org", None, "/", None, Some("anchor")))
         == UrlParts(Some("http"), "example.org", None, "/", None, None)
  {
    LowerCaseExample();
  }

  /** Without a scheme, http is added; the port 100 is kept and 80 is dropped. */
  lemma NormalizeSchemeVectors()
    ensures Normalize(UrlParts(None, "example.org", None, "", None, None))
         == UrlParts(Some("http"), "example.org", None, "", None, None)
    ensures Normalize(UrlParts(None, "example.org", Some(100), "", None, None))
         == UrlParts(Some("http"), "example.org", Some(100), "", None, None)
    ensures Normalize(UrlParts(None, "example.org", Some(80), "", None, None))
         == UrlParts(Some("http"), "example.org", None, "", None, None)
  {
    LowerCaseExample();
  }

  /** A scheme after section 3.1 of RFC 3986: a letter, then letters, digits, `+`, `-`
      and `.`. */
  predicate IsScheme(s: string) {
    && |s| > 0
    && (Text.IsAsciiUpper(s[0]) || Text.IsAsciiLower(s[0]))
    && forall i :: 0 <= i < |s| ==>
         Text.IsAsciiUpper(s[i]) || Text.IsAsciiLower(s[i]) || Text.IsDigit(s[i]) || s[i] in "+-."
  }

  /** Parts that a URL written with the delimiters of RFC 3986 carries: a valid scheme,
      a non-empty host without `:`, `/`, `?`, `#` or `@`, and a path that is empty or
      starts with `/` and holds no `?` or `#`. */
  predicate Delimited(p: UrlParts) {
    && (p.scheme.Some? ==> IsScheme(p.scheme.value))
    && p.host != ""
    && ':' !in p.host && '/' !in p.host && '?' !in p.host && '#' !in p.host && '@' !in p.host
    && (p.path == "" || p.path[0] == '/')
    && '?' !in p.path && '#' !in p.path
  }

  /** Lower-casing keeps a scheme valid. */
  lemma LowerCaseKeepsScheme(s: string)
    requires IsScheme(s)
    ensures IsScheme(Text.LowerCase(s))
  {
  }

  /** A normalised, delimited URL is recovered from its rendering: the element loses
      nothing but the query and the fragment. */
  lemma RenderInjective(p: UrlParts, q: UrlParts)
    requires IsNormalized(p) && Delimited(p) && IsNormalized(q) && Delimited(q)
    requires Render(p) == Render(q)
    ensures p == q
  {
    var pp := if p.port.Some? then ":" + Text.Decimal(p.port.value) else "";
    var qp := if q.port.Some? then ":" + Text.Decimal(q.port.value) else "";
    NoColonInScheme(p.scheme.value);
    NoColonInScheme(q.scheme.value);
    Text.AppendAssoc(p.scheme.value + "://" + p.host, pp, p.path);
    Text.AppendAssoc(q.scheme.value + "://" + q.host, qp, q.path);
    PortOrPathStart(p);
    PortOrPathStart(q);
    SchemeHostRest(p.scheme.value, p.host, pp + p.path, q.scheme.value, q.host, qp + q.path);
    PortAndPath(p, q);
  }

  lemma NoColonInScheme(s: string)
    requires IsScheme(s)
    ensures ':' !in s
  {
  }

  /** `scheme://host` followed by a rest that starts with `:` or `/` splits back into
      its scheme, host and rest. */
  lemma SchemeHostRest(s1: string, h1: string, t1: string, s2: string, h2: string, t2: string)
    requires ':' !in s1 && ':' !in h1 && '/' !in h1 && (t1 == "" || t1[0] in {':', '/'})
    requires ':' !in s2 && ':' !in h2 && '/' !in h2 && (t2 == "" || t2[0] in {':', '/'})
    requires s1 + "://" + h1 + t1 == s2 + "://" + h2 + t2
    ensures s1 == s2 && h1 == h2 && t1 == t2
  {
    var r1, r2 := "://" + h1 + t1, "://" + h2 + t2;
    assert s1 + "://" + h1 + t1 == s1 + r1;
    assert s2 + "://" + h2 + t2 == s2 + r2;
    Text.SplitBefore(s1, r1, s2, r2, {':'});
    assert r1[3..] == h1 + t1 && r2[3..] == h2 + t2;
    Text.SplitBefore(h1, t1, h2, t2, {':', '/'});
  }

  /** What follows the host starts with `:` exactly when there is a port, and with `/`
      or nothing otherwise. */
  lemma PortOrPathStart(p: UrlParts)
    requires Delimited(p)
    ensures var pp := if p.port.Some? then ":" + Text.Decimal(p.port.value) else "";
      var rest := pp + p.path;
      && (rest == "" || rest[0] in {':', '/'})
      && (p.port.Some? <==> rest != "" && rest[0] == ':')
  {
  }

  /** The port text and the path are told apart by the path's leading `/`. */
  lemma PortAndPath(p: UrlParts, q: UrlParts)
    requires Delimited(p) && Delimited(q)
    requires var pp := if p.port.Some? then ":" + Text.Decimal(p.port.value) else "";
      var qp := if q.port.Some? then ":" + Text.Decimal(q.port.value) else "";
      pp + p.path == qp + q.path
    requires (p.port.Some? <==> q.port.Some?)
    ensures p.port == q.port && p.path == q.path
  {
    if p.port.Some? {
      var dp, dq := Text.Decimal(p.port.value), Text.Decimal(q.port.value);
      assert (":" + dp + p.path)[1..] == dp + p.path;
      assert (":" + dq + q.path)[1..] == dq + q.path;
      Text.SplitBefore(dp, p.path, dq, q.path, {'/'});
      Text.DecimalInjective(p.port.value, q.port.value);
    } else {
      assert "" + p.path == p.path && "" + q.path == q.path;
    }
  }

  /** A URL library that reads every rendered normalised, delimited URL back as its
      parts. */
  ghost predicate ReadsBack(parse: UrlParser) {
    forall p :: IsNormalized(p) && Delimited(p) ==> parse(Render(p)) == p
  }

  /** With such a library, and a URL whose parts are delimited, normalising the element
      again returns it unchanged. */
  lemma GetIdempotent(url: string, parse: UrlParser)
    requires ReadsBack(parse) && Delimited(parse(url))
    ensures Get(Some(Get(Some(url), parse)), parse) == Get(Some(url), parse)
  {
    var p := parse(url);
    NormalizeFixedPoints(p);
    if url != "" {
      var n := Normalize(p);
      if p.scheme.Some? {
        LowerCaseKeepsScheme(p.scheme.value);
      } else {
        assert IsScheme("http");
      }
      Text.LowerCaseAddsNoOther(p.host, ':');
      Text.LowerCaseAddsNoOther(p.host, '/');
      Text.LowerCaseAddsNoOther(p.host, '?');
      Text.LowerCaseAddsNoOther(p.host, '#');
      Text.LowerCaseAddsNoOther(p.host, '@');
      assert Delimited(n);
      assert parse(Render(n)) == n;
    }
  }

  // ---------------------------------------------------------------------------
  // A reference splitter: the URL library's reading of `scheme://host[:port]path?query#fragment`
  // after section 3 of RFC 3986 (no user information).

  /** The path ends at the first `?` or `#`, the query at the first `#` after it. */
  function SplitPathQuery(t: string): (string, Option<string>, Option<string>) {
    var e := Text.FirstIn(t, {'?', '#'});
    var path, after := t[..e], t[e..];
    if after == "" then (path, None, None)
    else if after[0] == '#' then (path, None, Some(after[1..]))
    else
      var f := Text.FirstIn(after, {'#'});
      assert f > 0;
      (path, Some(after[1..f]), if f == |after| then None else Some(after[f + 1..]))
  }

  /** The host ends at the first `:`, `/`, `?` or `#`; a `:` then starts the port, which
      ends at the first `/`, `?` or `#` and is kept only when it is a number. */
  function SplitAuthority(a: string): (string, Option<nat>, string) {
    var h := Text.FirstIn(a, {':', '/', '?', '#'});
    var host, after := a[..h], a[h..];
    if after != "" && after[0] == ':' then
      var r := after[1..];
      var e := Text.FirstIn(r, {'/', '?', '#'});
      var digits := r[..e];
      (host, if Text.IsDigits(digits) then Some(Text.DigitsValue(digits)) else None, r[e..])
    else (host, None, after)
  }

  /** The scheme ends at the first `:` when `//` follows it; without one the whole text
      is the authority and what follows it. */
  function SplitScheme(url: string): (Option<string>, string) {
    var c := Text.FirstIn(url, {':'});
    if c + 3 <= |url| && url[c..c + 3] == "://" then (Some(url[..c]), url[c + 3..])
    else (None, url)
  }

  /** The parts of a URL: its scheme, then the authority's host and port, then the path,
      query and fragment. */
  function SplitUrl(url: string): UrlParts {
    var (scheme, rest) := SplitScheme(url);
    var (host, port, tail) := SplitAuthority(rest);
    var (path, query, fragment) := SplitPathQuery(tail);
    UrlParts(scheme, host, port, path, query, fragment)
  }

  /** What follows a path without `?` or `#` is split as it would be alone. */
  lemma SplitPathQueryAppend(path: string, tail: string)
    requires '?' !in path && '#' !in path && (tail == "" || tail[0] in {'?', '#'})
    ensures SplitPathQuery(path + tail) == (path, SplitPathQuery(tail).1, SplitPathQuery(tail).2)
  {
    var t := path + tail;
    Text.FirstInIs(t, {'?', '#'}, |path|);
    Text.FirstInIs(tail, {'?', '#'}, 0);
    assert t[..|path|] == path && t[|path|..] == tail && tail[0..] == tail;
  }

  /** `?query` with no `#` in it is a query and no fragment. */
  lemma SplitQueryOnly(q: string)
    requires '#' !in q
    ensures SplitPathQuery("?" + q) == ("", Some(q), None)
  {
    var t := "?" + q;
    Text.FirstInIs(t, {'?', '#'}, 0);
    Text.FirstInIs(t, {'#'}, |t|);
    assert t[0..] == t && t[1..|t|] == q;
  }

  /** A delimited host, port and the rest of the URL split back into themselves. */
  lemma SplitAuthorityOf(host: string, port: Option<nat>, t: string)
    requires ':' !in host && '/' !in host && '?' !in host && '#' !in host
    requires t == "" || t[0] in {'/', '?', '#'}
    ensures var pp := if port.Some? then ":" + Text.Decimal(port.value) else "";
      SplitAuthority(host + pp + t) == (host, port, t)
  {
    var pp := if port.Some? then ":" + Text.Decimal(port.value) else "";
    var a := host + pp + t;
    Text.AppendAssoc(host, pp, t);
    Text.FirstInIs(a, {':', '/', '?', '#'}, |host|);
    assert a[..|host|] == host && a[|host|..] == pp + t;
    if port.Some? {
      assert (pp + t)[1..] == Text.Decimal(port.value) + t;
      SplitPortOf(port.value, t);
    }
  }

  /** A decimal port followed by a rest starting with `/`, `?` or `#` is read back as
      that port and rest. */
  lemma SplitPortOf(n: nat, t: string)
    requires t == "" || t[0] in {'/', '?', '#'}
    ensures var r := Text.Decimal(n) + t;
      var e := Text.FirstIn(r, {'/', '?', '#'});
      && e == |Text.Decimal(n)| && r[..e] == Text.Decimal(n) && r[e..] == t
      && Text.IsDigits(r[..e]) && Text.DigitsValue(r[..e]) == n
  {
    var d := Text.Decimal(n);
    var r := d + t;
    Text.FirstInIs(r, {'/', '?', '#'}, |d|);
    assert r[..|d|] == d && r[|d|..] == t;
    Text.DecimalValue(n);
  }

  /** A scheme without `:` ends at the `://` after it. */
  lemma SplitSchemeOf(s: string, rest: string)
    requires ':' !in s
    ensures SplitScheme(s + "://" + rest) == (Some(s), rest)
  {
    var url := s + "://" + rest;
    Text.FirstInIs(url, {':'}, |s|);
    assert url[|s|..|s| + 3] == "://" && url[..|s|] == s && url[|s| + 3..] == rest;
  }

  /** A rendered delimited URL followed by a query or fragment splits into its parts
      and what the splitter reads in that tail. */
  lemma SplitUrlOf(p: UrlParts, tail: string)
    requires p.scheme.Some? && Delimited(p) && (tail == "" || tail[0] in {'?', '#'})
    ensures SplitUrl(Render(p) + tail)
         == p.(query := SplitPathQuery(tail).1, fragment := SplitPathQuery(tail).2)
  {
    var s := p.scheme.value;
    var pp := if p.port.Some? then ":" + Text.Decimal(p.port.value) else "";
    var rest := p.host + pp + (p.path + tail);
    assert Render(p) + tail == s + "://" + rest;
    NoColonInScheme(s);
    SplitSchemeOf(s, rest);
    SplitAuthorityOf(p.host, p.port, p.path + tail);
    SplitPathQueryAppend(p.path, tail);
  }

  /** The reference splitter reads every rendered normalised, delimited URL back as its
      parts. */
  lemma SplitUrlReadsBack()
    ensures ReadsBack(SplitUrl)
  {
    forall p | IsNormalized(p) && Delimited(p)
      ensures SplitUrl(Render(p)) == p
    {
      SplitUrlOf(p, "");
      assert Render(p) + "" == Render(p);
    }
  }

  /** A URL without a scheme ("example.org:100") is read as a host, a port and a path,
      with no scheme; normalisation then supplies http. */
  lemma SplitUrlWithoutScheme(p: UrlParts)
    requires p.scheme == None && p.query == None && p.fragment == None
    requires Delimited(p) && ':' !in p.path
    ensures var pp := if p.port.Some? then ":" + Text.Decimal(p.port.value) else "";
      SplitUrl(p.host + pp + p.path) == p
  {
    var pp := if p.port.Some? then ":" + Text.Decimal(p.port.value) else "";
    var url := p.host + pp + p.path;
    Text.AppendAssoc(p.host, pp, p.path);
    if p.port.Some? {
      Text.FirstInIs(url, {':'}, |p.host|);
      assert |p.host| + 1 < |url| ==> url[|p.host| + 1] == Text.Decimal(p.port.value)[0];
    } else {
      Text.FirstInIs(url, {':'}, |url|);
    }
    assert SplitScheme(url) == (None, url);
    SplitAuthorityOf(p.host, p.port, p.path);
    SplitPathQueryAppend(p.path, "");
    assert p.path + "" == p.path;
  }

  /** It cuts the query off at `?` ("http://h/a?b" is the path "/a" with the query
      "b"), and the element then drops it. */
  lemma SplitUrlCutsQuery(p: UrlParts, q: string)
    requires IsNormalized(p) && Delimited(p) && '#' !in q
    ensures SplitUrl(Render(p) + "?" + q) == p.(query := Some(q))
    ensures Get(Some(Render(p) + "?" + q), SplitUrl) == Render(p)
  {
    var u := Render(p) + "?" + q;
    var withQuery := p.(query := Some(q));
    SplitQueryOnly(q);
    SplitUrlOf(p, "?" + q);
    assert u == Render(p) + ("?" + q);
    assert SplitUrl(u) == withQuery;
    GetParsed(u, SplitUrl);
    assert withQuery == p.(query := Some(q), fragment := None);
    QueryAndFragmentDropped(p, Some(q), None);
    NormalizeFixedPoints(p);
  }

  /** The element of a non-empty URL is the rendering of its normalised parts. */
  lemma GetParsed(url: string, parse: UrlParser)
    requires url != ""
    ensures Get(Some(url), parse) == Render(Normalize(parse(url)))
  {
  }
}

