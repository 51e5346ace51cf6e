/** OAuth 1.0 HMAC-SHA1 request signing as `generateSignature` and
    `buildAuthorizationHeader` perform it (RFC 5849, sections 3.4.1 to 3.5.1),
    stated as functions. The client's methods that build these values with
    loops are proved equal to them. */
module OAuth {
  import opened Text
  import opened PhpArray
  import opened UrlEncoding
  import opened Builtins

  /** The names and fixed values of the OAuth protocol parameters. */
  const OAUTH_PREFIX: ByteString := "oauth_"
  const CONSUMER_KEY_PARAM: ByteString := "oauth_consumer_key"
  const SIGNATURE_METHOD_PARAM: ByteString := "oauth_signature_method"
  const TIMESTAMP_PARAM: ByteString := "oauth_timestamp"
  const NONCE_PARAM: ByteString := "oauth_nonce"
  const VERSION_PARAM: ByteString := "oauth_version"
  const SIGNATURE_PARAM: ByteString := "oauth_signature"
  const HMAC_SHA1: ByteString := "HMAC-SHA1"
  const OAUTH_VERSION: ByteString := "1.0"

  /** The URL pieces `generateSignature` supplies or compares against. */
  const HTTP: ByteString := "http"
  const HTTPS: ByteString := "https"
  const DEFAULT_HOST: ByteString := "localhost"
  const SCHEME_SEPARATOR: ByteString := "://"
  const PORT_SEPARATOR: ByteString := ":"
  const PATH_SEPARATOR: ByteString := "/"

  /** The separators of the parameter string, the base string and the key. */
  const PAIR_SEPARATOR: ByteString := "="
  const PARAM_SEPARATOR: ByteString := "&"

  /** The pieces of the Authorization header. */
  const OAUTH_SCHEME: ByteString := "OAuth "
  const PART_SEPARATOR: ByteString := ", "
  const VALUE_OPEN: ByteString := "=\""
  const QUOTE: ByteString := "\""

  // ---------------------------------------------------------------------------
  // Base string URI (RFC 5849 section 3.4.1.2, with the code's own deviations)
  // ---------------------------------------------------------------------------

  /** `$parsedUrl['scheme'] ?? 'http'`. */
  function Scheme(u: ParsedUrl): ByteString
  {
    if u.scheme.Some? then u.scheme.value else HTTP
  }

  /** `$parsedUrl['host'] ?? 'localhost'`. */
  function Host(u: ParsedUrl): ByteString
  {
    if u.host.Some? then u.host.value else DEFAULT_HOST
  }

  /** The path with every leading slash removed; empty when the URL has none. */
  function TrimmedPath(u: ParsedUrl): ByteString
  {
    if u.path.Some? then LTrimSlash(u.path.value) else []
  }

  /** `scheme://host`. */
  function Authority(u: ParsedUrl): ByteString
  {
    Scheme(u) + SCHEME_SEPARATOR + Host(u)
  }

  /** The port is written only when present and not the default of its scheme:
      80 for `http`, 443 for `https`. For any other scheme it is never written. */
  predicate PortShown(u: ParsedUrl)
  {
    u.port.Some? &&
    ((Scheme(u) == HTTP && u.port.value != 80) || (Scheme(u) == HTTPS && u.port.value != 443))
  }

  /** `:port` when the port is written, nothing otherwise. */
  function PortSuffix(u: ParsedUrl): (r: ByteString)
    ensures r == [] <==> !PortShown(u)
    ensures PortShown(u) ==> |r| > 1 && r[0] == ':' && r[1..] == Decimal(u.port.value)
  {
    if PortShown(u) then PORT_SEPARATOR + Decimal(u.port.value) else []
  }

  /** The normalised URL that enters the signature base string: the authority,
      the port only when `PortShown`, then one slash and the path stripped of
      all its leading slashes. */
  function NormalizeUrl(u: ParsedUrl): (r: ByteString)
    ensures StartsWith(r, Authority(u))
    ensures |r| > |Authority(u)| && (r[|Authority(u)|] == ':' <==> PortShown(u))
    ensures PortShown(u) ==> StartsWith(r[|Authority(u)| + 1..], Decimal(u.port.value) + PATH_SEPARATOR)
    ensures |r| > |TrimmedPath(u)| && r[|r| - |TrimmedPath(u)| - 1..] == PATH_SEPARATOR + TrimmedPath(u)
    ensures TrimmedPath(u) == [] || TrimmedPath(u)[0] != '/'
  {
    var a, p, t := Authority(u), PortSuffix(u), TrimmedPath(u);
    ConcatLayout(a, p, t);
    PortLayout(u, a, t);
    a + p + PATH_SEPARATOR + t
  }

  lemma PortLayout(u: ParsedUrl, a: ByteString, t: ByteString)
    ensures PortShown(u) ==> (a + PortSuffix(u) + PATH_SEPARATOR + t)[|a| + 1..] == Decimal(u.port.value) + PATH_SEPARATOR + t
  {
    if PortShown(u) {
      var d := Decimal(u.port.value);
      assert a + PortSuffix(u) + PATH_SEPARATOR + t == a + [PORT_SEPARATOR[0]] + (d + PATH_SEPARATOR + t);
    }
  }

  lemma ConcatLayout(a: ByteString, p: ByteString, t: ByteString)
    ensures var r := a + p + PATH_SEPARATOR + t;
            |r| == |a| + |p| + 1 + |t| && r[..|a|] == a && r[|a|..] == p + PATH_SEPARATOR + t
            && r[|r| - |t| - 1..] == PATH_SEPARATOR + t
  {
  }

  /** An explicit default port signs exactly like no port at all, and a port on
      any scheme other than `http` and `https` is ignored. */
  lemma DefaultPortElided(u: ParsedUrl)
    requires u.port.Some?
    requires (Scheme(u) == HTTP && u.port.value == 80)
          || (Scheme(u) == HTTPS && u.port.value == 443)
          || (Scheme(u) != HTTP && Scheme(u) != HTTPS)
    ensures NormalizeUrl(u) == NormalizeUrl(u.(port := None))
  {
  }

  /** Two URLs that differ only in a port that is written sign differently:
      the port can be read back from the normalised URL. */
  lemma ShownPortDistinguishes(u: ParsedUrl, p: nat, q: nat)
    requires PortShown(u.(port := Some(p))) && PortShown(u.(port := Some(q)))
    requires NormalizeUrl(u.(port := Some(p))) == NormalizeUrl(u.(port := Some(q)))
    ensures p == q
  {
    var up, uq := u.(port := Some(p)), u.(port := Some(q));
    var a := Authority(u);
    AuthorityIgnoresPort(u, p);
    AuthorityIgnoresPort(u, q);
    var x := NormalizeUrl(up)[|a| + 1..];
    assert StartsWith(x, Decimal(p) + PATH_SEPARATOR);
    assert StartsWith(x, Decimal(q) + PATH_SEPARATOR);
    DigitPrefixUnique(x, Decimal(p), Decimal(q));
    DecimalInjective(p, q);
  }

  lemma AuthorityIgnoresPort(u: ParsedUrl, p: nat)
    ensures Authority(u.(port := Some(p))) == Authority(u)
  {
  }

  /** A run of digits closed by `/` is determined by the string it starts. */
  lemma DigitPrefixUnique(x: ByteString, d1: ByteString, d2: ByteString)
    requires forall i | 0 <= i < |d1| :: IsDigit(d1[i])
    requires forall i | 0 <= i < |d2| :: IsDigit(d2[i])
    requires StartsWith(x, d1 + PATH_SEPARATOR) && StartsWith(x, d2 + PATH_SEPARATOR)
    ensures d1 == d2
  {
    assert x == d1 + PATH_SEPARATOR + x[|d1| + 1..];
    assert x == d2 + PATH_SEPARATOR + x[|d2| + 1..];
    DigitRunOf(d1, x[|d1| + 1..]);
    DigitRunOf(d2, x[|d2| + 1..]);
    assert d1 == x[..|d1|] == d2;
  }

  /** The number of leading digits. */
  function DigitRun(x: ByteString): nat
  {
    if x != [] && IsDigit(x[0]) then 1 + DigitRun(x[1..]) else 0
  }

  lemma {:induction false} DigitRunOf(d: ByteString, rest: ByteString)
    requires forall i | 0 <= i < |d| :: IsDigit(d[i])
    ensures DigitRun(d + PATH_SEPARATOR + rest) == |d|
  {
    if d != [] {
      assert (d + PATH_SEPARATOR + rest)[1..] == d[1..] + PATH_SEPARATOR + rest;
      DigitRunOf(d[1..], rest);
    } else {
      assert (d + PATH_SEPARATOR + rest)[0] == '/';
    }
  }

  /** Leading slashes of the path do not matter. */
  lemma LeadingSlashesIgnored(u: ParsedUrl, slashes: ByteString)
    requires u.path.Some?
    requires forall i | 0 <= i < |slashes| :: slashes[i] == '/'
    ensures NormalizeUrl(u) == NormalizeUrl(u.(path := Some(slashes + u.path.value)))
  {
    var v := u.(path := Some(slashes + u.path.value));
    LTrimSlashPrefix(slashes, u.path.value);
    assert TrimmedPath(v) == TrimmedPath(u);
    assert Scheme(v) == Scheme(u) && Host(v) == Host(u) && v.port == u.port;
    assert PortSuffix(v) == PortSuffix(u);
  }

  /** A missing path signs like the root: `scheme://host/`. */
  lemma MissingPathIsRoot(u: ParsedUrl)
    requires u.path.None?
    ensures NormalizeUrl(u) == Authority(u) + PortSuffix(u) + PATH_SEPARATOR
    ensures NormalizeUrl(u) == NormalizeUrl(u.(path := Some([])))
  {
    var z := u.(path := Some([]));
    assert Scheme(z) == Scheme(u) && Host(z) == Host(u) && z.port == u.port;
    assert PortSuffix(z) == PortSuffix(u);
    assert TrimmedPath(z) == [] == TrimmedPath(u);
  }

  lemma {:induction false} LTrimSlashPrefix(s: ByteString, p: ByteString)
    requires forall i | 0 <= i < |s| :: s[i] == '/'
    ensures LTrimSlash(s + p) == LTrimSlash(p)
  {
    if s != [] {
      assert (s + p)[1..] == s[1..] + p;
      LTrimSlashPrefix(s[1..], p);
    } else {
      assert s + p == p;
    }
  }

  // ---------------------------------------------------------------------------
  // Request parameters (RFC 5849 section 3.4.1.3.2)
  // ---------------------------------------------------------------------------

  /** The query component as `parse_str` decodes it; empty when there is none. */
  function QueryParams(b: Builtins, u: ParsedUrl): Assoc<ByteString>
  {
    if u.query.Some? then b.parseQuery(u.query.value) else []
  }

  /** `array_merge($params, $queryParams)` without `oauth_signature`. */
  function AllParams(params: Assoc<ByteString>, query: Assoc<ByteString>): (r: Assoc<ByteString>)
    ensures Get(r, SIGNATURE_PARAM) == None
    ensures forall k | k != SIGNATURE_PARAM ::
      Get(r, k) == if Get(query, k).Some? then Get(query, k) else Get(params, k)
  {
    MergeGet(params, query);
    Unset(Merge(params, query), SIGNATURE_PARAM)
  }

  /** `urlEncode(key) . '=' . urlEncode(value)`. */
  function EncodePair(e: (ByteString, ByteString)): ByteString
  {
    UrlEncode(e.0) + PAIR_SEPARATOR + UrlEncode(e.1)
  }

  function EncodePairs(s: seq<(ByteString, ByteString)>): seq<ByteString>
  {
    seq(|s|, i requires 0 <= i < |s| => EncodePair(s[i]))
  }

  /** The normalised parameter string: the entries sorted by key, each written
      `key=value` with both sides percent-encoded, joined by `&`. */
  function ParamString(m: Assoc<ByteString>): ByteString
  {
    Join(PARAM_SEPARATOR, EncodePairs(KSort(m)))
  }

  /** The parameter string depends only on which (key, value) pairs are present,
      never on the order they were inserted in. */
  lemma ParamStringOrderIndependent(m: Assoc<ByteString>, n: Assoc<ByteString>)
    requires forall e :: e in m <==> e in n
    ensures ParamString(m) == ParamString(n)
  {
    KSortOrderIndependent(m, n);
  }

  /** Reads a parameter string back: split on `&`, then on the first `=`, and
      percent-decode both sides. */
  function ParseParamString(s: ByteString): Option<seq<(ByteString, ByteString)>>
  {
    if s == [] then Some([]) else ParsePairs(s)
  }

  function ParsePairs(s: ByteString): Option<seq<(ByteString, ByteString)>>
    decreases |s|
  {
    var (p, after) := SplitFirst(s, '&');
    var (k, v) := SplitFirst(p, '=');
    if v.None? then None
    else
      var e := (PercentDecode(k), PercentDecode(v.value));
      if after.None? then Some([e])
      else
        var more := ParsePairs(after.value);
        if more.None? then None else Some([e] + more.value)
  }

  lemma {:induction false} ParsePairsJoin(s: seq<(ByteString, ByteString)>)
    requires s != []
    ensures ParsePairs(Join(PARAM_SEPARATOR, EncodePairs(s))) == Some(s)
  {
    var e := s[0];
    var p := EncodePair(e);
    NoDelimiters(e.0);
    NoDelimiters(e.1);
    assert '&' !in p;
    SplitAtSeparator(UrlEncode(e.0), PAIR_SEPARATOR, UrlEncode(e.1));
    DecodeEncode(e.0);
    DecodeEncode(e.1);
    if |s| == 1 {
      assert Join(PARAM_SEPARATOR, EncodePairs(s)) == p;
      SplitFirstAbsent(p, '&');
      assert s == [e];
    } else {
      assert EncodePairs(s)[1..] == EncodePairs(s[1..]);
      var rest := Join(PARAM_SEPARATOR, EncodePairs(s[1..]));
      assert Join(PARAM_SEPARATOR, EncodePairs(s)) == p + PARAM_SEPARATOR + rest;
      SplitAtSeparator(p, PARAM_SEPARATOR, rest);
      ParsePairsJoin(s[1..]);
      assert s == [e] + s[1..];
    }
  }

  /** The parameter string loses nothing: it reads back as the sorted entries. */
  lemma ParamStringRoundTrip(m: Assoc<ByteString>)
    ensures ParseParamString(ParamString(m)) == Some(KSort(m))
  {
    var s := KSort(m);
    if s != [] {
      ParsePairsJoin(s);
      assert |EncodePair(s[0])| > 0;
      assert ParamString(m) != [] by {
        if |s| > 1 {
          assert ParamString(m) == EncodePair(s[0]) + PARAM_SEPARATOR + Join(PARAM_SEPARATOR, EncodePairs(s)[1..]);
        }
      }
    }
  }

  // ---------------------------------------------------------------------------
  // Signature base string and signing key (RFC 5849 sections 3.4.1.1, 3.4.2)
  // ---------------------------------------------------------------------------

  /** `urlEncode(method) & urlEncode(url) & urlEncode(params)`. */
  function BaseString(httpMethod: ByteString, normalizedUrl: ByteString, paramString: ByteString): ByteString
  {
    UrlEncode(httpMethod) + PARAM_SEPARATOR + UrlEncode(normalizedUrl) + PARAM_SEPARATOR + UrlEncode(paramString)
  }

  /** Since no encoded component holds a raw `&`, the base string has exactly two,
      and splitting on them recovers the three components. */
  lemma BaseStringSplits(httpMethod: ByteString, normalizedUrl: ByteString, paramString: ByteString)
    ensures Count(BaseString(httpMethod, normalizedUrl, paramString), '&') == 2
    ensures var (a, rest) := SplitFirst(BaseString(httpMethod, normalizedUrl, paramString), '&');
            rest.Some? && PercentDecode(a) == httpMethod &&
            var (b, c) := SplitFirst(rest.value, '&');
            c.Some? && PercentDecode(b) == normalizedUrl && PercentDecode(c.value) == paramString
  {
    var em, eu, ep := UrlEncode(httpMethod), UrlEncode(normalizedUrl), UrlEncode(paramString);
    NoDelimiters(httpMethod);
    NoDelimiters(normalizedUrl);
    NoDelimiters(paramString);
    CountAbsent(em, '&');
    CountAbsent(eu, '&');
    CountAbsent(ep, '&');
    var tail := eu + PARAM_SEPARATOR + ep;
    assert BaseString(httpMethod, normalizedUrl, paramString) == em + PARAM_SEPARATOR + tail;
    SplitAtSeparator(em, PARAM_SEPARATOR, tail);
    SplitAtSeparator(eu, PARAM_SEPARATOR, ep);
    DecodeEncode(httpMethod);
    DecodeEncode(normalizedUrl);
    DecodeEncode(paramString);
  }

  /** Equal base strings come only from equal components. */
  lemma BaseStringInjective(m1: ByteString, u1: ByteString, p1: ByteString, m2: ByteString, u2: ByteString, p2: ByteString)
    requires BaseString(m1, u1, p1) == BaseString(m2, u2, p2)
    ensures m1 == m2 && u1 == u2 && p1 == p2
  {
    BaseStringSplits(m1, u1, p1);
    BaseStringSplits(m2, u2, p2);
  }

  /** `urlEncode(consumerSecret) . '&'`: one-legged, so the token secret is empty. */
  function SigningKey(secret: ByteString): (r: ByteString)
    ensures |r| >= 1 && r[|r| - 1] == '&' && Count(r, '&') == 1
    ensures PercentDecode(r[..|r| - 1]) == secret
  {
    var e := UrlEncode(secret);
    NoDelimiters(secret);
    CountAbsent(e, '&');
    SplitAtSeparator(e, PARAM_SEPARATOR, []);
    DecodeEncode(secret);
    assert e + PARAM_SEPARATOR + [] == e + PARAM_SEPARATOR;
    assert (e + PARAM_SEPARATOR)[..|e|] == e;
    e + PARAM_SEPARATOR
  }

  /** The base string the client signs for a request to `url`. */
  function SignatureBase(b: Builtins, httpMethod: ByteString, url: ByteString, params: Assoc<ByteString>): ByteString
  {
    var u := b.parseUrl(url);
    BaseString(httpMethod, NormalizeUrl(u), ParamString(AllParams(params, QueryParams(b, u))))
  }

  /** `base64_encode(hash_hmac('sha1', base, key, true))`. */
  function Signature(b: Builtins, httpMethod: ByteString, url: ByteString, params: Assoc<ByteString>, secret: ByteString): ByteString
  {
    b.base64(b.hmacSha1(SignatureBase(b, httpMethod, url, params), SigningKey(secret)))
  }

  /** The signature never depends on the order of the parameters: only on which
      pairs are present once the query has been merged in. */
  lemma SignatureOrderIndependent(b: Builtins, httpMethod: ByteString, url: ByteString,
                                  p1: Assoc<ByteString>, p2: Assoc<ByteString>, secret: ByteString)
    requires var q := QueryParams(b, b.parseUrl(url));
             forall e :: e in AllParams(p1, q) <==> e in AllParams(p2, q)
    ensures Signature(b, httpMethod, url, p1, secret) == Signature(b, httpMethod, url, p2, secret)
  {
    var q := QueryParams(b, b.parseUrl(url));
    ParamStringOrderIndependent(AllParams(p1, q), AllParams(p2, q));
  }

  // ---------------------------------------------------------------------------
  // Authorization header (RFC 5849 section 3.5.1)
  // ---------------------------------------------------------------------------

  /** `strpos($key, 'oauth_') === 0`. */
  predicate IsOAuthKey(k: ByteString)
  {
    StartsWith(k, OAUTH_PREFIX)
  }

  /** The entries whose key starts with `oauth_`, in their order. */
  function OAuthEntries(m: seq<(ByteString, ByteString)>): (r: seq<(ByteString, ByteString)>)
    ensures |r| <= |m|
    ensures forall i | 0 <= i < |r| :: IsOAuthKey(r[i].0)
  {
    if m == [] then []
    else
      var last := m[|m| - 1];
      var init := m[..|m| - 1];
      OAuthEntries(init) + if IsOAuthKey(last.0) then [last] else []
  }

  /** The header keeps exactly the entries whose key starts with `oauth_`. */
  lemma {:induction false} OAuthEntriesMembers(m: seq<(ByteString, ByteString)>)
    ensures forall e | e in OAuthEntries(m) :: e in m && IsOAuthKey(e.0)
    ensures forall e | e in m && IsOAuthKey(e.0) :: e in OAuthEntries(m)
  {
    if m != [] {
      var last := m[|m| - 1];
      var init := m[..|m| - 1];
      OAuthEntriesMembers(init);
      assert m == init + [last];
    }
  }

  /** An array whose every key starts with `oauth_` goes into the header whole. */
  lemma {:induction false} AllOAuthEntries(m: seq<(ByteString, ByteString)>)
    requires forall i | 0 <= i < |m| :: IsOAuthKey(m[i].0)
    ensures OAuthEntries(m) == m
  {
    if m != [] {
      var init := m[..|m| - 1];
      assert IsOAuthKey(m[|m| - 1].0);
      AllOAuthEntries(init);
      assert m == init + [m[|m| - 1]];
    }
  }

  /** `key="value"`, both percent-encoded. */
  function HeaderPart(e: (ByteString, ByteString)): ByteString
  {
    UrlEncode(e.0) + VALUE_OPEN + UrlEncode(e.1) + QUOTE
  }

  function HeaderParts(s: seq<(ByteString, ByteString)>): seq<ByteString>
  {
    seq(|s|, i requires 0 <= i < |s| => HeaderPart(s[i]))
  }

  /** `'OAuth ' . implode(', ', $headerParts)`. */
  function AuthorizationHeader(m: seq<(ByteString, ByteString)>): ByteString
  {
    OAUTH_SCHEME + Join(PART_SEPARATOR, HeaderParts(OAuthEntries(m)))
  }

  /** Reads an Authorization header back: `OAuth `, then `key="value"` parts
      separated by `, `, each side percent-decoded. */
  function ParseAuthorizationHeader(h: ByteString): Option<seq<(ByteString, ByteString)>>
  {
    if !StartsWith(h, OAUTH_SCHEME) then None
    else if h[6..] == [] then Some([])
    else ParseHeaderParts(h[6..])
  }

  function ParseHeaderPart(p: ByteString): Option<(ByteString, ByteString)>
  {
    var (k, rest) := SplitFirst(p, '=');
    if rest.None? then None
    else
      var q := rest.value;
      if |q| >= 2 && q[0] == '"' && q[|q| - 1] == '"' then
        Some((PercentDecode(k), PercentDecode(q[1..|q| - 1])))
      else None
  }

  function ParseHeaderParts(s: ByteString): Option<seq<(ByteString, ByteString)>>
    decreases |s|
  {
    var (p, after) := SplitFirst(s, ',');
    var e := ParseHeaderPart(p);
    if e.None? then None
    else if after.None? then Some([e.value])
    else
      var a := after.value;
      if |a| >= 1 && a[0] == ' ' then
        var more := ParseHeaderParts(a[1..]);
        if more.None? then None else Some([e.value] + more.value)
      else None
  }

  lemma ParseHeaderPartOf(e: (ByteString, ByteString))
    ensures ',' !in HeaderPart(e) && |HeaderPart(e)| >= 3
    ensures ParseHeaderPart(HeaderPart(e)) == Some(e)
  {
    NoDelimiters(e.0);
    NoDelimiters(e.1);
    ParseQuoted(UrlEncode(e.0), UrlEncode(e.1));
    DecodeEncode(e.0);
    DecodeEncode(e.1);
  }

  /** `key="value"` with no `=` in the key and no comma anywhere reads back
      as the decoded key and value. */
  lemma ParseQuoted(k: ByteString, v: ByteString)
    requires '=' !in k && ',' !in k && ',' !in v
    ensures ',' !in k + VALUE_OPEN + v + QUOTE && |k + VALUE_OPEN + v + QUOTE| >= 3
    ensures ParseHeaderPart(k + VALUE_OPEN + v + QUOTE) == Some((PercentDecode(k), PercentDecode(v)))
  {
    var q := QUOTE + v + QUOTE;
    assert VALUE_OPEN == [VALUE_OPEN[0]] + QUOTE;
    assert k + VALUE_OPEN + v + QUOTE == k + [VALUE_OPEN[0]] + q;
    SplitFirstAt(k, VALUE_OPEN[0], q);
    assert q[1..|q| - 1] == v;
  }

  /** A part free of commas, then `, `, then the rest: the part is read and
      the reading goes on after the separator. */
  lemma ParseHeaderPartsCons(p: ByteString, rest: ByteString)
    requires ',' !in p && ParseHeaderPart(p).Some?
    ensures var more := ParseHeaderParts(rest);
            ParseHeaderParts(p + PART_SEPARATOR + rest) ==
              if more.None? then None else Some([ParseHeaderPart(p).value] + more.value)
  {
    var tail := PART_SEPARATOR[1..] + rest;
    assert p + PART_SEPARATOR + rest == p + [PART_SEPARATOR[0]] + tail;
    SplitFirstAt(p, PART_SEPARATOR[0], tail);
    assert tail[1..] == rest;
  }

  lemma ParseHeaderPartsJoin(s: seq<(ByteString, ByteString)>)
    requires s != []
    ensures ParseHeaderParts(Join(PART_SEPARATOR, HeaderParts(s))) == Some(s)
  {
    var parts := HeaderParts(s);
    forall i | 0 <= i < |s| ensures ',' !in parts[i] && ParseHeaderPart(parts[i]) == Some(s[i]) {
      ParseHeaderPartOf(s[i]);
    }
    ParseJoinedParts(parts, s);
  }

  /** Comma-free parts joined by `, ` read back as the entries each part reads as. */
  lemma {:induction false} ParseJoinedParts(parts: seq<ByteString>, s: seq<(ByteString, ByteString)>)
    requires |parts| == |s| > 0
    requires forall i | 0 <= i < |s| :: ',' !in parts[i] && ParseHeaderPart(parts[i]) == Some(s[i])
    ensures ParseHeaderParts(Join(PART_SEPARATOR, parts)) == Some(s)
  {
    if |s| == 1 {
      SplitFirstAbsent(parts[0], ',');
      assert [s[0]] == s;
    } else {
      var rest := Join(PART_SEPARATOR, parts[1..]);
      assert Join(PART_SEPARATOR, parts) == parts[0] + PART_SEPARATOR + rest;
      ParseHeaderPartsCons(parts[0], rest);
      ParseJoinedParts(parts[1..], s[1..]);
      assert [s[0]] + s[1..] == s;
    }
  }

  /** The header loses nothing: it parses back to exactly the `oauth_` entries,
      in order, with their values un-encoded. */
  lemma AuthorizationHeaderRoundTrip(m: seq<(ByteString, ByteString)>)
    ensures StartsWith(AuthorizationHeader(m), OAUTH_SCHEME)
    ensures ParseAuthorizationHeader(AuthorizationHeader(m)) == Some(OAuthEntries(m))
  {
    var h := AuthorizationHeader(m);
    var s := OAuthEntries(m);
    assert h[..6] == OAUTH_SCHEME;
    assert h[6..] == Join(PART_SEPARATOR, HeaderParts(s));
    if s != [] {
      ParseHeaderPartsJoin(s);
      ParseHeaderPartOf(s[0]);
      if |s| > 1 {
        assert Join(PART_SEPARATOR, HeaderParts(s)) == HeaderPart(s[0]) + PART_SEPARATOR + Join(PART_SEPARATOR, HeaderParts(s)[1..]);
      }
    }
  }

  /** The header opens with the first `oauth_` entry. */
  lemma AuthorizationHeaderStartsWithFirst(m: seq<(ByteString, ByteString)>)
    requires OAuthEntries(m) != []
    ensures StartsWith(AuthorizationHeader(m), OAUTH_SCHEME + HeaderPart(OAuthEntries(m)[0]))
  {
    var parts := HeaderParts(OAuthEntries(m));
    JoinStartsWith(PART_SEPARATOR, parts);
    StartsWithPrepend(OAUTH_SCHEME, Join(PART_SEPARATOR, parts), parts[0]);
  }

  // ---------------------------------------------------------------------------
  // OAuth protocol parameters (`generateOAuthParams`)
  // ---------------------------------------------------------------------------

  /** A lower-case hexadecimal digit, as `bin2hex` writes them. */
  predicate IsLowerHex(c: char)
  {
    '0' <= c <= '9' || 'a' <= c <= 'f'
  }

  /** The lower-case hexadecimal digit of the nibble `d`. */
  function LowerHexDigit(d: nat): (c: Octet)
    requires d < 16
    ensures IsLowerHex(c) && Unreserved(c) && HexValue(c) == d
  {
    if d < 10 then (48 + d) as char else (87 + d) as char
  }

  /** `bin2hex`: two lower-case hexadecimal digits per byte, high nibble first. */
  function Bin2Hex(bytes: ByteString): (r: ByteString)
    ensures |r| == 2 * |bytes|
    ensures forall i | 0 <= i < |r| :: IsLowerHex(r[i]) && Unreserved(r[i])
  {
    if bytes == [] then []
    else [LowerHexDigit(bytes[0] as int / 16), LowerHexDigit(bytes[0] as int % 16)] + Bin2Hex(bytes[1..])
  }

  /** Each byte is spelled by the two digits at its position: high nibble, then
      low nibble. */
  lemma {:induction false} Bin2HexSpells(bytes: ByteString)
    ensures forall i | 0 <= i < |bytes| ::
              HexValue(Bin2Hex(bytes)[2 * i]) * 16 + HexValue(Bin2Hex(bytes)[2 * i + 1]) == bytes[i] as int
  {
    if bytes != [] {
      var t := bytes[1..];
      Bin2HexSpells(t);
      var h := Bin2Hex(bytes);
      assert h[2..] == Bin2Hex(t);
      forall i | 0 <= i < |bytes|
        ensures HexValue(h[2 * i]) * 16 + HexValue(h[2 * i + 1]) == bytes[i] as int
      {
        if i > 0 {
          assert h[2 * i] == Bin2Hex(t)[2 * (i - 1)];
          assert h[2 * i + 1] == Bin2Hex(t)[2 * (i - 1) + 1];
          assert bytes[i] == t[i - 1];
        }
      }
    }
  }

  /** Reads a `bin2hex` string back: pairs of hexadecimal digits, high nibble
      first; `None` for an odd length or a non-digit. */
  function Hex2Bin(s: ByteString): Option<ByteString>
  {
    if s == [] then Some([])
    else if |s| == 1 || !IsHex(s[0]) || !IsHex(s[1]) then None
    else
      match Hex2Bin(s[2..])
      case None => None
      case Some(rest) => Some([(HexValue(s[0]) * 16 + HexValue(s[1])) as char] + rest)
  }

  /** `bin2hex` loses nothing: the nonce digits read back to the random bytes. */
  lemma {:induction false} Bin2HexRoundTrip(bytes: ByteString)
    ensures Hex2Bin(Bin2Hex(bytes)) == Some(bytes)
  {
    if bytes != [] {
      var h := Bin2Hex(bytes);
      Bin2HexRoundTrip(bytes[1..]);
      assert h[2..] == Bin2Hex(bytes[1..]);
      assert HexValue(h[0]) * 16 + HexValue(h[1]) == bytes[0] as int;
      assert bytes == [bytes[0]] + bytes[1..];
    }
  }

  /** The names of the five parameters generated before the signature. */
  const BASE_PARAM_NAMES: seq<ByteString> :=
    [CONSUMER_KEY_PARAM, SIGNATURE_METHOD_PARAM, TIMESTAMP_PARAM, NONCE_PARAM, VERSION_PARAM]

  /** The five parameters built before signing, in insertion order. */
  function BaseOAuthParams(consumerKey: ByteString, timestamp: nat, nonceBytes: ByteString): (r: Assoc<ByteString>)
    ensures Keys(r) == BASE_PARAM_NAMES
  {
    [(CONSUMER_KEY_PARAM, consumerKey),
     (SIGNATURE_METHOD_PARAM, HMAC_SHA1),
     (TIMESTAMP_PARAM, Decimal(timestamp)),
     (NONCE_PARAM, Bin2Hex(nonceBytes)),
     (VERSION_PARAM, OAUTH_VERSION)]
  }

  /** All six parameters: the five base ones and the signature appended last. */
  function OAuthParams(b: Builtins, consumerKey: ByteString, secret: ByteString, httpMethod: ByteString,
                       url: ByteString, timestamp: nat, nonceBytes: ByteString): Assoc<ByteString>
  {
    var base := BaseOAuthParams(consumerKey, timestamp, nonceBytes);
    Put(base, SIGNATURE_PARAM, Signature(b, httpMethod, url, base, secret))
  }

  /** The signature is appended after the five base parameters. */
  lemma OAuthParamsLayout(b: Builtins, consumerKey: ByteString, secret: ByteString, httpMethod: ByteString,
                          url: ByteString, timestamp: nat, nonceBytes: ByteString)
    ensures var base := BaseOAuthParams(consumerKey, timestamp, nonceBytes);
            OAuthParams(b, consumerKey, secret, httpMethod, url, timestamp, nonceBytes)
              == base + [(SIGNATURE_PARAM, Signature(b, httpMethod, url, base, secret))]
  {
    var base := BaseOAuthParams(consumerKey, timestamp, nonceBytes);
    SignatureNameIsNew();
    PutNew(base, SIGNATURE_PARAM, Signature(b, httpMethod, url, base, secret));
  }

  /** The six generated names are distinct. */
  lemma SignatureNameIsNew()
    ensures SIGNATURE_PARAM !in BASE_PARAM_NAMES
  {
  }

  /** The `oauth_signature` entry holds the signature of the five base
      parameters, which the signature itself is not part of. */
  lemma OAuthParamsSignature(b: Builtins, consumerKey: ByteString, secret: ByteString, httpMethod: ByteString,
                             url: ByteString, timestamp: nat, nonceBytes: ByteString)
    ensures var base := BaseOAuthParams(consumerKey, timestamp, nonceBytes);
            Get(OAuthParams(b, consumerKey, secret, httpMethod, url, timestamp, nonceBytes), SIGNATURE_PARAM)
              == Some(Signature(b, httpMethod, url, base, secret))
  {
    var base := BaseOAuthParams(consumerKey, timestamp, nonceBytes);
    PutGet(base, SIGNATURE_PARAM, Signature(b, httpMethod, url, base, secret));
  }

  /** The names of the six generated parameters, in insertion order. */
  const OAUTH_PARAM_NAMES: seq<ByteString> := BASE_PARAM_NAMES + [SIGNATURE_PARAM]

  lemma OAuthParamsKeys(b: Builtins, consumerKey: ByteString, secret: ByteString, httpMethod: ByteString,
                        url: ByteString, timestamp: nat, nonceBytes: ByteString)
    ensures Keys(OAuthParams(b, consumerKey, secret, httpMethod, url, timestamp, nonceBytes)) == OAUTH_PARAM_NAMES
  {
    var base := BaseOAuthParams(consumerKey, timestamp, nonceBytes);
    SignedKeys(base, Signature(b, httpMethod, url, base, secret));
  }

  /** Writing the signature into the five base parameters gives the six names. */
  lemma SignedKeys(base: Assoc<ByteString>, signature: ByteString)
    requires Keys(base) == BASE_PARAM_NAMES
    ensures Keys(Put(base, SIGNATURE_PARAM, signature)) == OAUTH_PARAM_NAMES
  {
    SignatureNameIsNew();
  }

  /** An array keyed by the six generated names goes into the header whole. */
  lemma GeneratedNamesAllInHeader(p: seq<(ByteString, ByteString)>)
    requires Keys(p) == OAUTH_PARAM_NAMES
    ensures OAuthEntries(p) == p
  {
    assert forall i | 0 <= i < |OAUTH_PARAM_NAMES| :: IsOAuthKey(OAUTH_PARAM_NAMES[i]);
    forall i | 0 <= i < |p| ensures IsOAuthKey(p[i].0) {
      assert p[i].0 == OAUTH_PARAM_NAMES[i];
    }
    AllOAuthEntries(p);
  }

  /** Every generated key starts with `oauth_`, so the header carries all six
      parameters, and reading the header back gives them all, in order. */
  lemma OAuthParamsInHeader(b: Builtins, consumerKey: ByteString, secret: ByteString, httpMethod: ByteString,
                            url: ByteString, timestamp: nat, nonceBytes: ByteString)
    ensures var p := OAuthParams(b, consumerKey, secret, httpMethod, url, timestamp, nonceBytes);
            OAuthEntries(p) == p && ParseAuthorizationHeader(AuthorizationHeader(p)) == Some(p)
  {
    var p := OAuthParams(b, consumerKey, secret, httpMethod, url, timestamp, nonceBytes);
    OAuthParamsKeys(b, consumerKey, secret, httpMethod, url, timestamp, nonceBytes);
    GeneratedNamesAllInHeader(p);
    AuthorizationHeaderRoundTrip(p);
  }

  /** A parameter name made of unreserved characters, such as
      `oauth_consumer_key`, appears in the header as it is. */
  lemma UnreservedHeaderPart(key: ByteString, value: ByteString)
    requires forall i | 0 <= i < |key| :: Unreserved(key[i])
    ensures HeaderPart((key, value)) == key + VALUE_OPEN + UrlEncode(value) + QUOTE
  {
    EncodeUnreservedIdentity(key);
  }

  /** How every generated header begins: the consumer key is the first part. */
  const CONSUMER_KEY_HEADER_PREFIX: ByteString := "OAuth oauth_consumer_key=\""

  /** An array keyed by the six generated names yields a header that opens
      with its first entry, the consumer key. */
  lemma GeneratedHeaderStart(p: seq<(ByteString, ByteString)>)
    requires Keys(p) == OAUTH_PARAM_NAMES
    ensures StartsWith(AuthorizationHeader(p), CONSUMER_KEY_HEADER_PREFIX + UrlEncode(p[0].1) + QUOTE)
  {
    GeneratedNamesAllInHeader(p);
    AuthorizationHeaderStartsWithFirst(p);
    ConsumerKeyNameUnreserved();
    UnreservedHeaderPart(p[0].0, p[0].1);
    ConsumerKeyPrefix(UrlEncode(p[0].1));
  }

  lemma ConsumerKeyNameUnreserved()
    ensures forall i | 0 <= i < |OAUTH_PARAM_NAMES[0]| :: Unreserved(OAUTH_PARAM_NAMES[0][i])
  {
  }

  lemma ConsumerKeyPrefix(enc: ByteString)
    ensures OAUTH_SCHEME + (OAUTH_PARAM_NAMES[0] + VALUE_OPEN + enc + QUOTE) == CONSUMER_KEY_HEADER_PREFIX + enc + QUOTE
  {
  }

  /** The header opens with the consumer key. */
  lemma OAuthParamsHeaderStart(b: Builtins, consumerKey: ByteString, secret: ByteString, httpMethod: ByteString,
                               url: ByteString, timestamp: nat, nonceBytes: ByteString)
    ensures StartsWith(AuthorizationHeader(OAuthParams(b, consumerKey, secret, httpMethod, url, timestamp, nonceBytes)),
                       CONSUMER_KEY_HEADER_PREFIX + UrlEncode(consumerKey) + QUOTE)
  {
    var p := OAuthParams(b, consumerKey, secret, httpMethod, url, timestamp, nonceBytes);
    OAuthParamsKeys(b, consumerKey, secret, httpMethod, url, timestamp, nonceBytes);
    OAuthParamsLayout(b, consumerKey, secret, httpMethod, url, timestamp, nonceBytes);
    GeneratedHeaderStart(p);
  }
}
