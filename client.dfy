/** `BitmeshAI\BitmeshClient`: the credentials it holds, the chat payload it
    builds, the OAuth parameters and header it attaches, the payload-integrity
    signature, and the classification of the response. The curl transport is
    a function passed in. */
module Client {
  import opened Text
  import opened PhpArray
  import opened UrlEncoding
  import opened Builtins
  import opened OAuth

  /** The production host of the proxy; the default base URL is `https://` and
      this host. (Kept as two literals: the verifier checks that every
      character of a literal is a byte, and does so readily only for short
      ones.) */
  const DEFAULT_API_HOST: ByteString := "aiproxyapi-production.up.railway.app"
  const DEFAULT_API_BASE_URL: ByteString := "https://" + DEFAULT_API_HOST
  const DEFAULT_USER_AGENT: ByteString := "BitmeshPhpSdk/1.0"
  const DEFAULT_CHAT_MODEL: ByteString := "meta-llama/Llama-3.2-3B-Instruct-Turbo"

  /** `chat` always POSTs to this path under the base URL. */
  const CHAT_METHOD: ByteString := "POST"
  const CHAT_PATH: ByteString := "/chat"

  /** The `string|array $messages` argument of `chat`. */
  datatype MessageInput =
    | Plain(content: ByteString)
    | Structured(messages: seq<Json>)

  /** The four arguments `chat` hands to `sendRequest`. */
  datatype Request = Request(url: ByteString, authHeader: ByteString, payloadSignature: ByteString, jsonBody: ByteString)

  /** What `sendRequest` yields: the status and body, or the curl error text. */
  datatype TransportResult =
    | Response(status: nat, body: ByteString)
    | CurlError(message: ByteString)

  /** The `RuntimeException`s `chat` can throw. */
  datatype ChatError =
    | EncodeFailed
    | TransportFailed(curlMessage: ByteString)
    | DecodeFailed(rawBody: ByteString)
    | ApiError(message: ByteString)

  // ---------------------------------------------------------------------------
  // Payload
  // ---------------------------------------------------------------------------

  /** PHP truthiness of `?string`: null, `""` and `"0"` are false. */
  predicate IsFalsy(model: Option<ByteString>)
  {
    model.None? || model.value == "" || model.value == "0"
  }

  /** `$model ?: DEFAULT_CHAT_MODEL`. */
  function ModelOrDefault(model: Option<ByteString>): (r: ByteString)
    ensures r != [] && r != "0"
    ensures IsFalsy(model) ==> r == DEFAULT_CHAT_MODEL
    ensures !IsFalsy(model) ==> r == model.value
  {
    if IsFalsy(model) then DEFAULT_CHAT_MODEL else model.value
  }

  /** A plain string becomes one user message; a message list passes through. */
  function MessagesJson(m: MessageInput): Json
  {
    match m
    case Plain(s) => JList([JObject([("role", JString("user")), ("content", JString(s))])])
    case Structured(ms) => JList(ms)
  }

  /** `array_merge(['model' => ..., 'messages' => ...], $extraPayload)`. */
  function ChatPayload(messages: MessageInput, model: Option<ByteString>, extra: Assoc<Json>): Assoc<Json>
  {
    Merge([("model", JString(ModelOrDefault(model))), ("messages", MessagesJson(messages))], extra)
  }

  /** The payload always starts with `model` then `messages`, followed by the
      other keys of `extraPayload` in their own order; a key of `extraPayload`
      wins over both; nothing else is added. */
  lemma ChatPayloadFields(messages: MessageInput, model: Option<ByteString>, extra: Assoc<Json>)
    ensures var p := ChatPayload(messages, model, extra);
            |p| >= 2 && Keys(p)[..2] == ["model", "messages"] &&
            Keys(p)[2..] == NewKeys(["model", "messages"], Keys(extra))
    ensures var p := ChatPayload(messages, model, extra);
            forall k :: k in Keys(p)[2..] <==> k in Keys(extra) && k != "model" && k != "messages"
    ensures forall k :: Get(ChatPayload(messages, model, extra), k) ==
              (if Get(extra, k).Some? then Get(extra, k)
               else if k == "model" then Some(JString(ModelOrDefault(model)))
               else if k == "messages" then Some(MessagesJson(messages))
               else None)
  {
    var base: Assoc<Json> := [("model", JString(ModelOrDefault(model))), ("messages", MessagesJson(messages))];
    MergeKeys(base, extra);
    MergeGet(base, extra);
    assert Keys(base) == ["model", "messages"];
    NewKeysMembers(Keys(base), Keys(extra));
  }

  /** `chat("...")` with no model and no extras sends the string as the single
      user message and still carries a `model` key holding the default. */
  lemma PlainChatPayload(s: ByteString)
    ensures ChatPayload(Plain(s), None, []) ==
      [("model", JString(DEFAULT_CHAT_MODEL)),
       ("messages", JList([JObject([("role", JString("user")), ("content", JString(s))])]))]
  {
  }

  /** The URL of the chat endpoint. */
  function ChatUrl(apiBaseUrl: ByteString): ByteString
  {
    apiBaseUrl + CHAT_PATH
  }

  /** With the base URL trimmed as the constructor trims it, the chat URL ends in
      exactly one slash before `chat`, whatever slashes the configured URL had. */
  lemma ChatUrlShape(configured: ByteString)
    ensures var url := ChatUrl(RTrimSlash(configured));
            |url| >= 5 && url[|url| - 5..] == "/chat" && (|url| == 5 || url[|url| - 6] != '/')
    ensures forall slashes: ByteString | forall i | 0 <= i < |slashes| :: slashes[i] == '/' ::
      ChatUrl(RTrimSlash(configured + slashes)) == ChatUrl(RTrimSlash(configured))
  {
    forall slashes: ByteString | forall i | 0 <= i < |slashes| :: slashes[i] == '/'
      ensures RTrimSlash(configured + slashes) == RTrimSlash(configured)
    {
      RTrimSlashSuffix(configured, slashes);
    }
  }

  lemma {:induction false} RTrimSlashSuffix(s: ByteString, slashes: ByteString)
    requires forall i | 0 <= i < |slashes| :: slashes[i] == '/'
    ensures RTrimSlash(s + slashes) == RTrimSlash(s)
    decreases |slashes|
  {
    if slashes != [] {
      var t := s + slashes;
      assert t[..|t| - 1] == s + slashes[..|slashes| - 1];
      RTrimSlashSuffix(s, slashes[..|slashes| - 1]);
    } else {
      assert s + slashes == s;
    }
  }

  // ---------------------------------------------------------------------------
  // Response
  // ---------------------------------------------------------------------------

  /** `isset($decoded['error'])`: an object whose `error` member is not null. */
  function ErrorField(decoded: Json): Option<Json>
  {
    if decoded.JObject? then
      var e := Get(decoded.fields, "error");
      if e.Some? && e.value != JNull then e else None
    else None
  }

  const API_ERROR_PREFIX: ByteString := "Bitmesh API returned HTTP "
  const DETAIL_SEPARATOR: ByteString := " - "

  /** The message of the exception thrown on a non-200 status. */
  function ApiErrorMessage(b: Builtins, status: nat, decoded: Json): ByteString
  {
    var head := API_ERROR_PREFIX + Decimal(status);
    var e := ErrorField(decoded);
    if e.None? then head
    else
      // `' - ' . json_encode(...)`: a failed encoding (false) appends nothing.
      var enc := b.jsonEncode(e.value);
      head + DETAIL_SEPARATOR + (if enc.Some? then enc.value else [])
  }

  /** `['data' => $decoded]`: how a decoded scalar is returned. */
  function WrapScalar(v: Json): (r: Json)
    ensures r.JObject? && Get(r.fields, "data") == Some(v) && |r.fields| == 1
  {
    JObject([("data", v)])
  }

  /** Lines 89-105 of `chat`: decode first, then the status, then wrap scalars. */
  function ClassifyResponse(b: Builtins, status: nat, body: ByteString): (r: Result<Json, ChatError>)
    ensures b.jsonDecode(body).None? ==> r == Failure(DecodeFailed(body))
    ensures b.jsonDecode(body).Some? && status != 200 ==>
      r.Failure? && r.error.ApiError? && StartsWith(r.error.message, API_ERROR_PREFIX + Decimal(status))
    ensures b.jsonDecode(body).Some? && status == 200 ==>
      r.Success? && r.value.IsArray() &&
      (b.jsonDecode(body).value.IsArray() ==> r.value == b.jsonDecode(body).value) &&
      (!b.jsonDecode(body).value.IsArray() ==> r.value == WrapScalar(b.jsonDecode(body).value))
  {
    var decoded := b.jsonDecode(body);
    if decoded.None? then Failure(DecodeFailed(body))
    else if status != 200 then
      var m := ApiErrorMessage(b, status, decoded.value);
      assert m[..|API_ERROR_PREFIX + Decimal(status)|] == API_ERROR_PREFIX + Decimal(status);
      Failure(ApiError(m))
    else if decoded.value.IsArray() then Success(decoded.value)
    else Success(WrapScalar(decoded.value))
  }

  /** The detail of an API error: ` - ` and the JSON of the `error` member exactly
      when the body is an object with a non-null `error`; the status alone
      otherwise. The status can be read back from the message. */
  lemma ApiErrorDetail(b: Builtins, status: nat, body: ByteString)
    requires b.jsonDecode(body).Some? && status != 200
    ensures var d := b.jsonDecode(body).value;
            var head := API_ERROR_PREFIX + Decimal(status);
            var e := ErrorField(d);
            && ClassifyResponse(b, status, body) == Failure(ApiError(ApiErrorMessage(b, status, d)))
            && (e.None? ==> ApiErrorMessage(b, status, d) == head)
            && (e.Some? && b.jsonEncode(e.value).Some? ==>
                  ApiErrorMessage(b, status, d) == head + " - " + b.jsonEncode(e.value).value)
            && (e.Some? ==> e.value != JNull && d.JObject?)
  {
  }

  /** A body that does not decode is a decode error whatever the status, so a
      non-JSON 500 page is reported as a decode error, not as an API error. */
  lemma DecodeErrorBeforeStatus(b: Builtins, s1: nat, s2: nat, body: ByteString)
    requires b.jsonDecode(body).None?
    ensures ClassifyResponse(b, s1, body) == ClassifyResponse(b, s2, body)
    ensures ClassifyResponse(b, s1, body).Failure? && ClassifyResponse(b, s1, body).error.DecodeFailed?
  {
  }

  /** Decimal status codes are never confused: two API errors from different
      statuses carry different messages. */
  lemma ApiErrorStatusRecoverable(b: Builtins, s1: nat, s2: nat, d1: Json, d2: Json)
    requires ApiErrorMessage(b, s1, d1) == ApiErrorMessage(b, s2, d2)
    ensures s1 == s2
  {
    ApiErrorStatusShown(b, s1, d1);
    ApiErrorStatusShown(b, s2, d2);
    var x := ApiErrorMessage(b, s1, d1)[|API_ERROR_PREFIX|..];
    assert Decimal(s1) == x[..|Decimal(s1)|] == Decimal(s2);
    DecimalInjective(s1, s2);
  }

  /** After the prefix, the message holds the status digits and then a space or nothing. */
  lemma ApiErrorStatusShown(b: Builtins, status: nat, decoded: Json)
    ensures var m := ApiErrorMessage(b, status, decoded);
            |API_ERROR_PREFIX| <= |m| && StartsWith(m[|API_ERROR_PREFIX|..], Decimal(status))
            && DigitRun(m[|API_ERROR_PREFIX|..]) == |Decimal(status)|
  {
    var m := ApiErrorMessage(b, status, decoded);
    var n := |API_ERROR_PREFIX|;
    var d := Decimal(status);
    var rest := m[n + |d|..];
    assert m == API_ERROR_PREFIX + d + rest;
    assert m[n..] == d + rest;
    assert rest == [] || rest[0] == DETAIL_SEPARATOR[0];
    DigitsThenNonDigit(m[n..], d);
  }

  lemma {:induction false} DigitsThenNonDigit(x: ByteString, d: ByteString)
    requires forall i | 0 <= i < |d| :: IsDigit(d[i])
    requires StartsWith(x, d)
    requires |x| == |d| || x[|d|] == ' '
    ensures DigitRun(x) == |d|
  {
    if d == [] {
      assert x == [] || !IsDigit(x[0]);
    } else {
      assert x[0] == d[0];
      assert x[1..][..|d| - 1] == d[1..];
      assert |x[1..]| == |d[1..]| || x[1..][|d[1..]|] == ' ';
      DigitsThenNonDigit(x[1..], d[1..]);
    }
  }

  // ---------------------------------------------------------------------------
  // The client
  // ---------------------------------------------------------------------------

  /** The URL half of `generateSignature`: scheme and host with their
      defaults, the port unless it is the scheme's default, then the path. */
  method NormalizedUrlOf(parsedUrl: ParsedUrl) returns (normalizedUrl: ByteString)
    ensures normalizedUrl == NormalizeUrl(parsedUrl)
  {
    var scheme := if parsedUrl.scheme.Some? then parsedUrl.scheme.value else HTTP;
    var host := if parsedUrl.host.Some? then parsedUrl.host.value else DEFAULT_HOST;
    var port := parsedUrl.port;
    var path := if parsedUrl.path.Some? then LTrimSlash(parsedUrl.path.value) else [];
    assert scheme == Scheme(parsedUrl) && host == Host(parsedUrl) && path == TrimmedPath(parsedUrl);

    normalizedUrl := scheme + SCHEME_SEPARATOR + host;
    assert normalizedUrl == Authority(parsedUrl);
    if (scheme == HTTP && port.Some? && port.value != 80) || (scheme == HTTPS && port.Some? && port.value != 443) {
      assert PortSuffix(parsedUrl) == PORT_SEPARATOR + Decimal(port.value);
      normalizedUrl := normalizedUrl + PORT_SEPARATOR + Decimal(port.value);
    } else {
      assert PortSuffix(parsedUrl) == [];
    }
    assert normalizedUrl == Authority(parsedUrl) + PortSuffix(parsedUrl);
    normalizedUrl := normalizedUrl + PATH_SEPARATOR + path;
  }

  /** The `foreach` of `generateSignature` that writes each sorted pair as
      `key=value`, both sides percent-encoded. */
  method NormalizedParamsOf(allParams: Assoc<ByteString>) returns (normalizedParams: seq<ByteString>)
    ensures normalizedParams == EncodePairs(allParams)
  {
    normalizedParams := [];
    for i := 0 to |allParams|
      invariant normalizedParams == EncodePairs(allParams[..i])
    {
      normalizedParams := normalizedParams + [UrlEncode(allParams[i].0) + PAIR_SEPARATOR + UrlEncode(allParams[i].1)];
    }
    assert allParams[..|allParams|] == allParams;
  }

  class BitmeshClient {
    const consumerKey: ByteString
    const consumerSecret: ByteString
    const apiBaseUrl: ByteString
    const userAgent: ByteString

    /** Credentials are kept as given; every trailing slash of the base URL is
        dropped. */
    constructor (consumerKey: ByteString, consumerSecret: ByteString,
                 apiBaseUrl: ByteString := DEFAULT_API_BASE_URL, userAgent: ByteString := DEFAULT_USER_AGENT)
      ensures this.consumerKey == consumerKey && this.consumerSecret == consumerSecret
      ensures this.apiBaseUrl == RTrimSlash(apiBaseUrl) && this.userAgent == userAgent
      ensures this.apiBaseUrl == [] || this.apiBaseUrl[|this.apiBaseUrl| - 1] != '/'
    {
      this.consumerKey := consumerKey;
      this.consumerSecret := consumerSecret;
      this.apiBaseUrl := RTrimSlash(apiBaseUrl);
      this.userAgent := userAgent;
    }

    /** `generateSignature`: normalise the URL, merge and sort the parameters,
        build the base string and sign it with the consumer secret. */
    method GenerateSignature(b: Builtins, httpMethod: ByteString, url: ByteString, params: Assoc<ByteString>)
      returns (signature: ByteString)
      ensures signature == Signature(b, httpMethod, url, params, consumerSecret)
    {
      var parsedUrl := b.parseUrl(url);
      var normalizedUrl := NormalizedUrlOf(parsedUrl);

      var queryParams: Assoc<ByteString> := [];
      if parsedUrl.query.Some? {
        queryParams := b.parseQuery(parsedUrl.query.value);
      }
      var allParams := Merge(params, queryParams);
      allParams := Unset(allParams, SIGNATURE_PARAM);
      allParams := KSort(allParams);

      var normalizedParams := NormalizedParamsOf(allParams);
      var paramString := Join(PARAM_SEPARATOR, normalizedParams);

      var signatureBaseString := UrlEncode(httpMethod) + PARAM_SEPARATOR + UrlEncode(normalizedUrl) + PARAM_SEPARATOR + UrlEncode(paramString);
      var signingKey := UrlEncode(consumerSecret) + PARAM_SEPARATOR;
      signature := b.base64(b.hmacSha1(signatureBaseString, signingKey));
    }

    /** `generateOAuthParams` with the clock and the random source as inputs:
        the five base parameters in their order, then the signature last. */
    method GenerateOAuthParams(b: Builtins, httpMethod: ByteString, url: ByteString, timestamp: nat, nonceBytes: ByteString)
      returns (params: Assoc<ByteString>)
      ensures params == OAuthParams(b, consumerKey, consumerSecret, httpMethod, url, timestamp, nonceBytes)
      ensures Keys(params) == OAUTH_PARAM_NAMES
      ensures Get(params, SIGNATURE_PARAM) ==
        Some(Signature(b, httpMethod, url, BaseOAuthParams(consumerKey, timestamp, nonceBytes), consumerSecret))
    {
      params := [(CONSUMER_KEY_PARAM, consumerKey),
                 (SIGNATURE_METHOD_PARAM, HMAC_SHA1),
                 (TIMESTAMP_PARAM, Decimal(timestamp)),
                 (NONCE_PARAM, Bin2Hex(nonceBytes)),
                 (VERSION_PARAM, OAUTH_VERSION)];
      var signature := GenerateSignature(b, httpMethod, url, params);
      params := Put(params, SIGNATURE_PARAM, signature);
      OAuthParamsKeys(b, consumerKey, consumerSecret, httpMethod, url, timestamp, nonceBytes);
      OAuthParamsSignature(b, consumerKey, consumerSecret, httpMethod, url, timestamp, nonceBytes);
    }

    /** `buildAuthorizationHeader`: `OAuth ` and the `oauth_` entries as
        `key="value"`, in their order, joined by `, `. */
    method BuildAuthorizationHeader(oauthParams: Assoc<ByteString>) returns (header: ByteString)
      ensures header == AuthorizationHeader(oauthParams)
    {
      var headerParts: seq<ByteString> := [];
      for i := 0 to |oauthParams|
        invariant headerParts == HeaderParts(OAuthEntries(oauthParams[..i]))
      {
        var (key, value) := oauthParams[i];
        assert oauthParams[..i + 1][..i] == oauthParams[..i];
        if StartsWith(key, OAUTH_PREFIX) {
          headerParts := headerParts + [UrlEncode(key) + VALUE_OPEN + UrlEncode(value) + QUOTE];
        }
      }
      assert oauthParams[..|oauthParams|] == oauthParams;
      header := OAUTH_SCHEME + Join(PART_SEPARATOR, headerParts);
    }

    /** The `X-Payload-Signature` value: `hash('sha256', body . key . signature)`. */
    function PayloadSignature(b: Builtins, jsonBody: ByteString, oauthSignature: ByteString): ByteString
    {
      b.sha256Hex(jsonBody + consumerKey + oauthSignature)
    }

    /** The signed POST of an encoded body to the chat endpoint. */
    function SignedChatRequest(b: Builtins, jsonBody: ByteString, timestamp: nat, nonceBytes: ByteString): Request
    {
      var url := ChatUrl(apiBaseUrl);
      var base := BaseOAuthParams(consumerKey, timestamp, nonceBytes);
      var params := OAuthParams(b, consumerKey, consumerSecret, CHAT_METHOD, url, timestamp, nonceBytes);
      var signature := Signature(b, CHAT_METHOD, url, base, consumerSecret);
      Request(url, AuthorizationHeader(params), PayloadSignature(b, jsonBody, signature), jsonBody)
    }

    /** The request `chat` hands to the transport, or the encoding failure that
        stops it before any request is made. */
    function ChatRequest(b: Builtins, messages: MessageInput, model: Option<ByteString>, extra: Assoc<Json>,
                         timestamp: nat, nonceBytes: ByteString): Result<Request, ChatError>
    {
      var jsonBody := b.jsonEncodeUnescaped(JObject(ChatPayload(messages, model, extra)));
      if jsonBody.None? then Failure(EncodeFailed)
      else Success(SignedChatRequest(b, jsonBody.value, timestamp, nonceBytes))
    }

    /** What a server holding the consumer key can check from the request
        alone: the header parses, carries an `oauth_signature`, and the payload
        signature is the SHA-256 of the body, the key and that signature. */
    predicate PayloadSignatureChecks(b: Builtins, req: Request)
    {
      var h := ParseAuthorizationHeader(req.authHeader);
      && h.Some?
      && Get(h.value, SIGNATURE_PARAM).Some?
      && req.payloadSignature == b.sha256Hex(req.jsonBody + consumerKey + Get(h.value, SIGNATURE_PARAM).value)
    }

    /** Lines 56-87 of `chat`: build and encode the payload, sign, and compute
        the payload signature. */
    method PrepareChat(b: Builtins, messages: MessageInput, model: Option<ByteString>, extra: Assoc<Json>,
                       timestamp: nat, nonceBytes: ByteString)
      returns (r: Result<Request, ChatError>)
      ensures r == ChatRequest(b, messages, model, extra, timestamp, nonceBytes)
    {
      var url := apiBaseUrl + CHAT_PATH;
      var payload := ChatPayload(messages, model, extra);
      var jsonBody := b.jsonEncodeUnescaped(JObject(payload));
      if jsonBody.None? {
        return Failure(EncodeFailed);
      }
      var httpMethod := CHAT_METHOD;
      var oauthParams := GenerateOAuthParams(b, httpMethod, url, timestamp, nonceBytes);
      var authHeader := BuildAuthorizationHeader(oauthParams);
      var signature := Get(oauthParams, SIGNATURE_PARAM).value;
      var payloadSignature := b.sha256Hex(jsonBody.value + consumerKey + signature);
      r := Success(Request(url, authHeader, payloadSignature, jsonBody.value));
    }

    /** `chat`: prepare the request, hand it to the transport, classify the
        answer. A transport failure surfaces as it is. */
    method Chat(b: Builtins, transport: Request -> TransportResult, timestamp: nat, nonceBytes: ByteString,
                messages: MessageInput, model: Option<ByteString> := None, extra: Assoc<Json> := [])
      returns (r: Result<Json, ChatError>)
      ensures var req := ChatRequest(b, messages, model, extra, timestamp, nonceBytes);
              r == if req.Failure? then Failure(req.error)
                   else match transport(req.value)
                        case CurlError(e) => Failure(TransportFailed(e))
                        case Response(status, body) => ClassifyResponse(b, status, body)
    {
      var req := PrepareChat(b, messages, model, extra, timestamp, nonceBytes);
      if req.Failure? {
        return Failure(req.error);
      }
      var answer := transport(req.value);
      if answer.CurlError? {
        return Failure(TransportFailed(answer.message));
      }
      var decoded := b.jsonDecode(answer.body);
      if decoded.None? {
        return Failure(DecodeFailed(answer.body));
      }
      if answer.status != 200 {
        return Failure(ApiError(ApiErrorMessage(b, answer.status, decoded.value)));
      }
      r := if decoded.value.IsArray() then Success(decoded.value) else Success(WrapScalar(decoded.value));
    }

    /** Every signed request passes the payload check, and its header opens
        with the consumer key. */
    lemma SignedChatRequestChecks(b: Builtins, jsonBody: ByteString, timestamp: nat, nonceBytes: ByteString)
      ensures var r := SignedChatRequest(b, jsonBody, timestamp, nonceBytes);
              && PayloadSignatureChecks(b, r)
              && StartsWith(r.authHeader, CONSUMER_KEY_HEADER_PREFIX + UrlEncode(consumerKey) + QUOTE)
              && r.url == ChatUrl(apiBaseUrl) && r.jsonBody == jsonBody
    {
      var url := ChatUrl(apiBaseUrl);
      OAuthParamsInHeader(b, consumerKey, consumerSecret, CHAT_METHOD, url, timestamp, nonceBytes);
      OAuthParamsSignature(b, consumerKey, consumerSecret, CHAT_METHOD, url, timestamp, nonceBytes);
      OAuthParamsHeaderStart(b, consumerKey, consumerSecret, CHAT_METHOD, url, timestamp, nonceBytes);
    }

    /** Whatever `chat` sends passes the payload check, goes to the chat
        endpoint, and carries the encoded payload as its body. */
    lemma ChatRequestSelfConsistent(b: Builtins, messages: MessageInput, model: Option<ByteString>,
                                    extra: Assoc<Json>, timestamp: nat, nonceBytes: ByteString)
      ensures var r := ChatRequest(b, messages, model, extra, timestamp, nonceBytes);
              && (r.Failure? <==> b.jsonEncodeUnescaped(JObject(ChatPayload(messages, model, extra))).None?)
              && (r.Success? ==>
                    && PayloadSignatureChecks(b, r.value)
                    && StartsWith(r.value.authHeader, CONSUMER_KEY_HEADER_PREFIX + UrlEncode(consumerKey) + QUOTE)
                    && r.value.url == ChatUrl(apiBaseUrl)
                    && Some(r.value.jsonBody) == b.jsonEncodeUnescaped(JObject(ChatPayload(messages, model, extra))))
    {
      var jsonBody := b.jsonEncodeUnescaped(JObject(ChatPayload(messages, model, extra)));
      if jsonBody.Some? {
        SignedChatRequestChecks(b, jsonBody.value, timestamp, nonceBytes);
      }
    }
  }
}
