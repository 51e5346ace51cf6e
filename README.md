# Bitmesh PHP SDK client, modelled in Dafny

`BitmeshAI\BitmeshClient` is the PHP client of the Bitmesh AI proxy. It holds a
consumer key and secret and a base URL, and its `chat` call does five things:

1. it builds a JSON payload of the model name, the messages and any extra fields;
2. it signs a `POST` to `<base>/chat` with OAuth 1.0 HMAC-SHA1 (RFC 5849);
3. it puts the OAuth parameters into an `Authorization: OAuth ...` header;
4. it adds an `X-Payload-Signature` header, the SHA-256 of the body, the consumer
   key and the OAuth signature;
5. it sends the request and sorts the answer into a decode error, an API error
   or a result.

The model follows the class file closely:

- `text.dfy` (module `Text`): PHP strings as byte strings (`ByteString`,
  sequences of `Octet`). It also has `implode`, `ltrim`/`rtrim` of `/`, and the
  decimal rendering of integers.
- `php_array.dfy` (module `PhpArray`): string-keyed PHP arrays as sequences of
  entries with unique keys, in insertion order. It covers lookup, `$a[$k] = $v`,
  `unset`, `array_merge` and `ksort`.
- `url_encoding.dfy` (module `UrlEncoding`): the client's `urlEncode`, which is
  `rawurlencode` followed by two `str_replace` fixes, plus a percent-decoder as
  its inverse.
- `builtins.dfy` (module `Builtins`): the JSON value type and the `parse_url`
  record. It also has the builtins the model does not look inside (HMAC-SHA1,
  SHA-256, base64, `json_encode`/`json_decode`, `parse_url`, `parse_str`), which
  are passed in as function values.
- `oauth.dfy` (module `OAuth`): the signature construction of
  `generateSignature`, which covers:
  - URL normalisation;
  - the parameter string;
  - the base string and signing key;
  - the parameters of `generateOAuthParams`;
  - the header of `buildAuthorizationHeader`.

  The parameter string, the base string, the signing key and the header each
  have a reader that parses them back; for the normalised URL the model shows
  that a shown port can be read back.
- `client.dfy` (module `Client`):
  - the payload and response logic of `chat`;
  - the class `BitmeshClient` with its four constant fields;
  - its methods, which mirror the PHP loops and statements and are proved
    equal to the functions above.

`time()` and `random_bytes(8)` become the parameters `timestamp` and
`nonceBytes`. `sendRequest` becomes a `transport` function that returns a status
and body or a curl error.

### Where the code, its tests and its description differ

The model follows the code in each case:

- **Default model is always sent.** `src/BitmeshClient.php:67` always writes a
  `model` key and falls back to `meta-llama/Llama-3.2-3B-Instruct-Turbo`.
  `tests/BitmeshClientChatTest.php:56` expects no `model` key when none is
  given. `Client.PlainChatPayload` states what the code sends.
- **`"0"` is falsy.** `$model ?: default` treats the string `"0"` like `null` and
  `""`, so `"0"` also gets the default model (`Client.ModelOrDefault`).
- **No RFC 5849 normalisation.** The HTTP method is signed as given, without
  upper-casing. The scheme and host are not lower-cased. Every leading slash of
  the path is dropped before one is added back.
- **Header order is array order.** The header lists the parameters in the
  array's insertion order: the five base parameters, then `oauth_signature`.

## Model

| member | source | states |
|---|---|---|
| Text.LTrimSlash | src/BitmeshClient.php:185 | `ltrim($path, '/')`: the result is a suffix of the input, does not start with `/`, and only slashes were dropped |
| Text.RTrimSlash | src/BitmeshClient.php:29 | `rtrim($apiBaseUrl, '/')`: the result is a prefix of the input, does not end with `/`, and only slashes were dropped |
| Text.Decimal | src/BitmeshClient.php:163 | `(string) time()`: at least one digit, all decimal digits, no leading zero |
| Text.DecimalRoundTrip | src/BitmeshClient.php:163 | reading the decimal rendering back gives the number |
| Text.DecimalInjective | src/BitmeshClient.php:98 | different status codes or timestamps never render to the same string |
| Text.SplitAtSeparator | src/BitmeshClient.php:212-217 | a one-character separator after a part free of it splits there, and adds exactly one to the separator count |
| PhpArray.Keys | src/BitmeshClient.php:209 | the keys of an array, position by position |
| PhpArray.Get | src/BitmeshClient.php:84 | `$m[$k]`: absent exactly when the key is not among the keys, and otherwise an entry of the array |
| PhpArray.GetEntry | src/BitmeshClient.php:84 | in an array with unique keys, each entry is found under its own key |
| PhpArray.Put | src/BitmeshClient.php:168 | `$m[$k] = $v`: an existing key keeps its position, and a new key is appended |
| PhpArray.PutGet | src/BitmeshClient.php:168 | after `$m[$k] = $v`, `k` holds `v` and every other key holds what it held before |
| PhpArray.PutNew | src/BitmeshClient.php:168 | writing a new key appends exactly that entry |
| PhpArray.ConsUnique | src/BitmeshClient.php:168 | putting an entry with a new key in front keeps keys unique and prepends the key |
| PhpArray.Unset | src/BitmeshClient.php:204 | `unset($m[$k])`: `k` is gone, every other key is unchanged, and no entry is invented |
| PhpArray.MergeGet | src/BitmeshClient.php:203 | `array_merge($a, $b)`: a key holds its value in `b` when `b` has it, and its value in `a` otherwise |
| PhpArray.MergeKeepsOrder | src/BitmeshClient.php:65-71 | `array_merge` keeps the keys of its first argument first, in their order |
| PhpArray.MergeKeys | src/BitmeshClient.php:65-71 | `array_merge($a, $b)` lists the keys of `a`, then the keys of `b` that `a` lacks, in the order of `b` |
| PhpArray.NewKeysMembers | src/BitmeshClient.php:65-71 | the keys appended by `array_merge` are exactly those of `b` that are not in `a` |
| PhpArray.KeyLessIrreflexive | src/BitmeshClient.php:206 | the byte-wise key order is irreflexive |
| PhpArray.KeyLessTotal | src/BitmeshClient.php:206 | of two different keys, one is smaller |
| PhpArray.KeyLessAsymmetric | src/BitmeshClient.php:206 | the key order is asymmetric |
| PhpArray.KeyLessTransitive | src/BitmeshClient.php:206 | the key order is transitive |
| PhpArray.InsertEntries | src/BitmeshClient.php:206 | inserting an entry adds exactly that entry (as a multiset) |
| PhpArray.InsertSorted | src/BitmeshClient.php:206 | inserting a new key into a sorted array keeps it strictly sorted |
| PhpArray.SortedHasUniqueKeys | src/BitmeshClient.php:206 | a strictly sorted array has unique keys |
| PhpArray.SameEntriesSameKeys | src/BitmeshClient.php:206 | arrays with the same entries have the same keys |
| PhpArray.KSort | src/BitmeshClient.php:206 | `ksort`: the result is strictly ascending by key and holds the same entries |
| PhpArray.SortedUnique | src/BitmeshClient.php:206 | two sorted arrays with the same entries are equal |
| PhpArray.KSortOrderIndependent | src/BitmeshClient.php:206 | `ksort` forgets insertion order: arrays with the same entries sort to the same array |
| UrlEncoding.HexDigit | src/BitmeshClient.php:248 | an upper-case hex digit whose value is the given nibble |
| UrlEncoding.RawUrlEncode | src/BitmeshClient.php:248 | `rawurlencode`: only unreserved characters and `%`, and one to three bytes per input byte |
| UrlEncoding.UrlEncode | src/BitmeshClient.php:243-250 | the two `str_replace` fixes never fire, so `urlEncode` is `rawurlencode` |
| UrlEncoding.NoTildeTripleInRaw | src/BitmeshClient.php:245-248 | `rawurlencode` output never holds `%7E`, so replacing it with `~` changes nothing |
| UrlEncoding.ReplaceAbsent | src/BitmeshClient.php:245-248 | replacing a byte the string lacks (`+` in `rawurlencode` output) changes nothing |
| UrlEncoding.EncodeOne | src/BitmeshClient.php:243-250 | an unreserved byte passes through, and any other byte becomes `%` and two upper-case hex digits |
| UrlEncoding.EncodeAppend | src/BitmeshClient.php:243-250 | encoding works byte by byte: the encoding of a concatenation is the concatenation of encodings |
| UrlEncoding.EncodeUnreservedIdentity | src/BitmeshClient.php:243-250 | a string of unreserved characters encodes to itself |
| UrlEncoding.SpaceTildePlus | src/BitmeshClient.php:245-248 | a space becomes `%20` (never `+`), `~` stays, and `+` becomes `%2B` |
| UrlEncoding.PercentDecode | tests/BitmeshClientChatTest.php:68 | the decoder never lengthens its input |
| UrlEncoding.DecodeEncodedOctet | src/BitmeshClient.php:243-250 | decoding undoes the encoding of one byte |
| UrlEncoding.DecodeEncode | src/BitmeshClient.php:243-250 | decoding recovers the input of `urlEncode` |
| UrlEncoding.EncodeInjective | src/BitmeshClient.php:243-250 | different strings never encode alike |
| UrlEncoding.NoDelimiters | src/BitmeshClient.php:210-219 | encoded text never holds `&`, `=`, `"`, `,`, a space or `+` |
| OAuth.PortSuffix | src/BitmeshClient.php:189-194 | `:port` exactly when the port is present and not the scheme's default, otherwise nothing |
| OAuth.NormalizeUrl | src/BitmeshClient.php:180-196 | the normalised URL starts with `scheme://host`, then `:` exactly when the port is shown, then the port digits and `/`; it ends in `/` and the path without leading slashes |
| OAuth.DefaultPortElided | src/BitmeshClient.php:189-194 | an explicit 80 on `http`, 443 on `https`, or any port on another scheme signs like no port |
| OAuth.ShownPortDistinguishes | src/BitmeshClient.php:189-194 | two shown ports that give the same normalised URL are equal |
| OAuth.AuthorityIgnoresPort | src/BitmeshClient.php:187 | `scheme://host` does not depend on the port |
| OAuth.LeadingSlashesIgnored | src/BitmeshClient.php:185 | extra leading slashes on the path do not change the normalised URL |
| OAuth.MissingPathIsRoot | src/BitmeshClient.php:185-196 | a missing path gives `scheme://host[:port]/`, like an empty path |
| OAuth.AllParams | src/BitmeshClient.php:203-204 | merged parameters: `oauth_signature` is gone, and otherwise the query wins over the OAuth parameters on an equal key |
| OAuth.ParamStringOrderIndependent | src/BitmeshClient.php:203-212 | the parameter string depends only on which pairs are present, not on their order |
| OAuth.ParsePairsJoin | src/BitmeshClient.php:208-212 | the `&`-joined encoded pairs read back as the pairs |
| OAuth.ParamStringRoundTrip | src/BitmeshClient.php:206-212 | the parameter string reads back as the key-sorted parameters |
| OAuth.BaseStringSplits | src/BitmeshClient.php:214-217 | the base string holds exactly two raw `&`, and splitting on them decodes to the method, URL and parameter string |
| OAuth.BaseStringInjective | src/BitmeshClient.php:214-217 | equal base strings come only from equal method, URL and parameter string |
| OAuth.SigningKey | src/BitmeshClient.php:219 | the key is `enc(secret)` followed by one `&`, which is the only `&`, and decoding the rest gives the secret |
| OAuth.SignatureOrderIndependent | src/BitmeshClient.php:198-221 | the signature does not depend on parameter order once the query is merged in |
| OAuth.OAuthEntries | src/BitmeshClient.php:231-235 | the header keeps no more entries than the array holds, and only `oauth_` keys |
| OAuth.OAuthEntriesMembers | src/BitmeshClient.php:231-235 | an entry is in the header exactly when it is in the array and its key starts with `oauth_` |
| OAuth.AllOAuthEntries | src/BitmeshClient.php:231-235 | an array of only `oauth_` keys goes into the header whole, in order |
| OAuth.ParseHeaderPartOf | src/BitmeshClient.php:233 | a header part holds no comma and reads back as its entry |
| OAuth.ParseQuoted | src/BitmeshClient.php:233 | `key="value"` without `=` in the key or a comma anywhere reads back as the decoded key and value |
| OAuth.ParseHeaderPartsCons | src/BitmeshClient.php:237 | a comma-free part then `, ` is read as the part, and reading goes on after the separator |
| OAuth.ParseJoinedParts | src/BitmeshClient.php:237 | comma-free parts joined by `, ` read back as their entries |
| OAuth.ParseHeaderPartsJoin | src/BitmeshClient.php:233-237 | the joined header parts read back as the entries |
| OAuth.AuthorizationHeaderRoundTrip | src/BitmeshClient.php:227-238 | the header starts with `OAuth ` and reads back as exactly the `oauth_` entries, in order, un-encoded |
| OAuth.AuthorizationHeaderStartsWithFirst | src/BitmeshClient.php:237 | the header opens with `OAuth ` and the first `oauth_` entry |
| OAuth.LowerHexDigit | src/BitmeshClient.php:164 | a `bin2hex` digit is a lower-case hexadecimal digit whose value is the nibble |
| OAuth.Bin2Hex | src/BitmeshClient.php:164 | `bin2hex`: two lower-case hexadecimal digits per byte |
| OAuth.Bin2HexSpells | src/BitmeshClient.php:164 | the two digits at each byte's position spell that byte, high nibble first |
| OAuth.Bin2HexRoundTrip | src/BitmeshClient.php:164 | reading the nonce's hex digits back gives the random bytes |
| OAuth.BaseOAuthParams | src/BitmeshClient.php:160-166 | the five parameters built before signing have the keys consumer key, signature method, timestamp, nonce and version, in that order |
| OAuth.OAuthParamsLayout | src/BitmeshClient.php:160-170 | the generated parameters are the five base ones with the signature appended last |
| OAuth.OAuthParamsSignature | src/BitmeshClient.php:168 | the `oauth_signature` entry is the signature of the five base parameters |
| OAuth.OAuthParamsKeys | src/BitmeshClient.php:160-170 | the generated keys are the six names, with the signature last |
| OAuth.SignedKeys | src/BitmeshClient.php:168 | writing the signature into the five base parameters gives the six names |
| OAuth.GeneratedNamesAllInHeader | src/BitmeshClient.php:231-235 | an array keyed by the six generated names goes into the header whole |
| OAuth.OAuthParamsInHeader | src/BitmeshClient.php:227-238 | the header of the generated parameters carries all six and reads back as exactly them |
| OAuth.UnreservedHeaderPart | src/BitmeshClient.php:233 | a key of unreserved characters appears in its header part unchanged |
| OAuth.GeneratedHeaderStart | src/BitmeshClient.php:227-237 | with the six generated names, the header opens with `OAuth oauth_consumer_key="enc(first value)"` |
| OAuth.OAuthParamsHeaderStart | tests/BitmeshClientChatTest.php:62-63 | the header of the generated parameters starts with `OAuth oauth_consumer_key="` + `rawurlencode(consumerKey)` + `"` |
| Client.ModelOrDefault | src/BitmeshClient.php:67 | `$model ?: default`: null, `""` and `"0"` give the default, and any other model is kept; never empty and never `"0"` |
| Client.ChatPayloadFields | src/BitmeshClient.php:65-71 | the payload starts with `model` then `messages`, then the other keys of `$extraPayload` in its order; an extra field wins on an equal key; nothing else is added |
| Client.PlainChatPayload | src/BitmeshClient.php:59-71 | a plain string with no model and no extras gives `{model: default, messages: [{role: user, content: s}]}` |
| Client.ChatUrlShape | src/BitmeshClient.php:56 | the chat URL ends in `/chat` with no `/` before it, and trailing slashes on the configured base URL make no difference |
| Client.RTrimSlashSuffix | src/BitmeshClient.php:29 | appending slashes before `rtrim` changes nothing |
| Client.WrapScalar | src/BitmeshClient.php:105 | `['data' => $decoded]` is an array whose only field `data` holds the value |
| Client.ClassifyResponse | src/BitmeshClient.php:89-105 | a decode failure comes first. Otherwise a non-200 status is an API error whose message starts with `Bitmesh API returned HTTP <code>`. A 200 returns an array unchanged and wraps anything else |
| Client.ApiErrorDetail | src/BitmeshClient.php:97-102 | ` - ` and the JSON of `error` are appended exactly when the body is an object with a non-null `error`; otherwise the status alone |
| Client.DecodeErrorBeforeStatus | src/BitmeshClient.php:89-95 | an undecodable body is a decode error whatever the status |
| Client.ApiErrorStatusRecoverable | src/BitmeshClient.php:98-100 | API errors from different statuses never carry the same message |
| Client.ApiErrorStatusShown | src/BitmeshClient.php:98-100 | after the prefix, the message holds the status digits, then a space or nothing |
| Client.DigitsThenNonDigit | src/BitmeshClient.php:98-100 | digits followed by a space or the end form a digit run of exactly their length |
| Client.NormalizedUrlOf | src/BitmeshClient.php:180-196 | the statements building `$normalizedUrl` compute `NormalizeUrl` of the parsed URL |
| Client.NormalizedParamsOf | src/BitmeshClient.php:208-211 | the `foreach` loop computes the encoded pairs, in order |
| Client.BitmeshClient.constructor | src/BitmeshClient.php:21-31 | the credentials are kept as given, and the base URL loses every trailing slash; the base URL and user agent default to PHP's defaults |
| Client.BitmeshClient.GenerateSignature | src/BitmeshClient.php:178-222 | the method returns the signature function of the method, URL, parameters and consumer secret |
| Client.BitmeshClient.GenerateOAuthParams | src/BitmeshClient.php:158-171 | the six parameters, keyed by the six names in order, with `oauth_signature` holding the signature of the five base parameters |
| Client.BitmeshClient.BuildAuthorizationHeader | src/BitmeshClient.php:227-238 | the loop builds the header of the `oauth_` entries in order, which reads back by `AuthorizationHeaderRoundTrip` |
| Client.BitmeshClient.PrepareChat | src/BitmeshClient.php:56-87 | stops with an encode error exactly when JSON encoding fails; otherwise it gives the signed request to `<base>/chat` |
| Client.BitmeshClient.Chat | src/BitmeshClient.php:51-106 | an encoding failure, then a curl failure, then the response classification, in that order; `model` defaults to none and `extraPayload` to empty |
| Client.BitmeshClient.SignedChatRequestChecks | tests/BitmeshClientChatTest.php:62-75 | every signed request passes the payload check (header parses, `oauth_signature` present, `X-Payload-Signature` = SHA-256 of body, key and that signature); its header opens with the consumer key; it goes to `<base>/chat` with the body unchanged |
| Client.BitmeshClient.ChatRequestSelfConsistent | src/BitmeshClient.php:73-87 | `chat` fails before sending exactly when encoding fails. Otherwise the request passes the payload check, opens its header with the consumer key, goes to the chat URL and carries exactly the encoded payload |

## Left out

- `sendRequest`, the curl transport (`src/BitmeshClient.php:120-153`), is a `transport` parameter. The model does not cover the `Accept`, `Content-Type` and `User-Agent` headers or the curl options, so `userAgent` is stored but never used.
- `time()` and `random_bytes(8)` are the `timestamp` and `nonceBytes` parameters.
- HMAC-SHA1, SHA-256, base64, `json_encode` and `json_decode` are opaque function values. Nothing is proved about what they compute. The model does not cover the text of `json_last_error_msg()` in the decode error.
- The following `parse_url` and `parse_str` behaviours are not modelled:
  - `parse_url` is an opaque function returning a record, and a URL it rejects behaves like one with no components;
  - `parse_str` returns string values under string keys;
  - key mangling (`.` and space become `_`) and nested `a[]=` arrays.
- Integer keys are not modelled. PHP's `ksort` compares numeric-string keys numerically and `array_merge` renumbers integer keys; the model compares every key byte by byte.
- JSON payloads have no floats, and structured messages are lists of JSON values.
- `image`, `video`, `videoStatus` and `sendGetRequest` are called by the tests (`tests/BitmeshClientImageTest.php`, `tests/BitmeshClientVideoTest.php`). Their definitions are not part of this model.
- `tests/ClientChatTest.php` tests the class `AiProxy\Client`, which is not part of this model.
- Exceptions become `Result` values: `Failure(EncodeFailed | TransportFailed | DecodeFailed | ApiError)`.
