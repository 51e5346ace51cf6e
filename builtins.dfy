/** The values the client exchanges with PHP builtins and library primitives
    that this model does not look inside: JSON values, `parse_url` results, and
    the builtins themselves, passed in as functions. */
module Builtins {
  import opened Text
  import opened PhpArray

  /** A JSON value as `json_decode($s, true)` returns it: objects and lists
      both become PHP arrays. */
  datatype Json =
    | JNull
    | JBool(b: bool)
    | JInt(n: int)
    | JString(s: ByteString)
    | JList(items: seq<Json>)
    | JObject(fields: Assoc<Json>)
  {
    /** PHP `is_array`. */
    predicate IsArray()
    {
      JList? || JObject?
    }
  }

  /** What `parse_url` returns: each component only when the URL has it. A URL
      `parse_url` rejects (it returns false) behaves like one with no
      components at all. */
  datatype ParsedUrl = ParsedUrl(
    scheme: Option<ByteString>,
    host: Option<ByteString>,
    port: Option<nat>,
    path: Option<ByteString>,
    query: Option<ByteString>)

  /** The builtins the signing and payload code call, as opaque functions. */
  datatype Builtins = Builtins(
    /** `parse_url($url)`. */
    parseUrl: ByteString -> ParsedUrl,
    /** `parse_str($query, $out)`, flattened to string values. */
    parseQuery: ByteString -> Assoc<ByteString>,
    /** `hash_hmac('sha1', $data, $key, true)`: data first, then key. */
    hmacSha1: (ByteString, ByteString) -> ByteString,
    /** `base64_encode`. */
    base64: ByteString -> ByteString,
    /** `hash('sha256', $data)`: the lower-case hexadecimal digest. */
    sha256Hex: ByteString -> ByteString,
    /** `json_encode($v, JSON_UNESCAPED_SLASHES | JSON_UNESCAPED_UNICODE)`; None
        where PHP returns false. */
    jsonEncodeUnescaped: Json -> Option<ByteString>,
    /** `json_encode($v)` with default flags; None where PHP returns false. */
    jsonEncode: Json -> Option<ByteString>,
    /** `json_decode($s, true)`: None when `json_last_error()` reports an error,
        `Some(JNull)` for the literal `null`. */
    jsonDecode: ByteString -> Option<Json>)
}
