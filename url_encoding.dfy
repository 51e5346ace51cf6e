/** The client's `urlEncode`: PHP `rawurlencode` (RFC 3986 section 2.1 percent-encoding
    of every byte outside the unreserved set of section 2.3) followed by two
    `str_replace` rewrites, `+` to `%20` and `%7E` to `~`. */
module UrlEncoding {
  import opened Text

  /** RFC 3986 section 2.3: `A-Z a-z 0-9 - . _ ~`. */
  predicate Unreserved(c: char)
  {
    ('A' <= c <= 'Z') || ('a' <= c <= 'z') || ('0' <= c <= '9') || c == '-' || c == '.' || c == '_' || c == '~'
  }

  /** An upper-case hexadecimal digit, as `rawurlencode` writes them. */
  predicate IsUpperHex(c: char)
  {
    ('0' <= c <= '9') || ('A' <= c <= 'F')
  }

  /** A hexadecimal digit in either case, as `rawurldecode` reads them. */
  predicate IsHex(c: char)
  {
    IsUpperHex(c) || ('a' <= c <= 'f')
  }

  function HexDigit(d: nat): (c: Octet)
    requires d < 16
    ensures IsUpperHex(c) && Unreserved(c) && HexValue(c) == d
  {
    if d < 10 then (48 + d) as char else (55 + d) as char
  }

  function HexValue(c: char): (d: nat)
    requires IsHex(c)
    ensures d < 16
  {
    if '0' <= c <= '9' then c as int - 48
    else if 'A' <= c <= 'F' then c as int - 55
    else c as int - 87
  }

  /** `%HH`: the byte's value in two upper-case hexadecimal digits. */
  function PercentTriple(b: Octet): (r: ByteString)
  {
    ['%', HexDigit(b as int / 16), HexDigit(b as int % 16)]
  }

  /** `rawurlencode` of one byte. */
  function EncodeOctet(b: Octet): (r: ByteString)
  {
    if Unreserved(b) then [b] else PercentTriple(b)
  }

  /** PHP `rawurlencode`: each byte encoded on its own, in order. */
  function RawUrlEncode(s: ByteString): (r: ByteString)
    ensures forall i | 0 <= i < |r| :: Unreserved(r[i]) || r[i] == '%'
    ensures |s| <= |r| <= 3 * |s|
  {
    if s == [] then [] else EncodeOctet(s[0]) + RawUrlEncode(s[1..])
  }

  /** PHP `str_replace(pat, rep, s)` for one non-empty search string: every
      occurrence, scanned left to right without overlap, is replaced. */
  function ReplaceAll<T(==)>(s: seq<T>, pat: seq<T>, rep: seq<T>): seq<T>
    decreases |s|
  {
    if pat == [] || |s| < |pat| then s
    else if s[..|pat|] == pat then rep + ReplaceAll(s[|pat|..], pat, rep)
    else [s[0]] + ReplaceAll(s[1..], pat, rep)
  }

  /** The client's `urlEncode` as written: `rawurlencode`, then `+` becomes
      `%20`, then `%7E` becomes `~`. Neither search string can occur in the
      output of `rawurlencode`, so both rewrites leave it unchanged. */
  function UrlEncode(s: ByteString): (r: ByteString)
    ensures r == RawUrlEncode(s)
  {
    var raw := RawUrlEncode(s);
    ReplaceAbsent<Octet>(raw, '+', "%20");
    NoTildeTripleInRaw(s);
    ReplaceAll<Octet>(ReplaceAll<Octet>(raw, "+", "%20"), "%7E", "~")
  }

  /** A string whose first element cannot start the search string is scanned
      past that element. */
  lemma ReplaceSkip<T>(c: T, t: seq<T>, pat: seq<T>, rep: seq<T>)
    requires pat != [] && c != pat[0]
    ensures ReplaceAll([c] + t, pat, rep) == [c] + ReplaceAll(t, pat, rep)
  {
    var s := [c] + t;
    assert s[1..] == t;
    if |s| >= |pat| {
      assert s[..|pat|][0] != pat[0];
    }
  }

  /** A single-element search string that does not occur is never replaced. */
  lemma {:induction false} ReplaceAbsent<T>(s: seq<T>, c: T, rep: seq<T>)
    requires c !in s
    ensures ReplaceAll(s, [c], rep) == s
  {
    if s != [] {
      ReplaceAbsent(s[1..], c, rep);
      ReplaceSkip(s[0], s[1..], [c], rep);
      assert [s[0]] + s[1..] == s;
    }
  }

  /** `%7E` never occurs in `rawurlencode` output: `~` is unreserved and is never
      percent-encoded, and every other `%` starts the triple of a different byte. */
  lemma {:induction false} NoTildeTripleInRaw(s: ByteString)
    ensures ReplaceAll<Octet>(RawUrlEncode(s), "%7E", "~") == RawUrlEncode(s)
  {
    var pat: ByteString := "%7E";
    var rep: ByteString := "~";
    if s != [] {
      var rest := RawUrlEncode(s[1..]);
      NoTildeTripleInRaw(s[1..]);
      var b := s[0];
      if Unreserved(b) {
        ReplaceSkip(b, rest, pat, rep);
      } else {
        var h1, h2 := HexDigit(b as int / 16), HexDigit(b as int % 16);
        var t: ByteString := ['%', h1, h2];
        assert t == PercentTriple(b);
        var u := t + rest;
        assert u[..3] == t;
        assert t != pat;
        var tail := [h2] + rest;
        var v := [h1] + tail;
        assert u == ['%'] + v;
        assert u[1..] == v;
        ReplaceSkip(h1, tail, pat, rep);
        ReplaceSkip(h2, rest, pat, rep);
        assert ReplaceAll(u, pat, rep) == ['%'] + ReplaceAll(v, pat, rep);
        assert ReplaceAll(rest, pat, rep) == rest;
        assert ReplaceAll(v, pat, rep) == [h1] + ([h2] + rest);
        assert RawUrlEncode(s) == u;
      }
    }
  }

  /** PHP `rawurldecode`: every `%` followed by two hexadecimal digits becomes
      the byte they spell; everything else is copied. */
  function PercentDecode(t: ByteString): (r: ByteString)
    ensures |r| <= |t|
  {
    if t == [] then []
    else if t[0] == '%' && |t| >= 3 && IsHex(t[1]) && IsHex(t[2]) then
      [(HexValue(t[1]) * 16 + HexValue(t[2])) as char] + PercentDecode(t[3..])
    else [t[0]] + PercentDecode(t[1..])
  }

  /** Decoding the encoding of one byte, followed by anything, gives back the
      byte first. */
  lemma DecodeEncodedOctet(b: Octet, rest: ByteString)
    ensures PercentDecode(EncodeOctet(b) + rest) == [b] + PercentDecode(rest)
  {
    var u := EncodeOctet(b) + rest;
    if Unreserved(b) {
      assert u[1..] == rest;
    } else {
      assert u[3..] == rest;
      assert (HexValue(u[1]) * 16 + HexValue(u[2])) == b as int;
    }
  }

  /** Round trip: `rawurldecode(urlEncode(s)) == s` for every byte string. */
  lemma {:induction false} DecodeEncode(s: ByteString)
    ensures PercentDecode(UrlEncode(s)) == s
  {
    if s != [] {
      DecodeEncode(s[1..]);
      DecodeEncodedOctet(s[0], RawUrlEncode(s[1..]));
      assert [s[0]] + s[1..] == s;
    }
  }

  /** The encoding is injective: distinct strings never share an encoding. */
  lemma EncodeInjective(s: ByteString, t: ByteString)
    requires UrlEncode(s) == UrlEncode(t)
    ensures s == t
  {
    DecodeEncode(s);
    DecodeEncode(t);
  }

  /** The encoding distributes over concatenation. */
  lemma {:induction false} EncodeAppend(s: ByteString, t: ByteString)
    ensures UrlEncode(s + t) == UrlEncode(s) + UrlEncode(t)
  {
    if s != [] {
      assert (s + t)[1..] == s[1..] + t;
      EncodeAppend(s[1..], t);
    } else {
      assert s + t == t;
    }
  }

  /** The encoding of a single byte: an unreserved byte is kept, any other byte
      becomes `%` and its two upper-case hexadecimal digits. */
  lemma EncodeOne(b: Octet)
    ensures Unreserved(b) ==> UrlEncode([b]) == [b]
    ensures !Unreserved(b) ==> UrlEncode([b]) == ['%', HexDigit(b as int / 16), HexDigit(b as int % 16)]
  {
    assert [b][1..] == [];
  }

  /** A string made only of unreserved characters is left as it is. */
  lemma {:induction false} EncodeUnreservedIdentity(s: ByteString)
    requires forall i | 0 <= i < |s| :: Unreserved(s[i])
    ensures UrlEncode(s) == s
  {
    if s != [] {
      EncodeUnreservedIdentity(s[1..]);
      assert [s[0]] + s[1..] == s;
    }
  }

  /** Space becomes `%20` (never `+`), `+` becomes `%2B`, and `~` stays as it is. */
  lemma SpaceTildePlus()
    ensures UrlEncode(" ") == "%20"
    ensures UrlEncode("~") == "~"
    ensures UrlEncode("+") == "%2B"
  {
    EncodeOne(' ');
    EncodeOne('~');
    EncodeOne('+');
  }

  /** The encoding never contains the characters the OAuth strings use as
      delimiters: `&`, `=`, `"`, `,`, space. */
  lemma NoDelimiters(s: ByteString)
    ensures '&' !in UrlEncode(s) && '=' !in UrlEncode(s) && '"' !in UrlEncode(s)
    ensures ',' !in UrlEncode(s) && ' ' !in UrlEncode(s) && '+' !in UrlEncode(s)
  {
  }
}
