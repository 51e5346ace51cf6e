/** Byte strings as PHP sees them, and the string builtins the client uses. */
module Text {

  /** One byte of a PHP string, viewed as the Latin-1 character with that code. */
  type Octet = c: char | c as int < 256 witness 'a'

  /** A PHP string: a sequence of bytes. */
  type ByteString = seq<Octet>

  datatype Option<+T> = None | Some(value: T)

  datatype Result<+T, +E> = Success(value: T) | Failure(error: E)

  /** `a` is a prefix of `s`. */
  predicate StartsWith(s: ByteString, a: ByteString)
  {
    |a| <= |s| && s[..|a|] == a
  }

  /** PHP `implode(sep, parts)`. */
  function Join(sep: ByteString, parts: seq<ByteString>): ByteString
  {
    if |parts| == 0 then []
    else if |parts| == 1 then parts[0]
    else parts[0] + sep + Join(sep, parts[1..])
  }

  lemma StartsWithPrepend(a: ByteString, s: ByteString, t: ByteString)
    requires StartsWith(s, t)
    ensures StartsWith(a + s, a + t)
  {
    assert (a + s)[..|a + t|] == a + s[..|t|];
  }

  /** An implosion starts with its first part. */
  lemma JoinStartsWith(sep: ByteString, parts: seq<ByteString>)
    requires parts != []
    ensures StartsWith(Join(sep, parts), parts[0])
  {
    if |parts| > 1 {
      assert Join(sep, parts) == parts[0] + (sep + Join(sep, parts[1..]));
    }
  }

  /** Splits `s` at the first occurrence of `c`: the part before it, and the part
      after it when there is one. */
  function SplitFirst(s: ByteString, c: Octet): (r: (ByteString, Option<ByteString>))
    ensures |r.0| <= |s|
    ensures r.1.Some? ==> |r.1.value| < |s| && s == r.0 + [c] + r.1.value
    ensures r.1.None? ==> r.0 == s && c !in s
    ensures c !in r.0
  {
    if s == [] then ([], None)
    else if s[0] == c then ([], Some(s[1..]))
    else
      var t := SplitFirst(s[1..], c);
      ([s[0]] + t.0, t.1)
  }

  lemma {:induction false} SplitFirstAt(a: ByteString, c: Octet, b: ByteString)
    requires c !in a
    ensures SplitFirst(a + [c] + b, c) == (a, Some(b))
  {
    if a != [] {
      var s := a + [c] + b;
      assert s[0] == a[0] && a[0] != c;
      assert s[1..] == a[1..] + [c] + b;
      SplitFirstAt(a[1..], c, b);
      assert [a[0]] + a[1..] == a;
    } else {
      assert a + [c] + b == [c] + b;
    }
  }

  /** Splitting at a one-character separator placed after a part free of it. */
  lemma SplitAtSeparator(x: ByteString, sep: ByteString, y: ByteString)
    requires |sep| == 1 && sep[0] !in x
    ensures SplitFirst(x + sep + y, sep[0]) == (x, Some(y))
    ensures Count(x + sep + y, sep[0]) == Count(x, sep[0]) + 1 + Count(y, sep[0])
  {
    var c := sep[0];
    assert sep == [c];
    SplitFirstAt(x, c, y);
    CountAppend(x + sep, y, c);
    CountAppend(x, sep, c);
    assert Count(sep, c) == 1 by {
      assert sep[1..] == [];
    }
  }

  lemma SplitFirstAbsent(s: ByteString, c: Octet)
    requires c !in s
    ensures SplitFirst(s, c) == (s, None)
  {
  }

  /** Number of occurrences of `c` in `s`. */
  function Count(s: ByteString, c: Octet): nat
  {
    if s == [] then 0 else (if s[0] == c then 1 else 0) + Count(s[1..], c)
  }

  lemma {:induction false} CountAppend(a: ByteString, b: ByteString, c: Octet)
    ensures Count(a + b, c) == Count(a, c) + Count(b, c)
  {
    if a != [] {
      assert (a + b)[1..] == a[1..] + b;
      CountAppend(a[1..], b, c);
    } else {
      assert a + b == b;
    }
  }

  lemma {:induction false} CountAbsent(s: ByteString, c: Octet)
    requires c !in s
    ensures Count(s, c) == 0
  {
    if s != [] {
      CountAbsent(s[1..], c);
    }
  }

  /** PHP `ltrim(s, '/')`: drops every leading slash. */
  function LTrimSlash(s: ByteString): (r: ByteString)
    ensures |r| <= |s| && r == s[|s| - |r|..]
    ensures r == [] || r[0] != '/'
    ensures forall i | 0 <= i < |s| - |r| :: s[i] == '/'
  {
    if s != [] && s[0] == '/' then LTrimSlash(s[1..]) else s
  }

  /** PHP `rtrim(s, '/')`: drops every trailing slash. */
  function RTrimSlash(s: ByteString): (r: ByteString)
    ensures |r| <= |s| && r == s[..|r|]
    ensures r == [] || r[|r| - 1] != '/'
    ensures forall i | |r| <= i < |s| :: s[i] == '/'
  {
    if s != [] && s[|s| - 1] == '/' then RTrimSlash(s[..|s| - 1]) else s
  }

  predicate IsDigit(c: char)
  {
    48 <= c as int <= 57
  }

  function DigitChar(d: nat): (c: Octet)
    requires d < 10
    ensures IsDigit(c) && c as int - 48 == d
  {
    (48 + d) as char
  }

  /** PHP `(string) $n` for a non-negative integer: its decimal digits, no leading zero. */
  function Decimal(n: nat): (r: ByteString)
    ensures |r| >= 1
    ensures forall i | 0 <= i < |r| :: IsDigit(r[i])
    ensures |r| > 1 ==> r[0] != '0'
    decreases n
  {
    if n < 10 then [DigitChar(n)] else Decimal(n / 10) + [DigitChar(n % 10)]
  }

  /** Reads a string of decimal digits back as a number. */
  function DecimalValue(s: seq<char>): nat
    requires forall i | 0 <= i < |s| :: IsDigit(s[i])
  {
    if s == [] then 0
    else assert IsDigit(s[|s| - 1]); DecimalValue(s[..|s| - 1]) * 10 + (s[|s| - 1] as int - 48)
  }

  /** The decimal rendering loses nothing: reading it back gives the number. */
  lemma {:induction false} DecimalRoundTrip(n: nat)
    ensures DecimalValue(Decimal(n)) == n
    decreases n
  {
    var r := Decimal(n);
    if n >= 10 {
      DecimalRoundTrip(n / 10);
      assert r[..|r| - 1] == Decimal(n / 10);
    }
  }

  /** Different numbers never render to the same decimal string. */
  lemma DecimalInjective(m: nat, n: nat)
    requires Decimal(m) == Decimal(n)
    ensures m == n
  {
    DecimalRoundTrip(m);
    DecimalRoundTrip(n);
  }
}
