/** Percent-decoding of the request target (urllib.parse.unquote), as in
    section 2.1 of RFC 3986: "%" followed by two hexadecimal digits stands for
    the byte with that value; a "%" not followed by two hexadecimal digits is
    kept as it is. */
module Percent {
  import opened Text

  predicate IsHex(c: char) {
    '0' <= c <= '9' || 'a' <= c <= 'f' || 'A' <= c <= 'F'
  }

  function HexValue(c: char): nat
    requires IsHex(c)
  {
    if '0' <= c <= '9' then c as int - '0' as int
    else if 'a' <= c <= 'f' then c as int - 'a' as int + 10
    else c as int - 'A' as int + 10
  }

  function HexDigit(d: nat): char
    requires d < 16
  {
    if d < 10 then ('0' as int + d) as char else ('A' as int + d - 10) as char
  }

  /** unquote(s): every "%HH" (either case) becomes the byte 0xHH; any other
      character, a lone "%" included, is copied. Text without "%" comes back
      unchanged, and decoding never makes the text longer. */
  function Unquote(s: string): (r: string)
    ensures |r| <= |s|
    ensures '%' !in s ==> r == s
    decreases |s|
  {
    if s == [] then []
    else if |s| >= 3 && s[0] == '%' && IsHex(s[1]) && IsHex(s[2]) then
      [(HexValue(s[1]) * 16 + HexValue(s[2])) as char] + Unquote(s[3..])
    else
      assert '%' !in s ==> '%' !in s[1..] by {
        assert forall c :: c in s[1..] ==> c in s;
      }
      [s[0]] + Unquote(s[1..])
  }

  /** The characters a client sends as they are: RFC 3986 unreserved
      characters and the path separator. */
  predicate Unreserved(c: char) {
    'a' <= c <= 'z' || 'A' <= c <= 'Z' || '0' <= c <= '9' ||
    c == '-' || c == '.' || c == '_' || c == '~' || c == '/'
  }

  predicate IsAscii(s: string) { forall i :: 0 <= i < |s| ==> s[i] as int < 128 }

  function EncodeChar(c: char): string
    requires c as int < 128
  {
    if Unreserved(c) then [c]
    else ['%', HexDigit(c as int / 16), HexDigit(c as int % 16)]
  }

  /** How a browser or the companion app percent-encodes a file name before
      putting it in the request target. */
  function Quote(s: string): string
    requires IsAscii(s)
  {
    if s == [] then [] else EncodeChar(s[0]) + Quote(s[1..])
  }

  lemma HexRoundTrip(d: nat)
    requires d < 16
    ensures IsHex(HexDigit(d)) && HexValue(HexDigit(d)) == d
  {
  }

  lemma UnquoteEncodedChar(c: char, rest: string)
    requires c as int < 128
    ensures Unquote(EncodeChar(c) + rest) == [c] + Unquote(rest)
  {
    var s := EncodeChar(c) + rest;
    if Unreserved(c) {
      assert s[1..] == rest;
    } else {
      var hi, lo := c as int / 16, c as int % 16;
      HexRoundTrip(hi);
      HexRoundTrip(lo);
      assert s[0] == '%' && s[1] == HexDigit(hi) && s[2] == HexDigit(lo);
      assert s[3..] == rest;
      assert (hi * 16 + lo) as char == c;
    }
  }

  /** The server decodes exactly the name the client encoded. */
  lemma {:induction false} QuoteRoundTrip(s: string)
    requires IsAscii(s)
    ensures Unquote(Quote(s)) == s
    decreases |s|
  {
    if s != [] {
      UnquoteEncodedChar(s[0], Quote(s[1..]));
      QuoteRoundTrip(s[1..]);
    }
  }
}
