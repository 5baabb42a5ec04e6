/** Percent-encoding of query values: the encoder is ECMAScript's
    `encodeURIComponent` (ECMA-262, section 19.2.6.5, through the abstract
    operation Encode of section 19.2.6.1.1), restricted to ASCII input; the
    decoder is the percent-decode algorithm of the WHATWG URL Standard
    (section 1.3, "Percent-encoded bytes"), which is what the
    application/x-www-form-urlencoded parser applies to each name and value.
    The %XX triplets are those of section 2.1 of RFC 3986, with upper-case
    hexadecimal digits on output and either case accepted on input. */
module PercentEncoding {
  import opened Text

  /** The characters `encodeURIComponent` leaves unescaped:
      letters, digits and `- _ . ! ~ * ' ( )`. */
  predicate Unreserved(c: char) {
    ('A' <= c <= 'Z') || ('a' <= c <= 'z') || ('0' <= c <= '9') ||
    c == '-' || c == '_' || c == '.' || c == '!' || c == '~' ||
    c == '*' || c == '\'' || c == '(' || c == ')'
  }

  /** An ASCII hex digit, in either case. */
  predicate IsHexDigit(c: char) {
    ('0' <= c <= '9') || ('A' <= c <= 'F') || ('a' <= c <= 'f')
  }

  /** A hex digit as `encodeURIComponent` writes it: a digit or one of `A`-`F`. */
  predicate IsUpperHexDigit(c: char) {
    ('0' <= c <= '9') || ('A' <= c <= 'F')
  }

  /** The value of a hex digit. */
  function HexValue(c: char): (v: nat)
    requires IsHexDigit(c)
    ensures v < 16
  {
    if '0' <= c <= '9' then c as int - '0' as int
    else if 'A' <= c <= 'F' then c as int - 'A' as int + 10
    else c as int - 'a' as int + 10
  }

  /** The upper-case hex digit of `d`. */
  function HexDigit(d: nat): (c: char)
    requires d < 16
    ensures IsHexDigit(c) && IsUpperHexDigit(c) && Unreserved(c)
    ensures !('a' <= c <= 'z')
    ensures HexValue(c) == d
  {
    if d < 10 then ('0' as int + d) as char else ('A' as int + d - 10) as char
  }

  /** One ASCII character as `encodeURIComponent` writes it: itself when
      unreserved, otherwise `%` and two upper-case hex digits of its code. */
  function EncodeChar(c: char): (r: string)
    requires c as int < 128
    ensures forall i :: 0 <= i < |r| ==> Unreserved(r[i]) || r[i] == '%'
    ensures Unreserved(c) ==> r == [c]
    ensures !Unreserved(c) ==>
              |r| == 3 && r[0] == '%' && IsHexDigit(r[1]) && IsHexDigit(r[2]) &&
              IsUpperHexDigit(r[1]) && IsUpperHexDigit(r[2]) &&
              HexValue(r[1]) * 16 + HexValue(r[2]) == c as int
  {
    if Unreserved(c) then [c]
    else ['%', HexDigit(c as int / 16), HexDigit(c as int % 16)]
  }

  /** `encodeURIComponent(s)` for an ASCII string `s`. */
  function EncodeURIComponent(s: string): (r: string)
    requires IsAscii(s)
    ensures forall i :: 0 <= i < |r| ==> Unreserved(r[i]) || r[i] == '%'
    ensures |s| <= |r| <= 3 * |s|
  {
    if |s| == 0 then ""
    else
      var head := EncodeChar(s[0]);
      var tail := EncodeURIComponent(s[1..]);
      assert forall i :: 0 <= i < |head + tail| ==>
        (head + tail)[i] == if i < |head| then head[i] else tail[i - |head|];
      head + tail
  }

  /** A string of unreserved characters is its own encoding. */
  lemma {:induction false} EncodeUnreserved(s: string)
    requires forall i :: 0 <= i < |s| ==> Unreserved(s[i]) && s[i] as int < 128
    ensures EncodeURIComponent(s) == s
  {
    if |s| > 0 {
      EncodeUnreserved(s[1..]);
      assert s == [s[0]] + s[1..];
    }
  }

  /** A colour written `#` followed by unreserved characters (such as the
      six hex digits of `#RRGGBB`) encodes as `%23` followed by those
      characters. */
  lemma EncodeHashColor(digits: string)
    requires forall i :: 0 <= i < |digits| ==> Unreserved(digits[i]) && digits[i] as int < 128
    ensures EncodeURIComponent("#" + digits) == "%23" + digits
  {
    var s := "#" + digits;
    assert s[1..] == digits;
    EncodeUnreserved(digits);
    assert EncodeChar('#') == "%23";
  }

  /** The characters a form-urlencoded parser treats specially never occur
      in the output of `encodeURIComponent`. */
  lemma EncodedHasNoDelimiters(s: string)
    requires IsAscii(s)
    ensures '&' !in EncodeURIComponent(s)
    ensures '=' !in EncodeURIComponent(s)
    ensures '+' !in EncodeURIComponent(s)
    ensures '?' !in EncodeURIComponent(s)
  {
  }

  /** Percent-decoding: every `%` followed by two hex digits becomes the
      byte they denote; every other character is kept, a lone `%` included.
      Each decoded byte is read as the character with that code. */
  function PercentDecode(s: string): (r: string)
    ensures |r| <= |s|
    ensures '%' !in s ==> r == s
  {
    if |s| == 0 then ""
    else if s[0] == '%' && |s| >= 3 && IsHexDigit(s[1]) && IsHexDigit(s[2]) then
      [(HexValue(s[1]) * 16 + HexValue(s[2])) as char] + PercentDecode(s[3..])
    else
      assert '%' !in s ==> '%' !in s[1..];
      [s[0]] + PercentDecode(s[1..])
  }

  /** Decoding an encoded character in front of `t` yields the character
      in front of the decoding of `t`. */
  lemma DecodeEncodedChar(c: char, t: string)
    requires c as int < 128
    ensures PercentDecode(EncodeChar(c) + t) == [c] + PercentDecode(t)
  {
    var e := EncodeChar(c);
    if Unreserved(c) {
      assert (e + t)[1..] == t;
    } else {
      assert (e + t)[3..] == t;
    }
  }

  /** Percent-decoding inverts `encodeURIComponent` on ASCII strings. */
  lemma {:induction false} DecodeEncode(s: string)
    requires IsAscii(s)
    ensures PercentDecode(EncodeURIComponent(s)) == s
  {
    if |s| > 0 {
      DecodeEncodedChar(s[0], EncodeURIComponent(s[1..]));
      DecodeEncode(s[1..]);
      assert s == [s[0]] + s[1..];
    }
  }
}
