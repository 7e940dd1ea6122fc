/**
  * Python 2's `urllib.quote(s.encode('utf-8'))` with its default safe set `'/'`:
  * the text is encoded as UTF-8 and every byte outside the unreserved set is
  * written as `%XX` with upper-case hex digits. Percent-decoding is its partner.
  */
module UrlQuote {
  import opened Wrappers

  newtype byte = x: int | 0 <= x < 256

  /** The UTF-8 encoding of one Unicode scalar value. */
  function Utf8(c: char): (bs: seq<byte>)
    ensures 1 <= |bs| <= 4
    ensures |bs| == 1 <==> c as int < 0x80
    ensures |bs| == 1 ==> bs[0] as int == c as int
  {
    var n := c as int;
    if n < 0x80 then [n as byte]
    else if n < 0x800 then [(0xC0 + n / 64) as byte, (0x80 + n % 64) as byte]
    else if n < 0x10000 then
      [(0xE0 + n / 4096) as byte, (0x80 + (n / 64) % 64) as byte, (0x80 + n % 64) as byte]
    else
      [(0xF0 + n / 262144) as byte, (0x80 + (n / 4096) % 64) as byte,
       (0x80 + (n / 64) % 64) as byte, (0x80 + n % 64) as byte]
  }

  /** `s.encode('utf-8')`. */
  function Encode(s: string): (bs: seq<byte>)
    ensures |bs| >= |s|
    decreases |s|
  {
    if s == [] then [] else Utf8(s[0]) + Encode(s[1..])
  }

  /** urllib's `always_safe` (letters, digits, `_.-`) plus the default safe `/`. */
  predicate Unreserved(b: int) {
    65 <= b <= 90 || 97 <= b <= 122 || 48 <= b <= 57 || b == 95 || b == 46 || b == 45 || b == 47
  }

  /** One upper-case hex digit. */
  function HexDigit(n: int): (c: char)
    requires 0 <= n < 16
    ensures IsHex(c) && HexValue(c) == n
  {
    if n < 10 then ('0' as int + n) as char else ('A' as int + n - 10) as char
  }

  predicate IsHex(c: char) {
    '0' <= c <= '9' || 'A' <= c <= 'F' || 'a' <= c <= 'f'
  }

  function HexValue(c: char): (n: int)
    requires IsHex(c)
    ensures 0 <= n < 16
  {
    if '0' <= c <= '9' then c as int - '0' as int
    else if 'A' <= c <= 'F' then c as int - 'A' as int + 10
    else c as int - 'a' as int + 10
  }

  /** The quoted form of one byte. */
  function QuoteByte(b: byte): (s: string)
    ensures Unreserved(b as int) ==> s == [b as int as char]
    ensures !Unreserved(b as int) ==> |s| == 3 && s[0] == '%'
  {
    if Unreserved(b as int) then [b as int as char]
    else ['%', HexDigit(b as int / 16), HexDigit(b as int % 16)]
  }

  /** `urllib.quote` of a byte string. */
  function QuoteBytes(bs: seq<byte>): string
    decreases |bs|
  {
    if bs == [] then "" else QuoteByte(bs[0]) + QuoteBytes(bs[1..])
  }

  /** `urllib.quote(s.encode('utf-8'))`. */
  function Quote(s: string): string {
    QuoteBytes(Encode(s))
  }

  /** Strict percent-decoding: `%XX` is one byte, an ASCII character other than
      `%` is itself, anything else is malformed. */
  function Unquote(s: string): (r: Option<seq<byte>>)
    decreases |s|
  {
    if s == [] then Some([])
    else if s[0] == '%' then
      if |s| >= 3 && IsHex(s[1]) && IsHex(s[2]) then
        match Unquote(s[3..])
        case None => None
        case Some(rest) => Some([(HexValue(s[1]) * 16 + HexValue(s[2])) as byte] + rest)
      else None
    else if s[0] as int < 0x80 then
      match Unquote(s[1..])
      case None => None
      case Some(rest) => Some([s[0] as int as byte] + rest)
    else None
  }

  /** Decoding a quoted byte string gives the bytes back. */
  lemma {:induction false} UnquoteQuoteBytes(bs: seq<byte>)
    ensures Unquote(QuoteBytes(bs)) == Some(bs)
    decreases |bs|
  {
    if bs != [] {
      UnquoteQuoteBytes(bs[1..]);
      var head := QuoteByte(bs[0]);
      var s := head + QuoteBytes(bs[1..]);
      if Unreserved(bs[0] as int) {
        assert s[0] == bs[0] as int as char && s[1..] == QuoteBytes(bs[1..]);
      } else {
        assert s[3..] == QuoteBytes(bs[1..]);
        assert s[1] == HexDigit(bs[0] as int / 16) && s[2] == HexDigit(bs[0] as int % 16);
      }
      assert bs == [bs[0]] + bs[1..];
    }
  }

  /** Decoding a quoted text gives its UTF-8 bytes back. */
  lemma UnquoteQuote(s: string)
    ensures Unquote(Quote(s)) == Some(Encode(s))
  {
    UnquoteQuoteBytes(Encode(s));
  }

  /** A quoted text holds only unreserved characters, `%` and hex digits, so
      never the `+`, `&` or space that delimit a query. */
  lemma {:induction false} QuoteBytesAlphabet(bs: seq<byte>)
    ensures forall i :: 0 <= i < |QuoteBytes(bs)| ==>
      var c := QuoteBytes(bs)[i]; c == '%' || IsHex(c) || Unreserved(c as int)
    ensures '+' !in QuoteBytes(bs) && '&' !in QuoteBytes(bs) && ' ' !in QuoteBytes(bs)
    decreases |bs|
  {
    if bs != [] {
      QuoteBytesAlphabet(bs[1..]);
      var s := QuoteBytes(bs);
      var head := QuoteByte(bs[0]);
      assert s == head + QuoteBytes(bs[1..]);
      forall i | 0 <= i < |s|
        ensures s[i] == '%' || IsHex(s[i]) || Unreserved(s[i] as int)
      {
        if i >= |head| { assert s[i] == QuoteBytes(bs[1..])[i - |head|]; }
      }
    }
  }
}
