/**
 * `requests.utils.quote`, which is Python's `urllib.parse.quote(s, safe="/")`:
 * the string is encoded as UTF-8 and every byte that is neither an unreserved
 * character (section 2.3 of RFC 3986: letters, digits, `-`, `.`, `_`, `~`) nor
 * `/` is written as `%` followed by two upper-case hexadecimal digits (section
 * 2.1 of RFC 3986). `PercentDecode` is the reverse mapping of section 2.1, used
 * as the reference against which quoting is checked.
 */
module UrlQuote {
  import opened Wrappers
  import Utf8

  type Byte = Utf8.Byte

  /** Characters `quote` leaves as they are: the unreserved set plus `/`. */
  predicate IsSafeChar(c: char) {
    ('A' <= c <= 'Z') || ('a' <= c <= 'z') || ('0' <= c <= '9')
    || c == '-' || c == '.' || c == '_' || c == '~' || c == '/'
  }

  /** Bytes `quote` leaves as they are: the ASCII codes of the safe characters. */
  predicate IsSafeByte(b: Byte) {
    b < 0x80 && IsSafeChar(b as char)
  }

  /** Every character of `s` is left alone by `quote`. */
  predicate AllSafe(s: string) {
    forall i :: 0 <= i < |s| ==> IsSafeChar(s[i])
  }

  /** The characters that can appear in quoted output. */
  predicate IsQuotedChar(c: char) {
    IsSafeChar(c) || c == '%'
  }

  /** The upper-case hexadecimal digit for `n`. */
  function HexDigit(n: nat): (c: char)
    requires n < 16
    ensures IsSafeChar(c) && IsHexDigit(c) && HexValue(c) == n
  {
    if n < 10 then ('0' as int + n) as char else ('A' as int + n - 10) as char
  }

  predicate IsHexDigit(c: char) {
    ('0' <= c <= '9') || ('A' <= c <= 'F') || ('a' <= c <= 'f')
  }

  /** The value of a hexadecimal digit, either case. */
  function HexValue(c: char): (n: nat)
    requires IsHexDigit(c)
    ensures n < 16
  {
    if '0' <= c <= '9' then c as int - '0' as int
    else if 'A' <= c <= 'F' then c as int - 'A' as int + 10
    else c as int - 'a' as int + 10
  }

  /** How `quote` writes one byte. */
  function QuoteByte(b: Byte): (r: string)
    ensures IsSafeByte(b) ==> r == [b as char]
    ensures !IsSafeByte(b) ==> |r| == 3 && r[0] == '%' && IsHexDigit(r[1]) && IsHexDigit(r[2])
                               && HexValue(r[1]) * 16 + HexValue(r[2]) == b
    ensures forall i :: 0 <= i < |r| ==> IsQuotedChar(r[i])
  {
    if IsSafeByte(b) then [b as char] else ['%', HexDigit(b / 16), HexDigit(b % 16)]
  }

  /** `quote_from_bytes`: each byte written out in turn. */
  function QuoteBytes(bs: seq<Byte>): (r: string)
    ensures |r| >= |bs|
    ensures forall i :: 0 <= i < |r| ==> IsQuotedChar(r[i])
  {
    if bs == [] then [] else QuoteByte(bs[0]) + QuoteBytes(bs[1..])
  }

  /** `requests.utils.quote(s)`. */
  function Quote(s: string): (r: string)
    ensures |r| >= |s|
    ensures forall i :: 0 <= i < |r| ==> IsQuotedChar(r[i])
  {
    QuoteBytes(Utf8.Encode(s))
  }

  /** Percent-decoding (section 2.1 of RFC 3986): `%` and two hex digits stand for one byte; any other character stands for its own UTF-8 bytes. */
  function PercentDecode(t: string): seq<Byte> {
    if t == [] then []
    else if t[0] == '%' && |t| >= 3 && IsHexDigit(t[1]) && IsHexDigit(t[2])
    then [HexValue(t[1]) * 16 + HexValue(t[2])] + PercentDecode(t[3..])
    else Utf8.EncodeChar(t[0]) + PercentDecode(t[1..])
  }

  /** Percent-decoding followed by UTF-8 decoding: Python's `unquote` made strict. */
  function Unquote(t: string): Option<string> {
    Utf8.Decode(PercentDecode(t))
  }

  lemma QuoteBytesAppend(a: seq<Byte>, b: seq<Byte>)
    ensures QuoteBytes(a + b) == QuoteBytes(a) + QuoteBytes(b)
  {
    if a != [] {
      assert (a + b)[0] == a[0] && (a + b)[1..] == a[1..] + b;
      QuoteBytesAppend(a[1..], b);
      calc {
        QuoteBytes(a + b);
        QuoteByte(a[0]) + QuoteBytes(a[1..] + b);
        QuoteByte(a[0]) + (QuoteBytes(a[1..]) + QuoteBytes(b));
        (QuoteByte(a[0]) + QuoteBytes(a[1..])) + QuoteBytes(b);
      }
    } else {
      assert a + b == b;
    }
  }

  /** Quoting a string is quoting its characters one after the other. */
  lemma QuoteCons(s: string)
    requires s != []
    ensures Quote(s) == QuoteBytes(Utf8.EncodeChar(s[0])) + Quote(s[1..])
  {
    QuoteBytesAppend(Utf8.EncodeChar(s[0]), Utf8.Encode(s[1..]));
  }

  /** One character quoted: itself when safe, otherwise one `%XX` triple per UTF-8 byte. */
  lemma QuoteCharShape(c: char)
    ensures IsSafeChar(c) ==> QuoteBytes(Utf8.EncodeChar(c)) == [c]
    ensures !IsSafeChar(c) ==> |QuoteBytes(Utf8.EncodeChar(c))| >= 3 && QuoteBytes(Utf8.EncodeChar(c))[0] == '%'
  {
    var e := Utf8.EncodeChar(c);
    assert QuoteBytes(e) == QuoteByte(e[0]) + QuoteBytes(e[1..]);
    if c as int < 0x80 {
      assert e == [c as int];
      assert (c as int) as char == c;
    } else {
      assert !IsSafeByte(e[0]);
    }
  }

  lemma PercentDecodeQuoteByte(b: Byte, t: string)
    ensures PercentDecode(QuoteByte(b) + t) == [b] + PercentDecode(t)
  {
    var q := QuoteByte(b) + t;
    if IsSafeByte(b) {
      assert q[0] == b as char && q[1..] == t;
      assert Utf8.EncodeChar(b as char) == [b];
    } else {
      assert q[3..] == t;
    }
  }

  /** Percent-decoding recovers the bytes that were quoted. */
  lemma {:induction false} PercentDecodeQuoteBytes(bs: seq<Byte>)
    ensures PercentDecode(QuoteBytes(bs)) == bs
  {
    if bs != [] {
      PercentDecodeQuoteByte(bs[0], QuoteBytes(bs[1..]));
      PercentDecodeQuoteBytes(bs[1..]);
      assert [bs[0]] + bs[1..] == bs;
    }
  }

  /** Quoting is undone by percent-decoding and UTF-8 decoding: the original string comes back. */
  lemma QuoteRoundTrip(s: string)
    ensures PercentDecode(Quote(s)) == Utf8.Encode(s)
    ensures Unquote(Quote(s)) == Some(s)
  {
    PercentDecodeQuoteBytes(Utf8.Encode(s));
    Utf8.DecodeEncode(s);
  }

  /** Quoted output has no space, no `#` and no double quote. */
  lemma QuoteAlphabet(s: string)
    ensures forall i :: 0 <= i < |Quote(s)| ==> IsQuotedChar(Quote(s)[i])
    ensures ' ' !in Quote(s) && '#' !in Quote(s) && '"' !in Quote(s)
  {
  }

  /**
   * The fixed points of `quote` are exactly the strings made of safe
   * characters; any other string grows by at least two characters and
   * gains a `%`.
   */
  lemma {:induction false} QuoteGrows(s: string)
    ensures AllSafe(s) ==> Quote(s) == s
    ensures !AllSafe(s) ==> |Quote(s)| >= |s| + 2 && '%' in Quote(s)
  {
    if s != [] {
      QuoteCons(s);
      QuoteCharShape(s[0]);
      QuoteGrows(s[1..]);
      var head := QuoteBytes(Utf8.EncodeChar(s[0]));
      assert |Quote(s[1..])| >= |s[1..]| by {
        assert |QuoteBytes(Utf8.Encode(s[1..]))| >= |Utf8.Encode(s[1..])|;
      }
      if AllSafe(s) {
        assert AllSafe(s[1..]) by {
          forall i | 0 <= i < |s[1..]| ensures IsSafeChar(s[1..][i]) { assert s[1..][i] == s[i + 1]; }
        }
        assert [s[0]] + s[1..] == s;
      } else if IsSafeChar(s[0]) {
        assert !AllSafe(s[1..]) by {
          var i :| 0 <= i < |s| && !IsSafeChar(s[i]);
          assert i > 0 && s[1..][i - 1] == s[i];
        }
        assert Quote(s)[|head| + |Quote(s[1..])| - |Quote(s[1..])|..] == Quote(s[1..]);
      } else {
        assert Quote(s)[0] == '%';
      }
    }
  }

  /** `quote` leaves a string alone exactly when all its characters are safe. */
  lemma QuoteFixedPoint(s: string)
    ensures Quote(s) == s <==> AllSafe(s)
  {
    QuoteGrows(s);
  }

  /**
   * Quoting twice is never the same as quoting once when the string needs any
   * escaping: the `%` introduced by the first pass is itself escaped by the second.
   */
  lemma QuoteTwiceDiffers(s: string)
    requires !AllSafe(s)
    ensures Quote(Quote(s)) != Quote(s)
    ensures Unquote(Quote(Quote(s))) == Some(Quote(s)) != Some(s)
  {
    QuoteGrows(s);
    var t := Quote(s);
    assert !AllSafe(t) by {
      var i :| 0 <= i < |t| && t[i] == '%';
    }
    QuoteGrows(t);
    QuoteRoundTrip(t);
  }

  lemma {:induction false} EncodeHasNoSlash(s: string)
    requires '/' !in s
    ensures '/' as int !in Utf8.Encode(s)
  {
    if s != [] {
      assert s[0] != '/';
      assert '/' !in s[1..];
      EncodeHasNoSlash(s[1..]);
      var e := Utf8.EncodeChar(s[0]);
      if |e| == 1 { assert e == [s[0] as int]; }
    }
  }

  lemma {:induction false} QuoteBytesHasNoSlash(bs: seq<Byte>)
    requires '/' as int !in bs
    ensures '/' !in QuoteBytes(bs)
  {
    if bs != [] {
      assert '/' as int !in bs[1..];
      QuoteBytesHasNoSlash(bs[1..]);
      assert bs[0] != '/' as int;
      if IsSafeByte(bs[0]) { assert (bs[0] as char) != '/'; }
    }
  }

  /** `/` is kept by `quote`, but never introduced: a string without `/` quotes to a single path segment. */
  lemma QuoteKeepsSegment(s: string)
    requires '/' !in s
    ensures '/' !in Quote(s)
  {
    EncodeHasNoSlash(s);
    QuoteBytesHasNoSlash(Utf8.Encode(s));
  }
}
