/**
 * UTF-8 as defined in section 3 of RFC 3629, over Dafny's `char` (a Unicode
 * scalar value). `Encode` is what Python's `str.encode("utf-8")` does before a
 * name is percent-encoded; `Decode` is a strict decoder (shortest form only, no
 * surrogates, nothing above U+10FFFF) that serves as its inverse.
 */
module Utf8 {
  import opened Wrappers

  /** An octet. */
  type Byte = b: int | 0 <= b < 256

  /** A continuation byte, 10xxxxxx. */
  predicate IsContinuation(b: Byte) {
    0x80 <= b < 0xC0
  }

  /** Every character of `s` is in the ASCII range. */
  predicate IsAscii(s: string) {
    forall i :: 0 <= i < |s| ==> s[i] as int < 0x80
  }

  /** The shortest UTF-8 form of one scalar value. */
  function EncodeChar(c: char): (r: seq<Byte>)
    ensures 1 <= |r| <= 4
    ensures |r| == 1 <==> c as int < 0x80
    ensures |r| == 1 ==> r[0] == c as int
    ensures |r| > 1 ==> 0xC2 <= r[0] < 0xF5
    ensures forall i :: 1 <= i < |r| ==> IsContinuation(r[i])
  {
    var cp := c as int;
    if cp < 0x80 then [cp]
    else if cp < 0x800 then [0xC0 + cp / 64, 0x80 + cp % 64]
    else if cp < 0x1_0000 then [0xE0 + cp / 4096, 0x80 + cp / 64 % 64, 0x80 + cp % 64]
    else [0xF0 + cp / 262144, 0x80 + cp / 4096 % 64, 0x80 + cp / 64 % 64, 0x80 + cp % 64]
  }

  /** The UTF-8 encoding of a whole string: one character after the other. */
  function Encode(s: string): (r: seq<Byte>)
    ensures |r| >= |s|
    ensures |r| == |s| <==> IsAscii(s)
  {
    if s == [] then []
    else
      assert IsAscii(s) <==> s[0] as int < 0x80 && IsAscii(s[1..]) by {
        if s[0] as int < 0x80 && IsAscii(s[1..]) {
          forall i | 0 <= i < |s| ensures s[i] as int < 0x80 {
            if i > 0 { assert s[i] == s[1..][i - 1]; }
          }
        }
      }
      EncodeChar(s[0]) + Encode(s[1..])
  }

  /** One decoded character and the number of bytes it took. */
  datatype Decoded = Decoded(c: char, len: nat)

  /** Decodes the character at the front of `bs`; None when `bs` does not start with a well-formed sequence. */
  function DecodeFirst(bs: seq<Byte>): (r: Option<Decoded>)
    ensures r.Some? ==> 1 <= r.value.len <= |bs| && r.value.len <= 4
  {
    if |bs| == 0 then None
    else if bs[0] < 0x80 then Some(Decoded(bs[0] as char, 1))
    else if 0xC2 <= bs[0] < 0xE0 then
      if |bs| >= 2 && IsContinuation(bs[1])
      then Some(Decoded(((bs[0] as int - 0xC0) * 64 + (bs[1] as int - 0x80)) as char, 2))
      else None
    else if 0xE0 <= bs[0] < 0xF0 then
      if |bs| >= 3 && IsContinuation(bs[1]) && IsContinuation(bs[2]) then
        var cp := (bs[0] as int - 0xE0) * 4096 + (bs[1] as int - 0x80) * 64 + (bs[2] as int - 0x80);
        if 0x800 <= cp && !(0xD800 <= cp < 0xE000) then Some(Decoded(cp as char, 3)) else None
      else None
    else if 0xF0 <= bs[0] < 0xF5 then
      if |bs| >= 4 && IsContinuation(bs[1]) && IsContinuation(bs[2]) && IsContinuation(bs[3]) then
        var cp := (bs[0] as int - 0xF0) * 262144 + (bs[1] as int - 0x80) * 4096 + (bs[2] as int - 0x80) * 64 + (bs[3] as int - 0x80);
        if 0x1_0000 <= cp < 0x11_0000 then Some(Decoded(cp as char, 4)) else None
      else None
    else None
  }

  /** Decodes a whole byte string; None when any part of it is not well-formed UTF-8. */
  function Decode(bs: seq<Byte>): (r: Option<string>)
    decreases |bs|
  {
    if bs == [] then Some([])
    else match DecodeFirst(bs)
      case None => None
      case Some(d) =>
        match Decode(bs[d.len..])
        case None => None
        case Some(rest) => Some([d.c] + rest)
  }

  lemma DecodeFirstTwo(a: int, b: int, rest: seq<Byte>)
    requires 2 <= a < 32 && 0 <= b < 64
    ensures DecodeFirst([0xC0 + a, 0x80 + b] + rest) == Some(Decoded((a * 64 + b) as char, 2))
  {
  }

  lemma DecodeFirstThree(a: int, b: int, c: int, rest: seq<Byte>)
    requires 0 <= a < 16 && 0 <= b < 64 && 0 <= c < 64
    requires 0x800 <= a * 4096 + b * 64 + c
    requires !(0xD800 <= a * 4096 + b * 64 + c < 0xE000)
    ensures DecodeFirst([0xE0 + a, 0x80 + b, 0x80 + c] + rest) == Some(Decoded((a * 4096 + b * 64 + c) as char, 3))
  {
  }

  lemma DecodeFirstFour(a: int, b: int, c: int, d: int, rest: seq<Byte>)
    requires 0 <= a < 5 && 0 <= b < 64 && 0 <= c < 64 && 0 <= d < 64
    requires 0x1_0000 <= a * 262144 + b * 4096 + c * 64 + d < 0x11_0000
    ensures DecodeFirst([0xF0 + a, 0x80 + b, 0x80 + c, 0x80 + d] + rest)
            == Some(Decoded((a * 262144 + b * 4096 + c * 64 + d) as char, 4))
  {
  }

  lemma DecodeFirstOfEncodeChar(c: char, rest: seq<Byte>)
    ensures DecodeFirst(EncodeChar(c) + rest) == Some(Decoded(c, |EncodeChar(c)|))
  {
    var cp := c as int;
    if cp < 0x80 {
      assert (EncodeChar(c) + rest)[0] == cp;
    } else if cp < 0x800 {
      DecodeFirstOfTwoByteChar(c, rest);
    } else if cp < 0x1_0000 {
      DecodeFirstOfThreeByteChar(c, rest);
    } else {
      DecodeFirstOfFourByteChar(c, rest);
    }
  }

  lemma DecodeFirstOfTwoByteChar(c: char, rest: seq<Byte>)
    requires 0x80 <= c as int < 0x800
    ensures DecodeFirst(EncodeChar(c) + rest) == Some(Decoded(c, 2))
  {
    var cp := c as int;
    var a, b := cp / 64, cp % 64;
    assert a * 64 + b == cp;
    DecodeFirstTwo(a, b, rest);
  }

  lemma DecodeFirstOfThreeByteChar(c: char, rest: seq<Byte>)
    requires 0x800 <= c as int < 0x1_0000
    ensures DecodeFirst(EncodeChar(c) + rest) == Some(Decoded(c, 3))
  {
    var cp := c as int;
    var a, b, d := cp / 4096, cp / 64 % 64, cp % 64;
    assert a * 4096 + b * 64 + d == cp;
    DecodeFirstThree(a, b, d, rest);
  }

  lemma DecodeFirstOfFourByteChar(c: char, rest: seq<Byte>)
    requires 0x1_0000 <= c as int
    ensures DecodeFirst(EncodeChar(c) + rest) == Some(Decoded(c, 4))
  {
    var cp := c as int;
    var a, b, d, e := cp / 262144, cp / 4096 % 64, cp / 64 % 64, cp % 64;
    assert a * 262144 + b * 4096 + d * 64 + e == cp;
    DecodeFirstFour(a, b, d, e, rest);
  }

  /** Decoding undoes encoding: every string survives the round trip. */
  lemma {:induction false} DecodeEncode(s: string)
    ensures Decode(Encode(s)) == Some(s)
  {
    if s != [] {
      var head := EncodeChar(s[0]);
      DecodeFirstOfEncodeChar(s[0], Encode(s[1..]));
      assert (head + Encode(s[1..]))[|head|..] == Encode(s[1..]);
      DecodeEncode(s[1..]);
      assert [s[0]] + s[1..] == s;
    }
  }

  lemma EncodeTwo(a: int, b: int)
    requires 2 <= a < 32 && 0 <= b < 64
    ensures EncodeChar((a * 64 + b) as char) == [0xC0 + a, 0x80 + b]
  {
    var cp := a * 64 + b;
    assert cp / 64 == a && cp % 64 == b;
  }

  lemma EncodeThree(a: int, b: int, c: int)
    requires 0 <= a < 16 && 0 <= b < 64 && 0 <= c < 64
    requires 0x800 <= a * 4096 + b * 64 + c
    requires !(0xD800 <= a * 4096 + b * 64 + c < 0xE000)
    ensures EncodeChar((a * 4096 + b * 64 + c) as char) == [0xE0 + a, 0x80 + b, 0x80 + c]
  {
    var cp := a * 4096 + b * 64 + c;
    assert cp / 64 == a * 64 + b && cp % 64 == c;
    assert cp / 4096 == a;
  }

  lemma EncodeFour(a: int, b: int, c: int, d: int)
    requires 0 <= a < 5 && 0 <= b < 64 && 0 <= c < 64 && 0 <= d < 64
    requires 0x1_0000 <= a * 262144 + b * 4096 + c * 64 + d < 0x11_0000
    ensures EncodeChar((a * 262144 + b * 4096 + c * 64 + d) as char) == [0xF0 + a, 0x80 + b, 0x80 + c, 0x80 + d]
  {
    var cp := a * 262144 + b * 4096 + c * 64 + d;
    assert cp / 64 == a * 4096 + b * 64 + c && cp % 64 == d;
    assert cp / 4096 == a * 64 + b;
    assert cp / 262144 == a;
  }

  lemma EncodeCharOfDecodeFirst(bs: seq<Byte>)
    requires DecodeFirst(bs).Some?
    ensures EncodeChar(DecodeFirst(bs).value.c) == bs[..DecodeFirst(bs).value.len]
  {
    if bs[0] < 0x80 {
    } else if bs[0] < 0xE0 {
      EncodeTwo(bs[0] as int - 0xC0, bs[1] as int - 0x80);
    } else if bs[0] < 0xF0 {
      EncodeThree(bs[0] as int - 0xE0, bs[1] as int - 0x80, bs[2] as int - 0x80);
    } else {
      EncodeFour(bs[0] as int - 0xF0, bs[1] as int - 0x80, bs[2] as int - 0x80, bs[3] as int - 0x80);
    }
  }

  /** Encoding undoes a successful decoding: the strict decoder accepts exactly the encodings. */
  lemma {:induction false} EncodeDecode(bs: seq<Byte>, s: string)
    requires Decode(bs) == Some(s)
    ensures Encode(s) == bs
    decreases |bs|
  {
    if bs != [] {
      var d := DecodeFirst(bs).value;
      var tail := bs[d.len..];
      var rest := Decode(tail).value;
      assert s == [d.c] + rest;
      EncodeCharOfDecodeFirst(bs);
      EncodeDecode(tail, rest);
      calc {
        Encode(s);
        EncodeChar(s[0]) + Encode(s[1..]);
        { assert s[0] == d.c && s[1..] == rest; }
        EncodeChar(d.c) + Encode(rest);
        bs[..d.len] + tail;
        bs;
      }
    }
  }
}
