/**
 * UTF-8 as RFC 3629 defines it, for the encoding Rust's `str::as_bytes`
 * exposes: every Unicode scalar value becomes one to four octets. A Dafny
 * `char` is a Unicode scalar value (0 to 0x10FFFF, surrogates excluded), as a
 * Rust `char` is.
 */
module Utf8 {
  import opened Wrappers

  /** The number of octets RFC 3629 uses for a scalar value. */
  function Width(c: char): (n: int)
    ensures 1 <= n <= 4
  {
    if c as int < 0x80 then 1
    else if c as int < 0x800 then 2
    else if c as int < 0x10000 then 3
    else 4
  }

  function EncodeChar(c: char): (bs: seq<byte>)
    ensures |bs| == Width(c)
  {
    var v := c as int;
    if v < 0x80 then [v]
    else if v < 0x800 then [0xC0 + v / 64, 0x80 + v % 64]
    else if v < 0x10000 then [0xE0 + v / 4096, 0x80 + (v / 64) % 64, 0x80 + v % 64]
    else [0xF0 + v / 262144, 0x80 + (v / 4096) % 64, 0x80 + (v / 64) % 64, 0x80 + v % 64]
  }

  /** The octets of a string: the concatenation of the octets of its characters. */
  function Encode(s: string): (bs: seq<byte>)
    ensures |bs| >= |s|
  {
    if s == [] then [] else EncodeChar(s[0]) + Encode(s[1..])
  }

  predicate IsContinuation(b: byte) {
    0x80 <= b < 0xC0
  }

  /** The octet at a position, or 0 past the end. */
  function Get(bs: seq<byte>, i: nat): byte {
    if i < |bs| then bs[i] else 0
  }

  /**
   * The scalar value that starts an octet sequence and the number of octets
   * it takes, or None when the lead octet, a continuation octet, or the value
   * (overlong, a surrogate, above 0x10FFFF) is not allowed by RFC 3629.
   */
  function DecodeFirst(bs: seq<byte>): (r: Option<(char, int)>)
    requires bs != []
    ensures r.Some? ==> 1 <= r.value.1 <= |bs| && r.value.1 == Width(r.value.0)
  {
    var b0, b1, b2, b3: int := bs[0], Get(bs, 1), Get(bs, 2), Get(bs, 3);
    if b0 < 0x80 then Some((b0 as char, 1))
    else if 0xC0 <= b0 < 0xE0 && |bs| >= 2 && IsContinuation(bs[1]) then
      var v := (b0 - 0xC0) * 64 + (b1 - 0x80);
      if v < 0x80 then None else Some((v as char, 2))
    else if 0xE0 <= b0 < 0xF0 && |bs| >= 3 && IsContinuation(bs[1]) && IsContinuation(bs[2]) then
      var v := (b0 - 0xE0) * 4096 + (b1 - 0x80) * 64 + (b2 - 0x80);
      if v < 0x800 || 0xD800 <= v < 0xE000 then None else Some((v as char, 3))
    else if 0xF0 <= b0 < 0xF8 && |bs| >= 4 && IsContinuation(bs[1]) && IsContinuation(bs[2])
      && IsContinuation(bs[3]) then
      var v := (b0 - 0xF0) * 262144 + (b1 - 0x80) * 4096 + (b2 - 0x80) * 64 + (b3 - 0x80);
      if v < 0x10000 || v > 0x10FFFF then None else Some((v as char, 4))
    else None
  }

  function Decode(bs: seq<byte>): Option<string>
    decreases |bs|
  {
    if bs == [] then Some([])
    else match DecodeFirst(bs)
      case None => None
      case Some((c, n)) =>
        match Decode(bs[n..])
        case None => None
        case Some(rest) => Some([c] + rest)
  }

  lemma {:induction false} DecodeEncode2(c: char, rest: seq<byte>)
    requires 0x80 <= c as int < 0x800
    ensures DecodeFirst(EncodeChar(c) + rest) == Some((c, 2))
  {
    var v := c as int;
    var bs := EncodeChar(c) + rest;
    var b0, b1: int := bs[0], bs[1];
    assert b0 == 0xC0 + v / 64 && b1 == 0x80 + v % 64;
    assert (b0 - 0xC0) * 64 + (b1 - 0x80) == v;
  }

  /** The base-64 digits of a scalar value, as the encoder takes them. */
  lemma {:induction false} Digits(v: int)
    requires 0 <= v
    ensures v / 64 == 64 * (v / 4096) + (v / 64) % 64
    ensures v / 4096 == 64 * (v / 262144) + (v / 4096) % 64
    ensures v == 4096 * (v / 4096) + 64 * ((v / 64) % 64) + v % 64
    ensures v == 262144 * (v / 262144) + 4096 * ((v / 4096) % 64) + 64 * ((v / 64) % 64) + v % 64
  {
    var d0, v1 := v % 64, v / 64;
    var d1, v2 := v1 % 64, v1 / 64;
    var d2, v3 := v2 % 64, v2 / 64;
    assert v == 64 * v1 + d0 && v1 == 64 * v2 + d1 && v2 == 64 * v3 + d2;
    Quotient4096(v, v2, 64 * d1 + d0);
    Quotient262144(v, v3, 4096 * d2 + 64 * d1 + d0);
  }

  lemma {:induction false} Quotient4096(x: int, q: int, r: int)
    requires 0 <= r < 4096 && x == 4096 * q + r
    ensures x / 4096 == q
  {
  }

  lemma {:induction false} Quotient262144(x: int, q: int, r: int)
    requires 0 <= r < 262144 && x == 262144 * q + r
    ensures x / 262144 == q
  {
  }

  lemma {:induction false} DecodeEncode3(c: char, rest: seq<byte>)
    requires 0x800 <= c as int < 0x10000
    ensures DecodeFirst(EncodeChar(c) + rest) == Some((c, 3))
  {
    var v := c as int;
    var bs := EncodeChar(c) + rest;
    Digits(v);
    var b0, b1, b2: int := bs[0], bs[1], bs[2];
    assert b0 == 0xE0 + v / 4096 && b1 == 0x80 + (v / 64) % 64 && b2 == 0x80 + v % 64;
    assert (b0 - 0xE0) * 4096 + (b1 - 0x80) * 64 + (b2 - 0x80) == v;
  }

  lemma {:induction false} DecodeEncode4(c: char, rest: seq<byte>)
    requires 0x10000 <= c as int
    ensures DecodeFirst(EncodeChar(c) + rest) == Some((c, 4))
  {
    var v := c as int;
    var bs := EncodeChar(c) + rest;
    Digits(v);
    var b0, b1, b2, b3: int := bs[0], bs[1], bs[2], bs[3];
    assert b0 == 0xF0 + v / 262144 && b1 == 0x80 + (v / 4096) % 64;
    assert b2 == 0x80 + (v / 64) % 64 && b3 == 0x80 + v % 64;
    assert (b0 - 0xF0) * 262144 + (b1 - 0x80) * 4096 + (b2 - 0x80) * 64 + (b3 - 0x80) == v;
  }

  /** One character's octets decode back to it. */
  lemma {:induction false} DecodeEncodeChar(c: char, rest: seq<byte>)
    ensures DecodeFirst(EncodeChar(c) + rest) == Some((c, Width(c)))
  {
    var v := c as int;
    if v < 0x80 {
      assert (EncodeChar(c) + rest)[0] == v;
    } else if v < 0x800 {
      DecodeEncode2(c, rest);
    } else if v < 0x10000 {
      DecodeEncode3(c, rest);
    } else {
      DecodeEncode4(c, rest);
    }
  }

  /** Decoding inverts encoding: no two strings have the same octets. */
  lemma {:induction false} DecodeEncode(s: string)
    ensures Decode(Encode(s)) == Some(s)
  {
    if s != [] {
      var head, tail := EncodeChar(s[0]), Encode(s[1..]);
      DecodeEncodeChar(s[0], tail);
      assert (head + tail)[|head|..] == tail;
      DecodeEncode(s[1..]);
      assert [s[0]] + s[1..] == s;
    }
  }

  /** An ASCII string's octets are its character codes, one each. */
  lemma {:induction false} EncodeAscii(s: string)
    requires forall i :: 0 <= i < |s| ==> s[i] as int < 0x80
    ensures |Encode(s)| == |s|
    ensures forall i :: 0 <= i < |s| ==> Encode(s)[i] == s[i] as int
  {
    if s != [] {
      EncodeAscii(s[1..]);
      assert forall i :: 1 <= i < |s| ==> s[i] == s[1..][i - 1];
    }
  }
}
