/**
 * Base 16 ("hex") as section 8 of RFC 4648 defines it: every octet becomes two
 * digits, most significant nibble first, with no padding. Decoding accepts
 * either case, as the section allows; encoding produces lower case, which is
 * also what `Number.prototype.toString(16)` produces for one byte.
 */
module Hex {
  import opened Wrappers

  /** The value of one base 16 digit, in either case. */
  function DigitValue(c: char): (r: Option<int>)
    ensures r.Some? ==> 0 <= r.value < 16
    ensures r.Some? <==> ('0' <= c <= '9' || 'a' <= c <= 'f' || 'A' <= c <= 'F')
  {
    if '0' <= c <= '9' then Some(c as int - '0' as int)
    else if 'a' <= c <= 'f' then Some(c as int - 'a' as int + 10)
    else if 'A' <= c <= 'F' then Some(c as int - 'A' as int + 10)
    else None
  }

  /** The lower-case digit of a nibble. */
  function Digit(v: int): (c: char)
    requires 0 <= v < 16
    ensures '0' <= c <= '9' || 'a' <= c <= 'f'
    ensures DigitValue(c) == Some(v)
  {
    if v < 10 then ('0' as int + v) as char else ('a' as int + v - 10) as char
  }

  /** Two lower-case digits, zero-padded, for one octet. */
  function ByteToHex(b: byte): (s: string)
    ensures |s| == 2
    ensures forall i :: 0 <= i < 2 ==> '0' <= s[i] <= '9' || 'a' <= s[i] <= 'f'
    ensures DigitValue(s[0]).Some? && DigitValue(s[1]).Some?
    ensures DigitValue(s[0]).value * 16 + DigitValue(s[1]).value == b
  {
    [Digit(b / 16), Digit(b % 16)]
  }

  function Encode(bs: seq<byte>): (s: string)
    ensures |s| == 2 * |bs|
  {
    if bs == [] then [] else ByteToHex(bs[0]) + Encode(bs[1..])
  }

  /** Decoding fails on an odd length or on any character that is not a digit. */
  function Decode(s: string): (r: Option<seq<byte>>)
    ensures r.Some? ==> 2 * |r.value| == |s|
    decreases |s|
  {
    if |s| % 2 != 0 then None
    else if s == [] then Some([])
    else
      match (DigitValue(s[0]), DigitValue(s[1]), Decode(s[2..]))
      case (Some(hi), Some(lo), Some(rest)) => Some([hi * 16 + lo] + rest)
      case _ => None
  }

  /** Decoding inverts encoding. */
  lemma {:induction false} DecodeEncode(bs: seq<byte>)
    ensures Decode(Encode(bs)) == Some(bs)
  {
    if bs != [] {
      var s := Encode(bs);
      assert s[..2] == ByteToHex(bs[0]) && s[2..] == Encode(bs[1..]);
      DecodeEncode(bs[1..]);
      assert bs == [bs[0]] + bs[1..];
    }
  }

  /** Octet i of the result is the value of digits 2i and 2i + 1, in either case. */
  lemma {:induction false} DecodeValue(s: string, i: nat)
    requires Decode(s).Some? && i < |Decode(s).value|
    ensures DigitValue(s[2 * i]).Some? && DigitValue(s[2 * i + 1]).Some?
    ensures Decode(s).value[i] == DigitValue(s[2 * i]).value * 16 + DigitValue(s[2 * i + 1]).value
    decreases i
  {
    var t := s[2..];
    var r, rest := Decode(s).value, Decode(t).value;
    assert r == [DigitValue(s[0]).value * 16 + DigitValue(s[1]).value] + rest;
    if i > 0 {
      DecodeValue(t, i - 1);
      assert s[2 * i] == t[2 * (i - 1)] && s[2 * i + 1] == t[2 * (i - 1) + 1];
    }
  }

  /** Exactly the strings of even length made only of digits decode. */
  lemma {:induction false} DecodeSucceedsIff(s: string)
    ensures Decode(s).Some? <==>
      |s| % 2 == 0 && forall i :: 0 <= i < |s| ==> DigitValue(s[i]).Some?
  {
    if |s| % 2 == 0 && s != [] {
      DecodeSucceedsIff(s[2..]);
      assert forall i :: 2 <= i < |s| ==> s[i] == s[2..][i - 2];
      if Decode(s).Some? {
        forall i | 0 <= i < |s| ensures DigitValue(s[i]).Some? {
          if i >= 2 { assert s[i] == s[2..][i - 2]; }
        }
      }
    }
  }
}
