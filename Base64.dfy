/**
 * Base 64 as section 4 of RFC 4648 defines it: the standard alphabet
 * `A-Z a-z 0-9 + /`, every three octets become four characters, and a final
 * group of one or two octets is padded with `=` to four characters. Decoding
 * is strict: the length must be a multiple of four, `=` may only end the last
 * group, and the bits that padding leaves over must be zero (section 3.5), so
 * every string that decodes is the encoding of what it decodes to.
 */
module Base64 {
  import opened Wrappers

  /** The position of a character in the alphabet. */
  function IndexOf(c: char): (r: Option<int>)
    ensures r.Some? ==> 0 <= r.value < 64
    ensures c == '=' ==> r.None?
  {
    if 'A' <= c <= 'Z' then Some(c as int - 'A' as int)
    else if 'a' <= c <= 'z' then Some(c as int - 'a' as int + 26)
    else if '0' <= c <= '9' then Some(c as int - '0' as int + 52)
    else if c == '+' then Some(62)
    else if c == '/' then Some(63)
    else None
  }

  /** The character at a position of the alphabet. */
  function CharOf(v: int): (c: char)
    requires 0 <= v < 64
    ensures IndexOf(c) == Some(v)
  {
    if v < 26 then ('A' as int + v) as char
    else if v < 52 then ('a' as int + v - 26) as char
    else if v < 62 then ('0' as int + v - 52) as char
    else if v == 62 then '+'
    else '/'
  }

  lemma {:induction false} CharOfIndexOf(c: char)
    requires IndexOf(c).Some?
    ensures CharOf(IndexOf(c).value) == c
  {
  }

  function EncodeBlock(a: byte, b: byte, c: byte): string {
    [CharOf(a / 4), CharOf((a % 4) * 16 + b / 16), CharOf((b % 16) * 4 + c / 64), CharOf(c % 64)]
  }

  function EncodeTail1(a: byte): string {
    [CharOf(a / 4), CharOf((a % 4) * 16), '=', '=']
  }

  function EncodeTail2(a: byte, b: byte): string {
    [CharOf(a / 4), CharOf((a % 4) * 16 + b / 16), CharOf((b % 16) * 4), '=']
  }

  /** The encoding is four characters for every started group of three octets. */
  function Encode(bs: seq<byte>): (s: string)
    ensures |s| == 4 * ((|bs| + 2) / 3)
    decreases |bs|
  {
    if |bs| == 0 then []
    else if |bs| == 1 then EncodeTail1(bs[0])
    else if |bs| == 2 then EncodeTail2(bs[0], bs[1])
    else EncodeBlock(bs[0], bs[1], bs[2]) + Encode(bs[3..])
  }

  /** A group of four alphabet characters, with no padding. */
  function DecodeBlock(s: string): Option<seq<byte>>
    requires |s| == 4
  {
    match (IndexOf(s[0]), IndexOf(s[1]), IndexOf(s[2]), IndexOf(s[3]))
    case (Some(v0), Some(v1), Some(v2), Some(v3)) => Some(Octets(v0, v1, v2, v3))
    case _ => None
  }

  /** The three octets whose 24 bits are four alphabet positions of six bits each. */
  function Octets(v0: int, v1: int, v2: int, v3: int): seq<byte>
    requires 0 <= v0 < 64 && 0 <= v1 < 64 && 0 <= v2 < 64 && 0 <= v3 < 64
  {
    [v0 * 4 + v1 / 16, (v1 % 16) * 16 + v2 / 4, (v2 % 4) * 64 + v3]
  }

  /** The last group, which may end in one or two `=`. */
  function DecodeFinal(s: string): Option<seq<byte>>
    requires |s| == 4
  {
    if s[3] != '=' then DecodeBlock(s)
    else if s[2] == '=' then
      match (IndexOf(s[0]), IndexOf(s[1]))
      case (Some(v0), Some(v1)) => if v1 % 16 == 0 then Some([v0 * 4 + v1 / 16]) else None
      case _ => None
    else
      match (IndexOf(s[0]), IndexOf(s[1]), IndexOf(s[2]))
      case (Some(v0), Some(v1), Some(v2)) =>
        if v2 % 4 == 0 then Some([v0 * 4 + v1 / 16, (v1 % 16) * 16 + v2 / 4]) else None
      case _ => None
  }

  function Decode(s: string): (r: Option<seq<byte>>)
    decreases |s|
  {
    if |s| % 4 != 0 then None
    else if |s| == 0 then Some([])
    else if |s| == 4 then DecodeFinal(s)
    else
      match (DecodeBlock(s[..4]), Decode(s[4..]))
      case (Some(head), Some(tail)) => Some(head + tail)
      case _ => None
  }

  /** Division by 4, 16 and 64, characterised by quotient and remainder. */
  lemma {:induction false} DivMod(x: int, d: int, q: int, r: int)
    requires d == 4 || d == 16 || d == 64
    requires 0 <= r < d && x == d * q + r
    ensures x / d == q && x % d == r
  {
    if d == 4 {
      assert x == 4 * q + r;
    } else if d == 16 {
      assert x == 16 * q + r;
    } else {
      assert x == 64 * q + r;
    }
  }

  lemma {:induction false} Split(x: int, d: int)
    requires d == 4 || d == 16 || d == 64
    ensures x == d * (x / d) + x % d && 0 <= x % d < d
  {
  }

  lemma {:induction false} BlockRoundTrip(a: byte, b: byte, c: byte)
    ensures DecodeBlock(EncodeBlock(a, b, c)) == Some([a, b, c])
  {
    var s := EncodeBlock(a, b, c);
    var v0, v1, v2, v3 := a / 4, (a % 4) * 16 + b / 16, (b % 16) * 4 + c / 64, c % 64;
    assert IndexOf(s[0]) == Some(v0) && IndexOf(s[1]) == Some(v1);
    assert IndexOf(s[2]) == Some(v2) && IndexOf(s[3]) == Some(v3);
    assert Octets(v0, v1, v2, v3) == [a, b, c] by {
      OctetsOfPositions(a, b, c);
    }
  }

  /** The alphabet positions of three octets give those octets back. */
  lemma {:induction false} OctetsOfPositions(a: byte, b: byte, c: byte)
    ensures Octets(a / 4, (a % 4) * 16 + b / 16, (b % 16) * 4 + c / 64, c % 64) == [a, b, c]
  {
    Split(a, 4); Split(b, 16); Split(c, 64);
    DivMod((a % 4) * 16 + b / 16, 16, a % 4, b / 16);
    DivMod((b % 16) * 4 + c / 64, 4, b % 16, c / 64);
  }

  lemma {:induction false} Tail1RoundTrip(a: byte)
    ensures DecodeFinal(EncodeTail1(a)) == Some([a])
  {
    var s := EncodeTail1(a);
    Split(a, 4);
    DivMod((a % 4) * 16, 16, a % 4, 0);
    assert IndexOf(s[0]) == Some(a / 4) && IndexOf(s[1]) == Some((a % 4) * 16);
  }

  lemma {:induction false} Tail2RoundTrip(a: byte, b: byte)
    ensures DecodeFinal(EncodeTail2(a, b)) == Some([a, b])
  {
    var s := EncodeTail2(a, b);
    var v0, v1, v2 := a / 4, (a % 4) * 16 + b / 16, (b % 16) * 4;
    Split(a, 4); Split(b, 16);
    DivMod(v1, 16, a % 4, b / 16);
    DivMod(v2, 4, b % 16, 0);
    assert IndexOf(s[0]) == Some(v0) && IndexOf(s[1]) == Some(v1) && IndexOf(s[2]) == Some(v2);
    assert s[3] == '=' && s[2] != '=';
    assert v0 * 4 + v1 / 16 == a;
    assert (v1 % 16) * 16 + v2 / 4 == b;
  }

  /** Decoding inverts encoding (section 4 of RFC 4648). */
  lemma {:induction false} DecodeEncode(bs: seq<byte>)
    ensures Decode(Encode(bs)) == Some(bs)
    decreases |bs|
  {
    var s := Encode(bs);
    if |bs| == 1 {
      Tail1RoundTrip(bs[0]);
      assert bs == [bs[0]];
    } else if |bs| == 2 {
      Tail2RoundTrip(bs[0], bs[1]);
      assert bs == [bs[0], bs[1]];
    } else if |bs| == 3 {
      BlockRoundTrip(bs[0], bs[1], bs[2]);
      assert s == EncodeBlock(bs[0], bs[1], bs[2]) + Encode([]);
      assert s[3] != '=' by { assert IndexOf(s[3]).Some?; }
      assert Decode(s) == DecodeBlock(s);
      assert bs == [bs[0], bs[1], bs[2]];
    } else if |bs| > 3 {
      DecodeEncode(bs[3..]);
      DecodeEncodeStep(bs);
    }
  }

  lemma {:induction false} EncodeLength(bs: seq<byte>)
    requires bs != []
    ensures |Encode(bs)| == 4 * ((|bs| + 2) / 3)
    ensures |Encode(bs)| % 4 == 0 && |Encode(bs)| >= 4
  {
    var k, n := (|bs| + 2) / 3, |Encode(bs)|;
    assert k >= 1 && n == 4 * k;
    DivMod(n, 4, k, 0);
  }

  /** A string longer than one group decodes group by group. */
  lemma {:induction false} DecodeCons(block: string, rest: string, head: seq<byte>, tail: seq<byte>)
    requires |block| == 4 && |rest| % 4 == 0 && rest != []
    requires DecodeBlock(block) == Some(head) && Decode(rest) == Some(tail)
    ensures Decode(block + rest) == Some(head + tail)
  {
    var s := block + rest;
    assert |s| % 4 == 0 && |s| > 4 by {
      Split(|rest|, 4);
      DivMod(|s|, 4, |rest| / 4 + 1, 0);
    }
    assert s[..4] == block && s[4..] == rest;
  }

  lemma {:induction false} DecodeEncodeStep(bs: seq<byte>)
    requires |bs| > 3 && Decode(Encode(bs[3..])) == Some(bs[3..])
    ensures Decode(Encode(bs)) == Some(bs)
  {
    var head := bs[..3];
    assert head == [bs[0], bs[1], bs[2]];
    assert head + bs[3..] == bs;
    var block, rest := EncodeBlock(bs[0], bs[1], bs[2]), Encode(bs[3..]);
    assert Encode(bs) == block + rest;
    EncodeLength(bs[3..]);
    BlockRoundTrip(bs[0], bs[1], bs[2]);
    DecodeCons(block, rest, head, bs[3..]);
  }

  /** Re-encoding the octets of one group gives back its alphabet positions. */
  lemma {:induction false} GroupValues(v0: int, v1: int, v2: int, v3: int)
    requires 0 <= v0 < 64 && 0 <= v1 < 64 && 0 <= v2 < 64 && 0 <= v3 < 64
    ensures var a, b, c := v0 * 4 + v1 / 16, (v1 % 16) * 16 + v2 / 4, (v2 % 4) * 64 + v3;
      && 0 <= a < 256 && 0 <= b < 256 && 0 <= c < 256
      && a / 4 == v0 && (a % 4) * 16 + b / 16 == v1
      && (b % 16) * 4 + c / 64 == v2 && c % 64 == v3
  {
    Split(v1, 16); Split(v2, 4);
    DivMod(v0 * 4 + v1 / 16, 4, v0, v1 / 16);
    DivMod((v1 % 16) * 16 + v2 / 4, 16, v1 % 16, v2 / 4);
    DivMod((v2 % 4) * 64 + v3, 64, v2 % 4, v3);
  }

  /** The octets of a group of four alphabet positions encode back as those positions. */
  lemma {:induction false} EncodeGroup(v0: int, v1: int, v2: int, v3: int)
    requires 0 <= v0 < 64 && 0 <= v1 < 64 && 0 <= v2 < 64 && 0 <= v3 < 64
    ensures var o := Octets(v0, v1, v2, v3);
      EncodeBlock(o[0], o[1], o[2]) == [CharOf(v0), CharOf(v1), CharOf(v2), CharOf(v3)]
  {
    var a, b, c := v0 * 4 + v1 / 16, (v1 % 16) * 16 + v2 / 4, (v2 % 4) * 64 + v3;
    assert Octets(v0, v1, v2, v3) == [a, b, c];
    assert && 0 <= a < 256 && 0 <= b < 256 && 0 <= c < 256
           && a / 4 == v0 && (a % 4) * 16 + b / 16 == v1 && (b % 16) * 4 + c / 64 == v2 && c % 64 == v3 by {
      GroupValues(v0, v1, v2, v3);
    }
    assert EncodeBlock(a, b, c) == [CharOf(a / 4), CharOf((a % 4) * 16 + b / 16), CharOf((b % 16) * 4 + c / 64), CharOf(c % 64)];
  }

  /** The same for a final group of two positions and `==`, the second with no bits left over. */
  lemma {:induction false} EncodeGroup1(v0: int, v1: int)
    requires 0 <= v0 < 64 && 0 <= v1 < 64 && v1 % 16 == 0
    ensures var a := v0 * 4 + v1 / 16;
      0 <= a < 256 && EncodeTail1(a) == [CharOf(v0), CharOf(v1), '=', '=']
  {
    GroupValues(v0, v1, 0, 0);
  }

  /** The same for a final group of three positions and `=`, the third with no bits left over. */
  lemma {:induction false} EncodeGroup2(v0: int, v1: int, v2: int)
    requires 0 <= v0 < 64 && 0 <= v1 < 64 && 0 <= v2 < 64 && v2 % 4 == 0
    ensures var a, b := v0 * 4 + v1 / 16, (v1 % 16) * 16 + v2 / 4;
      && 0 <= a < 256 && 0 <= b < 256
      && EncodeTail2(a, b) == [CharOf(v0), CharOf(v1), CharOf(v2), '=']
  {
    GroupValues(v0, v1, v2, 0);
  }

  lemma {:induction false} DecodeBlockCanonical(s: string)
    requires |s| == 4 && DecodeBlock(s).Some?
    ensures var b := DecodeBlock(s).value; |b| == 3 && EncodeBlock(b[0], b[1], b[2]) == s
  {
    var v0, v1, v2, v3 := IndexOf(s[0]).value, IndexOf(s[1]).value, IndexOf(s[2]).value, IndexOf(s[3]).value;
    assert DecodeBlock(s).value == Octets(v0, v1, v2, v3);
    EncodeGroup(v0, v1, v2, v3);
    assert [CharOf(v0), CharOf(v1), CharOf(v2), CharOf(v3)] == s by {
      CharOfIndexOf(s[0]); CharOfIndexOf(s[1]); CharOfIndexOf(s[2]); CharOfIndexOf(s[3]);
    }
  }

  lemma {:induction false} DecodeFinalCanonical(s: string)
    requires |s| == 4 && DecodeFinal(s).Some?
    ensures Encode(DecodeFinal(s).value) == s
  {
    var b := DecodeFinal(s).value;
    if s[3] != '=' {
      DecodeBlockCanonical(s);
      assert Encode(b) == EncodeBlock(b[0], b[1], b[2]) + Encode([]);
    } else if s[2] == '=' {
      DecodeTail1Canonical(s);
    } else {
      DecodeTail2Canonical(s);
    }
  }

  /** A final group with `==` is the encoding of the one octet it decodes to. */
  lemma {:induction false} DecodeTail1Canonical(s: string)
    requires |s| == 4 && s[2] == '=' && s[3] == '=' && DecodeFinal(s).Some?
    ensures Encode(DecodeFinal(s).value) == s
  {
    var v0, v1 := IndexOf(s[0]).value, IndexOf(s[1]).value;
    var a := v0 * 4 + v1 / 16;
    assert DecodeFinal(s).value == [a] && v1 % 16 == 0;
    assert EncodeTail1(a) == [CharOf(v0), CharOf(v1), '=', '='] by {
      EncodeGroup1(v0, v1);
    }
    assert [CharOf(v0), CharOf(v1), '=', '='] == s by {
      CharOfIndexOf(s[0]); CharOfIndexOf(s[1]);
    }
  }

  /** A final group with one `=` is the encoding of the two octets it decodes to. */
  lemma {:induction false} DecodeTail2Canonical(s: string)
    requires |s| == 4 && s[2] != '=' && s[3] == '=' && DecodeFinal(s).Some?
    ensures Encode(DecodeFinal(s).value) == s
  {
    var v0, v1, v2 := IndexOf(s[0]).value, IndexOf(s[1]).value, IndexOf(s[2]).value;
    var a, b := v0 * 4 + v1 / 16, (v1 % 16) * 16 + v2 / 4;
    assert DecodeFinal(s).value == [a, b] && v2 % 4 == 0;
    assert EncodeTail2(a, b) == [CharOf(v0), CharOf(v1), CharOf(v2), '='] by {
      EncodeGroup2(v0, v1, v2);
    }
    assert [CharOf(v0), CharOf(v1), CharOf(v2), '='] == s by {
      CharOfIndexOf(s[0]); CharOfIndexOf(s[1]); CharOfIndexOf(s[2]);
    }
  }

  lemma {:induction false} EncodeDecodeStep(s: string)
    requires |s| > 4 && Decode(s).Some?
    requires Decode(s[4..]).Some? && Encode(Decode(s[4..]).value) == s[4..]
    ensures Encode(Decode(s).value) == s
  {
    var block, rest := s[..4], s[4..];
    var head, tail := DecodeBlock(block).value, Decode(rest).value;
    assert Decode(s).value == head + tail;
    assert |head| == 3 && EncodeBlock(head[0], head[1], head[2]) == block by {
      DecodeBlockCanonical(block);
    }
    assert |tail| > 0;
    var bs := head + tail;
    assert bs[0] == head[0] && bs[1] == head[1] && bs[2] == head[2] && bs[3..] == tail;
    assert Encode(bs) == block + rest;
    assert s == block + rest;
  }

  /**
   * Every string that decodes is the encoding of its decoding: the strict
   * decoder accepts exactly the canonical encodings.
   */
  lemma {:induction false} EncodeDecode(s: string)
    requires Decode(s).Some?
    ensures Encode(Decode(s).value) == s
    decreases |s|
  {
    if s == [] {
      assert Decode(s).value == [];
    } else if |s| == 4 {
      assert Encode(Decode(s).value) == s by {
        assert Decode(s) == DecodeFinal(s);
        DecodeFinalCanonical(s);
      }
    } else {
      assert Encode(Decode(s).value) == s by {
        assert |s| > 4 && Decode(s[4..]).Some?;
        EncodeDecode(s[4..]);
        EncodeDecodeStep(s);
      }
    }
  }

  /** A non-empty string that decodes yields at least one octet. */
  lemma {:induction false} DecodeNonEmpty(s: string)
    requires Decode(s).Some? && s != []
    ensures |Decode(s).value| > 0
  {
    EncodeDecode(s);
  }
}
