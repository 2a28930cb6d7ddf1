/**
 * The console's rule codec (static/js/index.js): a stored rule arrives as
 * base64 text, `atob` turns it into a binary string, `base64ToArrayBuffer`
 * copies that into a byte array, and `parseRule` rewrites every byte as text a
 * person can read: a printable ASCII byte as itself, any other byte as `\xHH`.
 */
module RuleCodec {
  import opened Wrappers
  import Hex
  import Base64

  /** Printable ASCII, space to tilde. */
  predicate IsPrintable(b: int) {
    32 <= b <= 126
  }

  /** The display text of one byte. */
  function FormatByte(b: byte): (r: string)
    ensures IsPrintable(b) ==> |r| == 1 && r[0] as int == b
    ensures !IsPrintable(b) ==>
      && |r| == 4 && r[0] == '\\' && r[1] == 'x'
      && ('0' <= r[2] <= '9' || 'a' <= r[2] <= 'f') && ('0' <= r[3] <= '9' || 'a' <= r[3] <= 'f')
      && Hex.DigitValue(r[2]).Some? && Hex.DigitValue(r[3]).Some?
      && Hex.DigitValue(r[2]).value * 16 + Hex.DigitValue(r[3]).value == b
    ensures forall i :: 0 <= i < |r| ==> IsPrintable(r[i] as int)
  {
    if IsPrintable(b) then [b as char] else "\\x" + Hex.ByteToHex(b)
  }

  /** The display text of a byte sequence: each byte's text, in order. */
  function Format(bs: seq<byte>): (r: string)
    ensures forall i :: 0 <= i < |r| ==> IsPrintable(r[i] as int)
  {
    if bs == [] then [] else FormatByte(bs[0]) + Format(bs[1..])
  }

  function PrintableCount(bs: seq<byte>): nat {
    if bs == [] then 0 else (if IsPrintable(bs[0]) then 1 else 0) + PrintableCount(bs[1..])
  }

  /** The display text takes one character per printable byte and four per other byte. */
  lemma {:induction false} FormatLength(bs: seq<byte>)
    ensures |Format(bs)| == PrintableCount(bs) + 4 * (|bs| - PrintableCount(bs))
  {
    if bs != [] {
      FormatLength(bs[1..]);
    }
  }

  /** The transform works byte by byte: formatting a concatenation concatenates the texts. */
  lemma {:induction false} FormatAppend(xs: seq<byte>, ys: seq<byte>)
    ensures Format(xs + ys) == Format(xs) + Format(ys)
  {
    if xs == [] {
      assert xs + ys == ys;
    } else {
      assert (xs + ys)[0] == xs[0] && (xs + ys)[1..] == xs[1..] + ys;
      FormatAppend(xs[1..], ys);
    }
  }

  lemma {:induction false} FormatSnoc(bs: seq<byte>, b: byte)
    ensures Format(bs + [b]) == Format(bs) + FormatByte(b)
  {
    FormatAppend(bs, [b]);
    assert Format([b]) == FormatByte(b) + Format([]);
  }

  /** A byte sequence that is all printable displays as exactly those characters. */
  lemma {:induction false} FormatPrintableIsIdentity(bs: seq<byte>)
    requires forall i :: 0 <= i < |bs| ==> IsPrintable(bs[i])
    ensures |Format(bs)| == |bs|
    ensures forall i :: 0 <= i < |bs| ==> Format(bs)[i] as int == bs[i]
  {
    if bs != [] {
      FormatPrintableIsIdentity(bs[1..]);
      assert forall i :: 1 <= i < |bs| ==> bs[i] == bs[1..][i - 1];
    }
  }

  /**
   * The display text is for reading, not for decoding: the four bytes of the
   * text `\x00` display exactly as the single byte 0 does.
   */
  lemma {:induction false} FormatNotInjective()
    ensures Format([92, 120, 48, 48]) == Format([0]) == "\\x00"
  {
    assert Format([0]) == FormatByte(0) + Format([]);
    assert Hex.ByteToHex(0) == "00";
    assert Format([48]) == "0";
    assert Format([48, 48]) == "0" + Format([48]);
    assert Format([120, 48, 48]) == "x" + Format([48, 48]);
  }

  /** The binary string `atob` returns: one character per decoded byte, with that code. */
  function Atob(base64: string): (r: Option<string>)
    ensures r.Some? <==> Base64.Decode(base64).Some?
    ensures r.Some? ==>
      && |r.value| == |Base64.Decode(base64).value|
      && forall i :: 0 <= i < |r.value| ==> r.value[i] as int == Base64.Decode(base64).value[i]
  {
    match Base64.Decode(base64)
    case None => None
    case Some(bs) => Some(seq(|bs|, i requires 0 <= i < |bs| => bs[i] as char))
  }

  /** What `parseRule` leaves in a rule's `b64_rule`, or None where `atob` throws. */
  function DecodeForDisplay(base64: string): Option<string> {
    match Base64.Decode(base64)
    case None => None
    case Some(bs) => Some(Format(bs))
  }

  /**
   * `base64ToArrayBuffer`: the array has one element per character of the
   * binary string, holding that character's code, so it holds the decoded
   * bytes. None stands for the exception `atob` throws on malformed input.
   */
  method Base64ToArrayBuffer(base64: string) returns (buffer: Option<array<byte>>)
    ensures buffer.None? <==> Atob(base64).None?
    ensures buffer.Some? ==>
      && buffer.value.Length == |Atob(base64).value|
      && (forall i :: 0 <= i < buffer.value.Length ==> buffer.value[i] == Atob(base64).value[i] as int)
      && buffer.value[..] == Base64.Decode(base64).value
  {
    var binary := Atob(base64);
    if binary.None? {
      return None;
    }
    var binaryString := binary.value;
    var bytes := new byte[|binaryString|];
    var i := 0;
    while i < |binaryString|
      invariant 0 <= i <= |binaryString|
      invariant forall k :: 0 <= k < i ==> bytes[k] == binaryString[k] as int
    {
      bytes[i] := binaryString[i] as int;
      i := i + 1;
    }
    buffer := Some(bytes);
  }

  /** A rule record as the console receives it in JSON; `parseRule` updates it in place. */
  class WireRule {
    var id: int
    var b64Rule: string
    var serviceName: string

    constructor (id: int, b64Rule: string, serviceName: string)
      ensures this.id == id && this.b64Rule == b64Rule && this.serviceName == serviceName
    {
      this.id := id;
      this.b64Rule := b64Rule;
      this.serviceName := serviceName;
    }
  }

  /**
   * `parseRule`: replaces the rule's base64 text by its display text and
   * touches no other field. `ok` is false where `atob` throws; the rule is
   * then left as it was.
   */
  method ParseRule(rule: WireRule) returns (ok: bool)
    modifies rule
    ensures ok == DecodeForDisplay(old(rule.b64Rule)).Some?
    ensures rule.b64Rule == if ok then DecodeForDisplay(old(rule.b64Rule)).value else old(rule.b64Rule)
    ensures rule.id == old(rule.id) && rule.serviceName == old(rule.serviceName)
  {
    var buffer := Base64ToArrayBuffer(rule.b64Rule);
    if buffer.None? {
      return false;
    }
    ghost var decoded := Base64.Decode(rule.b64Rule).value;
    var bytes := buffer.value;
    var formattedRule := "";
    for i := 0 to bytes.Length
      invariant unchanged(rule) && bytes[..] == decoded
      invariant formattedRule == Format(bytes[..i])
    {
      var b := bytes[i];
      if b >= 32 && b <= 126 {
        formattedRule := formattedRule + [b as char];
      } else {
        formattedRule := formattedRule + ("\\x" + Hex.ByteToHex(b));
      }
      FormatSnoc(bytes[..i], b);
      assert bytes[..i + 1] == bytes[..i] + [b];
    }
    assert bytes[..bytes.Length] == bytes[..] == decoded;
    assert DecodeForDisplay(rule.b64Rule) == Some(formattedRule);
    rule.b64Rule := formattedRule;
    ok := true;
  }
}
