/** EIP-191 framing of messages before they are hashed. */
module Eip191 {
  import opened BitStrings
  import opened Decimal

  function Ascii(s: string): (bytes: seq<byte>)
    requires forall i :: 0 <= i < |s| ==> s[i] as int < 128
    ensures |bytes| == |s| && forall i :: 0 <= i < |s| ==> bytes[i] == s[i] as int
  {
    seq(|s|, i requires 0 <= i < |s| => s[i] as int)
  }

  const HEADER := ['\U{19}'] + "Ethereum Signed Message:\n"

  function Framed(message: seq<byte>): seq<byte> {
    Ascii(HEADER + Numeral(|message|)) + message
  }

  method ToEip191Message(message: seq<byte>) returns (framed: seq<byte>)
    ensures framed == Framed(message)
  {
    var prefix := HEADER + Numeral(|message|);
    framed := [];
    framed := framed + Ascii(prefix);
    framed := framed + message;
  }

  /**
   * No two messages have one frame, although nothing separates the length from the message: a longer
   * message has a numeral at least as long, so frames of equal size hold messages of equal size.
   */
  lemma FramingInjective(a: seq<byte>, b: seq<byte>)
    requires Framed(a) == Framed(b)
    ensures a == b
  {
    if |a| <= |b| {
      LongerNumerals(|a|, |b|);
    } else {
      LongerNumerals(|b|, |a|);
    }
    assert |a| == |b|;
    var start := |HEADER + Numeral(|a|)|;
    assert a == Framed(a)[start..] && b == Framed(b)[start..];
  }

  /** A frame is the byte 0x19, the fixed text, the size in decimal without leading zeros, and the message itself. */
  lemma FrameParts(message: seq<byte>) returns (size: string)
    ensures NoLeadingZero(size) && Value(size) == |message|
    ensures Framed(message) == [0x19] + Ascii("Ethereum Signed Message:\n") + Ascii(size) + message
  {
    size := Numeral(|message|);
    NumeralReadsBack(|message|);
    AsciiConcat(HEADER, size);
    AsciiConcat(['\U{19}'], "Ethereum Signed Message:\n");
    assert Ascii(['\U{19}']) == [0x19];
  }

  lemma AsciiConcat(a: string, b: string)
    requires forall i :: 0 <= i < |a| ==> a[i] as int < 128
    requires forall i :: 0 <= i < |b| ==> b[i] as int < 128
    ensures Ascii(a + b) == Ascii(a) + Ascii(b)
  {
  }
}
