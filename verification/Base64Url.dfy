/** base64url without padding, section 5 of RFC 4648: the bits of the bytes regrouped by six. */
module Base64Url {
  import opened BitStrings
  import opened Common

  function ToChar(v: nat): char
    requires v < 64
  {
    if v < 26 then ('A' as int + v) as char
    else if v < 52 then ('a' as int + (v - 26)) as char
    else if v < 62 then ('0' as int + (v - 52)) as char
    else if v == 62 then '-'
    else '_'
  }

  predicate InAlphabet(c: char) {
    'A' <= c <= 'Z' || 'a' <= c <= 'z' || '0' <= c <= '9' || c == '-' || c == '_'
  }

  function FromChar(c: char): (v: nat)
    requires InAlphabet(c)
    ensures v < 64
  {
    if 'A' <= c <= 'Z' then c as int - 'A' as int
    else if 'a' <= c <= 'z' then c as int - 'a' as int + 26
    else if '0' <= c <= '9' then c as int - '0' as int + 52
    else if c == '-' then 62
    else 63
  }

  lemma CharRoundTrip(v: nat)
    requires v < 64
    ensures InAlphabet(ToChar(v)) && FromChar(ToChar(v)) == v
  {
  }

  /** Six bits per character; the last group is filled up with zero bits. */
  function EncodeBits(bits: Bits): (s: string)
    decreases |bits|
  {
    ByteWidth();
    if bits == [] then []
    else if |bits| < 6 then [ToChar(FromBits(bits + Zeros(6 - |bits|)))]
    else [ToChar(FromBits(bits[..6]))] + EncodeBits(bits[6..])
  }

  function Encode(data: seq<byte>): string {
    EncodeBits(MessageBits(data))
  }

  function DecodeBits(s: string): (bits: Bits)
    requires forall i :: 0 <= i < |s| ==> InAlphabet(s[i])
    ensures |bits| == 6 * |s|
  {
    if s == [] then [] else ToBits(FromChar(s[0]), 6) + DecodeBits(s[1..])
  }

  /** Characters outside the alphabet and left-over bits that are not zero are refused. */
  function Decode(s: string): Option<seq<byte>> {
    if exists i :: 0 <= i < |s| && !InAlphabet(s[i]) then None
    else
      var bits := DecodeBits(s);
      var used := |bits| / 8 * 8;
      if |bits| - used >= 6 || bits[used..] != Zeros(|bits| - used) then None
      else Some(ToBytes(bits))
  }

  /** The padding bits of the last group. */
  function Padding(n: nat): nat {
    (6 - n % 6) % 6
  }

  lemma {:induction false} EncodeShape(bits: Bits)
    ensures |EncodeBits(bits)| * 6 == |bits| + Padding(|bits|)
    ensures forall i :: 0 <= i < |EncodeBits(bits)| ==> InAlphabet(EncodeBits(bits)[i])
    ensures DecodeBits(EncodeBits(bits)) == bits + Zeros(Padding(|bits|))
    decreases |bits|
  {
    if bits == [] {
      assert bits + Zeros(0) == bits;
    } else {
      var group, rest := bits, [];
      if |bits| < 6 {
        group := bits + Zeros(6 - |bits|);
        assert group + (rest + Zeros(0)) == bits + Zeros(Padding(|bits|));
      } else {
        group, rest := bits[..6], bits[6..];
        assert Padding(|bits|) == Padding(|rest|);
        assert bits + Zeros(Padding(|bits|)) == group + (rest + Zeros(Padding(|rest|)));
      }
      EncodeShape(rest);
      EncodeGroup(group, rest);
      assert EncodeBits(bits) == [ToChar(FromBits(group))] + EncodeBits(rest);
    }
  }

  lemma EncodeGroup(group: Bits, rest: Bits)
    requires |group| == 6
    requires forall i :: 0 <= i < |EncodeBits(rest)| ==> InAlphabet(EncodeBits(rest)[i])
    ensures FromBits(group) < 64
    ensures var s := [ToChar(FromBits(group))] + EncodeBits(rest);
            (forall i :: 0 <= i < |s| ==> InAlphabet(s[i])) && DecodeBits(s) == group + DecodeBits(EncodeBits(rest))
  {
    SextetRoundTrip(group);
    var s := [ToChar(FromBits(group))] + EncodeBits(rest);
    assert s[1..] == EncodeBits(rest);
  }

  lemma SextetRoundTrip(group: Bits)
    requires |group| == 6
    ensures FromBits(group) < 64
    ensures InAlphabet(ToChar(FromBits(group))) && ToBits(FromChar(ToChar(FromBits(group))), 6) == group
  {
    ByteWidth();
    CharRoundTrip(FromBits(group));
    BitsRoundTrip(group);
  }

  /** Decoding what was encoded gives every byte string back. */
  lemma DecodeEncode(data: seq<byte>)
    ensures Decode(Encode(data)) == Some(data)
  {
    var bits := MessageBits(data);
    EncodeShape(bits);
    var pad := Zeros(Padding(|bits|));
    ToBytesOfMessage(data, pad);
    assert |bits + pad| / 8 * 8 == |bits|;
    assert (bits + pad)[|bits|..] == pad;
  }

  lemma EncodeLength(data: seq<byte>)
    ensures |Encode(data)| == (8 * |data| + 5) / 6
    ensures forall i :: 0 <= i < |Encode(data)| ==> InAlphabet(Encode(data)[i])
  {
    EncodeShape(MessageBits(data));
  }

  // ---------------------------------------------------------------- as numbers

  /** The characters as digits to the base 64, first one highest. */
  function CharsValue(s: string): nat
    requires forall i :: 0 <= i < |s| ==> InAlphabet(s[i])
  {
    if s == [] then 0 else FromChar(s[0]) * Pow2(6 * (|s| - 1)) + CharsValue(s[1..])
  }

  lemma {:induction false} DecodedValue(s: string)
    requires forall i :: 0 <= i < |s| ==> InAlphabet(s[i])
    ensures FromBits(DecodeBits(s)) == CharsValue(s)
  {
    if s != [] {
      DecodedValue(s[1..]);
      FromBitsConcat(ToBits(FromChar(s[0]), 6), DecodeBits(s[1..]));
      ByteWidth();
      NumberRoundTrip(FromChar(s[0]), 6);
    }
  }

  /** The encoding is the number that the bytes are, written to the base 64 with zero bits added to fill it up. */
  lemma EncodedValue(data: seq<byte>)
    ensures forall i :: 0 <= i < |Encode(data)| ==> InAlphabet(Encode(data)[i])
    ensures CharsValue(Encode(data)) == BytesValue(data) * Pow2(Padding(8 * |data|))
  {
    var bits := MessageBits(data);
    EncodeShape(bits);
    DecodedValue(Encode(data));
    FromBitsConcat(bits, Zeros(Padding(|bits|)));
    ZerosAreNothing(Padding(|bits|));
    MessageValue(data);
  }
}
