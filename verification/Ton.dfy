/** TON addresses: the raw form `workchain:hex` and the user-friendly base64url form. */
module Ton {
  import opened Common
  import opened BitStrings
  import opened Decimal
  import opened Text
  import Base64Url
  import Crc16

  // ---------------------------------------------------------------- reading the raw form

  /** `str::parse::<i32>`: an optional sign, at least one digit, no overflow. */
  function ParseI32(s: string): Option<int> {
    var signed := s != [] && (s[0] == '-' || s[0] == '+');
    var digits := if signed then s[1..] else s;
    if digits == [] || !AllDigits(digits) then None
    else
      var magnitude: int := Value(digits);
      var n := if signed && s[0] == '-' then -magnitude else magnitude;
      if -0x8000_0000 <= n <= 0x7fff_ffff then Some(n) else None
  }

  /** The usual decimal form of a number is read back exactly if the number fits 32 bits with a sign. */
  lemma I32Exactly(n: int)
    ensures var s := if n < 0 then "-" + Numeral(-n) else Numeral(n);
            ParseI32(s) == if -2_147_483_648 <= n <= 2_147_483_647 then Some(n) else None
  {
    if n < 0 {
      NumeralReadsBack(-n);
      assert ("-" + Numeral(-n))[1..] == Numeral(-n);
    } else {
      NumeralReadsBack(n);
      assert IsDigit(Numeral(n)[0]);
    }
  }

  function HexBytes(s: string): (bytes: seq<byte>)
    requires AllHex(s) && |s| % 2 == 0
    ensures |bytes| == |s| / 2
    ensures forall i :: 0 <= i < |bytes| ==> bytes[i] == 16 * HexValue(s[2 * i]) + HexValue(s[2 * i + 1])
  {
    seq(|s| / 2, i requires 0 <= i < |s| / 2 => 16 * HexValue(s[2 * i]) + HexValue(s[2 * i + 1]))
  }

  datatype RawAddress = RawAddress(workchain: int, account: seq<byte>)

  /** Anything after a second ':' is ignored, as the program never looks at it. */
  function ParseRaw(raw: string): (r: Option<RawAddress>)
    ensures r.Some? ==> |r.value.account| == 32
  {
    var (first, rest) := Cut(raw, ':');
    if ParseI32(first).None? || rest.None? then None
    else
      var hex := Cut(rest.value, ':').0;
      if |hex| != 64 || !AllHex(hex) then None
      else Some(RawAddress(ParseI32(first).value, HexBytes(hex)))
  }

  // ---------------------------------------------------------------- building the friendly form

  function Tag(bounceable: bool, testnet: bool): byte {
    (if bounceable then 0x11 else 0x51) + if testnet then 0x80 else 0
  }

  /** `(wc as i8) as u8`: the low byte, whatever the workchain. */
  function LowByte(workchain: int): byte {
    workchain % 256
  }

  /** The byte read back as a signed one. */
  function SignedByte(b: byte): int {
    if b < 128 then b else b - 256
  }

  function Body(a: RawAddress, bounceable: bool, testnet: bool): seq<byte> {
    [Tag(bounceable, testnet), LowByte(a.workchain)] + a.account
  }

  /** The bytes followed by their checksum. */
  function Sealed(body: seq<byte>): seq<byte> {
    body + Crc16.BigEndian(Crc16.Crc(body))
  }

  function FriendlyOf(a: RawAddress, bounceable: bool, testnet: bool): string {
    Base64Url.Encode(Sealed(Body(a, bounceable, testnet)))
  }

  function Friendly(raw: string, bounceable: bool, testnet: bool): Option<string> {
    match ParseRaw(raw)
    case None => None
    case Some(a) => Some(FriendlyOf(a, bounceable, testnet))
  }

  method TonRawToFriendly(raw: string, bounceable: bool, testnet: bool) returns (friendly: Option<string>)
    ensures friendly == Friendly(raw, bounceable, testnet)
  {
    var (wc, rest) := Cut(raw, ':');
    var workchain := ParseI32(wc);
    if workchain.None? || rest.None? {
      return None;
    }
    var hex := Cut(rest.value, ':').0;
    if |hex| != 64 || !AllHex(hex) {
      return None;
    }
    var body := BuildBody(workchain.value, HexBytes(hex), bounceable, testnet);
    var printed := Seal(body);
    return Some(printed);
  }

  method BuildBody(workchain: int, account: seq<byte>, bounceable: bool, testnet: bool) returns (bytes: seq<byte>)
    ensures bytes == Body(RawAddress(workchain, account), bounceable, testnet)
  {
    var tag: byte := if bounceable then 0x11 else 0x51;
    if testnet {
      tag := tag + 0x80; // sets the top bit, which neither tag has
    }
    bytes := [tag];
    bytes := bytes + [LowByte(workchain)];
    bytes := bytes + account;
  }

  /** Appends the checksum and prints the bytes. */
  method Seal(body: seq<byte>) returns (printed: string)
    ensures printed == Base64Url.Encode(Sealed(body))
  {
    var crc := Crc16.Crc16Xmodem(body);
    var bytes := body + Crc16.BigEndian(crc);
    return Base64Url.Encode(bytes);
  }

  function ToFriendlyIfRaw(addr: string): string {
    if ':' in addr && Friendly(addr, true, false).Some? then Friendly(addr, true, false).value else addr
  }

  // ---------------------------------------------------------------- the address check

  /** `u8::from_str_radix(s, 16)` succeeds. */
  predicate IsHexU8(s: string) {
    var digits := if s != [] && s[0] == '+' then s[1..] else s;
    digits != [] && AllHex(digits) && HexNumber(digits) < 256
  }

  function HexNumber(s: string): nat
    requires AllHex(s)
  {
    if s == [] then 0 else 16 * HexNumber(s[..|s| - 1]) + HexValue(s[|s| - 1])
  }

  predicate IsTonAddressValid(address: string) {
    if ':' in address then
      var (first, rest) := Cut(address, ':');
      && rest.Some? && ':' !in rest.value
      && IsHexU8(first)
      && |rest.value| == 64 && AllHex(rest.value)
    else
      && (forall i :: 0 <= i < |address| ==> Base64Url.InAlphabet(address[i]))
      && address != [] && (address[0] == 'E' || address[0] == 'U')
      && |address| >= 36
  }

  // ---------------------------------------------------------------- properties

  lemma SealedBody(a: RawAddress, bounceable: bool, testnet: bool) returns (bytes: seq<byte>)
    requires |a.account| == 32
    ensures bytes == Sealed(Body(a, bounceable, testnet)) && |bytes| == 36
    ensures bytes[0] == Tag(bounceable, testnet) && bytes[1] == LowByte(a.workchain) && bytes[2..34] == a.account
    ensures Crc16.Crc(bytes) == Zeros(16)
  {
    var body := Body(a, bounceable, testnet);
    bytes := Sealed(body);
    Crc16.CrcResidue(body);
  }

  lemma FriendlyOfDecodes(a: RawAddress, bounceable: bool, testnet: bool) returns (bytes: seq<byte>)
    requires |a.account| == 32
    ensures |bytes| == 36 && Base64Url.Decode(FriendlyOf(a, bounceable, testnet)) == Some(bytes)
    ensures bytes[0] == Tag(bounceable, testnet) && bytes[1] == LowByte(a.workchain) && bytes[2..34] == a.account
    ensures Crc16.Crc(bytes) == Zeros(16)
  {
    bytes := SealedBody(a, bounceable, testnet);
    Base64Url.DecodeEncode(bytes);
  }

  lemma FitsSignedByte(workchain: int)
    ensures SignedByte(LowByte(workchain)) == workchain <==> -128 <= workchain <= 127
  {
  }

  /**
   * The friendly form of every accepted raw address decodes to the tag, the low byte of the workchain,
   * the account and a checksum of residue 0; the workchain itself survives exactly if it fits a signed byte.
   */
  lemma FriendlyDecodes(raw: string, bounceable: bool, testnet: bool) returns (bytes: seq<byte>)
    requires Friendly(raw, bounceable, testnet).Some?
    ensures ParseRaw(raw).Some? && |bytes| == 36
    ensures Base64Url.Decode(Friendly(raw, bounceable, testnet).value) == Some(bytes)
    ensures bytes[0] == (if bounceable then 0x11 else 0x51) + (if testnet then 0x80 else 0)
    ensures bytes[1] == ParseRaw(raw).value.workchain % 256
    ensures SignedByte(bytes[1]) == ParseRaw(raw).value.workchain <==> -128 <= ParseRaw(raw).value.workchain <= 127
    ensures bytes[2..34] == ParseRaw(raw).value.account
    ensures Crc16.Crc(bytes) == Zeros(16)
  {
    bytes := FriendlyOfDecodes(ParseRaw(raw).value, bounceable, testnet);
    FitsSignedByte(ParseRaw(raw).value.workchain);
  }

  /** Friendly forms are equal only for equal flags, accounts and workchains modulo 256. */
  lemma FriendlyInjective(a: RawAddress, b: bool, t: bool, a': RawAddress, b': bool, t': bool)
    requires |a.account| == |a'.account| == 32
    requires FriendlyOf(a, b, t) == FriendlyOf(a', b', t')
    ensures b == b' && t == t' && a.account == a'.account
    ensures (a.workchain - a'.workchain) % 256 == 0
  {
    var bytes := FriendlyOfDecodes(a, b, t);
    var bytes' := FriendlyOfDecodes(a', b', t');
    assert bytes == bytes';
    TagInjective(b, t, b', t');
    SameResidue(a.workchain, a'.workchain);
  }

  lemma TagInjective(b: bool, t: bool, b': bool, t': bool)
    requires Tag(b, t) == Tag(b', t')
    ensures b == b' && t == t'
  {
  }

  lemma SameResidue(x: int, y: int)
    requires x % 256 == y % 256
    ensures (x - y) % 256 == 0
  {
  }

  /** The first character shows the first six bits of the tag. */
  lemma FirstCharacter(tag: byte, rest: seq<byte>)
    ensures |Base64Url.Encode([tag] + rest)| > 0 && Base64Url.Encode([tag] + rest)[0] == Base64Url.ToChar(tag / 4)
  {
    var bits := ByteBits(tag);
    assert MessageBits([tag] + rest) == bits + MessageBits(rest) by {
      assert ([tag] + rest)[1..] == rest;
    }
    FirstSextet(tag);
    assert (bits + MessageBits(rest))[..6] == bits[..6];
    FirstEncoded(bits + MessageBits(rest));
  }

  lemma FirstEncoded(bits: Bits)
    requires |bits| >= 6
    ensures FromBits(bits[..6]) < 64
    ensures |Base64Url.EncodeBits(bits)| > 0 && Base64Url.EncodeBits(bits)[0] == Base64Url.ToChar(FromBits(bits[..6]))
  {
    ByteWidth();
  }

  lemma FirstSextet(tag: byte)
    ensures FromBits(ByteBits(tag)[..6]) == tag / 4
  {
    var bits := ByteBits(tag);
    ByteWidth();
    NumberRoundTrip(tag, 8);
    LastBitDropped(bits);
    LastBitDropped(bits[..7]);
    assert bits[..7][..6] == bits[..6];
  }

  lemma LastBitDropped(bits: Bits)
    requires bits != []
    ensures FromBits(bits[..|bits| - 1]) == FromBits(bits) / 2
  {
  }

  lemma SealedShape(a: RawAddress, bounceable: bool, testnet: bool)
    requires |a.account| == 32
    ensures var f := FriendlyOf(a, bounceable, testnet);
            && |f| == 48
            && (forall i :: 0 <= i < |f| ==> Base64Url.InAlphabet(f[i]))
            && f[0] == Base64Url.ToChar(Tag(bounceable, testnet) / 4)
  {
    var bytes := SealedBody(a, bounceable, testnet);
    Base64Url.EncodeLength(bytes);
    assert bytes == [bytes[0]] + bytes[1..];
    FirstCharacter(bytes[0], bytes[1..]);
  }

  /** A string without ':' passes if it starts with E or U and has at least 36 characters of the alphabet. */
  lemma CheckOfAlphabetString(f: string)
    requires forall i :: 0 <= i < |f| ==> Base64Url.InAlphabet(f[i])
    ensures ':' !in f && (IsTonAddressValid(f) <==> |f| >= 36 && (f[0] == 'E' || f[0] == 'U'))
  {
    forall i | 0 <= i < |f| ensures f[i] != ':' {
      assert Base64Url.InAlphabet(f[i]);
    }
  }

  lemma FirstCharacterOfTag(bounceable: bool, testnet: bool)
    ensures var c := Base64Url.ToChar(Tag(bounceable, testnet) / 4); (c == 'E' || c == 'U') <==> !testnet
  {
  }

  /** The friendly form passes the address check exactly for mainnet. */
  lemma FriendlyPassesCheck(raw: string, bounceable: bool, testnet: bool)
    requires Friendly(raw, bounceable, testnet).Some?
    ensures |Friendly(raw, bounceable, testnet).value| == 48
    ensures ':' !in Friendly(raw, bounceable, testnet).value
    ensures IsTonAddressValid(Friendly(raw, bounceable, testnet).value) <==> !testnet
  {
    SealedShape(ParseRaw(raw).value, bounceable, testnet);
    CheckOfAlphabetString(FriendlyOf(ParseRaw(raw).value, bounceable, testnet));
    FirstCharacterOfTag(bounceable, testnet);
  }

  lemma ToFriendlyIdempotent(addr: string)
    ensures ToFriendlyIfRaw(ToFriendlyIfRaw(addr)) == ToFriendlyIfRaw(addr)
  {
    if ':' in addr && Friendly(addr, true, false).Some? {
      FriendlyPassesCheck(addr, true, false);
    }
  }

  /** What a raw address becomes by default: the bounceable mainnet form; any other string stays. */
  lemma ToFriendlyDefault(addr: string) returns (bytes: seq<byte>)
    ensures ParseRaw(addr).None? ==> ToFriendlyIfRaw(addr) == addr
    ensures ParseRaw(addr).Some? ==>
              && Base64Url.Decode(ToFriendlyIfRaw(addr)) == Some(bytes)
              && |bytes| == 36 && bytes[0] == 0x11 && bytes[2..34] == ParseRaw(addr).value.account
  {
    bytes := [];
    if ParseRaw(addr).Some? {
      assert addr[|Cut(addr, ':').0|] == ':';
      bytes := FriendlyDecodes(addr, true, false);
    }
  }

  predicate HasHexLetter(s: string) {
    exists i :: 0 <= i < |s| && IsHexDigit(s[i]) && !IsDigit(s[i])
  }

  /** Where the hexadecimal reading of a workchain succeeds, the decimal one does unless there are letters. */
  lemma WorkchainReadings(s: string)
    requires IsHexU8(s)
    ensures ParseI32(s).Some? <==> !HasHexLetter(s)
  {
    var digits := if s[0] == '+' then s[1..] else s;
    if AllDigits(digits) {
      DecimalBelowHex(digits);
      assert forall i :: 0 <= i < |s| ==> IsDigit(s[i]) || (i == 0 && s[0] == '+') by {
        assert forall i :: 1 <= i < |s| && s[0] == '+' ==> s[i] == digits[i - 1];
      }
    } else {
      var i :| 0 <= i < |digits| && !IsDigit(digits[i]);
      assert s[if s[0] == '+' then i + 1 else i] == digits[i];
    }
  }

  /**
   * The check reads the workchain of a raw address as hexadecimal, the conversion as decimal: a raw address
   * that passes the check is converted if and only if its workchain has no hexadecimal letters.
   */
  lemma CheckAndConversionDisagree(address: string)
    requires ':' in address && IsTonAddressValid(address)
    ensures ParseRaw(address).Some? <==> !HasHexLetter(Cut(address, ':').0)
  {
    var (first, rest) := Cut(address, ':');
    CutWhole(rest.value, ':');
    WorkchainReadings(first);
  }

  /**
   * The other direction: an address that is converted passes the check if and only if its workchain has no minus
   * sign and is below 100, and nothing follows a second separator.
   */
  lemma ConvertedPasses(address: string)
    requires ParseRaw(address).Some?
    ensures IsTonAddressValid(address) <==>
              && Cut(address, ':').0[..1] != "-"
              && ParseRaw(address).value.workchain < 100
              && ':' !in Cut(address, ':').1.value
  {
    var (first, rest) := Cut(address, ':');
    assert ':' in address by {
      assert address[|first|] == ':';
    }
    DecimalPasses(first);
    if ':' !in rest.value {
      CutWhole(rest.value, ':');
    }
  }

  /** A workchain that reads as a decimal number also reads as a hexadecimal byte unless it is negative or too large. */
  lemma DecimalPasses(s: string)
    requires ParseI32(s).Some?
    ensures s != [] && (IsHexU8(s) <==> s[..1] != "-" && ParseI32(s).value < 100)
  {
    if s[0] == '-' {
      assert !IsHexDigit(s[0]);
    } else if s[0] == '+' {
      DigitsAsHex(s[1..]);
    } else {
      DigitsAsHex(s);
    }
  }

  /** A digit string is a hexadecimal byte if and only if it has at most two digits after its leading zeros. */
  lemma {:induction false} DigitsAsHex(digits: string)
    requires AllDigits(digits)
    ensures AllHex(digits)
    ensures HexNumber(digits) == 0 <==> Value(digits) == 0
    ensures HexNumber(digits) < 16 <==> Value(digits) < 10
    ensures HexNumber(digits) < 256 <==> Value(digits) < 100
  {
    if digits != [] {
      DigitsAsHex(digits[..|digits| - 1]);
    }
  }

  /** A raw address in parts: how it is converted, and whether it passes the check. */
  lemma RawInParts(workchain: string, hex: string)
    requires ':' !in workchain && |hex| == 64 && AllHex(hex)
    ensures var raw := workchain + ":" + hex;
            && ParseRaw(raw) == (if ParseI32(workchain).None? then None
                                 else Some(RawAddress(ParseI32(workchain).value, HexBytes(hex))))
            && (IsTonAddressValid(raw) <==> IsHexU8(workchain))
  {
    assert ':' !in hex;
    CutWhole(hex, ':');
    CutJoined(workchain, ':', hex);
    assert (workchain + ":" + hex)[|workchain|] == ':';
  }

  /** The inputs on which they disagree: the masterchain is converted but never valid, `a:` valid but never converted. */
  lemma DisagreeingInputs(hex: string)
    requires |hex| == 64 && AllHex(hex)
    ensures ParseRaw("-1" + ":" + hex) == Some(RawAddress(-1, HexBytes(hex))) && !IsTonAddressValid("-1" + ":" + hex)
    ensures ParseRaw("a" + ":" + hex).None? && IsTonAddressValid("a" + ":" + hex)
  {
    DisagreeingWorkchains();
    RawInParts("-1", hex);
    RawInParts("a", hex);
  }

  lemma DisagreeingWorkchains()
    ensures ParseI32("-1") == Some(-1) && !IsHexU8("-1")
    ensures ParseI32("a") == None && IsHexU8("a")
  {
    assert "-1"[1..] == "1" && "1"[..0] == "" && "a"[..0] == "";
    assert !IsHexDigit("-1"[0]) && !IsDigit("a"[0]);
  }

  lemma {:induction false} DecimalBelowHex(digits: string)
    requires AllDigits(digits)
    ensures AllHex(digits) && Value(digits) <= HexNumber(digits)
  {
    if digits != [] {
      DecimalBelowHex(digits[..|digits| - 1]);
    }
  }
}
