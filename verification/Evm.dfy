/** EVM addresses and their checksummed spelling. The hash behind the checksum stays abstract. */
module Evm {
  import opened Common
  import opened Text

  /** An `H160`, as its 40 lower-case hexadecimal digits. */
  type H160 = a: string | |a| == 40 && AllHex(a) && Lowered(a) == a witness seq(40, _ => '0')

  /** Whether the Keccak hash of the lower-case address asks for a capital at a position. */
  type CapitalAt = (string, nat) -> bool

  function Lowered(s: string): (l: string)
    requires AllHex(s)
    ensures |l| == |s| && AllHex(l) && forall i :: 0 <= i < |s| ==> l[i] == LowerHex(s[i])
  {
    seq(|s|, i requires 0 <= i < |s| => LowerHex(s[i]))
  }

  function Cased(a: H160, capital: CapitalAt): (c: string)
    ensures |c| == 40 && AllHex(c)
    ensures forall i :: 0 <= i < 40 ==> c[i] == CasedDigit(a[i], capital(a, i))
  {
    var c := seq(40, i requires 0 <= i < 40 => CasedDigit(a[i], capital(a, i)));
    assert forall i :: 0 <= i < 40 ==> c[i] == CasedDigit(a[i], capital(a, i)) && IsHexDigit(c[i]);
    c
  }

  function CasedDigit(c: char, capital: bool): (d: char)
    requires IsHexDigit(c)
    ensures IsHexDigit(d) && LowerHex(d) == LowerHex(c)
  {
    if capital then UpperHex(c) else c
  }

  /** The white space that the hexadecimal reader skips wherever it stands. */
  predicate IsSkipped(c: char) {
    c == ' ' || c == '\t' || c == '\r' || c == '\n'
  }

  predicate AllSkipped(s: string) {
    forall i :: 0 <= i < |s| ==> IsSkipped(s[i])
  }

  function Unspaced(s: string): (u: string)
    ensures |u| <= |s| && forall c :: c in u <==> c in s && !IsSkipped(c)
  {
    if s == [] then []
    else if IsSkipped(s[0]) then Unspaced(s[1..])
    else [s[0]] + Unspaced(s[1..])
  }

  lemma {:induction false} NothingLeft(s: string)
    requires AllSkipped(s)
    ensures Unspaced(s) == []
  {
    if s != [] {
      NothingLeft(s[1..]);
    }
  }

  /** Digits at the start stay, and nothing else does exactly if only white space follows. */
  lemma {:induction false} UnspacedAfterHex(s: string, n: nat)
    requires n <= |s| && AllHex(s[..n])
    ensures s[..n] <= Unspaced(s)
    ensures |Unspaced(s)| == n <==> AllSkipped(s[n..])
  {
    if n > 0 {
      assert IsHexDigit(s[..n][0]);
      assert s[1..][..n - 1] == s[..n][1..] && s[1..][n - 1..] == s[n..];
      UnspacedAfterHex(s[1..], n - 1);
    } else if AllSkipped(s) {
      NothingLeft(s);
    } else {
      var i :| 0 <= i < |s| && !IsSkipped(s[i]);
      assert s[i] in Unspaced(s);
    }
  }

  /** `H160::from_str`: 40 hexadecimal digits in any case, `0x` optional, and white space anywhere after that. */
  function ParseH160(s: string): Option<H160> {
    var digits := Unspaced(if "0x" <= s then s[2..] else s);
    if |digits| == 40 && AllHex(digits) then Some(Lowered(digits)) else None
  }

  /** The digits may stand alone or after `0x`, in either case, and are kept in lower case. */
  lemma DigitsAreRead(digits: string)
    requires |digits| == 40 && AllHex(digits)
    ensures ParseH160(digits) == ParseH160("0x" + digits) == Some(Lowered(digits))
  {
    assert digits[..40] == digits && AllSkipped(digits[40..]);
    UnspacedAfterHex(digits, 40);
    assert Unspaced(digits) == digits;
    assert ("0x" + digits)[2..] == digits && "0x" <= "0x" + digits;
    assert IsHexDigit(digits[1]) && digits[1] != 'x';
  }

  function ToChecksum(a: H160, capital: CapitalAt): string {
    "0x" + Cased(a, capital)
  }

  lemma ParseChecksummed(a: H160, capital: CapitalAt)
    ensures ParseH160(ToChecksum(a, capital)) == Some(a)
  {
    var c := Cased(a, capital);
    assert ToChecksum(a, capital)[2..] == c;
    assert c[..40] == c && AllSkipped(c[40..]);
    UnspacedAfterHex(c, 40);
    assert Unspaced(c) == c;
    assert "0x" <= ToChecksum(a, capital);
    forall i | 0 <= i < 40 ensures Lowered(c)[i] == a[i] {
      assert a[i] == Lowered(a)[i] == LowerHex(a[i]);
    }
    assert Lowered(c) == a;
  }

  /** `normalize_to_checksum` */
  function NormalizeToChecksum(s: string, capital: CapitalAt): Option<string> {
    match ParseH160(s)
    case None => None
    case Some(a) => Some(ToChecksum(a, capital))
  }

  /** Whatever the hash, normalizing twice is normalizing once. */
  lemma NormalizeIdempotent(s: string, capital: CapitalAt)
    requires NormalizeToChecksum(s, capital).Some?
    ensures NormalizeToChecksum(NormalizeToChecksum(s, capital).value, capital) == NormalizeToChecksum(s, capital)
  {
    ParseChecksummed(ParseH160(s).value, capital);
  }

  /** The pattern `0x[a-fA-F0-9]{40}`, which is not anchored and so is looked for anywhere. */
  predicate ContainsEthPattern(s: string) {
    exists i :: 0 <= i <= |s| - 42 && EthPatternAt(s, i)
  }

  predicate EthPatternAt(s: string, i: nat)
    requires i + 42 <= |s|
  {
    s[i..i + 2] == "0x" && AllHex(s[i + 2..i + 42])
  }

  predicate IsEvmAddressValid(s: string) {
    ContainsEthPattern(s) && ParseH160(s).Some?
  }

  /**
   * What passes the check: `0x` and 40 hexadecimal digits, then any amount of white space, which the pattern lets
   * through because it is not anchored and the reader because it skips it.
   */
  lemma EvmAddressShape(s: string)
    ensures IsEvmAddressValid(s) <==> |s| >= 42 && s[..2] == "0x" && AllHex(s[2..42]) && AllSkipped(s[42..])
  {
    if IsEvmAddressValid(s) {
      var i :| 0 <= i <= |s| - 42 && EthPatternAt(s, i);
      PatternAtStart(s, i);
    }
    if |s| >= 42 && s[..2] == "0x" && AllHex(s[2..42]) {
      assert EthPatternAt(s, 0);
      assert s[2..][..40] == s[2..42] && s[2..][40..] == s[42..];
      UnspacedAfterHex(s[2..], 40);
      if AllSkipped(s[42..]) {
        assert Unspaced(s[2..]) == s[2..42];
      }
    }
  }

  /** The `x` of the prefix is not a digit, so an address that is read has it in second place only. */
  lemma PatternAtStart(s: string, i: nat)
    requires i + 42 <= |s| && EthPatternAt(s, i) && ParseH160(s).Some?
    ensures i == 0
  {
    var body := if "0x" <= s then s[2..] else s;
    assert s[i..i + 2][1] == s[i + 1] == 'x';
    assert forall c :: c in Unspaced(body) ==> IsHexDigit(c);
    assert 'x' !in body;
    assert s[i + 1] in s;
    assert forall j :: 2 <= j < |s| ==> s[j] == s[2..][j - 2];
  }

  /** The program's own pattern is meant to be the whole address, but a line end after it passes as well. */
  lemma TrailingLineEndPasses(address: string)
    requires |address| == 42 && IsEvmAddressValid(address)
    ensures IsEvmAddressValid(address + "\n") && |address + "\n"| != 42
    ensures ParseH160(address + "\n") == ParseH160(address)
  {
    var s := address + "\n";
    EvmAddressShape(address);
    assert s[..2] == address[..2] && s[2..42] == address[2..] && s[42..] == "\n";
    EvmAddressShape(s);
    assert address[2..][..40] == address[2..] && s[2..][..40] == address[2..] && s[2..][40..] == "\n";
    UnspacedAfterHex(address[2..], 40);
    UnspacedAfterHex(s[2..], 40);
    assert AllSkipped(address[2..][40..]);
    assert Unspaced(address[2..]) == address[2..] == Unspaced(s[2..]);
  }

  /** Of single characters, exactly the four kinds of white space may follow. */
  lemma TrailingCharacter(address: string, c: char)
    requires |address| == 42 && IsEvmAddressValid(address)
    ensures IsEvmAddressValid(address + [c]) <==> c == ' ' || c == '\t' || c == '\r' || c == '\n'
  {
    var s := address + [c];
    EvmAddressShape(address);
    EvmAddressShape(s);
    assert s[..2] == address[..2] && s[2..42] == address[2..] && s[42..] == [c];
    assert s[42..][0] == c;
  }

  /** The checksummed form is `0x` and the digits, a letter being capital exactly where the hash says so. */
  lemma ChecksumCasing(s: string, capital: CapitalAt, i: nat)
    requires NormalizeToChecksum(s, capital).Some? && i < 40
    ensures var a, out := ParseH160(s).value, NormalizeToChecksum(s, capital).value;
            && |out| == 42 && out[..2] == "0x"
            && (IsDecimal(a[i]) ==> out[2 + i] == a[i])
            && (!IsDecimal(a[i]) ==> if capital(a, i) then IsUpper(out[2 + i]) else IsLower(out[2 + i]))
  {
    var a := ParseH160(s).value;
    assert a[i] == Lowered(a)[i] == LowerHex(a[i]);
  }
}
