/** CAIP-2 chain ids, CAIP-19 asset ids and CAIP-10 account ids. */
module Caip {
  import opened Common
  import opened Text
  import opened Evm
  import Ton

  datatype CryptoUtilsError =
    | WrongNamespace | WrongChainIdFormat | WrongAddressFormat
    | WrongCaip2Format | WrongCaip10Format | WrongCaip19Format

  // ---------------------------------------------------------------- character classes

  predicate InNamespaceClass(c: char) { c == '-' || IsLower(c) || IsDecimal(c) }

  predicate InReferenceClass(c: char) { InNamespaceClass(c) || IsUpper(c) }

  predicate InAssetClass(c: char) { InReferenceClass(c) || c == '.' || c == '%' }

  /** `^[-a-z0-9]{3,8}$` */
  predicate IsNamespace(s: string) {
    3 <= |s| <= 8 && forall i :: 0 <= i < |s| ==> InNamespaceClass(s[i])
  }

  /** `^[-a-zA-Z0-9]{1,32}$` */
  predicate IsReference(s: string) {
    1 <= |s| <= 32 && forall i :: 0 <= i < |s| ==> InReferenceClass(s[i])
  }

  /** `^[-.%a-zA-Z0-9]{1,max}$` */
  predicate IsAssetPart(s: string, max: nat) {
    1 <= |s| <= max && forall i :: 0 <= i < |s| ==> InAssetClass(s[i])
  }

  lemma ClassesExcludeSeparators(s: string)
    ensures IsNamespace(s) || IsReference(s) || IsAssetPart(s, |s|) ==> ':' !in s && '/' !in s
  {
  }

  // ---------------------------------------------------------------- CAIP-2

  datatype Caip2ChainId = Caip2ChainId(namespace: string, reference: string)

  function NewChainId(namespace: string, reference: string): Result<Caip2ChainId, CryptoUtilsError> {
    if !IsNamespace(namespace) then Err(WrongCaip2Format)
    else if !IsReference(reference) then Err(WrongChainIdFormat)
    else Ok(Caip2ChainId(namespace, reference))
  }

  function ParseChainId(s: string): Result<Caip2ChainId, CryptoUtilsError> {
    var (namespace, reference) := Cut(s, ':');
    if reference.None? then Err(WrongCaip2Format) else NewChainId(namespace, reference.value)
  }

  function PrintChainId(c: Caip2ChainId): string {
    c.namespace + ":" + c.reference
  }

  lemma ChainIdPrintParse(namespace: string, reference: string)
    requires NewChainId(namespace, reference).Ok?
    ensures ParseChainId(PrintChainId(NewChainId(namespace, reference).value)) == NewChainId(namespace, reference)
  {
    ClassesExcludeSeparators(namespace);
    CutJoined(namespace, ':', reference);
  }

  lemma ChainIdParsePrint(s: string)
    requires ParseChainId(s).Ok?
    ensures PrintChainId(ParseChainId(s).value) == s
  {
    var (namespace, reference) := Cut(s, ':');
    assert s == namespace + ":" + reference.value;
  }

  // ---------------------------------------------------------------- CAIP-19

  datatype Caip19Asset = Caip19Asset(
    chainId: Caip2ChainId,
    assetNamespace: string,
    assetReference: string,
    tokenId: Option<string>)

  predicate IsEvmToken(chainId: Caip2ChainId, assetNamespace: string) {
    && chainId.namespace == "eip155"
    && (assetNamespace == "erc20" || assetNamespace == "erc721" || assetNamespace == "erc1155")
  }

  function NewAsset(chainId: Caip2ChainId, assetNamespace: string, assetReference: string,
                    tokenId: Option<string>, capital: CapitalAt): Result<Caip19Asset, CryptoUtilsError>
  {
    if !IsNamespace(assetNamespace) then Err(WrongCaip19Format)
    else if !IsAssetPart(assetReference, 128) then Err(WrongCaip19Format)
    else if tokenId.Some? && !IsAssetPart(tokenId.value, 78) then Err(WrongCaip19Format)
    else if IsEvmToken(chainId, assetNamespace) then
      match NormalizeToChecksum(assetReference, capital)
      case None => Err(WrongAddressFormat)
      case Some(checksummed) => Ok(Caip19Asset(chainId, assetNamespace, checksummed, tokenId))
    else Ok(Caip19Asset(chainId, assetNamespace, assetReference, tokenId))
  }

  function ParseAsset(s: string, capital: CapitalAt): Result<Caip19Asset, CryptoUtilsError> {
    var (chainPart, assetPart) := Cut(s, '/');
    if assetPart.None? then Err(WrongCaip19Format)
    else
      match ParseChainId(chainPart)
      case Err(e) => Err(e)
      case Ok(chainId) =>
        var (namespaceAndReference, tokenId) := Cut(assetPart.value, '/');
        var (namespace, reference) := Cut(namespaceAndReference, ':');
        if reference.None? then Err(WrongCaip19Format)
        else NewAsset(chainId, namespace, reference.value, tokenId, capital)
  }

  function PrintAsset(a: Caip19Asset): string {
    PrintChainId(a.chainId) + "/" + a.assetNamespace + ":" + a.assetReference
    + if a.tokenId.Some? then "/" + a.tokenId.value else ""
  }

  lemma ChecksummedIsReference(s: string, capital: CapitalAt)
    requires NormalizeToChecksum(s, capital).Some?
    ensures IsAssetPart(NormalizeToChecksum(s, capital).value, 128)
  {
    var c := Cased(ParseH160(s).value, capital);
    forall i | 0 <= i < 42 ensures InAssetClass(("0x" + c)[i]) {
      if i >= 2 {
        assert IsHexDigit(c[i - 2]);
      }
    }
  }

  /** What a constructor builds, it builds again from its own parts. */
  lemma NewAssetStable(chainId: Caip2ChainId, namespace: string, reference: string, tokenId: Option<string>,
                       capital: CapitalAt, a: Caip19Asset)
    requires NewAsset(chainId, namespace, reference, tokenId, capital) == Ok(a)
    ensures NewAsset(a.chainId, a.assetNamespace, a.assetReference, a.tokenId, capital) == Ok(a)
  {
    if IsEvmToken(chainId, namespace) {
      NormalizeIdempotent(reference, capital);
      ChecksummedIsReference(reference, capital);
    }
  }

  lemma NewAssetKeeps(chainId: Caip2ChainId, namespace: string, reference: string, tokenId: Option<string>,
                      capital: CapitalAt)
    requires NewAsset(chainId, namespace, reference, tokenId, capital).Ok?
    ensures var a := NewAsset(chainId, namespace, reference, tokenId, capital).value;
            && a == Caip19Asset(chainId, namespace, a.assetReference, tokenId)
            && if IsEvmToken(chainId, namespace)
               then NormalizeToChecksum(reference, capital) == Some(a.assetReference)
               else reference == a.assetReference
  {
  }

  lemma CutPrinted(a: Caip19Asset)
    requires ':' !in a.assetNamespace && '/' !in a.assetNamespace && '/' !in a.assetReference
    requires ':' !in a.chainId.namespace && '/' !in PrintChainId(a.chainId)
    ensures var rest := a.assetNamespace + ":" + a.assetReference + if a.tokenId.Some? then "/" + a.tokenId.value else "";
            && Cut(PrintAsset(a), '/') == (PrintChainId(a.chainId), Some(rest))
            && Cut(rest, '/') == (a.assetNamespace + ":" + a.assetReference, a.tokenId)
            && Cut(a.assetNamespace + ":" + a.assetReference, ':') == (a.assetNamespace, Some(a.assetReference))
  {
    var pair := a.assetNamespace + ":" + a.assetReference;
    var tail := if a.tokenId.Some? then "/" + a.tokenId.value else "";
    assert PrintAsset(a) == PrintChainId(a.chainId) + ['/'] + (pair + tail);
    CutJoined(PrintChainId(a.chainId), '/', pair + tail);
    CutJoined(a.assetNamespace, ':', a.assetReference);
    if a.tokenId.Some? {
      assert pair + tail == pair + ['/'] + a.tokenId.value;
      CutJoined(pair, '/', a.tokenId.value);
    } else {
      assert pair + tail == pair;
      CutWhole(pair, '/');
    }
  }

  /** Printing then parsing is the identity on every asset the constructors build. */
  lemma AssetPrintParse(chainId: Caip2ChainId, namespace: string, reference: string, tokenId: Option<string>,
                        capital: CapitalAt, a: Caip19Asset)
    requires NewChainId(chainId.namespace, chainId.reference) == Ok(chainId)
    requires NewAsset(chainId, namespace, reference, tokenId, capital) == Ok(a)
    ensures ParseAsset(PrintAsset(a), capital) == Ok(a)
  {
    NewAssetStable(chainId, namespace, reference, tokenId, capital, a);
    ChainIdPrintParse(chainId.namespace, chainId.reference);
    ClassesExcludeSeparators(chainId.namespace);
    ClassesExcludeSeparators(chainId.reference);
    ClassesExcludeSeparators(a.assetNamespace);
    ClassesExcludeSeparators(a.assetReference);
    CutPrinted(a);
  }

  /** The input as its parts: which ones the parser hands to the constructor. */
  lemma ParseAssetParts(s: string, capital: CapitalAt)
    returns (chainPart: string, pair: string, namespace: string, reference: string, tokenId: Option<string>)
    requires ParseAsset(s, capital).Ok?
    ensures s == chainPart + "/" + (pair + if tokenId.Some? then "/" + tokenId.value else "")
    ensures pair == namespace + ":" + reference
    ensures ParseChainId(chainPart).Ok?
    ensures ParseAsset(s, capital) == NewAsset(ParseChainId(chainPart).value, namespace, reference, tokenId, capital)
  {
    ParsedByCutting(s, capital);
    chainPart, pair, namespace, reference, tokenId := AssetCuts(s);
  }

  lemma ParsedByCutting(s: string, capital: CapitalAt)
    requires ParseAsset(s, capital).Ok?
    ensures var (chainPart, rest) := Cut(s, '/');
            && rest.Some? && ParseChainId(chainPart).Ok?
            && var (pair, tokenId) := Cut(rest.value, '/');
               var (namespace, reference) := Cut(pair, ':');
               && reference.Some?
               && ParseAsset(s, capital)
                  == NewAsset(ParseChainId(chainPart).value, namespace, reference.value, tokenId, capital)
  {
  }

  lemma AssetCuts(s: string)
    returns (chainPart: string, pair: string, namespace: string, reference: string, tokenId: Option<string>)
    requires Cut(s, '/').1.Some? && Cut(Cut(Cut(s, '/').1.value, '/').0, ':').1.Some?
    ensures s == chainPart + "/" + (pair + if tokenId.Some? then "/" + tokenId.value else "")
    ensures pair == namespace + ":" + reference
    ensures chainPart == Cut(s, '/').0 && (pair, tokenId) == Cut(Cut(s, '/').1.value, '/')
    ensures (namespace, Some(reference)) == Cut(pair, ':')
  {
    var (c, assetPart) := Cut(s, '/');
    var (p, t) := Cut(assetPart.value, '/');
    var (n, r) := Cut(p, ':');
    chainPart, pair, namespace, reference, tokenId := c, p, n, r.value, t;
    CutRejoined(s, '/');
    CutRejoined(assetPart.value, '/');
    CutRejoined(p, ':');
  }

  lemma CutRejoined(s: string, sep: char)
    ensures var (head, rest) := Cut(s, sep);
            s == head + if rest.Some? then [sep] + rest.value else ""
    ensures Cut(s, sep).1.Some? ==> s == Cut(s, sep).0 + [sep] + Cut(s, sep).1.value
  {
  }

  /** Parsing then printing gives the input back, but for the spelling of an EVM token address. */
  lemma AssetParsePrint(s: string, capital: CapitalAt) returns (reference: string)
    requires ParseAsset(s, capital).Ok?
    ensures var a := ParseAsset(s, capital).value;
            && s == PrintAsset(a.(assetReference := reference))
            && if IsEvmToken(a.chainId, a.assetNamespace)
               then NormalizeToChecksum(reference, capital) == Some(a.assetReference)
               else reference == a.assetReference
  {
    var chainPart, pair, namespace, ref, tokenId := ParseAssetParts(s, capital);
    reference := ref;
    ChainIdParsePrint(chainPart);
    var chainId := ParseChainId(chainPart).value;
    NewAssetKeeps(chainId, namespace, reference, tokenId, capital);
    PrintedParts(Caip19Asset(chainId, namespace, reference, tokenId), chainPart, pair);
  }

  lemma PrintedParts(a: Caip19Asset, chainPart: string, pair: string)
    requires chainPart == PrintChainId(a.chainId) && pair == a.assetNamespace + ":" + a.assetReference
    ensures PrintAsset(a) == chainPart + "/" + (pair + if a.tokenId.Some? then "/" + a.tokenId.value else "")
  {
  }

  // ---------------------------------------------------------------- what is accepted

  predicate AllIn(s: string, letters: string) {
    forall i :: 0 <= i < |s| ==> s[i] in letters
  }

  const SMALL := "abcdefghijklmnopqrstuvwxyz"
  const CAPITAL := "ABCDEFGHIJKLMNOPQRSTUVWXYZ"
  const DIGITS := "0123456789"

  lemma SmallLetters(c: char)
    ensures c in SMALL <==> IsLower(c)
  {
    if IsLower(c) {
      assert SMALL[c as int - 'a' as int] == c;
    }
  }

  lemma CapitalLetters(c: char)
    ensures c in CAPITAL <==> IsUpper(c)
  {
    if IsUpper(c) {
      assert CAPITAL[c as int - 'A' as int] == c;
    }
  }

  lemma Digits(c: char)
    ensures c in DIGITS <==> IsDecimal(c)
  {
    if IsDecimal(c) {
      assert DIGITS[c as int - '0' as int] == c;
    }
  }

  lemma InClasses(c: char)
    ensures InNamespaceClass(c) <==> c in SMALL + DIGITS + "-"
    ensures InReferenceClass(c) <==> c in SMALL + CAPITAL + DIGITS + "-"
    ensures InAssetClass(c) <==> c in SMALL + CAPITAL + DIGITS + "-.%"
  {
    SmallLetters(c);
    CapitalLetters(c);
    Digits(c);
  }

  /** Exactly the chain ids with a namespace of 3 to 8 and a reference of 1 to 32 characters are constructed. */
  lemma ChainIdAccepted(namespace: string, reference: string)
    ensures NewChainId(namespace, reference) == Ok(Caip2ChainId(namespace, reference)) <==>
            && 3 <= |namespace| <= 8 && AllIn(namespace, SMALL + DIGITS + "-")
            && 1 <= |reference| <= 32 && AllIn(reference, SMALL + CAPITAL + DIGITS + "-")
  {
    forall c ensures InNamespaceClass(c) <==> c in SMALL + DIGITS + "-" { InClasses(c); }
    forall c ensures InReferenceClass(c) <==> c in SMALL + CAPITAL + DIGITS + "-" { InClasses(c); }
  }

  /** The reference of an EVM token has to be an address; the token id is optional. */
  lemma AssetAccepted(chainId: Caip2ChainId, namespace: string, reference: string, tokenId: Option<string>,
                      capital: CapitalAt)
    ensures NewAsset(chainId, namespace, reference, tokenId, capital).Ok? <==>
            && 3 <= |namespace| <= 8 && AllIn(namespace, SMALL + DIGITS + "-")
            && 1 <= |reference| <= 128 && AllIn(reference, SMALL + CAPITAL + DIGITS + "-.%")
            && (tokenId.Some? ==> 1 <= |tokenId.value| <= 78 && AllIn(tokenId.value, SMALL + CAPITAL + DIGITS + "-.%"))
            && (chainId.namespace == "eip155" && namespace in {"erc20", "erc721", "erc1155"} ==> ParseH160(reference).Some?)
  {
    forall c ensures InNamespaceClass(c) <==> c in SMALL + DIGITS + "-" { InClasses(c); }
    forall c ensures InAssetClass(c) <==> c in SMALL + CAPITAL + DIGITS + "-.%" { InClasses(c); }
  }

  /** Whatever the constructor accepts, the parser accepts in its printed form, with the same result. */
  lemma ParserComplete(chainId: Caip2ChainId, namespace: string, reference: string, tokenId: Option<string>,
                       capital: CapitalAt)
    requires NewChainId(chainId.namespace, chainId.reference) == Ok(chainId)
    requires NewAsset(chainId, namespace, reference, tokenId, capital).Ok?
    ensures ParseAsset(PrintAsset(Caip19Asset(chainId, namespace, reference, tokenId)), capital)
         == NewAsset(chainId, namespace, reference, tokenId, capital)
  {
    ChainIdPrintParse(chainId.namespace, chainId.reference);
    ClassesExcludeSeparators(chainId.namespace);
    ClassesExcludeSeparators(chainId.reference);
    ClassesExcludeSeparators(namespace);
    ClassesExcludeSeparators(reference);
    CutPrinted(Caip19Asset(chainId, namespace, reference, tokenId));
  }

  // ---------------------------------------------------------------- CAIP-10

  datatype CaipNamespace = Eip155 | Solana | Ton | Rootstock

  function NamespaceName(n: CaipNamespace): string {
    match n
    case Eip155 => "eip155"
    case Solana => "solana"
    case Ton => "ton"
    case Rootstock => "rootstock"
  }

  function ParseNamespace(s: string): Option<CaipNamespace> {
    match s
    case "eip155" => Some(Eip155)
    case "solana" => Some(Solana)
    case "ton" => Some(Ton)
    case "rootstock" => Some(Rootstock)
    case _ => None
  }

  /** Base58 decoding and the length check behind a Solana address stay abstract. */
  type SolanaCheck = string -> bool

  predicate IsAddressValid(address: string, namespace: CaipNamespace, solana: SolanaCheck) {
    match namespace
    case Eip155 => IsEvmAddressValid(address)
    case Rootstock => IsEvmAddressValid(address)
    case Solana => solana(address)
    case Ton => Ton.IsTonAddressValid(address)
  }

  /** `[-a-zA-Z0-9]{1,32}` is not anchored: one matching character anywhere is enough. */
  predicate ContainsChainChar(s: string) {
    exists i :: 0 <= i < |s| && InReferenceClass(s[i])
  }

  function FormatCaip10(namespace: CaipNamespace, chainId: string, address: string): string {
    NamespaceName(namespace) + ":" + chainId + ":" + address
  }

  function DisassembleCaip10(s: string, solana: SolanaCheck)
    : (r: Result<(CaipNamespace, string, string), CryptoUtilsError>)
  {
    var parts := Split(s, ':');
    if |parts| != 3 then Err(WrongCaip10Format)
    else
      match ParseNamespace(parts[0])
      case None => Err(WrongNamespace)
      case Some(namespace) =>
        if !ContainsChainChar(parts[1]) then Err(WrongChainIdFormat)
        else if !IsAddressValid(parts[2], namespace, solana) then Err(WrongAddressFormat)
        else Ok((namespace, parts[1], parts[2]))
  }

  lemma NamespaceRoundTrip(n: CaipNamespace, s: string)
    ensures ParseNamespace(NamespaceName(n)) == Some(n) && ':' !in NamespaceName(n)
    ensures ParseNamespace(s).Some? ==> NamespaceName(ParseNamespace(s).value) == s
  {
  }

  lemma ThreePartsAssociate(a: string, b: string, c: string, sep: char)
    ensures a + [sep] + b + [sep] + c == a + [sep] + (b + [sep] + c)
  {
  }

  lemma SplitJoined(head: string, rest: string, sep: char)
    requires sep !in head
    ensures Split(head + [sep] + rest, sep) == [head] + Split(rest, sep)
  {
    CutJoined(head, sep, rest);
  }

  lemma SplitWhole(s: string, sep: char)
    requires sep !in s
    ensures Split(s, sep) == [s]
  {
    CutWhole(s, sep);
  }

  lemma SplitThree(a: string, b: string, c: string, sep: char)
    requires sep !in a && sep !in b && sep !in c
    ensures Split(a + [sep] + b + [sep] + c, sep) == [a, b, c]
  {
    ThreePartsAssociate(a, b, c, sep);
    SplitJoined(a, b + [sep] + c, sep);
    SplitJoined(b, c, sep);
    SplitWhole(c, sep);
  }

  /** The first part and the string that the other parts are split from. */
  lemma FirstPart(s: string, sep: char) returns (head: string, rest: string)
    requires |Split(s, sep)| > 1
    ensures s == head + [sep] + rest && Split(s, sep) == [head] + Split(rest, sep)
  {
    var (h, r) := Cut(s, sep);
    head, rest := h, r.value;
  }

  lemma OnlyPart(s: string, sep: char)
    requires |Split(s, sep)| == 1
    ensures Split(s, sep) == [s]
  {
    var (head, rest) := Cut(s, sep);
    assert rest.None? && s == head + [] == head;
  }

  lemma JoinThree(s: string, sep: char)
    requires |Split(s, sep)| == 3
    ensures s == Split(s, sep)[0] + [sep] + Split(s, sep)[1] + [sep] + Split(s, sep)[2]
  {
    var a, rest := FirstPart(s, sep);
    var b, c := FirstPart(rest, sep);
    OnlyPart(c, sep);
    ThreePartsAssociate(a, b, c, sep);
  }

  /** Which error an id that is not disassembled gives: of its parts, namespace, chain and address, in this order. */
  lemma DisassembleErrors(s: string, solana: SolanaCheck)
    requires DisassembleCaip10(s, solana).Err?
    ensures var parts := Split(s, ':');
            DisassembleCaip10(s, solana).error ==
            if |parts| != 3 then WrongCaip10Format
            else if parts[0] !in {"eip155", "solana", "ton", "rootstock"} then WrongNamespace
            else if forall i :: 0 <= i < |parts[1]| ==> parts[1][i] !in SMALL + CAPITAL + DIGITS + "-" then WrongChainIdFormat
            else WrongAddressFormat
  {
    forall c ensures InReferenceClass(c) <==> c in SMALL + CAPITAL + DIGITS + "-" { InClasses(c); }
  }

  /** Only ids that `format_to_caip10` prints are disassembled, and into the parts printed. */
  lemma DisassembleFormat(s: string, solana: SolanaCheck)
    requires DisassembleCaip10(s, solana).Ok?
    ensures var (n, chainId, address) := DisassembleCaip10(s, solana).value;
            && s == FormatCaip10(n, chainId, address)
            && ':' !in chainId && ':' !in address
            && ContainsChainChar(chainId) && IsAddressValid(address, n, solana)
  {
    JoinThree(s, ':');
    NamespaceRoundTrip(Eip155, Split(s, ':')[0]);
  }

  /**
   * Formatting then disassembling gives the parts back exactly if no part contains the separator and both
   * checks pass; a TON address in its raw form `workchain:hex` therefore never makes the round trip.
   */
  lemma FormatDisassemble(n: CaipNamespace, chainId: string, address: string, solana: SolanaCheck)
    ensures DisassembleCaip10(FormatCaip10(n, chainId, address), solana) == Ok((n, chainId, address))
            <==> ':' !in chainId && ':' !in address && ContainsChainChar(chainId) && IsAddressValid(address, n, solana)
  {
    NamespaceRoundTrip(n, "");
    if ':' !in chainId && ':' !in address {
      SplitThree(NamespaceName(n), chainId, address, ':');
    }
    if DisassembleCaip10(FormatCaip10(n, chainId, address), solana) == Ok((n, chainId, address)) {
      DisassembleFormat(FormatCaip10(n, chainId, address), solana);
    }
  }
}
