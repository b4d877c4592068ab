/** The force-update loop over a balance response. */
module Balance {
  import opened Common
  import opened Text
  import opened Evm
  import opened Decimal
  import Amounts
  import Caip

  /** A floating-point value, kept as what it is computed from. */
  datatype Worth = Given(amount: real) | Computed(balance: nat, price: real, decimals: nat)

  datatype Quantity = Quantity(decimals: string, numeric: string)

  datatype BalanceItem = BalanceItem(
    name: string,
    symbol: string,
    chainId: Option<string>,
    address: Option<string>,
    value: Option<Worth>,
    price: real,
    quantity: Quantity,
    iconUrl: string)

  type u8 = n: nat | n < 256

  datatype TokenInfo = TokenInfo(name: string, symbol: string, price: real, decimals: u8, iconUrl: string)

  datatype Error =
    | InvalidAddress | LookupFailed | UnsupportedNamespace | PriceFailed | BalanceProviderError

  /** `H160::repeat_byte(0xee)`, which stands for the native token. */
  const EMPTY_ADDRESS: string := "eeeeeeeeeeeeeeeeeeeeeeeeeeeeeeeeeeeeeeee"

  /** What one entry of the force-update list names. */
  datatype Target = Target(namespace: Caip.CaipNamespace, chain: string, native: bool)

  function TargetOf(entry: string, solana: Caip.SolanaCheck): Result<Target, Error> {
    match Caip.DisassembleCaip10(entry, solana)
    case Err(_) => Err(InvalidAddress)
    case Ok((namespace, chainId, address)) =>
      match ParseH160(address)
      case None => Err(InvalidAddress)
      case Some(contract) =>
        Ok(Target(namespace, Caip.NamespaceName(namespace) + ":" + chainId, contract == EMPTY_ADDRESS))
  }

  /** `parse::<u8>().unwrap_or(0)` */
  function DecimalsOf(s: string): u8 {
    var digits := if s != [] && s[0] == '+' then s[1..] else s;
    if digits != [] && AllDigits(digits) && Value(digits) < 256 then Value(digits) else 0
  }

  lemma DecimalsReadBack(d: u8)
    ensures DecimalsOf(Numeral(d)) == d
  {
    NumeralReadsBack(d);
    assert IsDigit(Numeral(d)[0]);
  }

  // ---------------------------------------------------------------- one entry

  /** An entry with what was looked up for it; `info` is needed only if an item is appended. */
  datatype Update = Update(entry: string, target: Target, amount: nat, info: TokenInfo)

  predicate HasAddress(item: BalanceItem, u: Update) {
    item.address == Some(u.entry)
  }

  predicate IsNativeOf(item: BalanceItem, u: Update) {
    u.target.native && item.address.None? && item.chainId == Some(u.target.chain)
  }

  /** The first item from `from` on that has the address of the entry, or the length of the list. */
  function FirstByAddress(items: seq<BalanceItem>, u: Update, from: nat): (i: nat)
    requires from <= |items|
    ensures from <= i <= |items|
    ensures i < |items| ==> HasAddress(items[i], u)
    ensures forall j :: from <= j < i ==> !HasAddress(items[j], u)
    decreases |items| - from
  {
    if from == |items| || HasAddress(items[from], u) then from else FirstByAddress(items, u, from + 1)
  }

  function FirstNative(items: seq<BalanceItem>, u: Update, from: nat): (i: nat)
    requires from <= |items|
    ensures from <= i <= |items|
    ensures i < |items| ==> IsNativeOf(items[i], u)
    ensures forall j :: from <= j < i ==> !IsNativeOf(items[j], u)
    decreases |items| - from
  {
    if from == |items| || IsNativeOf(items[from], u) then from else FirstNative(items, u, from + 1)
  }

  /** Where the entry's item is; the length of the list if it has to be appended. */
  function Place(items: seq<BalanceItem>, u: Update): (i: nat)
    ensures i <= |items|
  {
    var byAddress := FirstByAddress(items, u, 0);
    if byAddress < |items| then byAddress else FirstNative(items, u, 0)
  }

  function Refreshed(item: BalanceItem, amount: nat): BalanceItem {
    var decimals := DecimalsOf(item.quantity.decimals);
    item.(quantity := item.quantity.(numeric := Amounts.FormatTokenAmount(amount, decimals)),
    value := Some(Computed(amount, item.price, decimals)))
  }

  function NewItem(u: Update): BalanceItem {
    BalanceItem(u.info.name, u.info.symbol, Some(u.target.chain),
                if u.target.native then None else Some(u.entry),
                Some(Computed(u.amount, u.info.price, u.info.decimals)), u.info.price,
                Quantity(Numeral(u.info.decimals), Amounts.FormatTokenAmount(u.amount, u.info.decimals)),
                u.info.iconUrl)
  }

  function Apply(items: seq<BalanceItem>, u: Update): seq<BalanceItem> {
    var i := Place(items, u);
    if i < |items| then items[i := Refreshed(items[i], u.amount)] else items + [NewItem(u)]
  }

  function After(items: seq<BalanceItem>, us: seq<Update>): seq<BalanceItem> {
    if us == [] then items else Apply(After(items, us[..|us| - 1]), us[|us| - 1])
  }

  // ---------------------------------------------------------------- the loop

  /** What the outside world answers for one entry, should it be asked. */
  datatype Lookup = Lookup(balance: Option<nat>, prices: Option<seq<TokenInfo>>)

  /** `u` is the update that an entry gives rise to: its amount was looked up, and its price if it is new. */
  ghost predicate IsUpdateOf(items: seq<BalanceItem>, u: Update, entry: string, lookup: Lookup,
                             priced: set<Caip.CaipNamespace>, solana: Caip.SolanaCheck)
  {
    && u.entry == entry
    && TargetOf(entry, solana) == Ok(u.target)
    && lookup.balance == Some(u.amount)
    && (Place(items, u) == |items| ==>
          && u.target.namespace in priced
          && lookup.prices.Some? && lookup.prices.value != [] && u.info == lookup.prices.value[0])
  }

  /** The updates are those of the first entries, in order, each against the list the earlier ones left. */
  ghost predicate CarriedOut(items: seq<BalanceItem>, us: seq<Update>, entries: seq<string>, lookups: seq<Lookup>,
                             priced: set<Caip.CaipNamespace>, solana: Caip.SolanaCheck)
    requires |us| <= |entries| && |us| <= |lookups|
  {
    forall k :: 0 <= k < |us| ==> IsUpdateOf(After(items, us[..k]), us[k], entries[k], lookups[k], priced, solana)
  }

  lemma CarriedOneMore(items: seq<BalanceItem>, us: seq<Update>, u: Update, entries: seq<string>,
                       lookups: seq<Lookup>, priced: set<Caip.CaipNamespace>, solana: Caip.SolanaCheck)
    requires |us| < |entries| && |us| < |lookups|
    requires CarriedOut(items, us, entries, lookups, priced, solana)
    requires IsUpdateOf(After(items, us), u, entries[|us|], lookups[|us|], priced, solana)
    ensures CarriedOut(items, us + [u], entries, lookups, priced, solana)
    ensures After(items, us + [u]) == Apply(After(items, us), u)
  {
    var more := us + [u];
    assert more[..|us|] == us;
    forall k | 0 <= k < |more|
      ensures IsUpdateOf(After(items, more[..k]), more[k], entries[k], lookups[k], priced, solana)
    {
      if k < |us| {
        assert more[..k] == us[..k];
      }
    }
  }

  predicate IsMissing(items: seq<BalanceItem>, entry: string, target: Target) {
    Place(items, Update(entry, target, 0, NO_INFO)) == |items|
  }

  /** The entry ends the loop with this error; the cases exclude each other. */
  predicate Fails(error: Error, items: seq<BalanceItem>, entry: string, userAddress: string, lookup: Lookup,
                  priced: set<Caip.CaipNamespace>, solana: Caip.SolanaCheck)
  {
    var target := TargetOf(entry, solana);
    if error.InvalidAddress? then target.Err? || ParseH160(userAddress).None?
    else
      && target.Ok? && ParseH160(userAddress).Some?
      && if error.LookupFailed? then lookup.balance.None?
         else
           && lookup.balance.Some? && IsMissing(items, entry, target.value)
           && match error
              case UnsupportedNamespace => target.value.namespace !in priced
              case PriceFailed => target.value.namespace in priced && lookup.prices.None?
              case _ => target.value.namespace in priced && lookup.prices == Some([])
  }

  /** No item has the entry's address, and none is the native token of the chain of a native entry. */
  predicate NoneMatches(items: seq<BalanceItem>, entry: string, target: Target) {
    forall i :: 0 <= i < |items| ==>
                  && items[i].address != Some(entry)
                  && !(target.native && items[i].address.None? && items[i].chainId == Some(target.chain))
  }

  /** The item is one of the token, as it was looked up, and shows the amount. */
  predicate IsItemOf(item: BalanceItem, entry: string, target: Target, info: TokenInfo, amount: nat) {
    && IsTokenOf(item, entry, target, info)
    && item.quantity.numeric == Amounts.FormatTokenAmount(amount, info.decimals)
    && item.value == Some(Computed(amount, info.price, info.decimals))
  }

  /** Its name, symbol, price, icon and decimals were looked up; it has an address exactly if it is not native. */
  predicate IsTokenOf(item: BalanceItem, entry: string, target: Target, info: TokenInfo) {
    && item.name == info.name
    && item.symbol == info.symbol
    && item.price == info.price
    && item.iconUrl == info.iconUrl
    && item.quantity.decimals == Numeral(info.decimals)
    && item.chainId == Some(target.chain)
    && item.address == if target.native then None else Some(entry)
  }

  /** What an entry that is carried out does to the list. */
  ghost predicate IsEntryDone(items: seq<BalanceItem>, items': seq<BalanceItem>, u: Update, lookup: Lookup) {
    if NoneMatches(items, u.entry, u.target) then
      && |items'| == |items| + 1 && items <= items'
      && lookup.prices.Some? && lookup.prices.value != []
      && IsItemOf(items'[|items|], u.entry, u.target, lookup.prices.value[0], u.amount)
    else
      exists i :: 0 <= i < |items| && IsFirstMatch(items, u, i) && IsShownAt(items, items', i, u.amount)
  }

  /** The first item with the address of the entry or, if there is none and the entry is native, of that chain. */
  ghost predicate IsFirstMatch(items: seq<BalanceItem>, u: Update, i: nat)
    requires i < |items|
  {
    if exists j :: 0 <= j < |items| && items[j].address == Some(u.entry) then
      items[i].address == Some(u.entry) && forall j :: 0 <= j < i ==> items[j].address != Some(u.entry)
    else
      && u.target.native && items[i].address.None? && items[i].chainId == Some(u.target.chain)
      && forall j :: 0 <= j < i ==> !(items[j].address.None? && items[j].chainId == Some(u.target.chain))
  }

  /** Only the amount and the value of item `i` differ, and they are those of the amount. */
  ghost predicate IsShownAt(items: seq<BalanceItem>, items': seq<BalanceItem>, i: nat, amount: nat)
    requires i < |items|
  {
    && |items'| == |items|
    && (forall j :: 0 <= j < |items| && j != i ==> items'[j] == items[j])
    && SameToken(items[i], items'[i]) && Shows(items'[i], amount)
  }

  lemma AppliedIsDone(items: seq<BalanceItem>, u: Update, lookup: Lookup)
    requires Place(items, u) == |items| ==>
               lookup.prices.Some? && lookup.prices.value != [] && u.info == lookup.prices.value[0]
    ensures IsEntryDone(items, Apply(items, u), u, lookup)
  {
    var i := Place(items, u);
    if i < |items| {
      assert IsFirstMatch(items, u, i) by {
        if FirstByAddress(items, u, 0) == |items| {
          assert forall j :: 0 <= j < |items| ==> !HasAddress(items[j], u);
        } else {
          assert items[FirstByAddress(items, u, 0)].address == Some(u.entry);
        }
      }
      ApplyShows(items, u);
      assert IsShownAt(items, Apply(items, u), i, u.amount);
    } else {
      assert forall j :: 0 <= j < |items| ==> !HasAddress(items[j], u) && !IsNativeOf(items[j], u);
    }
  }

  class BalanceResponse {
    var balances: seq<BalanceItem>

    constructor (balances: seq<BalanceItem>)
      ensures this.balances == balances
    {
      this.balances := balances;
    }

    method UpdateEntry(entry: string, userAddress: string, lookup: Lookup, priced: set<Caip.CaipNamespace>,
                       solana: Caip.SolanaCheck)
      returns (res: Result<Update, Error>)
      modifies this
      ensures res.Ok? ==>
                && IsUpdateOf(old(balances), res.value, entry, lookup, priced, solana)
                && IsEntryDone(old(balances), balances, res.value, lookup)
                && ParseH160(userAddress).Some?
                && balances == Apply(old(balances), res.value)
      ensures res.Err? ==> Fails(res.error, old(balances), entry, userAddress, lookup, priced, solana) && balances == old(balances)
    {
      var target := TargetOf(entry, solana);
      if target.Err? {
        return Err(InvalidAddress);
      }
      if ParseH160(userAddress).None? {
        return Err(InvalidAddress);
      }
      if lookup.balance.None? {
        return Err(LookupFailed);
      }
      var u := Update(entry, target.value, lookup.balance.value, NO_INFO);
      PlaceIgnoresLookup(balances, u, Update(entry, target.value, 0, NO_INFO));
      var i := Place(balances, u);
      if i < |balances| {
        AppliedIsDone(balances, u, lookup);
        balances := balances[i := Refreshed(balances[i], u.amount)];
        return Ok(u);
      }
      if target.value.namespace !in priced {
        return Err(UnsupportedNamespace);
      }
      if lookup.prices.None? {
        return Err(PriceFailed);
      }
      if lookup.prices.value == [] {
        return Err(BalanceProviderError);
      }
      PlaceIgnoresInfo(balances, u, lookup.prices.value[0]);
      u := u.(info := lookup.prices.value[0]);
      AppliedIsDone(balances, u, lookup);
      balances := balances + [NewItem(u)];
      return Ok(u);
    }

    /**
     * One lookup per entry, in order; the first failure ends the loop. `updates` are the entries carried out.
     */
    method ForceUpdate(forceUpdate: string, userAddress: string, lookups: seq<Lookup>,
                       priced: set<Caip.CaipNamespace>, solana: Caip.SolanaCheck)
      returns (res: Result<(), Error>, ghost updates: seq<Update>)
      requires |lookups| == |Split(forceUpdate, ',')|
      modifies this
      ensures balances == After(old(balances), updates)
      ensures |updates| <= |lookups|
      ensures CarriedOut(old(balances), updates, Split(forceUpdate, ','), lookups, priced, solana)
      ensures res.Ok? <==> |updates| == |lookups|
      ensures updates != [] ==> ParseH160(userAddress).Some?
      ensures res.Err? ==>
                var k := |updates|;
                Fails(res.error, balances, Split(forceUpdate, ',')[k], userAddress, lookups[k], priced, solana)
    {
      var entries := Split(forceUpdate, ',');
      ghost var start := balances;
      updates := [];
      for k := 0 to |entries|
        invariant |updates| == k
        invariant balances == After(start, updates)
        invariant k > 0 ==> ParseH160(userAddress).Some?
        invariant CarriedOut(start, updates, entries, lookups, priced, solana)
      {
        var step := UpdateEntry(entries[k], userAddress, lookups[k], priced, solana);
        if step.Err? {
          return Err(step.error), updates;
        }
        CarriedOneMore(start, updates, step.value, entries, lookups, priced, solana);
        updates := updates + [step.value];
      }
      return Ok(()), updates;
    }
  }

  const NO_INFO := TokenInfo("", "", 0.0, 0, "")

  lemma PlaceIgnoresInfo(items: seq<BalanceItem>, u: Update, info: TokenInfo)
    ensures Place(items, u.(info := info)) == Place(items, u)
  {
    var u' := u.(info := info);
    var i, i' := FirstByAddress(items, u, 0), FirstByAddress(items, u', 0);
    assert i < i' ==> HasAddress(items[i], u');
    var j, j' := FirstNative(items, u, 0), FirstNative(items, u', 0);
    assert j < j' ==> IsNativeOf(items[j], u');
  }

  // ---------------------------------------------------------------- what the loop keeps

  /** The same token: only the amount and the value computed from it may differ. */
  predicate SameToken(a: BalanceItem, b: BalanceItem) {
    b == a.(value := b.value, quantity := a.quantity.(numeric := b.quantity.numeric))
  }

  /** Equal entries name equal targets. */
  ghost predicate Deterministic(us: seq<Update>) {
    forall j, k :: 0 <= j < |us| && 0 <= k < |us| && us[j].entry == us[k].entry ==> us[j].target == us[k].target
  }

  lemma LoopIsDeterministic(items: seq<BalanceItem>, us: seq<Update>, entries: seq<string>, lookups: seq<Lookup>,
                            priced: set<Caip.CaipNamespace>, solana: Caip.SolanaCheck)
    requires |us| <= |entries| && |us| <= |lookups|
    requires CarriedOut(items, us, entries, lookups, priced, solana)
    ensures Deterministic(us)
  {
  }

  /** The list only grows, and every item stays the same token in its place. */
  lemma {:induction false} LoopOnlyGrows(items: seq<BalanceItem>, us: seq<Update>, k: nat)
    requires k <= |us|
    ensures |After(items, us[..k])| <= |After(items, us)|
    ensures forall i :: 0 <= i < |After(items, us[..k])| ==> SameToken(After(items, us[..k])[i], After(items, us)[i])
    decreases |us|
  {
    if k == |us| {
      assert us[..k] == us;
    } else {
      var n := |us| - 1;
      LoopOnlyGrows(items, us[..n], k);
      assert us[..n][..k] == us[..k];
      GrowsByOne(After(items, us[..n]), us[n]);
    }
  }

  lemma GrowsByOne(items: seq<BalanceItem>, u: Update)
    ensures |items| <= |Apply(items, u)|
    ensures forall i :: 0 <= i < |items| ==> SameToken(items[i], Apply(items, u)[i])
  {
  }

  /** The place of an entry's item, when its turn comes. */
  function PlaceAt(items: seq<BalanceItem>, us: seq<Update>, k: nat): nat
    requires k < |us|
  {
    Place(After(items, us[..k]), us[k])
  }

  lemma UnmatchedByOne(items: seq<BalanceItem>, us: seq<Update>, j: nat, i: nat)
    requires j < |us| && i < |After(items, us[..j])| && i != PlaceAt(items, us, j)
    ensures i < |After(items, us[..j + 1])| && After(items, us[..j + 1])[i] == After(items, us[..j])[i]
  {
    assert us[..j + 1][..j] == us[..j];
  }

  lemma WholeRun(items: seq<BalanceItem>, us: seq<Update>)
    ensures After(items, us[..|us|]) == After(items, us)
  {
    assert us[..|us|] == us;
  }

  lemma UnmatchedUntil(items: seq<BalanceItem>, us: seq<Update>, from: nat, m: nat, i: nat, item: BalanceItem)
    requires from <= m <= |us| && i < |After(items, us[..from])| && After(items, us[..from])[i] == item
    requires forall j :: from <= j < m ==> PlaceAt(items, us, j) != i
    ensures i < |After(items, us[..m])| && After(items, us[..m])[i] == item
  {
    for k := from to m
      invariant i < |After(items, us[..k])| && After(items, us[..k])[i] == item
    {
      UnmatchedByOne(items, us, k, i);
    }
  }

  /** An item that no entry is placed at stays exactly as it was. */
  lemma UnmatchedUnchanged(items: seq<BalanceItem>, us: seq<Update>, from: nat, i: nat)
    requires from <= |us| && i < |After(items, us[..from])|
    requires forall j :: from <= j < |us| ==> PlaceAt(items, us, j) != i
    ensures i < |After(items, us)| && After(items, us)[i] == After(items, us[..from])[i]
  {
    UnmatchedUntil(items, us, from, |us|, i, After(items, us[..from])[i]);
    WholeRun(items, us);
  }

  /** An appended item is still that of its entry, as it was looked up, when the loop is done. */
  lemma AppendedStays(items: seq<BalanceItem>, us: seq<Update>, entries: seq<string>, lookups: seq<Lookup>,
                      priced: set<Caip.CaipNamespace>, solana: Caip.SolanaCheck, k: nat)
    requires |us| <= |entries| && |us| <= |lookups|
    requires CarriedOut(items, us, entries, lookups, priced, solana)
    requires k < |us| && PlaceAt(items, us, k) == |After(items, us[..k])|
    ensures var i := PlaceAt(items, us, k);
            && i < |After(items, us)| && lookups[k].prices.Some? && lookups[k].prices.value != []
            && IsTokenOf(After(items, us)[i], entries[k], us[k].target, lookups[k].prices.value[0])
  {
    assert us[..k + 1][..k] == us[..k];
    assert IsUpdateOf(After(items, us[..k]), us[k], entries[k], lookups[k], priced, solana);
    LoopOnlyGrows(items, us, k + 1);
  }

  /** The item shows an amount, with as many decimals as it states. */
  predicate Shows(item: BalanceItem, amount: nat) {
    var decimals := DecimalsOf(item.quantity.decimals);
    && item.quantity.numeric == Amounts.FormatTokenAmount(amount, decimals)
    && item.value == Some(Computed(amount, item.price, decimals))
  }

  lemma ApplyShows(items: seq<BalanceItem>, u: Update)
    ensures Place(items, u) < |Apply(items, u)| && Shows(Apply(items, u)[Place(items, u)], u.amount)
  {
    DecimalsReadBack(u.info.decimals);
  }

  /** Each forced item ends up with the amount of the last lookup placed at it. */
  lemma LastAmountShown(items: seq<BalanceItem>, us: seq<Update>, k: nat)
    requires k < |us|
    requires forall j :: k < j < |us| ==> PlaceAt(items, us, j) != PlaceAt(items, us, k)
    ensures PlaceAt(items, us, k) < |After(items, us)|
    ensures Shows(After(items, us)[PlaceAt(items, us, k)], us[k].amount)
  {
    assert us[..k + 1][..k] == us[..k];
    ApplyShows(After(items, us[..k]), us[k]);
    UnmatchedUnchanged(items, us, k + 1, PlaceAt(items, us, k));
  }

  // ---------------------------------------------------------------- an entry keeps its item

  lemma PlaceByAddress(items: seq<BalanceItem>, u: Update, i: nat)
    requires i < |items| && HasAddress(items[i], u) && forall j :: 0 <= j < i ==> !HasAddress(items[j], u)
    ensures Place(items, u) == i
  {
  }

  lemma PlaceByChain(items: seq<BalanceItem>, u: Update, i: nat)
    requires forall j :: 0 <= j < |items| ==> !HasAddress(items[j], u)
    requires i < |items| && IsNativeOf(items[i], u) && forall j :: 0 <= j < i ==> !IsNativeOf(items[j], u)
    ensures Place(items, u) == i
  {
  }

  /** Once an entry has its item, no other entry takes it away. */
  lemma PlaceKept(items: seq<BalanceItem>, v: Update, u: Update)
    requires Place(items, u) < |items|
    requires u.entry == v.entry ==> u.target == v.target
    ensures Place(Apply(items, v), u) == Place(items, u)
  {
    var items', i := Apply(items, v), Place(items, u);
    assert forall j :: 0 <= j < |items| ==> SameToken(items[j], items'[j]);
    if FirstByAddress(items, u, 0) < |items| {
      PlaceByAddress(items', u, i);
    } else {
      PlaceByChain(items', u, i);
    }
  }

  lemma PlaceTaken(items: seq<BalanceItem>, u: Update)
    ensures Place(Apply(items, u), u) == Place(items, u)
  {
    var items', i := Apply(items, u), Place(items, u);
    if i < |items| {
      PlaceKept(items, u, u);
    } else if u.target.native {
      PlaceByChain(items', u, i);
    } else {
      PlaceByAddress(items', u, i);
    }
  }

  /** Equal entries share one item, from the first of them on. */
  lemma {:induction false} PlaceIsStable(items: seq<BalanceItem>, us: seq<Update>, k: nat, m: nat)
    requires Deterministic(us) && k < m <= |us|
    ensures Place(After(items, us[..m]), us[k]) == PlaceAt(items, us, k) < |After(items, us[..m])|
    decreases m
  {
    var n := m - 1;
    assert us[..m][..n] == us[..n];
    if n == k {
      PlaceTaken(After(items, us[..k]), us[k]);
    } else {
      PlaceIsStable(items, us, k, n);
      PlaceKept(After(items, us[..n]), us[n], us[k]);
    }
  }

  lemma PlaceIgnoresLookup(items: seq<BalanceItem>, u: Update, v: Update)
    requires u.entry == v.entry && u.target == v.target
    ensures Place(items, u) == Place(items, v)
  {
    PlaceIgnoresInfo(items, u, v.info);
    var w := u.(info := v.info);
    var i, j := FirstByAddress(items, w, 0), FirstByAddress(items, v, 0);
    assert i < j ==> HasAddress(items[i], v);
    assert j < i ==> HasAddress(items[j], w);
    var i', j' := FirstNative(items, w, 0), FirstNative(items, v, 0);
    assert i' < j' ==> IsNativeOf(items[i'], v);
    assert j' < i' ==> IsNativeOf(items[j'], w);
  }

  /** At most one item is appended per entry string, repeats and the native placeholder included. */
  lemma OneAppendPerEntry(items: seq<BalanceItem>, us: seq<Update>, j: nat, k: nat)
    requires Deterministic(us) && j < k < |us| && us[j].entry == us[k].entry
    ensures PlaceAt(items, us, k) == PlaceAt(items, us, j) < |After(items, us[..k])|
  {
    PlaceIsStable(items, us, j, k);
    PlaceIgnoresLookup(After(items, us[..k]), us[j], us[k]);
  }

  /**
   * The limit of that: two contract entries share an item if and only if they are spelled alike. Spellings of one
   * address that differ in case, or in white space, get an item each.
   */
  lemma OneItemPerSpelling(items: seq<BalanceItem>, us: seq<Update>, j: nat, k: nat)
    requires Deterministic(us) && j < k < |us| && !us[j].target.native && !us[k].target.native
    ensures PlaceAt(items, us, k) == PlaceAt(items, us, j) <==> us[j].entry == us[k].entry
  {
    var later := After(items, us[..k]);
    PlaceIsStable(items, us, j, k);
    assert HasAddress(later[PlaceAt(items, us, j)], us[j]);
    if us[j].entry == us[k].entry {
      OneAppendPerEntry(items, us, j, k);
    }
  }

  ghost predicate NoneHasAddress(items: seq<BalanceItem>, entry: string) {
    forall i :: 0 <= i < |items| ==> items[i].address != Some(entry)
  }

  /** No item takes the string of a native entry as its address, unless one came with it. */
  lemma {:induction false} NativeNeverAddress(items: seq<BalanceItem>, us: seq<Update>, u: Update, k: nat)
    requires k <= |us| && NoneHasAddress(items, u.entry)
    requires forall m :: 0 <= m < |us| && us[m].entry == u.entry ==> us[m].target.native
    ensures NoneHasAddress(After(items, us[..k]), u.entry)
  {
    if k > 0 {
      NativeNeverAddress(items, us, u, k - 1);
      assert us[..k][..k - 1] == us[..k - 1] && us[..k][k - 1] == us[k - 1];
      AddressesAfterOne(After(items, us[..k - 1]), us[k - 1], u.entry);
    }
  }

  lemma AddressesAfterOne(items: seq<BalanceItem>, u: Update, entry: string)
    requires NoneHasAddress(items, entry) && (u.entry == entry ==> u.target.native)
    ensures NoneHasAddress(Apply(items, u), entry)
  {
  }

  lemma SameNativePlace(items: seq<BalanceItem>, u: Update, v: Update)
    requires NoneHasAddress(items, u.entry) && NoneHasAddress(items, v.entry)
    requires u.target == v.target
    ensures Place(items, u) == Place(items, v)
  {
    var i, j := FirstNative(items, u, 0), FirstNative(items, v, 0);
    assert i < j ==> IsNativeOf(items[i], v);
    assert j < i ==> IsNativeOf(items[j], u);
  }

  /**
   * The placeholder is told apart by its chain alone: entries for the native token of one chain share one item
   * however they are spelled, unless the response came with an item that has such an entry as its address.
   */
  lemma NativesShareOneItem(items: seq<BalanceItem>, us: seq<Update>, j: nat, k: nat)
    requires Deterministic(us) && j < k < |us|
    requires us[j].target == us[k].target && us[j].target.native
    requires NoneHasAddress(items, us[j].entry) && NoneHasAddress(items, us[k].entry)
    ensures PlaceAt(items, us, k) == PlaceAt(items, us, j) < |After(items, us[..k])|
  {
    PlaceIsStable(items, us, j, k);
    NativeNeverAddress(items, us, us[j], k);
    NativeNeverAddress(items, us, us[k], k);
    SameNativePlace(After(items, us[..k]), us[j], us[k]);
  }

  /** The placeholder address is 0xee, twenty times. */
  lemma PlaceholderIsNative(chainId: string, address: string, solana: Caip.SolanaCheck)
    requires ':' !in chainId && Caip.ContainsChainChar(chainId) && IsEvmAddressValid(address)
    ensures TargetOf(Caip.FormatCaip10(Caip.Eip155, chainId, address), solana)
         == Ok(Target(Caip.Eip155, "eip155:" + chainId, ParseH160(address) == Some(seq(40, _ => 'e'))))
  {
    NoSeparatorInAddress(address);
    Caip.FormatDisassemble(Caip.Eip155, chainId, address, solana);
    assert "eip155" + ":" + chainId == "eip155:" + chainId;
    assert EMPTY_ADDRESS == seq(40, _ => 'e');
  }

  /** A decimals field that is no number below 256 counts as 0. */
  lemma UnreadableDecimals(s: string)
    requires s == "" || s == "+" || (exists i :: 0 < i < |s| && !IsDigit(s[i])) || (s[0] != '+' && !IsDigit(s[0]))
    ensures DecimalsOf(s) == 0
  {
    if i :| 0 < i < |s| && !IsDigit(s[i]) {
      var digits := if s[0] == '+' then s[1..] else s;
      assert digits[i - (|s| - |digits|)] == s[i];
    }
  }

  lemma NoSeparatorInAddress(address: string)
    requires IsEvmAddressValid(address)
    ensures ':' !in address
  {
    EvmAddressShape(address);
    assert address[0] == address[..2][0] == '0' && address[1] == address[..2][1] == 'x';
    forall i | 0 <= i < |address| ensures address[i] != ':' {
      if 2 <= i < 42 {
        assert IsHexDigit(address[2..42][i - 2]);
      } else if i >= 42 {
        assert IsSkipped(address[42..][i - 42]);
      }
    }
  }

  lemma ContractTarget(chainId: string, address: string, solana: Caip.SolanaCheck)
    requires ':' !in chainId && Caip.ContainsChainChar(chainId)
    requires IsEvmAddressValid(address) && ParseH160(address) != Some(EMPTY_ADDRESS)
    ensures TargetOf(Caip.FormatCaip10(Caip.Eip155, chainId, address), solana)
         == Ok(Target(Caip.Eip155, "eip155:" + chainId, false))
  {
    NoSeparatorInAddress(address);
    Caip.FormatDisassemble(Caip.Eip155, chainId, address, solana);
    assert "eip155" + ":" + chainId == "eip155:" + chainId;
  }

  /** Two spellings of one contract give two items where one spelling twice gives one. */
  lemma TwoSpellings(chainId: string, a: string, b: string, solana: Caip.SolanaCheck, u: Update, v: Update)
    requires ':' !in chainId && Caip.ContainsChainChar(chainId)
    requires IsEvmAddressValid(a) && IsEvmAddressValid(b) && ParseH160(a) == ParseH160(b) != Some(EMPTY_ADDRESS)
    requires a != b
    requires u.entry == Caip.FormatCaip10(Caip.Eip155, chainId, a) && Ok(u.target) == TargetOf(u.entry, solana)
    requires v.entry == Caip.FormatCaip10(Caip.Eip155, chainId, b) && Ok(v.target) == TargetOf(v.entry, solana)
    ensures u.target == v.target
    ensures After([], [u, v]) == [NewItem(u), NewItem(v)]
  {
    ContractTarget(chainId, a, solana);
    ContractTarget(chainId, b, solana);
    var prefix := "eip155" + ":" + chainId + ":";
    assert u.entry == prefix + a && v.entry == prefix + b;
    assert u.entry[|prefix|..] == a && v.entry[|prefix|..] == b;
    TwoContracts(u, v);
  }

  lemma TwoContracts(u: Update, v: Update)
    requires u.entry != v.entry && !u.target.native && !v.target.native
    ensures After([], [u, v]) == [NewItem(u), NewItem(v)]
  {
    assert [u, v][..1] == [u] && [u][..0] == [];
    assert After([], [u]) == Apply([], u) == [NewItem(u)];
    assert FirstByAddress([NewItem(u)], v, 0) == 1;
  }

  /** Such spellings: the digits of an address in lower and in upper case. */
  lemma SpellingsExist() returns (a: string, b: string)
    ensures a != b && IsEvmAddressValid(a) && IsEvmAddressValid(b) && ParseH160(a) == ParseH160(b) != Some(EMPTY_ADDRESS)
  {
    a := SpelledIn('a');
    b := SpelledIn('A');
    assert a[2] == 'a' && b[2] == 'A';
    assert EMPTY_ADDRESS[0] == 'e';
  }

  lemma SpelledIn(c: char) returns (address: string)
    requires c == 'a' || c == 'A'
    ensures |address| == 42 && address[2] == c && IsEvmAddressValid(address)
    ensures ParseH160(address).Some? && ParseH160(address).value[0] == 'a'
    ensures ParseH160(address) == Some(seq(40, _ => 'a'))
  {
    var digits := seq(40, _ => c);
    address := "0x" + digits;
    assert address[..2] == "0x" && address[2..42] == digits && address[42..] == [];
    EvmAddressShape(address);
    assert address[2..] == digits && digits[..40] == digits;
    UnspacedAfterHex(digits, 40);
    assert Unspaced(digits) == digits;
    assert Lowered(digits) == seq(40, _ => 'a');
  }
}
