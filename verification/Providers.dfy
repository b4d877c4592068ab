/** The provider repository: registration, weight updates and the choice of a failover list. */
module Providers {
  import opened Common
  import opened ProviderKinds
  import opened Weights
  import Caip
  import WeightedIndex

  type CaipNamespace = Caip.CaipNamespace

  datatype RpcError =
    | UnsupportedChain
    | WeightedProvidersIndex
    | ChainTemporarilyUnavailable
    | PriorityTooHigh

  // ---------------------------------------------------------------- priorities and weights

  const MAX_PRIORITY: nat := 100

  datatype Priority = Max | High | Normal | Low | Minimal | Disabled | Custom(custom: nat)

  function PriorityValue(p: Priority): Result<nat, RpcError> {
    var value := match p {
      case Max => MAX_PRIORITY
      case High => MAX_PRIORITY / 4 + MAX_PRIORITY / 2
      case Normal => MAX_PRIORITY / 2
      case Low => MAX_PRIORITY / 4
      case Minimal => 1
      case Disabled => 0
      case Custom(v) => v
    };
    if value > MAX_PRIORITY then Err(PriorityTooHigh) else Ok(value)
  }

  datatype Weight = Weight(value: nat, priority: nat)

  function NewWeight(p: Priority): Result<Weight, RpcError> {
    match PriorityValue(p)
    case Err(e) => Err(e)
    case Ok(v) => Ok(Weight(v, v))
  }

  /** `Weight::update_value`: half the maximal priority leaves the value as it is. */
  function Reweighted(w: Weight, value: nat): Weight {
    w.(value := value * w.priority / (MAX_PRIORITY / 2))
  }

  // ---------------------------------------------------------------- resolvers

  /** The weights of the providers registered under each chain or namespace. */
  type Resolver<!K> = map<K, map<ProviderKind, Weight>>

  function EntryOf<K>(r: Resolver<K>, key: K): map<ProviderKind, Weight> {
    if key in r then r[key] else map[]
  }

  function Registered<K>(r: Resolver<K>, kind: ProviderKind, supported: map<K, Weight>): Resolver<K> {
    map key | key in r.Keys + supported.Keys ::
      if key in supported then EntryOf(r, key)[kind := supported[key]] else r[key]
  }

  /** Registration may take the supported keys one by one. */
  lemma RegisteredOneMore<K>(r: Resolver<K>, kind: ProviderKind, supported: map<K, Weight>, rest: set<K>, key: K)
    requires rest <= supported.Keys && key in rest
    ensures var done := Registered(r, kind, supported - rest);
            Registered(r, kind, supported - (rest - {key})) == done[key := EntryOf(done, key)[kind := supported[key]]]
  {
  }

  lemma RegisteredNone<K>(r: Resolver<K>, kind: ProviderKind, supported: map<K, Weight>)
    ensures Registered(r, kind, supported - supported.Keys) == r
    ensures Registered(r, kind, supported - {}) == Registered(r, kind, supported)
  {
    assert supported - {} == supported;
  }

  predicate Excluded(kind: ProviderKind) {
    kind == Pokt
  }

  /** New chain weights by provider; what the metrics do not cover is absent. */
  type ChainWeights = map<ProviderKind, map<string, nat>>

  /** `calculate_chain_weight` on every reported pair of a provider that is not excluded. */
  function Calculated(parsed: ParsedWeights): ChainWeights {
    map kind | kind in parsed && !Excluded(kind) :: CalculatedChains(parsed[kind].0, parsed[kind].1)
  }

  function CalculatedChains(chains: Chains, overall: Availability): map<string, nat> {
    map chain | chain in chains :: ChainWeight(overall, chains[chain])
  }

  /** One weight-update pass: every registered pair that is covered gets its new weight. */
  function Updated(r: Resolver<string>, table: ChainWeights): Resolver<string> {
    map chain | chain in r :: UpdatedEntry(r[chain], table, chain)
  }

  function UpdatedEntry(entry: map<ProviderKind, Weight>, table: ChainWeights, chain: string)
    : map<ProviderKind, Weight>
  {
    map kind | kind in entry :: UpdatedWeight(entry[kind], table, kind, chain)
  }

  function UpdatedWeight(w: Weight, table: ChainWeights, kind: ProviderKind, chain: string): Weight {
    if kind in table && chain in table[kind] then Reweighted(w, table[kind][chain]) else w
  }

  lemma UpdatedByNothing(r: Resolver<string>)
    ensures Updated(r, map[]) == r
  {
    forall chain | chain in r ensures UpdatedEntry(r[chain], map[], chain) == r[chain] {
    }
  }

  lemma UpdatedByNoChain(r: Resolver<string>, table: ChainWeights, kind: ProviderKind)
    requires kind !in table
    ensures Updated(r, table[kind := map[]]) == Updated(r, table)
  {
    forall chain | chain in r
      ensures UpdatedEntry(r[chain], table[kind := map[]], chain) == UpdatedEntry(r[chain], table, chain)
    {
    }
  }

  function WithChain(weights: map<string, nat>, chain: string, weight: nat): map<string, nat> {
    weights[chain := weight]
  }

  lemma EntryUpdatedOnce(entry: map<ProviderKind, Weight>, table: ChainWeights, kind: ProviderKind, chain: string,
                         weight: nat)
    requires kind in table && chain !in table[kind]
    ensures var before := UpdatedEntry(entry, table, chain);
            UpdatedEntry(entry, table[kind := WithChain(table[kind], chain, weight)], chain) ==
            if kind in entry then before[kind := Reweighted(before[kind], weight)] else before
  {
  }

  lemma OtherEntryUnchanged(entry: map<ProviderKind, Weight>, table: ChainWeights, kind: ProviderKind, chain: string,
                            weight: nat, other: string)
    requires kind in table && other != chain
    ensures UpdatedEntry(entry, table[kind := WithChain(table[kind], chain, weight)], other)
         == UpdatedEntry(entry, table, other)
  {
  }

  /** One more covered pair changes one weight, if the pair is registered. */
  lemma UpdatedOnce(before: Resolver<string>, table: ChainWeights, kind: ProviderKind, chain: string, weight: nat)
    requires kind in table && chain !in table[kind]
    ensures var r := Updated(before, table);
            Updated(before, table[kind := WithChain(table[kind], chain, weight)]) ==
            if chain in r && kind in r[chain]
            then r[chain := r[chain][kind := Reweighted(r[chain][kind], weight)]]
            else r
  {
    forall c | c in before && c != chain
      ensures UpdatedEntry(before[c], table[kind := WithChain(table[kind], chain, weight)], c)
           == UpdatedEntry(before[c], table, c)
    {
      OtherEntryUnchanged(before[c], table, kind, chain, weight, c);
    }
    if chain in before {
      EntryUpdatedOnce(before[chain], table, kind, chain, weight);
    }
  }

  // ---------------------------------------------------------------- what a pass stores

  /** Metrics of the pair are taken into account: the provider is not `Pokt`, and they were reported. */
  predicate Covers(parsed: ParsedWeights, kind: ProviderKind, chain: string) {
    kind != Pokt && kind in parsed && chain in parsed[kind].0
  }

  /**
   * The pass leaves what is registered and all priorities alone. It stores for every covered pair the weight of the
   * chain scaled by the priority, half of the maximal priority counting once, rounded down; other pairs keep theirs.
   */
  ghost predicate IsPass(before: Resolver<string>, after: Resolver<string>, parsed: ParsedWeights) {
    && after.Keys == before.Keys
    && (forall chain :: chain in before ==> after[chain].Keys == before[chain].Keys)
    && forall chain, kind :: chain in before && kind in before[chain] ==>
                               var was, now := before[chain][kind], after[chain][kind];
                               && now.priority == was.priority
                               && if Covers(parsed, kind, chain)
                                  then IsScaled(now.value, was.priority, ChainWeight(parsed[kind].1, parsed[kind].0[chain]))
                                  else now.value == was.value
  }

  predicate IsScaled(value: nat, priority: nat, weight: nat) {
    50 * value <= weight * priority < 50 * value + 50
  }

  lemma UpdatedIsPass(before: Resolver<string>, parsed: ParsedWeights)
    ensures IsPass(before, Updated(before, Calculated(parsed)), parsed)
  {
    var table := Calculated(parsed);
    forall chain, kind | chain in before && kind in before[chain]
      ensures var was, now := before[chain][kind], Updated(before, table)[chain][kind];
              && now.priority == was.priority
              && if Covers(parsed, kind, chain)
                 then IsScaled(now.value, was.priority, ChainWeight(parsed[kind].1, parsed[kind].0[chain]))
                 else now.value == was.value
    {
      PairUpdated(before[chain][kind], parsed, kind, chain);
    }
  }

  lemma PairUpdated(was: Weight, parsed: ParsedWeights, kind: ProviderKind, chain: string)
    ensures var now := UpdatedWeight(was, Calculated(parsed), kind, chain);
            && now.priority == was.priority
            && if Covers(parsed, kind, chain)
               then IsScaled(now.value, was.priority, ChainWeight(parsed[kind].1, parsed[kind].0[chain]))
               else now.value == was.value
  {
    var table := Calculated(parsed);
    assert (kind in table && chain in table[kind]) <==> Covers(parsed, kind, chain);
    if Covers(parsed, kind, chain) {
      var c := ChainWeight(parsed[kind].1, parsed[kind].0[chain]);
      assert table[kind][chain] == c;
      ReweightedIsScaled(was, c);
    }
  }

  lemma ReweightedIsScaled(w: Weight, c: nat)
    ensures Reweighted(w, c).priority == w.priority && IsScaled(Reweighted(w, c).value, w.priority, c)
  {
  }

  /** Which priorities are accepted, and what scaling means for them. */
  lemma ScaledByPriority(p: Priority, value: nat, weight: nat)
    ensures NewWeight(p).Ok? <==> (p.Custom? ==> p.custom <= 100)
    ensures NewWeight(p).Ok? && IsScaled(value, NewWeight(p).value.priority, weight) ==>
              match p
              case Max => value == 2 * weight
              case High => value == 3 * weight / 2
              case Normal => value == weight
              case Low => value == weight / 2
              case Minimal => value == weight / 50
              case Disabled => value == 0
              case Custom(n) => IsScaled(value, n, weight)
    ensures NewWeight(p).Ok? ==> NewWeight(p).value.value == NewWeight(p).value.priority
  {
    match p
    case Max => assert NewWeight(p).value.priority == 100;
    case High => assert NewWeight(p).value.priority == 75;
    case Normal => assert NewWeight(p).value.priority == 50;
    case Low => assert NewWeight(p).value.priority == 25;
    case Minimal => assert NewWeight(p).value.priority == 1;
    case Disabled => assert NewWeight(p).value.priority == 0;
    case Custom(n) =>
  }

  /** With equal metrics a higher priority never gets less. */
  lemma HigherPriorityNeverLess(v: nat, p: nat, v': nat, p': nat, weight: nat)
    requires IsScaled(v, p, weight) && IsScaled(v', p', weight) && p <= p'
    ensures v <= v'
  {
    assert weight * p <= weight * p';
  }

  /** Collects the keys of a map in any order. */
  method KeysOf<K, V>(m: map<K, V>) returns (keys: seq<K>)
    ensures |keys| == |m| && Distinct(keys)
    ensures forall k :: k in keys <==> k in m
  {
    keys := [];
    var rest := m.Keys;
    while rest != {}
      invariant rest <= m.Keys && |keys| + |rest| == |m|
      invariant Distinct(keys)
      invariant forall k :: k in keys <==> k in m && k !in rest
      decreases rest
    {
      var k :| k in rest;
      keys := keys + [k];
      rest := rest - {k};
    }
  }

  datatype Provider = Provider(kind: ProviderKind, instance: nat)

  class ProviderRepository {
    var rpcProviders: map<ProviderKind, Provider>
    var rpcWeights: Resolver<string>
    var rpcChains: set<string>
    var balanceProviders: map<ProviderKind, Provider>
    var balanceWeights: Resolver<CaipNamespace>
    var balanceNamespaces: set<CaipNamespace>

    /** Every provider that a resolver names is in its provider map, under its own kind. */
    ghost predicate Closed()
      reads this
    {
      && IsClosed(rpcProviders, rpcWeights)
      && IsClosed(balanceProviders, balanceWeights)
    }

    constructor ()
      ensures Closed()
      ensures rpcProviders == map[] && rpcWeights == map[] && rpcChains == {}
      ensures balanceProviders == map[] && balanceWeights == map[] && balanceNamespaces == {}
    {
      rpcProviders, rpcWeights, rpcChains := map[], map[], {};
      balanceProviders, balanceWeights, balanceNamespaces := map[], map[], {};
    }

    method AddRpcProvider(provider: Provider, supported: map<string, Weight>)
      requires Closed()
      modifies this`rpcProviders, this`rpcWeights, this`rpcChains
      ensures Closed()
      ensures rpcProviders == old(rpcProviders)[provider.kind := provider]
      ensures rpcWeights == Registered(old(rpcWeights), provider.kind, supported)
      ensures rpcChains == old(rpcChains) + supported.Keys
    {
      rpcProviders := rpcProviders[provider.kind := provider];
      rpcChains, rpcWeights := Register(rpcChains, rpcWeights, provider.kind, supported);
      RegisteredIsClosed(old(rpcProviders), old(rpcWeights), provider, supported);
    }

    method AddBalanceProvider(provider: Provider, supported: map<CaipNamespace, Weight>)
      requires Closed()
      modifies this`balanceProviders, this`balanceWeights, this`balanceNamespaces
      ensures Closed()
      ensures balanceProviders == old(balanceProviders)[provider.kind := provider]
      ensures balanceWeights == Registered(old(balanceWeights), provider.kind, supported)
      ensures balanceNamespaces == old(balanceNamespaces) + supported.Keys
    {
      balanceProviders := balanceProviders[provider.kind := provider];
      balanceNamespaces, balanceWeights := Register(balanceNamespaces, balanceWeights, provider.kind, supported);
      RegisteredIsClosed(old(balanceProviders), old(balanceWeights), provider, supported);
    }

    /** The pass visits providers and chains in any order; the result never depends on it. */
    method UpdateValues(parsed: ParsedWeights)
      requires Closed()
      modifies this`rpcWeights
      ensures Closed()
      ensures rpcWeights == Updated(old(rpcWeights), Calculated(parsed))
      ensures IsPass(old(rpcWeights), rpcWeights, parsed)
    {
      UpdatedIsClosed(rpcProviders, rpcWeights, Calculated(parsed));
      UpdatedIsPass(rpcWeights, parsed);
      rpcWeights := UpdateProviders(rpcWeights, parsed);
    }

    /** The failover list of a chain: `max` of its providers, or all, each at most once. */
    method GetRpcProviderForChainId(chain: string, max: nat, random: WeightedIndex.Random)
      returns (r: Result<seq<Provider>, RpcError>)
      requires Closed()
      ensures EntryOf(rpcWeights, chain) == map[] ==> r == Err(UnsupportedChain)
      ensures EntryOf(rpcWeights, chain) != map[] ==>
                && r.Ok?
                && |r.value| == Min(max, |rpcWeights[chain]|)
                && IsFailoverList(rpcWeights[chain], rpcProviders, max, r.value)
                && IsFailoverListBy(rpcWeights[chain], rpcProviders, r.value, random)
                && Distinct(r.value)
                && (forall p :: p in r.value ==> p.kind in rpcWeights[chain] && rpcProviders[p.kind] == p)
                && (max >= |rpcWeights[chain]| ==> forall k :: k in rpcWeights[chain] ==> rpcProviders[k] in r.value)
    {
      if chain !in rpcWeights || rpcWeights[chain] == map[] {
        return Err(UnsupportedChain);
      }
      var list := RpcList(rpcWeights[chain], rpcProviders, max, random);
      return Ok(list);
    }

    /** Above-minimal providers in drawn order, then minimal ones while there is room. */
    method GetBalanceProviderForNamespace(namespace: CaipNamespace, max: nat, random: WeightedIndex.Random)
      returns (r: Result<seq<Provider>, RpcError>)
      requires Closed()
      ensures EntryOf(balanceWeights, namespace) == map[] ==> r == Err(UnsupportedChain)
      ensures EntryOf(balanceWeights, namespace) != map[] ==>
                && r.Ok?
                && IsBalanceList(balanceWeights[namespace], balanceProviders, max, r.value)
                && IsBalanceListBy(balanceWeights[namespace], balanceProviders, r.value, random)
    {
      if namespace !in balanceWeights || balanceWeights[namespace] == map[] {
        return Err(UnsupportedChain);
      }
      var list := BalanceList(balanceWeights[namespace], balanceProviders, max, random);
      return Ok(list);
    }
  }

  method RpcList(entry: map<ProviderKind, Weight>, instances: map<ProviderKind, Provider>, max: nat,
                 random: WeightedIndex.Random)
    returns (list: seq<Provider>)
    requires entry != map[] && forall k :: k in entry ==> k in instances && instances[k].kind == k
    ensures IsFailoverList(entry, instances, max, list) && IsFailoverListBy(entry, instances, list, random)
    ensures Distinct(list) && forall p :: p in list ==> p.kind in entry && instances[p.kind] == p
    ensures max >= |entry| ==> forall k :: k in entry ==> instances[k] in list
  {
    var keys := KeysOf(entry);
    var weights := Clamped(keys, entry);
    list := Draw(keys, weights, Min(max, |keys|), instances, random);
    assert IsListing(keys, entry.Keys) && AreClampedWeights(keys, weights, entry);
    if max >= |entry| {
      AllAppear(list, entry.Keys, instances);
    }
  }

  method BalanceList(entry: map<ProviderKind, Weight>, instances: map<ProviderKind, Provider>, max: nat,
                     random: WeightedIndex.Random)
    returns (list: seq<Provider>)
    requires forall k :: k in entry ==> k in instances && instances[k].kind == k
    ensures IsBalanceList(entry, instances, max, list) && IsBalanceListBy(entry, instances, list, random)
  {
    var high, weights, minimal := Separate(entry, instances);
    if |weights| == 0 {
      NothingDrawn(entry, instances, max, minimal, random, high, weights);
      return minimal[..Min(max, |minimal|)];
    }
    var picked := Draw(high, weights, Min(max, |high|), instances, random);
    list := picked + minimal[..Min(max - |picked|, |minimal|)];
    DrawnFirst(entry, instances, max, picked, minimal, list, random, high, weights);
  }

  function AtLeastOne(providers: map<ProviderKind, Weight>, kind: ProviderKind): (w: nat)
    ensures w > 0
    ensures kind in providers ==> w >= providers[kind].value && (w == 1 || w == providers[kind].value)
  {
    if kind in providers && providers[kind].value > 1 then providers[kind].value else 1
  }

  /** The kinds above the minimal priority, and those at it; disabled ones are in neither set. */
  function Above(providers: map<ProviderKind, Weight>): set<ProviderKind> {
    set kind | kind in providers && providers[kind].value > 1
  }

  function AtMinimum(providers: map<ProviderKind, Weight>): set<ProviderKind> {
    set kind | kind in providers && providers[kind].value == 1
  }

  /** A list of providers: above-minimal ones first and minimal ones while there is room, as many as there are. */
  ghost predicate IsBalanceList(entry: map<ProviderKind, Weight>, instances: map<ProviderKind, Provider>, max: nat,
                                list: seq<Provider>)
  {
    var high, low := Above(entry), AtMinimum(entry);
    && |list| == Min(max, |high| + |low|)
    && Distinct(list)
    && (forall p :: p in list ==> p.kind in instances && instances[p.kind] == p)
    && (forall i :: 0 <= i < |list| ==> list[i].kind in if i < |high| then high else low)
    && (max >= |high| ==> forall k :: k in high ==> k in instances && instances[k] in list)
    && (max >= |high| + |low| ==> forall k :: k in low ==> k in instances && instances[k] in list)
  }

  /** The above-minimal providers at the front were drawn by their weights. */
  ghost predicate IsBalanceListBy(entry: map<ProviderKind, Weight>, instances: map<ProviderKind, Provider>,
                                  list: seq<Provider>, random: WeightedIndex.Random)
  {
    exists keys, weights ::
      && IsListing(keys, Above(entry))
      && AreWeightsOf(keys, weights, entry)
      && IsDrawnBy(keys, weights, instances, list[..Min(|list|, |Above(entry)|)], random)
  }

  ghost predicate AreWeightsOf(keys: seq<ProviderKind>, weights: seq<nat>, entry: map<ProviderKind, Weight>) {
    |weights| == |keys| && forall i :: 0 <= i < |keys| ==> keys[i] in entry && weights[i] == entry[keys[i]].value
  }

  lemma DrawnFirst(entry: map<ProviderKind, Weight>, instances: map<ProviderKind, Provider>, max: nat,
                   picked: seq<Provider>, minimal: seq<Provider>, list: seq<Provider>,
                   random: WeightedIndex.Random, keys: seq<ProviderKind>, weights: seq<nat>)
    requires IsListing(keys, Above(entry)) && AreWeightsOf(keys, weights, entry)
    requires IsDrawnBy(keys, weights, instances, picked, random)
    requires AreOf(keys, instances, picked) && |picked| == Min(max, |keys|)
    requires AreOfKinds(minimal, AtMinimum(entry), instances) && |minimal| == |AtMinimum(entry)|
    requires list == picked + minimal[..Min(max - |picked|, |minimal|)]
    ensures IsBalanceList(entry, instances, max, list) && IsBalanceListBy(entry, instances, list, random)
  {
    MinimalAfterPicked(entry, instances, max, picked, minimal);
    assert list[..Min(|list|, |Above(entry)|)] == picked;
  }

  lemma NothingDrawn(entry: map<ProviderKind, Weight>, instances: map<ProviderKind, Provider>, max: nat,
                     minimal: seq<Provider>, random: WeightedIndex.Random, keys: seq<ProviderKind>, weights: seq<nat>)
    requires IsListing(keys, Above(entry)) && AreWeightsOf(keys, weights, entry) && keys == []
    requires AreOfKinds(minimal, AtMinimum(entry), instances) && |minimal| == |AtMinimum(entry)|
    ensures var list := minimal[..Min(max, |minimal|)];
            IsBalanceList(entry, instances, max, list) && IsBalanceListBy(entry, instances, list, random)
  {
    assert IsDrawn(keys, weights, instances, [], [], []) && WeightedIndex.IsRandom(weights, [], [], random);
    DrawnFirst(entry, instances, max, [], minimal, minimal[..Min(max, |minimal|)], random, keys, weights);
  }

  ghost predicate AreOfKinds(list: seq<Provider>, kinds: set<ProviderKind>, instances: map<ProviderKind, Provider>) {
    Distinct(list) && forall p :: p in list ==> p.kind in kinds && p.kind in instances && instances[p.kind] == p
  }

  lemma MinimalAfterPicked(entry: map<ProviderKind, Weight>, instances: map<ProviderKind, Provider>, max: nat,
                           picked: seq<Provider>, minimal: seq<Provider>)
    requires AreOfKinds(picked, Above(entry), instances) && |picked| == Min(max, |Above(entry)|)
    requires AreOfKinds(minimal, AtMinimum(entry), instances) && |minimal| == |AtMinimum(entry)|
    ensures IsBalanceList(entry, instances, max, picked + minimal[..Min(max - |picked|, |minimal|)])
  {
    var rest := minimal[..Min(max - |picked|, |minimal|)];
    var list := picked + rest;
    assert forall i :: 0 <= i < |rest| ==> rest[i] == minimal[i] && minimal[i] in minimal;
    assert forall i :: 0 <= i < |picked| ==> picked[i] in picked;
    assert forall i :: 0 <= i < |list| ==> list[i] == if i < |picked| then picked[i] else rest[i - |picked|];
    if max >= |picked| + |minimal| {
      assert rest == minimal;
      AllAppear(minimal, AtMinimum(entry), instances);
    }
    if max >= |Above(entry)| {
      AllAppear(picked, Above(entry), instances);
    }
  }

  /** As many different providers as there are kinds are the providers of all kinds. */
  lemma AllAppear(list: seq<Provider>, kinds: set<ProviderKind>, instances: map<ProviderKind, Provider>)
    requires Distinct(list) && |list| == |kinds|
    requires forall p :: p in list ==> p.kind in kinds && p.kind in instances && instances[p.kind] == p
    ensures forall k :: k in kinds ==> k in instances && instances[k] in list
  {
    var listed := KindsIn(list, instances);
    SubsetOfEqualSize(listed, kinds);
    forall k | k in kinds ensures k in instances && instances[k] in list {
      var i :| 0 <= i < |list| && list[i].kind == k;
    }
  }

  lemma {:induction false} KindsIn(list: seq<Provider>, instances: map<ProviderKind, Provider>)
    returns (kinds: set<ProviderKind>)
    requires Distinct(list)
    requires forall p :: p in list ==> p.kind in instances && instances[p.kind] == p
    ensures |kinds| == |list| && forall k :: k in kinds <==> exists i :: 0 <= i < |list| && list[i].kind == k
  {
    if list == [] {
      kinds := {};
    } else {
      var n := |list| - 1;
      var before := KindsIn(list[..n], instances);
      kinds := before + {list[n].kind};
      forall i | 0 <= i < n ensures list[..n][i].kind != list[n].kind {
        assert list[i] in list && list[n] in list;
      }
    }
  }

  // ---------------------------------------------------------------- what may be drawn

  /** The draws pick this list from the providers in the order of `keys`. */
  ghost predicate IsDrawn(keys: seq<ProviderKind>, weights: seq<nat>, instances: map<ProviderKind, Provider>,
                          list: seq<Provider>, picks: seq<nat>, draws: seq<nat>)
  {
    && WeightedIndex.IsOutcome(weights, picks, draws)
    && |list| == |picks|
    && forall i :: 0 <= i < |list| ==>
                     picks[i] < |keys| && keys[picks[i]] in instances && list[i] == instances[keys[picks[i]]]
  }

  /** The list drawn with these random numbers; each provider weighs as much as `weights` says. */
  ghost predicate IsDrawnBy(keys: seq<ProviderKind>, weights: seq<nat>, instances: map<ProviderKind, Provider>,
                            list: seq<Provider>, random: WeightedIndex.Random)
  {
    exists picks, draws ::
      && IsDrawn(keys, weights, instances, list, picks, draws)
      && WeightedIndex.IsRandom(weights, picks, draws, random)
  }

  /** Keys, weights and random numbers determine the list. */
  lemma DrawnListDetermined(keys: seq<ProviderKind>, weights: seq<nat>, instances: map<ProviderKind, Provider>,
                            list: seq<Provider>, list': seq<Provider>, random: WeightedIndex.Random)
    requires IsDrawnBy(keys, weights, instances, list, random) && IsDrawnBy(keys, weights, instances, list', random)
    requires |list| == |list'|
    ensures list == list'
  {
    var picks, draws :| IsDrawn(keys, weights, instances, list, picks, draws) &&
                        WeightedIndex.IsRandom(weights, picks, draws, random);
    var picks', draws' :| IsDrawn(keys, weights, instances, list', picks', draws') &&
                          WeightedIndex.IsRandom(weights, picks', draws', random);
    WeightedIndex.OutcomeFollows(weights, picks, draws, random);
    WeightedIndex.OutcomeFollows(weights, picks', draws', random);
    WeightedIndex.PicksDetermined(weights, picks, picks', random);
  }

  ghost predicate CanBeDrawn(keys: seq<ProviderKind>, weights: seq<nat>, instances: map<ProviderKind, Provider>,
                             list: seq<Provider>)
  {
    exists picks, draws :: IsDrawn(keys, weights, instances, list, picks, draws)
  }

  ghost predicate AreOf(keys: seq<ProviderKind>, instances: map<ProviderKind, Provider>, list: seq<Provider>) {
    Distinct(list) && forall p :: p in list ==> p.kind in keys && p.kind in instances && instances[p.kind] == p
  }

  ghost predicate OwnKinds(keys: seq<ProviderKind>, instances: map<ProviderKind, Provider>) {
    forall k :: k in keys ==> k in instances && instances[k].kind == k
  }

  lemma DrawnAreDistinct(keys: seq<ProviderKind>, weights: seq<nat>, instances: map<ProviderKind, Provider>,
                         list: seq<Provider>, picks: seq<nat>, draws: seq<nat>)
    requires |keys| == |weights| && Distinct(keys) && OwnKinds(keys, instances)
    requires IsDrawn(keys, weights, instances, list, picks, draws)
    ensures AreOf(keys, instances, list)
  {
    WeightedIndex.OutcomesAreDistinct(weights, picks, draws);
    forall i, j | 0 <= i < j < |list| ensures list[i] != list[j] {
      assert picks[i] != picks[j];
      assert keys[picks[i]] in keys && keys[picks[j]] in keys;
    }
    forall p | p in list ensures p.kind in keys && p.kind in instances && instances[p.kind] == p {
      var i :| 0 <= i < |list| && list[i] == p;
      assert keys[picks[i]] in keys;
    }
  }

  lemma DistinctAreDrawn(keys: seq<ProviderKind>, weights: seq<nat>, instances: map<ProviderKind, Provider>,
                         list: seq<Provider>)
    requires |keys| == |weights| && OwnKinds(keys, instances)
    requires forall i :: 0 <= i < |weights| ==> weights[i] > 0
    requires AreOf(keys, instances, list)
    ensures CanBeDrawn(keys, weights, instances, list)
  {
    var picks := PicksOf(keys, instances, list);
    var draws := WeightedIndex.DistinctIsAnOutcome(weights, picks);
    assert IsDrawn(keys, weights, instances, list, picks, draws);
  }

  lemma {:induction false} PicksOf(keys: seq<ProviderKind>, instances: map<ProviderKind, Provider>,
                                   list: seq<Provider>) returns (picks: seq<nat>)
    requires OwnKinds(keys, instances) && AreOf(keys, instances, list)
    ensures |picks| == |list| && Distinct(picks)
    ensures forall p :: p in picks ==> p < |keys|
    ensures forall i :: 0 <= i < |list| ==>
                          picks[i] < |keys| && keys[picks[i]] in instances && list[i] == instances[keys[picks[i]]]
  {
    if list == [] {
      picks := [];
    } else {
      var n := |list| - 1;
      var before := PicksOf(keys, instances, list[..n]);
      var last := list[n];
      assert last in list;
      var i: nat :| i < |keys| && keys[i] == last.kind;
      picks := before + [i];
      forall m | 0 <= m < n ensures picks[m] != i {
        assert list[m] != last && list[..n][m] == list[m];
      }
    }
  }

  /** Whatever the positive weights, drawing can give every list of distinct providers, and no other. */
  lemma DrawnExactly(keys: seq<ProviderKind>, weights: seq<nat>, instances: map<ProviderKind, Provider>,
                     list: seq<Provider>)
    requires |keys| == |weights| && Distinct(keys) && OwnKinds(keys, instances)
    requires forall i :: 0 <= i < |weights| ==> weights[i] > 0
    ensures CanBeDrawn(keys, weights, instances, list) <==> AreOf(keys, instances, list)
  {
    if CanBeDrawn(keys, weights, instances, list) {
      var picks, draws :| IsDrawn(keys, weights, instances, list, picks, draws);
      DrawnAreDistinct(keys, weights, instances, list, picks, draws);
    }
    if AreOf(keys, instances, list) {
      DistinctAreDrawn(keys, weights, instances, list);
    }
  }

  ghost predicate IsListing(keys: seq<ProviderKind>, kinds: set<ProviderKind>) {
    |keys| == |kinds| && Distinct(keys) && forall k :: k in keys <==> k in kinds
  }

  function Clamped(keys: seq<ProviderKind>, entry: map<ProviderKind, Weight>): (weights: seq<nat>)
    ensures |weights| == |keys| && forall i :: 0 <= i < |weights| ==> weights[i] > 0
  {
    seq(|keys|, i requires 0 <= i < |keys| => AtLeastOne(entry, keys[i]))
  }

  /** A list that RPC selection may return: drawn by the clamped weights, in whatever order the map lists its kinds. */
  ghost predicate IsFailoverList(entry: map<ProviderKind, Weight>, instances: map<ProviderKind, Provider>, max: nat,
                                 list: seq<Provider>)
  {
    && |list| == Min(max, |entry|)
    && exists keys :: IsListing(keys, entry.Keys) && CanBeDrawn(keys, Clamped(keys, entry), instances, list)
  }

  /** The list that these random numbers give. */
  ghost predicate IsFailoverListBy(entry: map<ProviderKind, Weight>, instances: map<ProviderKind, Provider>,
                                   list: seq<Provider>, random: WeightedIndex.Random)
  {
    exists keys, weights ::
      && IsListing(keys, entry.Keys)
      && AreClampedWeights(keys, weights, entry)
      && IsDrawnBy(keys, weights, instances, list, random)
  }

  /** Each weighs as much as its weight says, but at least 1. */
  ghost predicate AreClampedWeights(keys: seq<ProviderKind>, weights: seq<nat>, entry: map<ProviderKind, Weight>) {
    && |weights| == |keys|
    && forall i :: 0 <= i < |keys| ==>
                     && keys[i] in entry
                     && (entry[keys[i]].value >= 1 ==> weights[i] == entry[keys[i]].value)
                     && (entry[keys[i]].value == 0 ==> weights[i] == 1)
  }

  lemma {:induction false} ListingFrom(kinds: set<ProviderKind>) returns (keys: seq<ProviderKind>)
    ensures IsListing(keys, kinds)
  {
    if kinds == {} {
      keys := [];
    } else {
      var k := AnyElement(kinds);
      var rest := ListingFrom(kinds - {k});
      keys := [k] + rest;
    }
  }

  /** RPC selection may return exactly the lists of that length of distinct registered providers, weight 0 or not. */
  lemma FailoverListsExactly(entry: map<ProviderKind, Weight>, instances: map<ProviderKind, Provider>, max: nat,
                             list: seq<Provider>)
    requires forall k :: k in entry ==> k in instances && instances[k].kind == k
    ensures IsFailoverList(entry, instances, max, list) <==>
            && |list| == Min(max, |entry|)
            && Distinct(list)
            && forall p :: p in list ==> p.kind in entry && instances[p.kind] == p
  {
    forall keys | IsListing(keys, entry.Keys)
      ensures CanBeDrawn(keys, Clamped(keys, entry), instances, list) <==> AreOf(keys, instances, list)
    {
      DrawnExactly(keys, Clamped(keys, entry), instances, list);
    }
    var keys := ListingFrom(entry.Keys);
  }

  /** A disabled provider can be among those tried if and only if one is registered and any are tried. */
  lemma DisabledCanBeListed(entry: map<ProviderKind, Weight>, instances: map<ProviderKind, Provider>, max: nat)
    requires forall k :: k in entry ==> k in instances && instances[k].kind == k
    ensures (exists list :: IsFailoverList(entry, instances, max, list) && ListsDisabled(entry, list)) <==>
            max > 0 && exists k :: k in entry && entry[k].value == 0
  {
    forall list | IsFailoverList(entry, instances, max, list) && ListsDisabled(entry, list)
      ensures max > 0 && exists k :: k in entry && entry[k].value == 0
    {
      assert |list| > 0;
    }
    if k :| max > 0 && k in entry && entry[k].value == 0 {
      var list := ListWith(entry, instances, max, k);
      FailoverListsExactly(entry, instances, max, list);
      assert ListsDisabled(entry, list);
    }
  }

  ghost predicate ListsDisabled(entry: map<ProviderKind, Weight>, list: seq<Provider>) {
    exists p :: p in list && p.kind in entry && entry[p.kind].value == 0
  }

  lemma ListWith(entry: map<ProviderKind, Weight>, instances: map<ProviderKind, Provider>, max: nat, kind: ProviderKind)
    returns (list: seq<Provider>)
    requires forall k :: k in entry ==> k in instances && instances[k].kind == k
    requires max > 0 && kind in entry
    ensures |list| == Min(max, |entry|) && Distinct(list)
    ensures forall p :: p in list ==> p.kind in entry && instances[p.kind] == p
    ensures instances[kind] in list
  {
    var rest := ListingFrom(entry.Keys - {kind});
    var keys := [kind] + rest;
    var n := Min(max, |entry|);
    assert |keys| == |entry|;
    assert forall k :: k in keys <==> k in entry;
    assert forall i :: 0 <= i < n ==> keys[i] in keys;
    list := seq(n, i requires 0 <= i < n => instances[keys[i]]);
    forall i, j | 0 <= i < j < n ensures list[i] != list[j] {
      assert keys[j] == rest[j - 1] && keys[j] in rest;
      assert i > 0 ==> keys[i] == rest[i - 1];
      assert keys[i] != keys[j];
    }
    assert list[0] == instances[kind];
  }

  /** Draws `count` of the registered kinds by their weights and looks the providers up. */
  method Draw(keys: seq<ProviderKind>, weights: seq<nat>, count: nat, providers: map<ProviderKind, Provider>,
              random: WeightedIndex.Random)
    returns (picked: seq<Provider>)
    requires |keys| == |weights| > 0 && count <= |keys| && Distinct(keys)
    requires forall i :: 0 <= i < |weights| ==> weights[i] > 0
    requires OwnKinds(keys, providers)
    ensures |picked| == count && CanBeDrawn(keys, weights, providers, picked)
    ensures IsDrawnBy(keys, weights, providers, picked, random)
    ensures AreOf(keys, providers, picked)
  {
    var dist := WeightedIndex.WeightedIndex.Build(weights);
    assert weights[0] > 0;
    var picks;
    ghost var draws;
    picks, draws := WeightedIndex.DrawDistinct(dist, count, random);
    WeightedIndex.OutcomesAreDistinct(weights, picks, draws);
    forall i | 0 <= i < count ensures picks[i] < |keys| && keys[picks[i]] in keys {
      assert picks[i] in picks;
    }
    picked := seq(count, i requires 0 <= i < count => providers[keys[picks[i]]]);
    assert IsDrawn(keys, weights, providers, picked, picks, draws);
    DrawnAreDistinct(keys, weights, providers, picked, picks, draws);
  }

  function IsAbove(providers: map<ProviderKind, Weight>): ProviderKind -> bool {
    kind => kind in providers && providers[kind].value > 1
  }

  function IsMinimal(providers: map<ProviderKind, Weight>): ProviderKind -> bool {
    kind => kind in providers && providers[kind].value == 1
  }

  function Selected(keys: seq<ProviderKind>, p: ProviderKind -> bool): seq<ProviderKind> {
    if keys == [] then []
    else
      var n := |keys| - 1;
      Selected(keys[..n], p) + if p(keys[n]) then [keys[n]] else []
  }

  lemma SelectedOneMore(keys: seq<ProviderKind>, n: nat, p: ProviderKind -> bool)
    requires n < |keys|
    ensures Selected(keys[..n + 1], p) == Selected(keys[..n], p) + if p(keys[n]) then [keys[n]] else []
  {
    assert keys[..n + 1][..n] == keys[..n];
  }

  lemma {:induction false} SelectedFacts(keys: seq<ProviderKind>, p: ProviderKind -> bool)
    requires Distinct(keys)
    ensures Distinct(Selected(keys, p))
    ensures forall k :: k in Selected(keys, p) <==> k in keys && p(k)
    ensures |Selected(keys, p)| == |set k | k in keys && p(k)|
  {
    if keys != [] {
      var n := |keys| - 1;
      SelectedFacts(keys[..n], p);
      SelectedSetGrows(keys, n, p);
    }
  }

  lemma SelectedSetGrows(keys: seq<ProviderKind>, n: nat, p: ProviderKind -> bool)
    requires Distinct(keys) && |keys| == n + 1
    ensures keys[n] !in keys[..n]
    ensures forall k :: k in keys <==> k in keys[..n] || k == keys[n]
    ensures var before := set k | k in keys[..n] && p(k);
            (set k | k in keys && p(k)) == if p(keys[n]) then before + {keys[n]} else before
  {
    assert keys == keys[..n] + [keys[n]];
  }

  /** Sorts the providers into those to draw from, with their weights, and the minimal ones. */
  method Separate(providers: map<ProviderKind, Weight>, instances: map<ProviderKind, Provider>)
    returns (high: seq<ProviderKind>, weights: seq<nat>, minimal: seq<Provider>)
    requires forall k :: k in providers ==> k in instances && instances[k].kind == k
    ensures IsListing(high, Above(providers)) && OwnKinds(high, instances)
    ensures AreWeightsOf(high, weights, providers) && forall i :: 0 <= i < |weights| ==> weights[i] > 0
    ensures AreOfKinds(minimal, AtMinimum(providers), instances) && |minimal| == |AtMinimum(providers)|
  {
    var keys := KeysOf(providers);
    ghost var low;
    high, weights, minimal, low := SeparateInOrder(keys, providers, instances);
    SelectedSets(providers, keys);
    MinimalKinds(low, minimal, providers, instances);
  }

  method SeparateInOrder(keys: seq<ProviderKind>, providers: map<ProviderKind, Weight>,
                         instances: map<ProviderKind, Provider>)
    returns (high: seq<ProviderKind>, weights: seq<nat>, minimal: seq<Provider>, ghost low: seq<ProviderKind>)
    requires forall k :: k in keys ==> k in providers && k in instances
    ensures high == Selected(keys, IsAbove(providers)) && low == Selected(keys, IsMinimal(providers))
    ensures |weights| == |high| && forall i :: 0 <= i < |weights| ==> weights[i] > 0
    ensures AreWeightsOf(high, weights, providers)
    ensures |minimal| == |low|
    ensures forall i :: 0 <= i < |low| ==> low[i] in instances && minimal[i] == instances[low[i]]
  {
    high, weights, minimal, low := [], [], [], [];
    for n := 0 to |keys|
      invariant high == Selected(keys[..n], IsAbove(providers)) && low == Selected(keys[..n], IsMinimal(providers))
      invariant |weights| == |high| && forall i :: 0 <= i < |weights| ==> weights[i] > 0
      invariant AreWeightsOf(high, weights, providers)
      invariant |minimal| == |low|
      invariant forall i :: 0 <= i < |low| ==> low[i] in instances && minimal[i] == instances[low[i]]
    {
      var kind := keys[n];
      var value := providers[kind].value;
      SelectedOneMore(keys, n, IsAbove(providers));
      SelectedOneMore(keys, n, IsMinimal(providers));
      if value > 1 {
        high, weights := high + [kind], weights + [value];
      } else if value == 1 {
        minimal := minimal + [instances[kind]];
        low := low + [kind];
      }
    }
    assert keys[..|keys|] == keys;
  }

  lemma SelectedSets(providers: map<ProviderKind, Weight>, keys: seq<ProviderKind>)
    requires Distinct(keys) && forall k :: k in keys <==> k in providers
    ensures var high, low := Selected(keys, IsAbove(providers)), Selected(keys, IsMinimal(providers));
            && Distinct(high) && |high| == |Above(providers)| && (forall k :: k in high <==> k in Above(providers))
            && Distinct(low) && |low| == |AtMinimum(providers)| && (forall k :: k in low <==> k in AtMinimum(providers))
  {
    SelectedFacts(keys, IsAbove(providers));
    SelectedFacts(keys, IsMinimal(providers));
    assert (set k | k in keys && IsAbove(providers)(k)) == Above(providers);
    assert (set k | k in keys && IsMinimal(providers)(k)) == AtMinimum(providers);
  }

  lemma MinimalKinds(low: seq<ProviderKind>, minimal: seq<Provider>, providers: map<ProviderKind, Weight>,
                     instances: map<ProviderKind, Provider>)
    requires |minimal| == |low| && Distinct(low) && forall k :: k in low ==> k in AtMinimum(providers)
    requires forall k :: k in providers ==> k in instances && instances[k].kind == k
    requires forall i :: 0 <= i < |low| ==> low[i] in instances && minimal[i] == instances[low[i]]
    ensures Distinct(minimal)
    ensures forall p :: p in minimal ==> p.kind in AtMinimum(providers) && instances[p.kind] == p
  {
    forall i | 0 <= i < |low| ensures minimal[i].kind == low[i] && low[i] in AtMinimum(providers) {
      assert low[i] in low;
    }
  }

  /** The loop over the supported chains or namespaces of one provider, in any order. */
  method Register<K>(supportedKeys: set<K>, r: Resolver<K>, kind: ProviderKind, supported: map<K, Weight>)
    returns (keys: set<K>, r': Resolver<K>)
    ensures keys == supportedKeys + supported.Keys
    ensures r' == Registered(r, kind, supported)
  {
    keys, r' := supportedKeys, r;
    var rest := supported.Keys;
    RegisteredNone(r, kind, supported);
    while rest != {}
      invariant rest <= supported.Keys
      invariant keys == supportedKeys + (supported.Keys - rest)
      invariant r' == Registered(r, kind, supported - rest)
      decreases rest
    {
      var key :| key in rest;
      RegisteredOneMore(r, kind, supported, rest, key);
      keys := keys + {key};
      r' := r'[key := EntryOf(r', key)[kind := supported[key]]];
      rest := rest - {key};
    }
  }

  /** The loop over the reported providers, in any order. */
  method UpdateProviders(before: Resolver<string>, parsed: ParsedWeights) returns (weights: Resolver<string>)
    ensures weights == Updated(before, Calculated(parsed))
  {
    UpdatedByNothing(before);
    weights := before;
    ghost var table: ChainWeights := map[];
    var kinds := parsed.Keys;
    while kinds != {}
      invariant kinds <= parsed.Keys && table == Calculated(parsed) - kinds
      invariant weights == Updated(before, table)
      decreases kinds
    {
      var kind :| kind in kinds;
      CalculatedOneMore(parsed, kinds, kind);
      if !Excluded(kind) {
        weights := UpdateProvider(weights, kind, parsed[kind].0, parsed[kind].1, before, table);
        table := table[kind := CalculatedChains(parsed[kind].0, parsed[kind].1)];
      }
      kinds := kinds - {kind};
    }
    assert Calculated(parsed) - {} == Calculated(parsed);
  }

  lemma CalculatedOneMore(parsed: ParsedWeights, kinds: set<ProviderKind>, kind: ProviderKind)
    requires kind in kinds && kinds <= parsed.Keys
    ensures var table := Calculated(parsed) - kinds;
            Calculated(parsed) - (kinds - {kind}) ==
            if Excluded(kind) then table else table[kind := CalculatedChains(parsed[kind].0, parsed[kind].1)]
  {
  }

  /** The loop over the reported chains of one provider, in any order. */
  lemma CoveredOnce(before: Resolver<string>, table: ChainWeights, kind: ProviderKind, done: map<string, nat>,
                    chain: string, weight: nat)
    requires chain !in done
    ensures var r := Updated(before, table[kind := done]);
            Updated(before, table[kind := WithChain(done, chain, weight)]) ==
            if chain in r && kind in r[chain]
            then r[chain := r[chain][kind := Reweighted(r[chain][kind], weight)]]
            else r
  {
    UpdatedOnce(before, table[kind := done], kind, chain, weight);
    assert table[kind := done][kind := WithChain(done, chain, weight)] == table[kind := WithChain(done, chain, weight)];
  }

  method UpdateProvider(weights: Resolver<string>, kind: ProviderKind, chains: Chains, overall: Availability,
                        ghost before: Resolver<string>, ghost table: ChainWeights)
    returns (weights': Resolver<string>)
    requires weights == Updated(before, table) && kind !in table
    ensures weights' == Updated(before, table[kind := CalculatedChains(chains, overall)])
  {
    weights' := weights;
    ghost var done: map<string, nat> := map[];
    UpdatedByNoChain(before, table, kind);
    var rest := chains.Keys;
    while rest != {}
      invariant rest <= chains.Keys
      invariant done == CalculatedChains(chains, overall) - rest
      invariant weights' == Updated(before, table[kind := done])
      decreases rest
    {
      var chain :| chain in rest;
      // the two availabilities change places here, which makes no difference
      var weight := ChainWeight(chains[chain], overall);
      ChainWeightSymmetric(chains[chain], overall);
      CoveredOnce(before, table, kind, done, chain, weight);
      if chain in weights' && kind in weights'[chain] {
        weights' := weights'[chain := weights'[chain][kind := Reweighted(weights'[chain][kind], weight)]];
      }
      done := WithChain(done, chain, weight);
      rest := rest - {chain};
    }
    assert done == CalculatedChains(chains, overall);
  }

  ghost predicate IsClosed<K>(providers: map<ProviderKind, Provider>, r: Resolver<K>) {
    && (forall kind :: kind in providers ==> providers[kind].kind == kind)
    && (forall key, kind :: key in r && kind in r[key] ==> kind in providers)
  }

  lemma RegisteredIsClosed<K>(providers: map<ProviderKind, Provider>, r: Resolver<K>, provider: Provider,
                              supported: map<K, Weight>)
    requires IsClosed(providers, r)
    ensures IsClosed(providers[provider.kind := provider], Registered(r, provider.kind, supported))
  {
  }

  lemma UpdatedIsClosed(providers: map<ProviderKind, Provider>, r: Resolver<string>, table: ChainWeights)
    requires IsClosed(providers, r)
    ensures IsClosed(providers, Updated(r, table))
  {
  }
}
