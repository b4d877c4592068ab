/** What holds of the RPC weights after any run of registrations and weight-update passes. */
module ProviderRuns {
  import opened Common
  import opened ProviderKinds
  import opened Weights
  import opened Providers
  import opened WeightedIndex

  datatype RpcState = RpcState(providers: map<ProviderKind, Provider>, weights: Resolver<string>, chains: set<string>)

  datatype Op =
    | Register(provider: Provider, supported: map<string, Weight>)
    | UpdatePass(parsed: ParsedWeights)

  const START := RpcState(map[], map[], {})

  function Apply(s: RpcState, op: Op): RpcState {
    match op
    case Register(p, supported) =>
      RpcState(s.providers[p.kind := p], Registered(s.weights, p.kind, supported), s.chains + supported.Keys)
    case UpdatePass(parsed) => s.(weights := Updated(s.weights, Calculated(parsed)))
  }

  function After(ops: seq<Op>): RpcState {
    if ops == [] then START else Apply(After(ops[..|ops| - 1]), ops[|ops| - 1])
  }

  /** Configured weights come from `Weight::new`. */
  ghost predicate IsNew(w: Weight) {
    exists p :: NewWeight(p) == Ok(w)
  }

  ghost predicate Proper(ops: seq<Op>) {
    forall i, chain :: 0 <= i < |ops| && ops[i].Register? && chain in ops[i].supported ==> IsNew(ops[i].supported[chain])
  }

  ghost predicate WeightInv(kind: ProviderKind, w: Weight) {
    && w.priority <= MAX_PRIORITY
    && w.value <= 20000
    && (w.priority == 0 ==> w.value == 0)
    && (Excluded(kind) ==> w.value == w.priority)
  }

  ghost predicate StateInv(s: RpcState) {
    && IsClosed(s.providers, s.weights)
    && s.weights.Keys == s.chains
    && (forall chain :: chain in s.weights ==> s.weights[chain] != map[])
    && forall chain, kind :: chain in s.weights && kind in s.weights[chain] ==> WeightInv(kind, s.weights[chain][kind])
  }

  lemma ReweightedInv(kind: ProviderKind, w: Weight, value: nat)
    requires WeightInv(kind, w) && !Excluded(kind) && value <= 10000
    ensures WeightInv(kind, Reweighted(w, value))
  {
    ScaledBound(value, w.priority);
  }

  lemma ScaledBound(value: nat, priority: nat)
    requires value <= 10000 && priority <= 100
    ensures value * priority <= 1000000
    ensures priority == 0 ==> value * priority == 0
  {
    if value < 10000 || priority < 100 {
      assert value * priority <= 10000 * priority;
    }
  }

  lemma PassKeepsWeights(s: RpcState, parsed: ParsedWeights, chain: string, kind: ProviderKind)
    requires StateInv(s) && chain in s.weights && kind in s.weights[chain]
    ensures WeightInv(kind, UpdatedWeight(s.weights[chain][kind], Calculated(parsed), kind, chain))
  {
    var table := Calculated(parsed);
    if kind in table && chain in table[kind] {
      ReweightedInv(kind, s.weights[chain][kind], table[kind][chain]);
    }
  }

  lemma ApplyKeepsInv(s: RpcState, op: Op)
    requires StateInv(s)
    requires op.Register? ==> forall chain :: chain in op.supported ==> IsNew(op.supported[chain])
    ensures StateInv(Apply(s, op))
  {
    match op
    case Register(p, supported) =>
      RegisteredIsClosed(s.providers, s.weights, p, supported);
      forall chain | chain in supported ensures p.kind in Apply(s, op).weights[chain] {}
    case UpdatePass(parsed) =>
      UpdatedIsClosed(s.providers, s.weights, Calculated(parsed));
      forall chain | chain in s.weights ensures Apply(s, op).weights[chain] != map[] {
        assert Apply(s, op).weights[chain].Keys == s.weights[chain].Keys;
      }
      forall chain, kind | chain in s.weights && kind in s.weights[chain]
        ensures WeightInv(kind, Apply(s, op).weights[chain][kind])
      {
        PassKeepsWeights(s, parsed, chain, kind);
      }
  }

  /**
   * After any run: weights stay below 20001, disabled ones at 0, those of excluded providers at their
   * priority, and every supported chain has a provider the repository knows, as selection requires.
   */
  lemma {:induction false} ReachableInv(ops: seq<Op>)
    requires Proper(ops)
    ensures StateInv(After(ops))
  {
    if ops != [] {
      var n := |ops| - 1;
      assert Proper(ops[..n]) by {
        assert forall i :: 0 <= i < n ==> ops[..n][i] == ops[i];
      }
      ReachableInv(ops[..n]);
      ApplyKeepsInv(After(ops[..n]), ops[n]);
    }
  }

  /** A pass forgets all earlier ones whose pairs it covers: weights follow the latest metrics and the priority. */
  lemma PassHasNoMemory(r: Resolver<string>, earlier: ChainWeights, later: ChainWeights)
    requires forall kind, chain :: kind in earlier && chain in earlier[kind] ==> kind in later && chain in later[kind]
    ensures Updated(Updated(r, earlier), later) == Updated(r, later)
  {
    forall chain | chain in r
      ensures UpdatedEntry(UpdatedEntry(r[chain], earlier, chain), later, chain) == UpdatedEntry(r[chain], later, chain)
    {
    }
  }

  /** After any run, selection can give a list for every supported chain, and any list it gives has providers in it. */
  lemma SelectionSucceeds(ops: seq<Op>, chain: string, max: nat) returns (list: seq<Provider>)
    requires Proper(ops) && chain in After(ops).chains && max > 0
    ensures chain in After(ops).weights
    ensures IsFailoverList(After(ops).weights[chain], After(ops).providers, max, list)
    ensures forall l :: IsFailoverList(After(ops).weights[chain], After(ops).providers, max, l) ==> l != []
  {
    ReachableInv(ops);
    var entry, instances := After(ops).weights[chain], After(ops).providers;
    var kind := AnyElement(entry.Keys);
    list := ListWith(entry, instances, max, kind);
    FailoverListsExactly(entry, instances, max, list);
    assert |entry| > 0;
  }

  // ---------------------------------------------------------------- the repository takes these steps

  ghost function StateOf(repository: ProviderRepository): RpcState
    reads repository
  {
    RpcState(repository.rpcProviders, repository.rpcWeights, repository.rpcChains)
  }

  /** Registration and weight updates of the repository are the operations of the runs. */
  method Perform(repository: ProviderRepository, op: Op)
    requires repository.Closed()
    modifies repository
    ensures repository.Closed()
    ensures StateOf(repository) == Apply(old(StateOf(repository)), op)
  {
    match op {
      case Register(provider, supported) => repository.AddRpcProvider(provider, supported);
      case UpdatePass(parsed) => repository.UpdateValues(parsed);
    }
  }

  /** In the state of any run, selection gives a non-empty list for every supported chain. */
  method Select(repository: ProviderRepository, ghost ops: seq<Op>, chain: string, max: nat, random: Random)
    returns (r: Result<seq<Provider>, RpcError>)
    requires repository.Closed() && Proper(ops) && StateOf(repository) == After(ops)
    ensures chain in repository.rpcChains ==> r.Ok? && |r.value| == Min(max, |EntryOf(repository.rpcWeights, chain)|)
    ensures chain in repository.rpcChains && max > 0 ==> r.Ok? && r.value != []
    ensures chain !in repository.rpcChains ==> r == Err(UnsupportedChain)
  {
    ReachableInv(ops);
    r := repository.GetRpcProviderForChainId(chain, max, random);
  }
}
