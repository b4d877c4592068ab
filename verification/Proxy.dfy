/** The failover loop of an RPC call over the drawn list of providers. */
module Proxy {
  import opened Common
  import P = Providers
  import K = ProviderKinds
  import WeightedIndex

  // ---------------------------------------------------------------- what a provider may answer

  type Bytes = seq<int>

  /** A response body: reading it may fail half-way, or exceed the size limit. */
  datatype Body = Body(bytes: Bytes, readable: bool)

  const PROVIDER_RESPONSE_MAX_BYTES := 10 * 1024 * 1024

  const OK: nat := 200
  const BAD_REQUEST: nat := 400
  const SERVICE_UNAVAILABLE: nat := 503

  datatype Response = Response(status: nat, body: Body)

  /** One call of a provider: no answer within the timeout, a transport error, or a response. */
  datatype Outcome =
    | TimedOut
    | Failed
    | Answered(response: Response, rateLimited: bool)

  datatype ProxyError = ProxyTimeout | CallFailed | ChainTemporarilyUnavailable | UnsupportedChain | UnsupportedProvider

  datatype JsonError = JsonError(code: int, message: string)

  /** The body read as a JSON-RPC response: unreadable as one, without an error, or with one. */
  datatype Json = NotJson | NoError | HasError(error: JsonError)

  type Parser = Bytes -> Json

  // ---------------------------------------------------------------- classification of error messages

  const NODE_ERROR_PATTERNS: seq<string> :=
    ["cannot unmarshal", "Go value", "deserialization error", "node error", "try again later", "header not found"]

  const RATE_LIMITED_ERROR_PATTERNS: seq<string> :=
    ["quota exceed", "exceeded quota", "rate limit", "rate-limit", "paid", "upgrade plan", "subscription",
     "compute units for this month", "compute units exceeded", "your plan", "current plan", "you reached",
     "no matched providers found"]

  predicate Contains(s: string, pattern: string) {
    exists i :: 0 <= i <= |s| - |pattern| && OccursAt(s, pattern, i)
  }

  predicate OccursAt(s: string, pattern: string, i: nat)
    requires i + |pattern| <= |s|
  {
    s[i..i + |pattern|] == pattern
  }

  predicate ContainsAny(s: string, patterns: seq<string>) {
    exists i :: 0 <= i < |patterns| && Contains(s, patterns[i])
  }

  predicate IsInternalErrorCode(code: int) {
    -32099 <= code <= -32000
  }

  // ---------------------------------------------------------------- the specification

  ghost predicate Mentions(s: string, pattern: string) {
    exists before, after :: s == before + pattern + after
  }

  ghost predicate MentionsAny(s: string, patterns: seq<string>) {
    exists i :: 0 <= i < |patterns| && Mentions(s, patterns[i])
  }

  /** An error of the provider rather than of the request: another provider is tried. */
  ghost predicate IsProviderFault(json: Json) {
    && json.HasError?
    && -32099 <= json.error.code <= -32000
    && MentionsAny(json.error.message, RATE_LIMITED_ERROR_PATTERNS + NODE_ERROR_PATTERNS)
  }

  /** A response body that can be read and has at most 10 MiB. */
  ghost predicate IsReadable(b: Body) {
    b.readable && |b.bytes| <= 10_485_760
  }

  /** An answer the client may see: status 200 or 400, not rate limited, readable, and no fault of the provider. */
  ghost predicate Acceptable(o: Outcome, parse: Parser) {
    && PassedOn(o)
    && IsReadable(o.response.body)
    && !IsProviderFault(parse(o.response.body.bytes))
  }

  /** What a pinned provider must answer for its answer to be passed on: less than the loop asks for. */
  ghost predicate PassedOn(o: Outcome) {
    o.Answered? && !o.rateLimited && (o.response.status == 200 || o.response.status == 400)
  }

  // The search for a pattern against mentioning it.

  lemma ContainsExactly(s: string, pattern: string)
    ensures Contains(s, pattern) <==> Mentions(s, pattern)
  {
    if Contains(s, pattern) {
      var i :| 0 <= i <= |s| - |pattern| && OccursAt(s, pattern, i);
      assert s == s[..i] + pattern + s[i + |pattern|..];
    }
    if Mentions(s, pattern) {
      var before, after :| s == before + pattern + after;
      assert s[|before|..|before| + |pattern|] == pattern;
      assert OccursAt(s, pattern, |before|);
    }
  }

  lemma ContainsAnyExactly(s: string, patterns: seq<string>)
    ensures ContainsAny(s, patterns) <==> MentionsAny(s, patterns)
  {
    forall i | 0 <= i < |patterns| ensures Contains(s, patterns[i]) <==> Mentions(s, patterns[i]) {
      ContainsExactly(s, patterns[i]);
    }
  }

  lemma EitherList(s: string, p: seq<string>, q: seq<string>)
    ensures MentionsAny(s, p + q) <==> MentionsAny(s, p) || MentionsAny(s, q)
  {
    if MentionsAny(s, p) {
      var i :| 0 <= i < |p| && Mentions(s, p[i]);
      assert (p + q)[i] == p[i];
    }
    if MentionsAny(s, q) {
      var i :| 0 <= i < |q| && Mentions(s, q[i]);
      assert (p + q)[|p| + i] == q[i];
    }
  }

  // ---------------------------------------------------------------- the program

  predicate Readable(b: Body) {
    b.readable && |b.bytes| <= PROVIDER_RESPONSE_MAX_BYTES
  }

  /** What the loop tests is what the specification calls a fault. */
  lemma FaultExactly(json: Json)
    ensures IsProviderFault(json) <==>
            && json.HasError? && IsInternalErrorCode(json.error.code)
            && (ContainsAny(json.error.message, RATE_LIMITED_ERROR_PATTERNS)
                || ContainsAny(json.error.message, NODE_ERROR_PATTERNS))
  {
    if json.HasError? {
      var m := json.error.message;
      ContainsAnyExactly(m, RATE_LIMITED_ERROR_PATTERNS);
      ContainsAnyExactly(m, NODE_ERROR_PATTERNS);
      EitherList(m, RATE_LIMITED_ERROR_PATTERNS, NODE_ERROR_PATTERNS);
    }
  }

  /** `rpc_provider_call`: rate-limited answers and all statuses but 200 and 400 become 503. */
  method RpcProviderCall(o: Outcome) returns (r: Result<Response, ProxyError>)
    ensures r.Ok? <==> o.Answered?
    ensures r.Ok? ==> r.value.body == o.response.body
    ensures r.Ok? ==> r.value.status ==
                      if !o.rateLimited && (o.response.status == OK || o.response.status == BAD_REQUEST)
                      then o.response.status else SERVICE_UNAVAILABLE
  {
    if o.TimedOut? {
      return Err(ProxyTimeout);
    }
    if o.Failed? {
      return Err(CallFailed);
    }
    var response := o.response;
    if o.rateLimited {
      response := response.(status := SERVICE_UNAVAILABLE);
    }
    if response.status != OK && response.status != BAD_REQUEST {
      response := response.(status := SERVICE_UNAVAILABLE);
    }
    return Ok(response);
  }

  predicate IsSuccess(status: nat) {
    200 <= status < 300
  }

  /** What the loop leaves behind: the providers it called, and the retries it recorded. */
  class CallRecord {
    var called: seq<P.Provider>
    var retries: seq<nat>
    var noProviders: nat

    constructor ()
      ensures called == [] && retries == [] && noProviders == 0
    {
      called, retries, noProviders := [], [], 0;
    }
  }

  function UpTo(n: nat): (s: seq<nat>)
    ensures |s| == n && forall i :: 0 <= i < n ==> s[i] == i
  {
    seq(n, i => i)
  }

  /** `answers[i]` is what provider `i` of the list would answer, should it be called. */
  method RpcCall(providers: seq<P.Provider>, answers: seq<Outcome>, parse: Parser, record: CallRecord)
    returns (r: Result<Response, ProxyError>)
    requires |answers| == |providers|
    requires record.called == [] && record.retries == []
    modifies record
    ensures r == FirstAcceptable(answers, parse)
    ensures r.Ok? ==>
              exists k :: 0 <= k < |providers| && IsFirstAcceptable(answers, parse, k)
                          && r.value == answers[k].response
                          && record.called == providers[..k + 1]
                          && record.retries == UpTo(k)
                          && record.noProviders == old(record.noProviders)
    ensures r.Err? ==>
              && r.error == ChainTemporarilyUnavailable
              && (forall k :: 0 <= k < |answers| ==> !Acceptable(answers[k], parse))
              && record.called == providers
              && record.retries == UpTo(|providers|)
              && record.noProviders == old(record.noProviders) + 1
  {
    for i := 0 to |providers|
      invariant record.called == providers[..i] && record.retries == UpTo(i)
      invariant record.noProviders == old(record.noProviders)
      invariant forall k :: 0 <= k < i ==> !Acceptable(answers[k], parse)
    {
      record.called := record.called + [providers[i]];
      var call := RpcProviderCall(answers[i]);
      if call.Err? {
        record.retries := record.retries + [i];
        continue;
      }
      var status, body := call.value.status, call.value.body;
      if IsSuccess(status) || status == BAD_REQUEST {
        if !Readable(body) {
          record.retries := record.retries + [i];
          continue;
        }
        var json := parse(body.bytes);
        FaultExactly(json);
        if json.HasError? && IsInternalErrorCode(json.error.code) {
          if ContainsAny(json.error.message, RATE_LIMITED_ERROR_PATTERNS)
             || ContainsAny(json.error.message, NODE_ERROR_PATTERNS) {
            record.retries := record.retries + [i];
            continue;
          }
        }
        assert IsFirstAcceptable(answers, parse, i);
        FirstAcceptableIsFirst(answers, parse);
        assert providers[..i + 1] == providers[..i] + [providers[i]];
        return Ok(Response(status, body));
      }
      record.retries := record.retries + [i];
    }
    record.noProviders := record.noProviders + 1;
    FirstAcceptableIsFirst(answers, parse);
    return Err(ChainTemporarilyUnavailable);
  }

  ghost predicate IsFirstAcceptable(answers: seq<Outcome>, parse: Parser, k: nat) {
    && k < |answers|
    && Acceptable(answers[k], parse)
    && forall j :: 0 <= j < k ==> !Acceptable(answers[j], parse)
  }

  /** The specification as a function: the first acceptable answer, in list order. */
  ghost function FirstAcceptable(answers: seq<Outcome>, parse: Parser): (r: Result<Response, ProxyError>)
    ensures r.Err? ==> r.error == ChainTemporarilyUnavailable
  {
    if answers == [] then Err(ChainTemporarilyUnavailable)
    else if Acceptable(answers[0], parse) then Ok(answers[0].response)
    else FirstAcceptable(answers[1..], parse)
  }

  lemma {:induction false} FirstAcceptableIsFirst(answers: seq<Outcome>, parse: Parser)
    ensures FirstAcceptable(answers, parse).Err? <==> forall k :: 0 <= k < |answers| ==> !Acceptable(answers[k], parse)
    ensures forall k :: 0 <= k < |answers| && IsFirstAcceptable(answers, parse, k) ==>
                          FirstAcceptable(answers, parse) == Ok(answers[k].response)
  {
    if answers != [] {
      FirstAcceptableIsFirst(answers[1..], parse);
      forall k | 0 <= k < |answers| && IsFirstAcceptable(answers, parse, k)
        ensures FirstAcceptable(answers, parse) == Ok(answers[k].response)
      {
        if k > 0 {
          assert IsFirstAcceptable(answers[1..], parse, k - 1);
        }
      }
      if forall k :: 0 <= k < |answers[1..]| ==> !Acceptable(answers[1..][k], parse) {
        assert forall k :: 1 <= k < |answers| ==> answers[k] == answers[1..][k - 1];
      }
      assert forall k :: 0 <= k < |answers[1..]| ==> answers[1..][k] == answers[k + 1];
    }
  }

  const PROVIDER_PROXY_MAX_CALLS: nat := 5

  /** The provider a call with a session id goes to first. */
  function PinnedKind(chain: string, hasSession: bool): Option<K.ProviderKind> {
    if !hasSession then None
    else if chain == "eip155:10" then Some(K.Quicknode)
    else if chain == "eip155:8453" then Some(K.Publicnode)
    else if chain == "eip155:42161" then Some(K.Publicnode)
    else None
  }

  /** What a pinned provider may answer beyond that: bodies that cannot be read, and faults of its own. */
  lemma PassedOnUnchecked(o: Outcome, parse: Parser)
    ensures PassedOn(o) && !Acceptable(o, parse) <==>
            PassedOn(o) && (!IsReadable(o.response.body) || IsProviderFault(parse(o.response.body.bytes)))
  {
  }

  /** Such an answer: status 200 with an error that says the provider's rate limit is reached. */
  lemma FaultPassedOn() returns (o: Outcome, parse: Parser)
    ensures PassedOn(o) && !Acceptable(o, parse)
    ensures o.Answered? && o.response.status == 200 && IsReadable(o.response.body)
    ensures parse(o.response.body.bytes) == HasError(JsonError(-32005, "daily " + RATE_LIMITED_ERROR_PATTERNS[2] + " reached"))
  {
    var fault := HasError(JsonError(-32005, "daily " + RATE_LIMITED_ERROR_PATTERNS[2] + " reached"));
    o := Answered(Response(OK, Body([], true)), false);
    parse := _ => fault;
    MessageIsFault(-32005, "daily ", RATE_LIMITED_ERROR_PATTERNS[2], " reached");
  }

  /** Wherever a listed pattern stands in the message, the error is a fault of the provider. */
  lemma MessageIsFault(code: int, before: string, pattern: string, after: string)
    requires -32099 <= code <= -32000
    requires pattern in RATE_LIMITED_ERROR_PATTERNS || pattern in NODE_ERROR_PATTERNS
    ensures IsProviderFault(HasError(JsonError(code, before + pattern + after)))
  {
    var patterns := RATE_LIMITED_ERROR_PATTERNS + NODE_ERROR_PATTERNS;
    assert pattern in patterns;
    var i :| 0 <= i < |patterns| && patterns[i] == pattern;
    assert Mentions(before + pattern + after, patterns[i]);
  }

  /** No answer with such an error is ever returned, wherever in the message the pattern stands. */
  lemma FaultNeverReturned(answers: seq<Outcome>, parse: Parser, code: int, before: string, pattern: string,
                           after: string)
    requires FirstAcceptable(answers, parse).Ok?
    requires -32099 <= code <= -32000
    requires pattern in RATE_LIMITED_ERROR_PATTERNS || pattern in NODE_ERROR_PATTERNS
    ensures parse(FirstAcceptable(answers, parse).value.body.bytes)
         != HasError(JsonError(code, before + pattern + after))
  {
    FirstAcceptableIsFirst(answers, parse);
    var k := FirstIndex(answers, parse);
    MessageIsFault(code, before, pattern, after);
  }

  lemma {:induction false} FirstIndex(answers: seq<Outcome>, parse: Parser) returns (k: nat)
    requires FirstAcceptable(answers, parse).Ok?
    ensures IsFirstAcceptable(answers, parse, k) && FirstAcceptable(answers, parse) == Ok(answers[k].response)
  {
    if Acceptable(answers[0], parse) {
      k := 0;
    } else {
      var n := FirstIndex(answers[1..], parse);
      k := n + 1;
    }
  }

  /** The error has an internal code, and a listed pattern stands somewhere in its message. */
  ghost predicate IsOwnFault(json: Json) {
    json.HasError? && -32099 <= json.error.code <= -32000 &&
    exists before, pattern, after ::
      (pattern in RATE_LIMITED_ERROR_PATTERNS || pattern in NODE_ERROR_PATTERNS) &&
      json.error.message == before + pattern + after
  }

  lemma FaultHasPattern(json: Json)
    requires IsProviderFault(json)
    ensures IsOwnFault(json)
  {
    var patterns := RATE_LIMITED_ERROR_PATTERNS + NODE_ERROR_PATTERNS;
    var i :| 0 <= i < |patterns| && Mentions(json.error.message, patterns[i]);
    assert patterns[i] in RATE_LIMITED_ERROR_PATTERNS || patterns[i] in NODE_ERROR_PATTERNS;
  }

  /** A readable answer with status 200 or 400 is returned if it is no such fault and all before it are rejected. */
  lemma UsableIsReturned(answers: seq<Outcome>, parse: Parser, k: nat)
    requires k < |answers| && answers[k].Answered? && !answers[k].rateLimited
    requires answers[k].response.status == 200 || answers[k].response.status == 400
    requires answers[k].response.body.readable && |answers[k].response.body.bytes| <= 10 * 1024 * 1024
    requires !IsOwnFault(parse(answers[k].response.body.bytes))
    requires forall j :: 0 <= j < k ==> !Acceptable(answers[j], parse)
    ensures FirstAcceptable(answers, parse) == Ok(answers[k].response)
  {
    var json := parse(answers[k].response.body.bytes);
    if IsProviderFault(json) {
      FaultHasPattern(json);
    }
    FirstAcceptableIsFirst(answers, parse);
    assert IsFirstAcceptable(answers, parse, k);
  }

  /** The list drawn after a pinned provider failed may name it again exactly if it is registered for the chain. */
  lemma PinnedCanBeListed(entry: map<K.ProviderKind, P.Weight>, instances: map<K.ProviderKind, P.Provider>,
                          pinned: K.ProviderKind)
    requires forall k :: k in entry ==> k in instances && instances[k].kind == k
    requires pinned in instances && instances[pinned].kind == pinned
    ensures (exists list :: P.IsFailoverList(entry, instances, PROVIDER_PROXY_MAX_CALLS, list) &&
                            instances[pinned] in list)
            <==> pinned in entry
  {
    forall list | P.IsFailoverList(entry, instances, PROVIDER_PROXY_MAX_CALLS, list) && instances[pinned] in list
      ensures pinned in entry
    {
      P.FailoverListsExactly(entry, instances, PROVIDER_PROXY_MAX_CALLS, list);
    }
    if pinned in entry {
      var list := P.ListWith(entry, instances, PROVIDER_PROXY_MAX_CALLS, pinned);
      P.FailoverListsExactly(entry, instances, PROVIDER_PROXY_MAX_CALLS, list);
    }
  }

  /** Only three chains pin a provider, and only for calls with a session. */
  lemma PinnedExactly(chain: string, hasSession: bool, k: K.ProviderKind)
    ensures PinnedKind(chain, hasSession) == Some(k) <==>
            hasSession && (chain, k) in {("eip155:10", K.Quicknode), ("eip155:8453", K.Publicnode), ("eip155:42161", K.Publicnode)}
  {
  }

  /** What drawing a list for a chain and trying it gives; `entry` are the providers registered for the chain. */
  ghost predicate IsAnswerOf(entry: map<K.ProviderKind, P.Weight>, instances: map<K.ProviderKind, P.Provider>,
                             answerOf: P.Provider -> Outcome, parse: Parser, called: seq<P.Provider>,
                             r: Result<Response, ProxyError>)
  {
    && (forall p :: p in called ==> p.kind in entry && p.kind in instances && instances[p.kind] == p)
    && if entry == map[] then r == Err(UnsupportedChain) && called == []
       else match r {
         case Ok(response) =>
           && called != []
           && var last := |called| - 1;
           && Acceptable(answerOf(called[last]), parse) && response == answerOf(called[last]).response
           && forall i :: 0 <= i < last ==> !Acceptable(answerOf(called[i]), parse)
         case Err(e) =>
           && e == ChainTemporarilyUnavailable
           && |called| == Min(5, |entry|)
           && forall p :: p in called ==> !Acceptable(answerOf(p), parse)
       }
  }

  /** The whole call: a pinned provider if there is one, then a drawn list in order. */
  method ProxyChain(repository: P.ProviderRepository, chain: string, hasSession: bool, pinnedAnswer: Outcome,
                    answerOf: P.Provider -> Outcome, parse: Parser, random: WeightedIndex.Random)
    returns (r: Result<Response, ProxyError>, record: CallRecord)
    requires repository.Closed()
    ensures fresh(record)
    ensures r.Ok? ==> r.value.status == OK || r.value.status == BAD_REQUEST
    ensures |record.called| <= 5 && Distinct(record.called)
    ensures forall p :: p in record.called ==>
                          && chain in repository.rpcWeights && p.kind in repository.rpcWeights[chain]
                          && p.kind in repository.rpcProviders && repository.rpcProviders[p.kind] == p
    ensures var pinned := PinnedKind(chain, hasSession);
            if pinned.Some? && pinned.value !in repository.rpcProviders then r == Err(UnsupportedProvider) && record.called == []
            else if pinned.Some? && PassedOn(pinnedAnswer) then r == Ok(pinnedAnswer.response) && record.called == []
            else // no session, another chain, or no answer that is passed on
              IsAnswerOf(P.EntryOf(repository.rpcWeights, chain), repository.rpcProviders, answerOf, parse,
                            record.called, r)
  {
    record := new CallRecord();
    var pinned := PinnedKind(chain, hasSession);
    if pinned.Some? {
      if pinned.value !in repository.rpcProviders {
        return Err(UnsupportedProvider), record;
      }
      var call := RpcProviderCall(pinnedAnswer);
      if call.Ok? && call.value.status < 500 {
        return call, record;
      }
    }
    r := DrawAndTry(repository, chain, answerOf, parse, record, random);
  }

  method DrawAndTry(repository: P.ProviderRepository, chain: string, answerOf: P.Provider -> Outcome, parse: Parser,
                    record: CallRecord, random: WeightedIndex.Random)
    returns (r: Result<Response, ProxyError>)
    requires repository.Closed() && record.called == [] && record.retries == []
    modifies record
    ensures |record.called| <= PROVIDER_PROXY_MAX_CALLS && Distinct(record.called)
    ensures IsAnswerOf(P.EntryOf(repository.rpcWeights, chain), repository.rpcProviders, answerOf, parse,
                       record.called, r)
  {
    var list := repository.GetRpcProviderForChainId(chain, PROVIDER_PROXY_MAX_CALLS, random);
    if list.Err? {
      return Err(UnsupportedChain);
    }
    r := TryList(list.value, answerOf, parse, record);
    TriedIsAnswer(P.EntryOf(repository.rpcWeights, chain), repository.rpcProviders, list.value, answerOf, parse,
                  record.called, r);
  }

  lemma TriedIsAnswer(entry: map<K.ProviderKind, P.Weight>, instances: map<K.ProviderKind, P.Provider>,
                      list: seq<P.Provider>, answerOf: P.Provider -> Outcome, parse: Parser,
                      called: seq<P.Provider>, r: Result<Response, ProxyError>)
    requires IsTried(list, answerOf, parse, called, r) && entry != map[]
    requires |list| == Min(PROVIDER_PROXY_MAX_CALLS, |entry|) && Distinct(list)
    requires forall p :: p in list ==> p.kind in entry && p.kind in instances && instances[p.kind] == p
    ensures IsAnswerOf(entry, instances, answerOf, parse, called, r)
    ensures |called| <= PROVIDER_PROXY_MAX_CALLS && Distinct(called)
  {
    assert forall i :: 0 <= i < |called| ==> called[i] == list[i] && called[i] in list;
  }

  /** Where the cap does not bite, unavailable means that every provider of the chain was tried in vain. */
  lemma UnavailableMeansAllTried(entry: map<K.ProviderKind, P.Weight>, instances: map<K.ProviderKind, P.Provider>,
                                 answerOf: P.Provider -> Outcome, parse: Parser, called: seq<P.Provider>)
    requires IsAnswerOf(entry, instances, answerOf, parse, called, Err(ChainTemporarilyUnavailable))
    requires Distinct(called) && |entry| <= PROVIDER_PROXY_MAX_CALLS
    ensures forall k :: k in entry ==>
                          && k in instances && instances[k] in called
                          && !Acceptable(answerOf(instances[k]), parse)
  {
    P.AllAppear(called, entry.Keys, instances);
  }

  /** The list was tried in order up to the first acceptable answer, or in vain. */
  ghost predicate IsTried(list: seq<P.Provider>, answerOf: P.Provider -> Outcome, parse: Parser,
                          called: seq<P.Provider>, r: Result<Response, ProxyError>)
  {
    && |called| <= |list| && called == list[..|called|]
    && match r {
         case Ok(response) =>
           && called != []
           && var last := |called| - 1;
           && Acceptable(answerOf(called[last]), parse) && response == answerOf(called[last]).response
           && forall i :: 0 <= i < last ==> !Acceptable(answerOf(called[i]), parse)
         case Err(e) =>
           && e == ChainTemporarilyUnavailable
           && called == list
           && forall p :: p in list ==> !Acceptable(answerOf(p), parse)
       }
  }

  method TryList(list: seq<P.Provider>, answerOf: P.Provider -> Outcome, parse: Parser, record: CallRecord)
    returns (r: Result<Response, ProxyError>)
    requires record.called == [] && record.retries == []
    modifies record
    ensures IsTried(list, answerOf, parse, record.called, r)
  {
    var answers := seq(|list|, i requires 0 <= i < |list| => answerOf(list[i]));
    r := RpcCall(list, answers, parse, record);
    if r.Ok? {
      ghost var k :| 0 <= k < |list| && IsFirstAcceptable(answers, parse, k)
                     && r.value == answers[k].response && record.called == list[..k + 1];
      assert forall i :: 0 <= i < k ==> !Acceptable(answers[i], parse) && answers[i] == answerOf(record.called[i]);
    } else {
      forall p | p in list ensures !Acceptable(answerOf(p), parse) {
        var i :| 0 <= i < |list| && list[i] == p;
        assert answers[i] == answerOf(p);
      }
    }
  }
}
