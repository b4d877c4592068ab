# Verified models of the RPC proxy

Dafny models of the parts of the RPC proxy whose correctness is not visible from a single function, with proofs
of what they promise. `dafny verify dfyconfig.toml` checks everything. Random draws, clocks, answers of providers
and of the registry, hashes and lookups are parameters of the model, so every result holds for all of them.

- **Reconciliation ledger** (`Ledger`, `LedgerRuns`). Each SQL statement is one atomic step on a table of rows.
  `LedgerRuns` proves safety and progress over every interleaving of the steps of any number of workers.
- **Provider repository** (`ProviderKinds`, `Weights`, `WeightedIndex`, `Providers`, `ProviderRuns`). Samples are
  folded into counts, counts turned into weights, weights fed back into the resolvers, and failover lists drawn
  from them by prefix sums. Every reachable state keeps the invariant that selection relies on.
- **Failover proxying** (`Proxy`). The retry loop refines "the first acceptable answer in list order".
- **Project registry** (`Registry`, `RegistryRuns`). The circuit breaker and the cache as a timed state machine
  with any number of requests in flight.
- **Codecs** (`BitStrings`, `Crc16`, `Base64Url`, `Ton`, `Evm`, `Caip`, `Decimal`, `Amounts`, `Eip191`, `UserOp`).
  CRC-16/XMODEM as a remainder over GF(2), TON addresses, CAIP-2, CAIP-10 and CAIP-19 ids, EIP-191 framing,
  decimal amounts, and the packing of ERC-4337 user operations. Words and bytes are modelled as their bits where
  the bits matter.
- **Force-update of balances** (`Balance`). The loop that overwrites or appends items of a balance response.

## Where the code does less than one might expect

Each is proved, most with the exact condition under which the code does meet the expectation.

- The 15-minute lease does not by itself keep a row to one worker. A worker that outlives its lease may give the
  row back while another one holds it, and a third one then claims it inside the second lease
  (`LateReleaseBreaksLease`). That needs a release by touch or update more than 5 minutes before the third claim
  (`LeaseCutShort`); without one the lease holds (`LeaseHolds`). Within its lease a row is due again if and only if
  it is pending, was given back since, and the last time was more than 5 minutes ago (`DueWithinLease`). The
  5-minute distance between claims is never broken (`ClaimsFarApart`).
- `touch_non_terminal` and `update_status` have no guard on the status: they also act on terminal rows, and
  `update_status` may even reopen one (`TerminalChangesOnlyByUpdate`).
- A registry failure in millisecond 0 is indistinguishable from no failure (`FailureAtZeroUnseen`).
- `ProviderKind::Lifi` prints as a name that `from_str` does not know, so its metrics are counted under a generic
  provider (`KindRoundTrip`).
- Disabled RPC providers are drawn like others, because weights are clamped to at least 1: one can be among those
  tried if and only if one is registered on the chain and any are tried (`DisabledCanBeListed`). Balance providers
  of weight 0 are never listed (`GetBalanceProviderForNamespace`).
- An answer of a pinned provider is passed on without the check for faults of the provider. What is passed on beyond
  what the loop accepts are exactly bodies that cannot be read and such faults (`PassedOnUnchecked`, with one in
  `FaultPassedOn`). If it is not passed on, the drawn list may name the same provider again, exactly if it is
  registered for the chain (`PinnedCanBeListed`).
- The claim queue is not free of starvation: rows that were never checked go first, so a row that was checked once can
  be second in line at any number of passes without ever being served (`StarvedFor`). While none cuts in, the wait is
  bounded (`ServedWithinBound`).
- The workchain of a raw TON address survives the conversion exactly within -128..127 (`FriendlyDecodes`). The
  address check reads it as hexadecimal and the conversion as decimal. A valid raw address is converted if and only
  if its workchain has no letters (`CheckAndConversionDisagree`), and a converted one is valid if and only if its
  workchain has no minus sign and is below 100 and there is no second separator (`ConvertedPasses`): `-1:..` is
  converted but never valid, `a:..` valid but never converted (`DisagreeingInputs`). Raw TON addresses contain the
  CAIP-10 separator and never survive printing and parsing (`FormatDisassemble`).
- The pattern for EVM addresses is not anchored, and the reader behind `H160` skips white space (it belongs to
  `rustc-hex`, Cargo.lock:8360, which is not part of this repository). So `0x` and 40 digits followed by a line end
  are a valid address, and nothing but white space may follow (`TrailingLineEndPasses`, `EvmAddressShape`).
- The force-update loop tells contracts apart by the spelling of their entries: two spellings of one contract get an
  item each (`OneItemPerSpelling`, `TwoSpellings`). Entries for the native token of a chain share one item however
  they are spelled (`NativesShareOneItem`).
- Packing a user operation loses the fields of an incomplete factory or paymaster group (`PackedIsLossless`).

## Model

| member | source | states |
|---|---|---|
| Ledger.FirstExists | src/database/exchange_reconciliation.rs:139-141 | the claim order (never checked first, then oldest check, then oldest row) always has a first row, so `LIMIT` is well defined up to ties |
| Ledger.SelectBatch | src/database/exchange_reconciliation.rs:136-147 | takes as many candidates as the limit allows, and none of those left out comes strictly before one taken |
| Ledger.ReconciliationLedger.InsertNew | src/database/exchange_reconciliation.rs:49-72 | refuses a session that is already there; otherwise adds one row under an unused id, pending, created now, with no check, lock, completion, hash or reason, and changes nothing else |
| Ledger.ReconciliationLedger.UpdateStatus | src/database/exchange_reconciliation.rs:81-107 | at most one row differs afterwards, that of the session; it has the status, hash and reason given, is checked now and unlocked, and has a completion time exactly if the status is terminal; an unknown session changes nothing and is an error |
| Ledger.ReconciliationLedger.TouchNonTerminal | src/database/exchange_reconciliation.rs:109-125 | at most one row differs afterwards, that of the session; only its lock, check time and update time do, whatever its status |
| Ledger.ReconciliationLedger.ClaimDueBatch | src/database/exchange_reconciliation.rs:127-158 | locks and returns exactly the first `max_claim` due rows not held by others, and only their locks and update times differ afterwards; a negative limit is an error and changes nothing |
| Ledger.ReconciliationLedger.ExpireOldPending | src/database/exchange_reconciliation.rs:160-180 | exactly the expirable rows differ afterwards; they have failed and are complete now, keep an earlier failure reason or get "expired", and are as many as it reports |
| LedgerRuns.ReachableInv | migrations/20250911093958_init-exchange_reconciliation_ledger.sql:5-26 | in every reachable state sessions are unique, `completed_at` is set exactly on terminal rows, times are ordered, and no row was locked before the minimum age |
| LedgerRuns.TerminalChangesOnlyByUpdate | src/database/exchange_reconciliation.rs:81-180 | a terminal row changes status in a step if and only if the step is an update of its session to another status |
| LedgerRuns.RowHistory | src/database/exchange_reconciliation.rs:49-180 | every row is what its insertion, the last time it was given back and its last claim since then make it |
| LedgerRuns.DueExactly | src/database/exchange_reconciliation.rs:139-145 | in terms of those events: a row is due if and only if it is pending, was inserted more than 3 hours ago, not claimed within 15 minutes since it was last given back, and not given back within 5 minutes |
| LedgerRuns.ExpiredExactly | src/database/exchange_reconciliation.rs:160-180 | an expiry fails a row if and only if it is pending, was inserted more than the given hours ago, and not claimed within 20 minutes since it was last given back |
| LedgerRuns.ClaimOrder | src/database/exchange_reconciliation.rs:138 | a claim that skips nothing leaves a due row for another one only if that was never given back and this one was, or neither was and that is not younger, or that was given back earlier, ties decided by age |
| LedgerRuns.ClaimTrace | src/database/exchange_reconciliation.rs:117-151 | after a claim, at every later point of every run, the lock or the last check of the row is at least as recent as the claim |
| LedgerRuns.ClaimsFarApart | src/database/exchange_reconciliation.rs:127-158 | in every interleaving, late releases included, two claims of one row are more than 5 minutes apart |
| LedgerRuns.CloseBatchesDisjoint | src/database/exchange_reconciliation.rs:127-158 | batches claimed within 5 minutes of each other share no row |
| LedgerRuns.LeaseHolds | src/database/exchange_reconciliation.rs:7-9 | until the row is touched or updated, nobody claims it for 15 minutes after a claim and no expiry fails it for 20 |
| LedgerRuns.LeaseCutShort | src/database/exchange_reconciliation.rs:109-158 | two claims within a lease have a release of the row between them, and every such release is more than 5 minutes before the second claim |
| LedgerRuns.DueWithinLease | src/database/exchange_reconciliation.rs:81-158 | over runs: while the lease of its last claim lasts, a row is due if and only if it is pending, was given back since, and the last time it was given back is more than 5 minutes ago |
| LedgerRuns.LateReleaseBreaksLease | src/database/exchange_reconciliation.rs:109-158 | a run in which a worker that outlived its lease releases the row of another worker, and a third one claims it inside the second lease |
| LedgerRuns.PassServesFront | src/database/exchange_reconciliation.rs:136-147 | a claim that skips nothing takes a given due row or spends its whole batch on rows ahead of it |
| LedgerRuns.PassShortensLine | src/database/exchange_reconciliation.rs:127-158 | a pass that does not take a due row leaves at least `max_claim` fewer rows ahead of it |
| LedgerRuns.DueKept | src/database/exchange_reconciliation.rs:136-147 | a due row stays as it is, and due, until it is claimed, given back or expired |
| LedgerRuns.ServedWithinBound | src/database/exchange_reconciliation.rs:127-158 | a row due at the first of `n` passes with fewer than `n * max_claim` rows ahead, where none cut in while it waits, is claimed, given back or expired by the last pass |
| LedgerRuns.ClaimedWithinBound | src/database/exchange_reconciliation.rs:127-158 | it is claimed by then, unless it is given back or expired before any claim |
| LedgerRuns.StarvedFor | src/database/exchange_reconciliation.rs:127-158 | for every `n` there is a run with `n` passes at each of which a due row has exactly one row ahead, and in which it is never claimed, given back or expired after its first check |
| LedgerRuns.Execute | src/database/exchange_reconciliation.rs:49-180 | every statement the ledger carries out is a step of the runs, and one that fails changes nothing; which ones fail |
| ProviderKinds.KindRoundTrip | src/providers/mod.rs:859-949 | a reported name leads back to its provider if and only if that is not `Lifi` nor a generic provider with a recognized name; the name of `Lifi` leads to a generic one |
| Weights.ParseWeights | src/providers/weights.rs:18-69 | the loop over samples computes the fold that the next four lemmas are about |
| Weights.SampleCounts | src/providers/weights.rs:22-67 | one more sample adds its amount to the successes of its provider and chain if its status starts with 2 or is 404 or 400, else to the failures, and nothing if a label is missing |
| Weights.FoldCountsSamples | src/providers/weights.rs:18-69 | a pair of provider and chain has an entry exactly if a well-formed sample names it, holding the total of those samples |
| Weights.FoldConserves | src/providers/weights.rs:18-69 | a provider's overall counts are the sum over its chains, and the sum over all providers is that of all well-formed samples |
| Weights.FoldOrderIrrelevant | src/providers/weights.rs:18-69 | samples in any order give the same counts |
| Weights.ChainWeightFull | src/providers/weights.rs:74-123 | the weight is 10000 if and only if neither the provider nor the chain has a failure |
| Weights.ChainWeightMonotone | src/providers/weights.rs:74-123 | more successes never lower the weight and more failures never raise it, the overflow guards included |
| Weights.ChainWeightSymmetric | src/providers/weights.rs:141 | passing the two arguments in the other order, as the caller does, gives the same weight |
| Weights.ChainWeightExactly | src/providers/weights.rs:74-123 | in integers, the weight is the product of the two rates (successes over successes plus squared failures, 1 without calls) in hundredths of a percent rounded down, and 0 where a square needs more than 64 bits |
| WeightedIndex.WeightedIndex.Sample | src/providers/mod.rs:511-513 | the random number, reduced to the total, falls into the share of the index returned, which has a positive weight |
| WeightedIndex.WeightedIndex.UpdateWeight | src/providers/mod.rs:521-528 | changes one weight and keeps the prefix sums, or refuses exactly when no weight would be left |
| WeightedIndex.DrawDistinct | src/providers/mod.rs:506-545 | as many indexes as asked for, each hit by its random number among the weights left after the earlier ones were zeroed, without running out of weight before the last one |
| WeightedIndex.OutcomesExactly | src/providers/mod.rs:506-545 | a sequence of indexes is the outcome of some draws if and only if they are distinct and have positive weights |
| WeightedIndex.PicksDetermined | src/providers/mod.rs:506-545 | the weights and the random numbers determine what is picked |
| Providers.UpdatedOnce | src/providers/weights.rs:126-159 | covering one more pair changes exactly that weight, which is why the order within a pass does not matter |
| Providers.ProviderRepository.AddRpcProvider | src/providers/mod.rs:711-734 | the provider and its chain weights are added, everything else stays, and resolvers name known providers only |
| Providers.ProviderRepository.AddBalanceProvider | src/providers/mod.rs:736-763 | the same for balance providers and namespaces |
| Providers.ProviderRepository.UpdateValues | src/providers/weights.rs:126-159 | in whichever order the maps are visited: a registered pair that metrics cover, unless of an excluded provider, stores `v` with `50 v <= weight * priority < 50 v + 50`; every other pair, and all priorities, stay |
| Providers.ScaledByPriority | src/providers/mod.rs:982-1058 | priorities above 100 are refused; a maximal one stores twice the weight of the chain, a high one three halves, a normal one the weight itself, a low one half, a minimal one a fiftieth, a disabled one nothing |
| Providers.HigherPriorityNeverLess | src/providers/mod.rs:1053-1058 | with equal metrics a higher priority never gets less |
| Providers.ProviderRepository.GetRpcProviderForChainId | src/providers/mod.rs:487-547 | for all random numbers, the `min(max, n)` distinct registered providers of the chain that these draw with each weighing its weight or at least 1, all of them if `max` allows, and no internal error; an unknown or empty chain is unsupported |
| Providers.DrawnListDetermined | src/providers/mod.rs:500-545 | the order of the providers, their weights and the random numbers determine the list |
| Providers.FailoverListsExactly | src/providers/mod.rs:500-545 | the lists RPC selection may return, over all draws, are exactly those of `min(max, n)` distinct registered providers |
| Providers.DisabledCanBeListed | src/providers/mod.rs:500-504 | a provider of weight 0 is on some list if and only if one is registered on the chain and the cap is above 0 |
| Providers.ProviderRepository.GetBalanceProviderForNamespace | src/providers/mod.rs:550-657 | for all random numbers, `min(max, H + M)` distinct providers, first those that these draw from the H above minimal weight by their weights, then minimal ones, and none of weight 0 |
| Providers.SelectedFacts | src/providers/mod.rs:570-590 | separating the kinds by weight loses and duplicates none |
| Providers.AllAppear | src/providers/mod.rs:520-547 | as many distinct providers as there are kinds are all of them |
| ProviderRuns.ReachableInv | src/providers/mod.rs:982-1062 | after any run of registrations and passes, weights are at most 20000, disabled ones 0, excluded ones unchanged, and every supported chain has a known provider |
| ProviderRuns.SelectionSucceeds | src/providers/mod.rs:487-547 | after any run, a failover list exists for every supported chain, and none is empty if the cap is above 0 |
| ProviderRuns.Select | src/providers/mod.rs:487-547 | in the state of any run, selection gives `min(max, n)` providers for every supported chain, at least one if the cap is above 0, and refuses exactly the others |
| ProviderRuns.Perform | src/providers/mod.rs:711-734 | registrations and weight updates of the repository are the operations of the runs |
| ProviderRuns.PassHasNoMemory | src/providers/mod.rs:1053-1058 | a pass overrides an earlier one whose pairs it covers, as if that had not happened |
| Proxy.RpcProviderCall | src/handlers/proxy.rs:396-456 | the body is untouched; only 200 and 400 that are not rate limited keep their status, everything else becomes 503 |
| Proxy.FirstAcceptableIsFirst | src/handlers/proxy.rs:195-308 | the specification of the loop: the answer before which none was acceptable, and an error if and only if none is |
| Proxy.RpcCall | src/handlers/proxy.rs:195-308 | returns the first acceptable answer unchanged, calls each listed provider up to that one once and none after it, records every rejection, and is unavailable exactly if all are rejected |
| Proxy.ContainsExactly | src/providers/mod.rs:76-79 | the search finds a pattern if and only if the message is some text, the pattern and some text |
| Proxy.FaultNeverReturned | src/handlers/proxy.rs:241-275 | an error with an internal code and a listed pattern anywhere in its message is never what the loop returns |
| Proxy.UsableIsReturned | src/handlers/proxy.rs:195-308 | a readable answer with status 200 or 400 that holds no such error is returned if all before it are rejected |
| Proxy.ProxyChain | src/handlers/proxy.rs:115-308 | the whole call: pinned provider, then at most 5 distinct providers registered for the chain, the first acceptable answer with status 200 or 400 only, and which error when |
| Proxy.PinnedExactly | src/handlers/proxy.rs:115-124 | a provider is pinned exactly for calls with a session on Optimism, Base and Arbitrum One, and which |
| Proxy.UnavailableMeansAllTried | src/handlers/proxy.rs:195-308 | for a chain with at most 5 providers, unavailable means that every one of them was called and none gave an acceptable answer |
| Proxy.PassedOnUnchecked | src/handlers/proxy.rs:115-193 | an answer of a pinned provider is passed on though the loop would reject it if and only if its body cannot be read or holds a fault of the provider |
| Proxy.FaultPassedOn | src/handlers/proxy.rs:115-193 | such an answer: status 200 with error -32005 "daily rate limit reached" |
| Proxy.PinnedCanBeListed | src/handlers/proxy.rs:115-193 | a list drawn after a pinned provider can name it again if and only if it is registered for the chain |
| Registry.CacheKeyInjective | src/project/storage/mod.rs:90-93 | different requests never share a cache key |
| Registry.CacheKeyParts | src/project/storage/mod.rs:90-93 | a key is the prefix, the id, and a digit that is 1 for limits plus 2 for features |
| Registry.ProjectRegistry.ProjectDataInternal | src/project/mod.rs:151-196 | an unexpired entry is served without a fetch, one that cannot be decoded counts as a miss and a failing cache ends the request; a miss fetches if and only if there is no cooldown, no known failure, or the cooldown has passed since it; which result each answer of the registry gives, and that all but a transient failure are to be cached |
| Registry.ProjectRegistry.FinishWrite | src/project/storage/mod.rs:65-88 | only the entry of the write differs afterwards, served until the time to live is over; a write that fails changes no entry |
| RegistryRuns.Serve | src/project/mod.rs:151-196 | a request that reaches the registry takes exactly the two steps of a fetch in the state machine of the runs, and only on a cache miss with the circuit closed; any other request leaves the state alone |
| RegistryRuns.ServeWrite | src/project/storage/mod.rs:65-88 | a finished background write is a write step of the runs |
| RegistryRuns.NoStartInCooldown | src/project/mod.rs:107-123 | after a failure past millisecond 0, no fetch starts for a whole cooldown, with any number of requests in flight |
| RegistryRuns.OpenExactly | src/project/mod.rs:107-123 | at any time of any run the circuit is open if and only if the last failure lies past millisecond 0 and less than a cooldown ago, so it closes again |
| RegistryRuns.FailuresSpanCooldowns | src/project/mod.rs:107-123 | in a sequential run, `n` failures past millisecond 0 span at least `n - 1` cooldowns |
| RegistryRuns.FailureAtZeroUnseen | src/project/mod.rs:112-118 | a run in which two failures share millisecond 0, whatever the cooldown |
| RegistryRuns.CacheHoldsAnswers | src/project/mod.rs:151-196 | every cached or pending value was given by the registry for its key, in every reachable state |
| RegistryRuns.HitIsAnAnswer | src/project/mod.rs:151-196 | a value served from the cache is one the registry gave for that very request and never a transient failure |
| Crc16.Crc16Xmodem | src/utils/crypto.rs:235-248 | the nested loops compute the register that the next lemmas are about |
| Crc16.CrcIsTheRemainder | src/utils/crypto.rs:235-248 | a bit string is a remainder of `data(x) * x^16` by `x^16 + x^12 + x^5 + 1` over GF(2) if and only if it is the CRC |
| Crc16.CrcLinear | src/utils/crypto.rs:235-248 | the CRC of the difference of two messages of one length is the difference of their CRCs |
| Crc16.CrcResidue | src/utils/crypto.rs:272-273 | a message followed by its big-endian CRC has CRC 0 |
| Crc16.BurstDetected | src/utils/crypto.rs:235-248 | any change within 16 consecutive bits changes the CRC |
| Base64Url.DecodeEncode | src/utils/crypto.rs:274 | decoding by section 5 of RFC 4648 gives every encoded byte string back |
| Base64Url.EncodedValue | src/utils/crypto.rs:274 | the encoding is the number that the bytes are, written to the base 64 and filled up with zero bits |
| Base64Url.EncodeLength | src/utils/crypto.rs:274 | the length of the encoding, and that it stays in the alphabet |
| Ton.TonRawToFriendly | src/utils/crypto.rs:250-275 | parsing, assembling and sealing in steps gives the friendly form that the next lemmas are about |
| Ton.I32Exactly | src/utils/crypto.rs:253 | the decimal form of a number is read as a workchain if and only if the number fits 32 bits with a sign |
| Ton.FriendlyDecodes | src/utils/crypto.rs:250-275 | the friendly form decodes to 0x11 or 0x51 for bounceable or not, plus 0x80 for testnet, the low byte of the workchain and the 32 bytes with CRC residue 0; the workchain survives if and only if it is in -128..127 |
| Ton.FriendlyInjective | src/utils/crypto.rs:250-275 | equal friendly forms have equal flags, accounts, and workchains modulo 256 |
| Ton.FriendlyPassesCheck | src/utils/crypto.rs:752-773 | a friendly form has 48 characters and passes the address check if and only if it is for mainnet |
| Ton.CheckOfAlphabetString | src/utils/crypto.rs:768-773 | a string of the alphabet passes if and only if it starts with E or U and has at least 36 characters |
| Ton.ToFriendlyIdempotent | src/utils/crypto.rs:278-285 | converting twice is converting once, on all strings |
| Ton.ToFriendlyDefault | src/utils/crypto.rs:278-285 | a convertible string becomes the bounceable mainnet form, any other stays |
| Ton.WorkchainReadings | src/utils/crypto.rs:257-258 | a workchain that reads as a hexadecimal byte reads as a decimal number if and only if it has no letters |
| Ton.CheckAndConversionDisagree | src/utils/crypto.rs:752-766 | a valid raw address is converted if and only if its workchain has no hexadecimal letters |
| Ton.ConvertedPasses | src/utils/crypto.rs:752-766 | a converted address is valid if and only if its workchain has no minus sign and is below 100, and it has no second separator |
| Ton.DisagreeingInputs | src/utils/crypto.rs:250-275 | `-1:` and 64 digits are converted but not valid, `a:` and 64 digits valid but not converted |
| Evm.NormalizeIdempotent | src/utils/crypto.rs:1303-1307 | normalizing to the checksummed form twice is normalizing once, whatever the hash |
| Evm.DigitsAreRead | src/utils/crypto.rs:1303-1305 | 40 digits are read alone or after `0x`, in either case |
| Evm.EvmAddressShape | src/utils/crypto.rs:737-742 | exactly `0x` and 40 hexadecimal digits, followed by nothing but white space, pass |
| Evm.TrailingLineEndPasses | src/utils/crypto.rs:737-742 | a proper address followed by a line end passes too, and is read as the same address |
| Evm.TrailingCharacter | src/utils/crypto.rs:737-742 | of single characters exactly space, tab, carriage return and line feed may follow an address |
| Evm.ChecksumCasing | src/utils/crypto.rs:1303-1307 | the normalized form is `0x` and the digits, a letter being capital exactly where the hash says so |
| Caip.ChainIdPrintParse | src/utils/crypto.rs:955-1016 | every constructed chain id is parsed back from its printed form |
| Caip.ChainIdParsePrint | src/utils/crypto.rs:976-991 | a parsed chain id prints as its input |
| Caip.ChainIdAccepted | src/utils/crypto.rs:955-973 | exactly the chain ids with the stated lengths and characters are constructed |
| Caip.NewAssetStable | src/utils/crypto.rs:1033-1078 | an asset id constructed again from its own parts is the same, its checksummed reference passing the reference pattern |
| Caip.AssetPrintParse | src/utils/crypto.rs:1031-1172 | every constructed asset id is parsed back from its printed form |
| Caip.AssetParsePrint | src/utils/crypto.rs:1081-1121 | a parsed asset id prints as its input but for the spelling of an EVM token address, which is the normalized one |
| Caip.AssetAccepted | src/utils/crypto.rs:1033-1078 | exactly the asset ids with the stated lengths and characters are constructed, EVM tokens having an address for reference |
| Caip.ParserComplete | src/utils/crypto.rs:1081-1121 | whatever parts the constructor accepts, the parser accepts when printed, with the same result |
| Caip.DisassembleFormat | src/utils/crypto.rs:1200-1236 | whatever is disassembled is what printing the parts gives, and the parts passed their checks |
| Caip.DisassembleErrors | src/utils/crypto.rs:1207-1236 | which error an id gives that is not disassembled, the checks being in this order |
| Caip.FormatDisassemble | src/utils/crypto.rs:1174-1176 | printing then disassembling gives the parts back if and only if they contain no separator and pass the checks |
| Amounts.FormatIsExact | src/utils/crypto.rs:1257-1271 | `decimals` digits follow the point, the integer part has no superfluous zero, the digits read as the amount, and the parts are its quotient and remainder by the power of ten |
| Amounts.FormatIsUnique | src/utils/crypto.rs:1257-1271 | no other string of that shape denotes the amount |
| Amounts.FormatInjective | src/utils/crypto.rs:1257-1271 | for fixed decimals, equal strings come from equal amounts |
| Eip191.ToEip191Message | src/utils/crypto.rs:353-359 | the steps build prefix, decimal length and message |
| Eip191.FrameParts | src/utils/crypto.rs:353-359 | a frame is the byte 0x19, the fixed text, the size in decimal without leading zeros, and the message, in this order |
| Eip191.FramingInjective | src/utils/crypto.rs:353-359 | equal frames come from equal messages, though nothing delimits the length |
| UserOp.GetPacked | src/utils/crypto.rs:153-222 | the steps build the packed operation that `PackedIsLossless` is about |
| UserOp.BigEndianRoundTrip | src/utils/crypto.rs:190-232 | a 128-bit number is read back from its 16 bytes |
| UserOp.PackedIsLossless | src/utils/crypto.rs:126-233 | reading the packed form by the layout of ERC-4337 v0.7 gives the operation back if and only if the factory and paymaster groups are complete or absent |
| Balance.BalanceResponse.UpdateEntry | src/handlers/balance.rs:541-644 | if no item matches an entry, one is appended with the name, symbol, price, icon and decimals looked up, the chain of the entry, and its address exactly if it is not native; else only the first item with its address, or the first native item of its chain, shows the new amount; which error it ends with, leaving the list alone |
| Balance.BalanceResponse.ForceUpdate | src/handlers/balance.rs:540-646 | entries are carried out in order against the list the earlier ones left, until the first failure, which is that of its entry |
| Balance.LoopIsDeterministic | src/handlers/balance.rs:541-548 | equal entries name equal targets, so the lemmas on repeated entries apply to every run of the loop |
| Balance.LoopOnlyGrows | src/handlers/balance.rs:560-644 | no item moves or disappears or becomes another token |
| Balance.UnmatchedUnchanged | src/handlers/balance.rs:560-644 | an item no entry is placed at stays exactly as it was |
| Balance.AppendedStays | src/handlers/balance.rs:600-644 | an appended item still is the token that was looked up for its entry when the loop is done |
| Balance.LastAmountShown | src/handlers/balance.rs:565-618 | the item of an entry ends with the amount of the last lookup placed at it, formatted with the item's own decimals |
| Balance.PlaceIsStable | src/handlers/balance.rs:560-600 | once an entry has an item, it has the same one ever after, other entries notwithstanding |
| Balance.OneAppendPerEntry | src/handlers/balance.rs:560-644 | a repeated entry, the native placeholder included, finds the item of its first occurrence and appends nothing |
| Balance.OneItemPerSpelling | src/handlers/balance.rs:560-644 | two contract entries of a run share an item if and only if they are spelled alike |
| Balance.NativesShareOneItem | src/handlers/balance.rs:579-598 | entries for the native token of one chain share one item however they are spelled, unless the response came with an item addressed by such an entry |
| Balance.TwoSpellings | src/handlers/balance.rs:541-644 | on an empty list, two spellings of one contract on one chain give two items |
| Balance.SpellingsExist | src/handlers/balance.rs:546-548 | an address in lower and in upper case is such a pair |
| Balance.PlaceholderIsNative | src/handlers/balance.rs:30 | an entry is native if and only if its address is 0xee twenty times, in any spelling |
| Balance.DecimalsReadBack | src/handlers/balance.rs:567-570 | the decimals an appended item prints are the ones a later update reads |
| Balance.UnreadableDecimals | src/handlers/balance.rs:567-570 | decimals that are no number count as 0 |

## Left out

- HTTP, Redis and Postgres connections, WebSocket relaying, S3, Prometheus queries, metrics and analytics: input and output only; their results are parameters.
- ReconciliationLedger: one statement is one atomic step with one clock reading, and clock readings do not decrease from step to step; the text limits of the columns are not modelled. Row locks of other transactions are an arbitrary set in each claim.
- ReconciliationLedger.ClaimDueBatch: the order in which `RETURNING` lists the rows is not fixed by the statement and not modelled.
- ServedWithinBound: assumes that, while the row waits, no row ahead becomes newly due between the passes, without which there is no bound (`StarvedFor`).
- ChainWeight: exact arithmetic instead of `f64`, so rounding is not modelled; the unchecked `u64` additions are taken not to overflow, while the checked squares are modelled.
- ParseWeights: the cast of a sample from `f64` is done by the caller, so negative or undefined values do not occur; counts do not overflow.
- WeightedIndex: belongs to the `rand` library; it is modelled by prefix sums, a draw being an arbitrary number modulo the total. Memory orderings are not modelled: weights are atomic cells.
- WeightedIndex.DrawDistinct: which outcomes are possible, and which numbers give which, is stated exactly; probabilities are not.
- ProviderRepository: other kinds of providers (history, portfolio, onramp, WebSocket and so on) are registered without selection and are left out; weights are values in a map instead of shared atomics.
- ProxyChain: the branch for testing one given provider, the cached answers of some calls, and the quota and rate limit checks before the call are not modelled.
- Proxy.RpcProviderCall: the timeout, the transport error and the provider's rate-limit test are parts of the outcome of a call; the `is_known_rpc_error_message` classifier only feeds metrics and is left out.
- ProjectDataInternal: a request in flight is one call with its three times; interleavings are in `RegistryRuns`, whose steps `Serve` shows to be those of this method. Expiry of cache entries is by time to live only.
- IsAddressValid: the Solana check (base58 and length) is an arbitrary predicate.
- NormalizeToChecksum: the Keccak hash that decides the capital letters is an arbitrary function.
- ForceUpdate: the value recomputed in floating point is kept as the numbers it is computed from; the guards before the loop (namespace and testing project id) are not modelled.
- UserOp.Concat128: concatenation of two 16-byte halves, used in packing.
- Signature checks (ECDSA, EIP-6492), ABI decoding, ENSIP-11 coin types, constant-time comparison and permissions: either cryptography or easy members.
- The per-chain provider files and the environment tables: configuration.
