# A verified model of the mempool, the faucet journal and the codecs

This Dafny project models the application-side mempool of an EVM-compatible Cosmos chain,
together with the smaller components around it that each carry one strong invariant, and proves
what those components promise. `dafny verify dfyconfig.toml` checks everything.

Code that changes things in place is a class or a method with loops, proved against a function of
the old state; concurrent protocols are step machines whose theorems hold in every reachable
state; pure code is functions and lemmas.

| component | modules |
|---|---|
| shared vocabulary, numerals, container/heap, per-account queues | `Common`, `Numerals`, `BinaryHeap`, `BucketQueues` |
| fee ordering of Cosmos and EVM transactions, and their merge | `CosmosTypes`, `CosmosOrdering`, `MinerOrdering`, `UnifiedIterator` |
| address reservations, recheck scheduling, rechecking, inserted txs | `Reserver`, `ReservationProtocol`, `RecheckScheduler`, `RecheckPool` |
| the per-height transaction store | `SignerKeys`, `TxStore` |
| the subpool coordinator | `TxPoolLoop`, `TxPoolAdd` |
| the testnet faucet | `FaucetJournal`, `Bech32` |
| EIP-712 schema inference and the Web3 extension's protobuf codec | `TypeNames`, `Eip712Types`, `Eip712Shapes`, `Varint`, `Web3Codec` |
| the transaction index | `KvIndexer` |
| dynamic fees and the authz limiter | `FeeChecker`, `AuthzLimiter` |

How the orderings are specified. `BucketQueues` says what "always pick the best head" means: queues
per account, and a run of moves, each of which takes the first entry of an account that no other
account's first entry beats (`Take`), or drops such an account (`Skip`). Both heap-based iterators
and the merged iterator refine this; their main theorems are about those runs.

How the concurrent parts are specified. A run is a sequence of events; `Run` gives the state it
reaches, or nothing when an event was not possible. Each event is one atomic action of the source:
a channel operation, a section under a lock, the end of a goroutine. The theorems speak about every
run of any length.

How specifications are fixed. A function that specifies a method, or a step of a machine, is in turn
characterised on the inputs alone, without its own definition: the recheck by the ante handler's
answers (`RecheckPool.VerdictsAreAnswers`), the orderings by tips and positions
(`CosmosOrdering.DrainIsDearestFirst`, `MinerOrdering.DrainIsDearestFirst`), invalidation by nonces
(`TxStore.ScannedHolds`), fees by the extension options (`FeeChecker.FirstDynamicOption`), varints by
their bytes (`Varint.EncodeIs`), claims and receipts field by field (`FaucetJournal.ClaimGrantedIff`,
`FaucetJournal.ReconcileIs`).

Where the code and its comments or documentation differ, the model follows the code:

- The transaction pool's loop cancels a running reset when the new head differs from the old head,
  and the comment there says this happens only after a new block. It also happens after a `Sync`,
  while the running reset already works on the newest head: `TxPoolLoop.SpuriousCancel` gives the
  exact condition and `TxPoolLoop.SpuriousCancelHappens` a run.
- Indexing backward on an empty index is commented as starting from the latest block; it starts one
  block below it (`KvIndexer.KVIndexer.IndexBackward`).
- The authz limiter is documented as keeping disabled types out of MsgExec. It never compares the type
  of a MsgExec or MsgGrant itself, so those two pass inside a MsgExec even when they are disabled:
  `AuthzLimiter.KeepsAllOutIff` gives the exact condition, `AuthzLimiter.WrappedExecPasses` and
  `AuthzLimiter.WrappedGrantPasses` the inputs.
- An array's type is inferred from its first element; the comment there calls arrays of several types
  unsupported, and nothing rejects them. `Eip712Shapes.SchemaFitsIff` says exactly which messages fit
  their inferred types and `Eip712Shapes.MixedArray` shows one that does not.
- Properties that hold only under a condition come with the condition and an example outside it:
  the merge loses no convertible EVM tx iff every head it leaves behind does not convert
  (`UnifiedIterator.NothingConvertibleLostIff`, `UnifiedIterator.EndsEarly`); it stops only where no
  step is allowed when no two EVM heads tie (`UnifiedIterator.StopsOnlyWhenStuck`,
  `UnifiedIterator.TiedLeaders`); a Cosmos tx passes an EVM head of at least its tip iff it steps in for
  a failed conversion (`UnifiedIterator.CosmosOverEvmIff`, `UnifiedIterator.CosmosPassesConvertible`);
  the condition under which the declared fee is charged in full is
  `FeeChecker.FullFeeIff`, with `FeeChecker.LargeGasPaysLess` outside it; an accepted `Sync` is
  overwritten iff another arrives while it waits (`TxPoolLoop.OverwrittenIff`,
  `TxPoolLoop.SyncIsOverwritten`); pointwise-lower nonces
  come first iff the wrapped 64-bit sums do not say otherwise (`TxStore.LowerNoncesFirst`,
  `TxStore.WrappedSumReorders`); signer keys are injective on accounts of one length
  (`SignerKeys.SignerSetKeyInjective`, `SignerKeys.SeparatorInSigner`).

Modelling choices: Go strings and byte strings are sequences of characters or of numbers below 256;
an EVM address is an integer, and two signers of a tx may have the same one; the ante handler, the
EVM-to-SDK conversion, the subpools' `Add` and their filters are arbitrary functions; the SDK's priority-nonce pool is a map from (first signer,
nonce) to a tx whose replace hook fires exactly on replacement; the order in which Go visits a map
is an arbitrary choice; 64-bit wrap-around is written out where the source can meet it; the varint
reader's bitwise or of disjoint bits is an addition.

## Model

| member | source | states |
|---|---|---|
| BinaryHeap.RootIsBest | mempool/cosmos_ordering.go:94-99 | in a heap no entry beats the root, so reading entry 0 reads a best head |
| BinaryHeap.Down | mempool/cosmos_ordering.go:114 | container/heap's sift-down: repairs the heap below one entry, permuting only the given range |
| BinaryHeap.Init | mempool/cosmos_ordering.go:85 | heap.Init turns any list into a heap with the same entries |
| BinaryHeap.FixRoot | mempool/miner/ordering.go:144 | heap.Fix at 0 restores the heap after the root was overwritten, whatever the new root is |
| BinaryHeap.PopRoot | mempool/miner/ordering.go:148-155 | heap.Pop returns the root and leaves a heap of exactly the other entries |
| BucketQueues.TakenAndLeft | mempool/cosmos_ordering.go:101-123 | in any best-head run, what was taken from an account and what it still holds are its original queue |
| BucketQueues.TakenBeforeSkip | mempool/miner/ordering.go:151-156 | after an account is dropped, what was taken from it is a prefix of its queue and nothing is left |
| BucketQueues.SkippedIsGone | mempool/miner/ordering.go:151-156 | a dropped account is never named again in the run |
| BucketQueues.DrainTakesAll | mempool/cosmos_ordering.go:101-123 | a run to the end yields every account's whole queue, once and in order |
| BucketQueues.DrainIsUnique | mempool/cosmos_ordering.go:25-35 | with an order that never ties two accounts, every drain of the same queues is the same sequence |
| BucketQueues.FireShrinks | mempool/iterator.go:118-132 | every move leaves strictly fewer entries, so every walk ends |
| CosmosTypes.StoredLessTrichotomy | mempool/tx_store.go:238-246 | the stored-tx comparator is strict, and total on (nonce sum, key) |
| CosmosTypes.StoredLessTransitive | mempool/tx_store.go:238-246 | the stored-tx comparator is transitive |
| CosmosOrdering.LessIsTotalOnKeys | mempool/cosmos_ordering.go:25-35 | Less is a heap order and decides between any two heads of different signer keys |
| CosmosOrdering.BondAmount | mempool/cosmos_ordering.go:147-153 | the amount of the last fee coin in the bond denomination, or zero when there is none |
| CosmosOrdering.ExtractEffectiveTip | mempool/cosmos_ordering.go:141-174 | the fee loop computes the effective tip: price per gas, less the base fee where one is given, never below zero |
| CosmosOrdering.EffectiveTipIs | mempool/cosmos_ordering.go:141-174 | no fee or no gas means no tip; else, with p the price where p * gas <= amount < (p + 1) * gas, the tip is p above the base fee when p is at least that and below 2^256, and zero otherwise |
| CosmosOrdering.CollectHeads | mempool/cosmos_ordering.go:66-79 | in any map order, one head per non-empty bucket, and the rest of each bucket as its tail |
| CosmosOrdering.NewIterator | mempool/cosmos_ordering.go:61-92 | an iterator whose heap and tails hold exactly the buckets; none when no bucket has a tx |
| CosmosOrdering.Iterator.Tx | mempool/cosmos_ordering.go:94-99 | the current tx is the first of a bucket whose head no other head beats |
| CosmosOrdering.Iterator.Next | mempool/cosmos_ordering.go:101-123 | exactly the best bucket advances by one tx, all others stay, and the answer says whether a tx is left |
| CosmosOrdering.Collect | mempool/cosmos_ordering.go:61-123 | every yield is the first remaining tx of a bucket, of a tip no first remaining tx of any bucket exceeds, and among equal tips from the lexicographically least signer key; every bucket comes out whole; no other such walk gives other txs |
| CosmosOrdering.DrainIsDearestFirst | mempool/cosmos_ordering.go:25-34 | the same of any drain, said on the buckets by position: higher tip first, then the lesser signer key, until every bucket is used up |
| Common.LexLessIff | mempool/cosmos_ordering.go:28 | the string order is that of the first differing character, a proper prefix coming first |
| CosmosOrdering.WalksAgree | mempool/cosmos_ordering.go:25-123 | any two walks over the same buckets yield the same sequence, each bucket whole and in order, whatever the map order |
| MinerOrdering.WithMinerFee | mempool/miner/ordering.go:40-56 | refused iff the fee cap is below the base fee; otherwise the tip is min(tip cap, fee cap - base fee) |
| MinerOrdering.EffectiveTip | mempool/miner/ordering.go:40-56 | at most the tip cap and, with a base fee, at most fee cap minus base fee, and equal to one of the two |
| MinerOrdering.LessIsOrder | mempool/miner/ordering.go:63-71 | higher tip first, earlier time on ties, is an order a heap can use |
| MinerOrdering.PayableIsLongestPrefix | mempool/miner/ordering.go:109-149 | what an account can offer is the longest prefix of its list whose fee caps all cover the base fee |
| MinerOrdering.CollectHeads | mempool/miner/ordering.go:109-118 | in any map order, one head per account that can pay, and unpaying accounts dropped |
| MinerOrdering.NewTransactionSet | mempool/miner/ordering.go:102-128 | a valid set that offers exactly the payable prefixes |
| MinerOrdering.TransactionSet.Peek | mempool/miner/ordering.go:131-136 | the first entry of an account that no other account's first entry beats, or nothing when all is drained |
| MinerOrdering.TransactionSet.Shift | mempool/miner/ordering.go:139-149 | exactly the current account moves to its next payable tx or leaves |
| MinerOrdering.TransactionSet.Pop | mempool/miner/ordering.go:151-156 | exactly the current account leaves, with everything it still had |
| MinerOrdering.Drain | mempool/miner/ordering.go:102-149 | every yield is the first remaining tx of its account; no reachable first remaining tx of another account has a higher tip, nor an earlier time at the same tip; at the end no tx can be reached |
| MinerOrdering.DrainIsDearestFirst | mempool/miner/ordering.go:63-71 | the same of any drain, said on the lists by position |
| MinerOrdering.DrainYieldsPayablePrefixes | mempool/miner/ordering.go:102-149 | a drain yields for each account exactly its longest payable prefix, each tx once, in list order |
| UnifiedIterator.PoisedIsAllowed | mempool/iterator.go:175-232 | what resolveCurrentTx settles on is allowed: a Cosmos tx when its tip is above every EVM head's or a leading EVM tx does not convert; settling on nothing happens only where no Cosmos tx is left and no EVM tx, or a leading one that does not convert |
| UnifiedIterator.CosmosOverEvmIff | mempool/iterator.go:118-232 | in every walk a Cosmos tx is yielded while some EVM head has at least its tip iff it steps in for a leading EVM tx that did not convert; never when every queued EVM tx converts |
| UnifiedIterator.NothingDearerPassedOver | mempool/iterator.go:175-232 | wherever a walk stands no Cosmos head it passes over has a higher tip than what it yields, and no EVM head either unless the yield steps in for a tx that did not convert |
| UnifiedIterator.BucketsArePriced | mempool/iterator.go:245-261 | a Cosmos iterator built with the merge's denomination and base fee carries the tips the merge compares |
| UnifiedIterator.CosmosPassesConvertible | mempool/iterator.go:192-206 | a Cosmos tx without a tip is yielded over a convertible EVM tx, because the leading EVM tx does not convert |
| UnifiedIterator.StopsOnlyWhenStuck | mempool/iterator.go:175-207 | where no two EVM heads tie, the iterator settles on nothing only when no step at all is allowed |
| UnifiedIterator.TiedLeaders | mempool/iterator.go:192-206 | with tied EVM heads it can stop on the one that does not convert while yielding the other is allowed |
| UnifiedIterator.MergeProjects | mempool/iterator.go:118-165 | seen from either side alone, a merged walk is a run of that side's own ordering |
| UnifiedIterator.OutsShuffle | mempool/iterator.go:118-132 | what comes out is an interleaving of what the two sides gave: nothing dropped, nothing repeated |
| UnifiedIterator.MergeDrainsBoth | mempool/iterator.go:118-232 | if every queued EVM tx converts, a finished walk interleaves a full drain of each side |
| UnifiedIterator.CosmosIsDrained | mempool/iterator.go:118-207 | a finished walk has drained the Cosmos ordering, whatever converts |
| UnifiedIterator.NothingLostIff | mempool/iterator.go:175-207 | a finished walk yields every EVM account in full iff every queued EVM tx converts |
| UnifiedIterator.EveryAccountIsAccounted | mempool/iterator.go:118-207 | at every moment of every walk an EVM account has given a prefix of its queue; what is left is the rest, or nothing because the next entry did not convert |
| UnifiedIterator.AccountInFullIff | mempool/iterator.go:118-207 | an account has yielded its longest convertible prefix iff it is gone or its head does not convert |
| UnifiedIterator.NothingConvertibleLostIff | mempool/iterator.go:192-206 | a finished walk has yielded every account's longest convertible prefix iff every head it left behind does not convert |
| UnifiedIterator.EndsEarly | mempool/iterator.go:192-206 | with no Cosmos tx and a leading EVM tx that fails to convert the iterator stops and no step is allowed, although another account's tx converts |
| UnifiedIterator.FailedAccountIsGone | mempool/iterator.go:192-206 | after a failed conversion that account yields nothing more |
| UnifiedIterator.TakenConvert | mempool/iterator.go:175-207 | every EVM tx that came out had converted |
| UnifiedIterator.AllowedSteps | mempool/iterator.go:118-165 | every allowed step can be carried out and shrinks what is left |
| UnifiedIterator.MempoolIterator.PeekCosmos | mempool/iterator.go:245-261 | the current Cosmos tx with its effective tip, or nothing |
| UnifiedIterator.MempoolIterator.ResolveCurrentTx | mempool/iterator.go:175-207 | caches exactly the pending step's tx and the matching action for each side |
| UnifiedIterator.MempoolIterator.HandleNextEVMAction | mempool/iterator.go:135-149 | Advance takes the leading EVM tx, SkipAccount drops its account, no action changes nothing |
| UnifiedIterator.MempoolIterator.HandleNextCosmosAction | mempool/iterator.go:153-165 | Advance takes the leading Cosmos tx and an exhausted source is dropped |
| UnifiedIterator.MempoolIterator.Next | mempool/iterator.go:118-132 | carries out the pending step on both sides and settles on the next one; false iff it settled on none |
| UnifiedIterator.Collect | mempool/iterator.go:118-207 | walking to the end makes only allowed steps, yields their txs, and ends with no Cosmos tx left and no EVM tx, or a leading one that does not convert |
| Reserver.HoldAllKeeps | mempool/reserver/reserver.go:125-149 | Hold makes exactly the listed addresses owned, adds one reference per mention, and keeps every gauge equal to the addresses owned; repeated addresses included |
| Reserver.ReleaseAllKeeps | mempool/reserver/reserver.go:154-185 | Release of addresses listed no more often than held drops one reference per mention, frees an address at the last one, touches nothing else, and keeps the gauges exact |
| Reserver.HoldThenRelease | mempool/reserver/reserver.go:125-185 | releasing what was just held restores every owner, count and gauge |
| Reserver.ReservationHandle.Has | mempool/reserver/reserver.go:188-194 | true iff another subpool owns the address |
| Reserver.HoldAllMeans | mempool/reserver/reserver.go:125-149 | whatever the books are, a granted Hold makes the listed addresses owned, leaves every other owner, and adds one reference per mention when counting |
| Reserver.ReservationHandle.Hold | mempool/reserver/reserver.go:125-149 | granted iff no listed address belongs to another subpool, and then owners and counts are those; a refused address leaves everything unchanged |
| Reserver.ReservationHandle.Release | mempool/reserver/reserver.go:154-185 | granted iff every listed address is owned; an address not owned leaves everything unchanged |
| ReservationProtocol.StepKeepsInv | mempool/recheck_pool.go:178-291 | every event (reserve, commit, replace, roll back, remove, and other subpools' holds and releases) keeps: count of an address = its mentions as signer in pooled txs and in inserts in flight |
| ReservationProtocol.AlwaysExact | mempool/recheck_pool.go:178-291 | in every reachable state all counts and gauges are exact and no Release error was ever swallowed |
| ReservationProtocol.CosmosReleaseWorks | mempool/recheck_pool.go:524-535 | a release of addresses that are still held as often as mentioned always succeeds and lowers each count by the mentions |
| ReservationProtocol.PooledSignersAreOurs | mempool/recheck_pool.go:263-291 | no signer of a pooled Cosmos tx is ever owned, or can be taken, by another subpool; a tx whose replacement has begun, released but not yet overwritten, no longer counts as pooled |
| ReservationProtocol.QuietPoolOwnsItsSigners | mempool/recheck_pool.go:602-643 | with nothing in flight, the Cosmos pool owns exactly the signers of its pooled txs, each counted as often as it signs |
| RecheckScheduler.AlwaysInv | mempool/recheck_pool.go:362-409 | every reachable state of the scheduling loop satisfies the invariant on its channels |
| RecheckScheduler.OneRecheckAtATime | mempool/recheck_pool.go:362-415 | at most one recheck is live and no channel is ever closed twice |
| RecheckScheduler.CallersAreServed | mempool/recheck_pool.go:313-409 | a channel given to a caller is closed, running or pending; it closes only after a recheck launched for this or a later request, or at shutdown, which leaves nobody waiting |
| RecheckScheduler.CancelledIff | mempool/recheck_pool.go:385-405 | in every reachable state a live recheck's cancel channel is closed iff a request newer than its own was accepted or the loop is shutting down |
| RecheckScheduler.NeverStuck | mempool/recheck_pool.go:362-409 | the loop never waits for a recheck that is neither finished nor live |
| RecheckPool.RemovedIff | mempool/recheck_pool.go:446-520 | a tx is removed iff the ante handler refuses it on top of the survivors before it, or a signer failed earlier at a lower sequence |
| RecheckPool.VerdictsAreAnswers | mempool/recheck_pool.go:446-520 | on the ante handler's answers alone: a readable tx dooms its signers' later ones iff its answer, on top of the survivors before it, is a rejection or it is itself doomed; it stays iff it passes and is not doomed; the survivors are those that stay |
| RecheckPool.WrongSequenceDoomsNobody | mempool/recheck_pool.go:495-505 | unless a tx of one of its signers at a lower sequence was rejected or doomed before it, a tx is removed iff its own answer is not a pass, whatever wrong sequences came before |
| RecheckPool.NextOfTheSigner | mempool/recheck_pool.go:495-505 | of two txs of a signer, the second passing: after a wrong sequence the second stays, after any other error it goes too |
| RecheckPool.FoldIsReplay | mempool/recheck_pool.go:446-520 | the context the loop accumulates is that of replaying the survivors from the new head, each on what the one before it left |
| RecheckPool.AnySignerFailed | mempool/recheck_pool.go:467-473 | true iff one of the signers failed at a lower sequence |
| RecheckPool.MarkFailed | mempool/recheck_pool.go:509-514 | records each signer's lowest failed sequence |
| RecheckPool.RecheckAll | mempool/recheck_pool.go:446-520 | of the txs seen it keeps exactly those that stay by the ante handler's answers and removes exactly the other readable ones, its context is that of replaying the kept ones, and its failures are those of the verdicts; it stops at the first poll that finds a cancel |
| RecheckPool.SurvivorsStay | mempool/recheck_pool.go:524-535 | the pool keeps a key iff its tx was not marked for removal |
| RecheckPool.RolledBack | mempool/recheck_pool.go:178-195 | an Insert that fails after its reservation is a reserve and a roll-back of the reservation protocol: the release is never refused and all counts stay exact |
| RecheckPool.Committed | mempool/recheck_pool.go:178-232 | a successful Insert under a new key is a reserve and a commit of the protocol |
| RecheckPool.Replaced | mempool/recheck_pool.go:602-643 | a successful Insert under a taken key is a reserve and a replacement of the protocol: releasing the old tx's signers is never refused |
| RecheckPool.RemovedEach | mempool/recheck_pool.go:524-535 | removing pooled txs one after the other keeps every count exact |
| RecheckPool.ExactOwnsSigners | mempool/recheck_pool.go:263-275 | with exact reservations the address of every signer of every pooled tx belongs to the Cosmos pool, and is counted once per place where it signs a pooled tx |
| RecheckPool.SignersCannotBeTaken | mempool/recheck_pool.go:645-657 | no other subpool's Hold of a list with the address of a pooled tx's signer succeeds |
| RecheckPool.RecheckMempool.Insert | mempool/recheck_pool.go:178-232 | on success the pool holds the tx under its first signer and nonce, and context, reservations and the height's store move along; every error undoes the reservation and leaves pool and store alone, and the context too unless there was none, which then is the latest one; exact reservations stay exact and own every pooled tx's signers |
| RecheckPool.RecheckMempool.RunAnte | mempool/recheck_pool.go:198-217 | the ante handler runs on the stored context, or on the latest one when none is stored; an error or a missing context is reported |
| RecheckPool.RecheckMempool.Commit | mempool/recheck_pool.go:219-231 | the pool takes the tx, a replaced tx's signers are released, the branch is written back and the tx is marked |
| RecheckPool.NothingPooled | mempool/recheck_pool.go:118-150 | a new pool on a fresh tracker has exact reservations |
| RecheckPool.RecheckMempool.RemoveAll | mempool/recheck_pool.go:524-535 | removes exactly the given txs and releases their signers |
| RecheckPool.RecheckMempool.RunRecheck | mempool/recheck_pool.go:414-537 | the context is the ante handler folded, from the new head, over exactly the txs seen that stay by its answers, and the new height's store holds them; uncancelled, the pool keeps exactly those; cancelled, nothing is removed; exact reservations stay exact and own every pooled tx's signers |
| RecheckPool.LeftAfterRecheck | mempool/recheck_pool.go:446-537 | removing what the verdicts remove leaves exactly the pooled txs that stay by the ante handler's answers |
| RecheckPool.RecheckMempool.MarkAll | mempool/recheck_pool.go:428-429 | a fresh store with exactly the given txs added in order |
| SignerKeys.JoinInjective | mempool/tx_store.go:146-156 | parts of one length can be read back from their join, whatever bytes they contain |
| SignerKeys.SignerSetKeyInjective | mempool/tx_store.go:146-156 | the bucket key determines the signer set, for accounts of any one length |
| SignerKeys.TxKeyInjective | mempool/tx_store.go:158-168 | the tx key determines the signers and all their uint64 nonces, for accounts of any one length |
| SignerKeys.TxKeySorts | mempool/tx_store.go:158-168 | of two txs with the same signers, pointwise-lower nonces have the lexicographically smaller key |
| SignerKeys.SeparatorInSigner | mempool/tx_store.go:146-156 | with accounts of different lengths two signer sets can share a key |
| Numerals.PaddedInjective | mempool/tx_store.go:158-168 | zero-padded decimals of one width are injective |
| Numerals.PaddedSorts | mempool/tx_store.go:158-168 | zero-padded decimals sort like the numbers |
| TxStore.AddKeepsInv | mempool/tx_store.go:49-79 | AddTx keeps every bucket strictly sorted, with unique keys and one signer set |
| TxStore.AddedExactly | mempool/tx_store.go:49-79 | AddTx adds exactly the tx and loses nothing, unless a stored tx has the same signers at the same nonces |
| TxStore.AddAllHolds | mempool/tx_store.go:49-79 | a fresh store to which txs were added in order holds exactly them, except those whose signers and nonces an earlier one had |
| TxStore.SortedIsUnique | mempool/tx_store.go:49-79 | a bucket has one sorted arrangement, so the sorting algorithm cannot matter |
| TxStore.SameKeySameNonces | mempool/tx_store.go:49-79 | a tx skipped as a duplicate has the same signers at the same nonces as the stored one, and no number of an unkeyed tx comes twice |
| TxStore.SurvivorsIff | mempool/tx_store.go:207-219 | a tx survives iff every account it shares with the thresholds has a lower nonce |
| TxStore.NonceMapIs | mempool/tx_store.go:178-196 | there is a nonce for every signing account, that of its last place, unless some nonce is missing |
| TxStore.ScannedHolds | mempool/tx_store.go:212-216 | held after a scan iff held before and every account shared with the tx stands below its nonce |
| TxStore.CasualtiesReach | mempool/tx_store.go:81-127 | the count of a scan is the number of held txs with some shared account at or above its nonce |
| TxStore.StoredIffDuplicate | mempool/tx_store.go:90-98 | a tx's own key is stored iff a held tx has the same signers at the same nonces |
| TxStore.SurvivorsSorted | mempool/tx_store.go:81-127 | survivors keep their order |
| TxStore.ScanKeepsInv | mempool/tx_store.go:81-127 | invalidation keeps the bucket invariant and leaves no empty bucket |
| TxStore.PrefilterAgrees | mempool/tx_store.go:229-236 | a bucket the signer prefilter passes over would lose nothing to a full scan |
| TxStore.StoredIsCasualty | mempool/tx_store.go:81-127 | invalidating from a stored key always removes at least the tx stored under it |
| TxStore.NoCasualties | mempool/tx_store.go:81-127 | a scan that counts no removal changed nothing |
| TxStore.LowerNoncesFirst | mempool/tx_store.go:238-246 | of two txs of a bucket the one with pointwise-lower nonces comes first iff its wrapped nonce sum is not above the other's; so always when the higher sum fits 64 bits |
| TxStore.WrappedSumReorders | mempool/tx_store.go:170-176 | two txs of one bucket, one with pointwise-higher nonces and a sum that wraps, which sorts first |
| TxStore.SignerNamedUnkeyed | mempool/tx_store.go:49-55 | a lone signer whose bytes spell the shared bucket's name has that bucket's key |
| TxStore.CosmosTxStore.AddTx | mempool/tx_store.go:49-79 | adds the tx in its sorted place of its bucket, or nothing for a duplicate key, for any tx; a tx with signers of one length keeps the invariant |
| SignerKeys.SortKeys | mempool/tx_store.go:198-205 | collecting a map's keys in any order and sorting them gives the one ascending listing |
| TxStore.CosmosTxStore.SnapshotTxs | mempool/tx_store.go:263-278 | the snapshot lists the buckets in the order of their keys, whatever order the map yields them in |
| TxStore.SnapshotHasBucket | mempool/tx_store.go:263-278 | every bucket stands in the snapshot, whole and in its own order |
| TxStore.SnapshotIsTogether | mempool/tx_store.go:263-278 | the snapshot holds exactly the stored txs, each as often as it is stored |
| TxStore.CosmosTxStore.Contains | mempool/tx_store.go:248-255 | true iff some tx of the bucket has the key |
| TxStore.CosmosTxStore.FilterBucket | mempool/tx_store.go:108-115 | keeps exactly the survivors of one bucket and counts the rest |
| TxStore.CosmosTxStore.InvalidateFrom | mempool/tx_store.go:81-127 | on a stored key, in any map order, a tx is held iff it was and every account it shares with the tx has a lower nonce, and the result is the number of held txs with a shared account at or above; otherwise nothing changes |
| TxStore.CosmosTxStore.MarkInserted | mempool/recheck_pool.go:547-556 | a tx whose key is stored, and its dependents, go and the new tx is not added; a fresh tx is added |
| TxStore.MarkedHolds | mempool/recheck_pool.go:547-556 | the same on what is held: with a tx of the same signers and nonces held, just what stands below it stays; otherwise just the tx is added |
| TxPoolLoop.AlwaysInv | mempool/txpool/txpool.go:151-269 | every reachable state of the loop satisfies the invariant on heads, resets and waiters |
| TxPoolLoop.ResetsAreSerial | mempool/txpool/txpool.go:151-269 | at most one reset is live, and each starts from the head the previous one ended at |
| TxPoolLoop.NewHeadIsNewest | mempool/txpool/txpool.go:236-238 | the loop's new head is always that of the run's last chain head event, or the first head when there was none |
| TxPoolLoop.IdleMeansUpToDate | mempool/txpool/txpool.go:182-235 | whenever the loop waits with no reset running it is at the head of the run's last chain head event, no forced reset is due and no Sync waits |
| TxPoolLoop.SyncSeesALaterReset | mempool/txpool/txpool.go:239-264 | a Sync is answered without error only after a reset that started after it |
| TxPoolLoop.SyncIsAccountedFor | mempool/txpool/txpool.go:506-514 | every accepted Sync is answered, waiting, or overwritten; at termination none is left waiting |
| TxPoolLoop.OverwrittenIff | mempool/txpool/txpool.go:263-264 | some Sync is overwritten iff one was accepted while another waited |
| TxPoolLoop.SyncIsOverwritten | mempool/txpool/txpool.go:263-264 | a concrete run in which a Sync is overwritten |
| TxPoolLoop.SpuriousCancel | mempool/txpool/txpool.go:216-225 | without a newer head, the cancel is sent iff the running reset moves to a different head; it then hits the reset of the newest head |
| TxPoolLoop.SpuriousCancelHappens | mempool/txpool/txpool.go:216-225 | a concrete run in which the reset of the newest head is told to cancel |
| TxPoolAdd.OwnPlace | mempool/txpool/txpool.go:344-385 | a tx sits in its owner's share right after that owner's earlier txs |
| TxPoolAdd.FindOwner | mempool/txpool/txpool.go:360-366 | the first subpool whose filter accepts the tx, or none |
| TxPoolAdd.Split | mempool/txpool/txpool.go:351-367 | each subpool gets exactly its txs in batch order, and the owners are remembered |
| TxPoolAdd.Reassemble | mempool/txpool/txpool.go:374-384 | each tx gets the answer its owner gave at its place, and unowned txs the type error |
| TxPoolAdd.Add | mempool/txpool/txpool.go:344-385 | every tx of the batch gets its own subpool's error, in the order of the batch |
| FaucetJournal.StepKeepsInv | ops/testnet-faucet/recovery.js:60-186 | every event, crashes at any point of a write included, keeps the invariant and moves durable rows only forward |
| FaucetJournal.SubmitsAreSafe | ops/testnet-faucet/recovery.js:137-162 | submit is called for a row only when the durable journal holds it as unknown, and at most once per row |
| FaucetJournal.SubmittedStaysPending | ops/testnet-faucet/recovery.js:60-186 | a submitted row reloads as pending until a receipt of the row's own hash, chain, sender, recipient, denomination and amount, mined, was reconciled, and is then confirmed iff its code is 0 |
| FaucetJournal.ClaimGrantedIff | ops/testnet-faucet/recovery.js:137-147 | a claim is granted iff every row of its address is final and out of the address window and fewer than the limit of its IP's rows are pending or within theirs; it then adds exactly its reserved row |
| FaucetJournal.ClaimRunsThrough | ops/testnet-faucet/recovery.js:137-162 | a granted claim with a fresh id can run through: durable as reserved, then unknown, then submitted once, then durable as submitted with its hash |
| FaucetJournal.ReconcileIs | ops/testnet-faucet/recovery.js:164-186 | exactly a pending row with a hash is settled: confirmed or failed by the code of a mined receipt of its own transfer, unknown otherwise; nothing else changes |
| FaucetJournal.FinalIsForever | ops/testnet-faucet/recovery.js:164-186 | a confirmed or definitely failed durable row never changes again |
| FaucetJournal.AdmittedKeepsQuotas | ops/testnet-faucet/recovery.js:137-146 | an admitted claim keeps both quotas, and no earlier row of its address is pending or inside the window |
| FaucetJournal.AddressQuota | ops/testnet-faucet/recovery.js:137-162 | in every run a claimed row is at least the address window later than every earlier row of its address |
| FaucetJournal.IpQuota | ops/testnet-faucet/recovery.js:137-162 | in every run, rows of one IP within one half-open window, one of them claimed, number at most the limit |
| Bech32.StepIsLinear | ops/testnet-faucet/recovery.js:18-22 | one checksum step is linear over exclusive or |
| Bech32.ZeroStepIsInjective | ops/testnet-faucet/recovery.js:18-22 | shifting in a zero never turns a nonzero remainder into zero |
| Bech32.FoldIsLinear | ops/testnet-faucet/recovery.js:18-22 | the whole fold is linear in the start value and the symbols |
| Bech32.BurstChangesChecksum | ops/testnet-faucet/recovery.js:12-25 | words of any length that differ only within six consecutive symbols have different checksums (BIP-173, section "Bech32") |
| Bech32.ValidAddress | ops/testnet-faucet/recovery.js:12-25 | the loop accepts iff the shape and the checksum are right |
| Bech32.BurstInvalidates | ops/testnet-faucet/recovery.js:12-25 | changing a valid address within six consecutive characters makes it invalid |
| Bech32.ChecksumIsUnique | ops/testnet-faucet/recovery.js:12-25 | a payload has at most one valid six-symbol checksum |
| Bech32.EveryPayloadCompletes | ops/testnet-faucet/recovery.js:12-25 | any 32 letters have a checksum that makes a valid address |
| Bech32.PrefixSpellsXtc | ops/testnet-faucet/recovery.js:16-18 | the prefix symbols are the high bits of "xtc", a zero and its low bits |
| Bech32.ZeroAccountIsValid | ops/testnet-faucet/recovery.js:12-25 | with these generators, prefix and final value the address of account zero has the checksum ca63ah |
| TypeNames.KeyIsSanitised | ethereum/eip712/types.go:342-360 | sanitising a key built from a sanitised prefix and an index changes nothing, so references match definitions |
| TypeNames.SanitizeIs | ethereum/eip712/types.go:342-360 | sanitising goes part by part between the dots: the root prefix becomes "Type", any other part its camel case |
| TypeNames.CamelIs | ethereum/eip712/types.go:342-360 | camel case goes word by word: title-cased, without the underscores |
| TypeNames.TitleIs | ethereum/eip712/types.go:343-355 | by character codes: a to z go upper case at the start and after anything but an ASCII letter or digit, all else stays |
| Eip712Types.DescendingIsUnique | ethereum/eip712/types.go:228-248 | a descending listing is determined by its set of names |
| Eip712Types.SortedJsonKeys | ethereum/eip712/types.go:228-248 | whatever order the map yields its keys in, the result is the one descending listing |
| Eip712Types.TypesAreEqual | ethereum/eip712/types.go:324-336 | true iff the two definitions are the same list |
| Eip712Types.AddTypesMeans | ethereum/eip712/types.go:282-312 | fails iff all thousand indexed names hold other definitions; otherwise the key holds the definition and nothing else changed |
| Eip712Types.Infer | ethereum/eip712/types.go:147-224 | no definition that was in the map is lost or changed, even when inference fails half-way |
| Eip712Types.InferIsRight | ethereum/eip712/types.go:147-224 | the map stays closed (every referenced type is primitive or defined) and the returned key names a definition the object conforms to at every depth, an array being judged by its first element |
| Eip712Types.ConformsStays | ethereum/eip712/types.go:282-312 | conformance survives everything later inference adds |
| Eip712Types.RootTypeIs | ethereum/eip712/types.go:119-132 | an error iff the type is missing, no string or empty; otherwise "Type" and what follows the last slash of it |
| TypeNames.LastOfSplit | ethereum/eip712/types.go:127-128 | the last part of a split is what follows the last separator |
| Eip712Types.SchemaIsRight | ethereum/eip712/types.go:39-115 | a finished schema keeps the base definitions, is closed, lists the messages in Tx in order, and every message conforms to its type, which is named after its own root type, an array being judged by its first element |
| Eip712Shapes.ConformsFixesShape | ethereum/eip712/types.go:147-224 | two objects that conform to one definition have the same typed fields of the same shapes, at every depth |
| Eip712Shapes.ShapeKeepsConforms | ethereum/eip712/types.go:147-224 | an object of the same shape conforms to the same definitions |
| Eip712Shapes.FullyIff | ethereum/eip712/types.go:166-187 | an object that conforms by first elements conforms with every array element iff it is uniform: in every array all elements have the first one's shape |
| Eip712Shapes.InferFitsIff | ethereum/eip712/types.go:147-224 | the object fully conforms to the definition inferred for it iff it is uniform |
| Eip712Shapes.SchemaFitsIff | ethereum/eip712/types.go:39-115 | in a finished schema a message fully conforms to its type iff it is uniform, whatever the other messages are |
| Eip712Shapes.MixedArray | ethereum/eip712/types.go:166-187 | an array of a number, a text and an object is typed as an array of numbers |
| Eip712Types.TypeMap.AddTypesToRoot | ethereum/eip712/types.go:282-312 | the probing loop adds at the first free index or returns the index of an equal definition |
| Eip712Types.TypeMap.RecursivelyAddTypes | ethereum/eip712/types.go:147-224 | the recursion leaves exactly the inferred map and key, whatever the order of the fields |
| Eip712Types.TypeMap.AddMsgTypes | ethereum/eip712/types.go:95-115 | a non-object, a missing type string or a failed inference is an error; otherwise Tx gets the message's field |
| Eip712Types.CreateTypes | ethereum/eip712/types.go:39-91 | the loop over the messages builds the schema or stops at the first error |
| Varint.RoundTrip | ethereum/eip712/web3.pb.go:145-155 | every uint64 is read back from its encoding, whatever follows |
| Varint.EncodeIs | ethereum/eip712/web3.pb.go:145-155 | the encoding is the one list of bytes with the high bit on all but the last, no needless last zero, and the number as its base-128 digits, lowest first |
| Varint.ReadIsLocal | ethereum/eip712/web3.pb.go:192-206 | a successful read does not depend on what follows |
| Varint.ReadEnds | ethereum/eip712/web3.pb.go:192-206 | a read ends at the first unmarked byte among the first ten; fewer bytes, all marked, are a premature end and ten marked ones an overflow |
| Varint.SizeIsLength | ethereum/eip712/web3.pb.go:176-178 | sovWeb3 is the length of the encoding |
| Web3Codec.SizeIsLength | ethereum/eip712/web3.pb.go:156-174 | Size is the number of bytes of the encoding |
| Web3Codec.RoundTrip | ethereum/eip712/web3.pb.go:103-316 | decoding the encoding into a reset message gives the message back |
| Web3Codec.WireExample | ethereum/eip712/web3.pb.go:118-143 | a message with all three fields, byte by byte |
| Web3Codec.TagErrors | ethereum/eip712/web3.pb.go:202-265 | a one-byte tag with wire type 4 or field number 0 is that error, and so is a wrong wire type of fields 1 to 3; the three right tags raise none of these |
| Web3Codec.FieldErrors | ethereum/eip712/web3.pb.go:211-295 | after each of the three tags, exactly when a field is an overflow, an invalid length or a premature end, and what it sets otherwise |
| Web3Codec.DecodeContinues | ethereum/eip712/web3.pb.go:182-316 | bytes after a well-formed input are parsed on top of it |
| Web3Codec.SkipsWholeField | ethereum/eip712/web3.pb.go:317-394 | a well-formed unknown field is skipped exactly, nested groups and all |
| Web3Codec.UnknownFieldIsIgnored | ethereum/eip712/web3.pb.go:182-394 | appending any well-formed unknown field to any well-formed input changes nothing |
| Web3Codec.EncodeVarint | ethereum/eip712/web3.pb.go:145-155 | writes the varint so that it ends at the offset, and touches no other byte |
| Web3Codec.MarshalToSizedBuffer | ethereum/eip712/web3.pb.go:118-143 | writing backwards, the buffer ends with the encoding and its front is untouched |
| Web3Codec.Marshal | ethereum/eip712/web3.pb.go:103-111 | exactly Size bytes, the encoding |
| Web3Codec.SkipWeb3 | ethereum/eip712/web3.pb.go:317-394 | the loop ends by strict progress with where the field ends, or the error |
| Web3Codec.Unmarshal | ethereum/eip712/web3.pb.go:182-316 | the loop ends by strict progress with the decoded message, or the error |
| KvIndexer.BigEndianSorts | indexer/kv_indexer.go:170-174 | big-endian bytes sort like the numbers |
| KvIndexer.IndexKeyParses | indexer/kv_indexer.go:227-233 | an index key parses back to its block |
| KvIndexer.IndexKeyOrder | indexer/kv_indexer.go:170-174 | index keys sort exactly as (block, index) pairs and are distinct |
| KvIndexer.RecordsNumbered | indexer/kv_indexer.go:52-124 | eth indices are consecutive from 0 over the whole block |
| KvIndexer.BlockRecordsDescribe | indexer/kv_indexer.go:52-124 | one record per message of a tx that passes the checks, unless the tx succeeded and the message has no event; in block order and no other; with the message's own hash, the gas limit and failure for a failed tx, else the event's gas and failure, and the running gas total |
| KvIndexer.IndexKeepsHolds | indexer/kv_indexer.go:52-124 | indexing one more block keeps every record of every processed block and adds its own |
| KvIndexer.LookupFindsOwnRecord | indexer/kv_indexer.go:153-162 | a lookup by (block, index) returns that message's own record, and nothing for any other pair |
| KvIndexer.HashFindsOwnRecord | indexer/kv_indexer.go:137-150 | a lookup by hash finds exactly the processed records, each as its own |
| KvIndexer.FirstAndLastAreExtremes | indexer/kv_indexer.go:177-201 | the first and last indexed blocks are the smallest and largest processed blocks with an eth tx |
| KvIndexer.KVIndexer.IndexBlock | indexer/kv_indexer.go:52-124 | writes all records of the block, or nothing when the batch fails |
| KvIndexer.KVIndexer.IndexBackward | server/indexer_cmd.go:85-98 | a run stopped anywhere leaves no unprocessed eth block between the first and last; an unstopped one reaches block 1 |
| KvIndexer.KVIndexer.IndexForward | server/indexer_cmd.go:99-112 | the same for forward runs, up to the chain's height |
| KvIndexer.ReadyToRun | server/indexer_cmd.go:68-115 | an empty index satisfies the runs' precondition, and a growing chain keeps it |
| FeeChecker.CheckFee | ante/evm/fee_checker.go:60-120 | the checks and the option scan compute the outcome for the base fee in force |
| FeeChecker.AcceptedIff | ante/evm/fee_checker.go:60-120 | despite truncation, accepted iff gas is positive, the tip cap is not negative and the fee covers base fee times gas |
| FeeChecker.ChargeWithinBounds | ante/evm/fee_checker.go:60-120 | at least the base fee times gas rounded up, never more than declared; the priority fits an int64 |
| FeeChecker.FullFeeIff | ante/evm/fee_checker.go:60-120 | every accepted tx is charged exactly its declared fee iff one unit less would not cover the smaller of tip-capped price times gas and fee minus what truncation lost |
| FeeChecker.ChargeIsLeast | ante/evm/fee_checker.go:104-111 | the charge is the least whole amount covering that smaller one |
| FeeChecker.FullFeeForUsualGas | ante/evm/fee_checker.go:60-120 | the full declared fee is charged when the tip cap does not bind and gas is at most 10^18 |
| FeeChecker.NoDynamicOption | ante/evm/fee_checker.go:67-68 | without a dynamic-fee option: accepted iff the fee covers base fee times gas, and charged exactly its fee for gas up to 10^18 and a price up to MaxInt64 above the base fee |
| FeeChecker.FirstDynamicOption | ante/evm/fee_checker.go:67-117 | with the first dynamic-fee option at i: its price, 0 when left out, if negative is the error; else the charge is the least whole amount covering min((price + base) * gas, fee less truncation), and the priority the tip it allows over the reduction |
| FeeChecker.LargeGasPaysLess | ante/evm/fee_checker.go:60-120 | an accepted tx with gas above 10^18 that pays less than it declared |
| FeeChecker.PriorityIsReducedTip | ante/evm/fee_checker.go:112-117 | the priority is the effective tip over the reduction in whole units, rounded down, up to MaxInt64 |
| AuthzLimiter.AcceptsIff | ante/cosmos/authz.go:44-77 | accepted iff everything unpacks, no type the walk compares (granted ones, and types of messages inside a MsgExec that are neither MsgExec nor MsgGrant) is disabled at any depth, and the nesting cost fits |
| AuthzLimiter.AcceptedKeepsOut | ante/cosmos/authz.go:44-77 | an accepted list grants no disabled type at any depth, and no message inside a MsgExec has a disabled type other than MsgExec and MsgGrant |
| AuthzLimiter.KeepsAllOutIff | ante/cosmos/authz.go:50-68 | every accepted list keeps every disabled type out of MsgExec iff neither MsgExec nor MsgGrant is disabled |
| AuthzLimiter.WrappedExecPasses | ante/cosmos/authz.go:50-58 | a MsgExec inside a MsgExec is accepted whatever is disabled |
| AuthzLimiter.WrappedGrantPasses | ante/cosmos/authz.go:59-68 | a MsgGrant of an enabled type inside a MsgExec is accepted whatever else is disabled |
| AuthzLimiter.AcceptedExecs | ante/cosmos/authz.go:44-77 | from level n an accepted tx has at most 2^(6-n)-1 MsgExec messages, because siblings share the counter |
| AuthzLimiter.BoundIsTight | ante/cosmos/authz.go:14-77 | the bound is met: 31 MsgExec messages are accepted from level 1 |
| AuthzLimiter.IsDisabledMsg | ante/cosmos/authz.go:81-89 | true iff the type is listed |
| AuthzLimiter.CheckDisabledMsgs | ante/cosmos/authz.go:44-77 | the loop and recursion accept exactly what the specification accepts |

## Left out

- RecheckPool.RecheckMempool.Insert: one call is one step here; its interleaving with other subpools is in ReservationProtocol. The reap list is not modelled.
- TxStore.CosmosTxStore.AddTx: the invariant is kept for txs whose signers are of one length, as long as the uint64 counter of unkeyed txs does not wrap, and not for a lone signer whose bytes spell "unkeyed" (TxStore.SignerNamedUnkeyed).
- MinerOrdering.NewTransactionSet: accounts with an empty list are excluded, as the source would panic on them.
- Eip712Types.TypeMap.RecursivelyAddTypes: takes parsed objects with unique keys and looks fields up by name; keys that a JSON path query would read as a pattern or a nested path are not modelled, and neither is recovery from panics.
- TypeNames.KeyIsSanitised: title-casing is modelled for ASCII letters after a non-alphanumeric character, not the full Unicode word rules.
- KvIndexer.KVIndexer.IndexBlock: transaction hashes are assumed distinct, heights and indices below 2^64; parsing of txs and their results is input.
- FeeChecker.CheckFee: the pre-London fallback to validator minimum gas prices, and overflow panics of 18-decimal numbers, are not modelled; the priority reduction is a parameter.
- FaucetJournal: the file system is modelled only as "the durable journal is the old or the new one"; journal size limits, snapshots, locks on disk, IP normalisation and the HTTP server are not modelled.
- ReservationProtocol: an EVM subpool is assumed to list no address twice in one Release, as the source demands, and the pool's tx limit not to be negative.
- The legacy pool, height synchronisation, the reap list and the tx tracker: not part of this model.
- The SDK's priority-nonce pool, keepers, state database and gas meters: only the interface described above.
- Signatures, hashing, key derivation and blob commitments: opaque cryptography.
- RPC and websocket servers, start-up, genesis and metrics: plumbing.
- The network-driven indexer service: it moves on after an error on purpose, so the no-gap result is for the index command only.
- The other generated protobuf codecs: the same shape with fewer fields.
