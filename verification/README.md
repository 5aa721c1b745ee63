# Verified models of the chain's mempool, indexer, EIP-712 and ante logic

This project models six parts of the chain in Dafny and proves what they keep over every
input and every run. `dafny verify dfyconfig.toml` checks all of it.

- **Block-building order** (`TxOrdering`, `MempoolIterator`). The price-and-nonce heap is
  written out operation by operation on a class with the source's fields. Its abstract value
  is what each account still has to emit; every method says how that value changes. Because
  the heap breaks ties arbitrarily, a drain is specified as any sequence whose every element
  a linear scan over the account heads would allow, and the theorems hold for all of them.
  The unified iterator is then shown to merge a drain with the Cosmos stream.
- **EIP-712 schema inference** (`JsonValues`, `TypeNames`, `TypeSchema`, `MessageTypes`,
  `TypeLimits`, `TypeBuilder`, `PayloadFlattening`). The recursive walk that grows the shared type map is
  a function of the JSON value; the in-place methods are proved equal to it, so the result
  does not depend on Go's map iteration order. Soundness says that a message conforms, at
  every depth, to the type that `Tx` names for it.
- **Txpool coordinator** (`ResetLoop`, `BatchAdd`, `Admission`). The reset loop is a step
  system whose runs are sequences of events; `Add` splits a batch and reassembles errors;
  the stateful admission check is shown to be exact.
- **Eth-tx indexer** (`IndexKeys`, `KvIndexer`, `IndexTables`, `IndexDrivers`). Byte order of
  keys is numeric order, the two tables agree, and the three drivers leave no hole.
- **Protobuf codec of `ExtensionOptionsWeb3Tx`** (`Varint`, `WireFormat`, `WireTruncation`,
  `WireParsing`, `Web3Codec`), following "Base 128 Varints" and "Message Structure" of the
  Protocol Buffers Encoding specification. Fields are modelled as they stand on the wire, with
  tags and lengths that need not be minimal. The encoder fills an array from the back; the
  decoder moves an index.
- **Ante handlers** (`FeeChecker`, `AuthzLimiter`). EIP-1559 fees in 18-digit fixed point, the
  minimum gas price check, and the authz message filter.

`Lex`, `Decimal`, `Words`, `Coins` and `Wrappers` hold shared definitions.

Integers are unbounded; widths are written out where the code depends on them (64-bit
varints, signed conversions of lengths, int32 field numbers, uint32 and uint64 fields of
index records, the uint256 limit of gas prices).

## Where code and expectation differ

The model follows the code in each case.

- The iterator shows the Cosmos head, or nothing, while it consumes an EVM transaction that
  does not convert. Shown and consumed agree over a run if and only if every queued EVM
  transaction converts (`ShownIsConsumedIff`). A Cosmos transaction is shown once more for each
  unconvertible one consumed while it is the next Cosmos one (`ShownAgain`, `UnconvertibleIsMasked`).
- A well-formed payload can still run out of duplicate indices. It never does with at most a
  thousand objects in all, and always does with more than a thousand messages of one type and
  pairwise different members; both bounds are met (`ThousandObjectsSucceed`,
  `TooManyShapesRefused`, `SinglesTypedIff`).
- A fee-cap-bound fee equals the offer if and only if truncation loses less than one whole
  unit, which is guaranteed for gas limits up to 10^18 and fails above
  (`CapBindingExactIff`, `LargeGasLosesOffer`).
- Every charge covers the minimum gas price if and only if the base fee does
  (`MinimumCoveredIff`).
- `backward` is documented to start from the latest block when the index is empty; it starts
  one below it (`Backward`).
- The indexer service is documented to retry after a failed fetch; it never fetches again
  (`NoRetryAfterFetchError`). It also steps past a failed `IndexBlock`, which can leave a hole
  that no later run closes (`FailedIndexBlockLeavesHole`, `HoleStays`). A run of the service
  leaves none if and only if it does not fail on a height that was not indexed before and
  then index eth transactions above it, given that there are some below
  (`ServiceNoHolesIff`, over all runs `NoHolesIff`).
- A transaction hash that is saved again replaces its older record: lookup by position returns
  the position's own record if and only if no later entry carries its hash (`OwnRecordIff`,
  `SavedAgainIsReplaced`).
- The decoder does not check field numbers inside groups nor that a closing tag carries its
  group's number, and takes over-long tags and lengths; what it accepts is said exactly
  (`AcceptedIff`).
- The authz limit is documented as a limit on nesting; sibling `MsgExec` messages count too
  (`SixSiblingsRefused`).
- A `Sync` whose waiter is replaced by a second one is never answered nor told of the shutdown.
  By the end of a run that terminates, a `Sync` has been told if and only if no other came
  while it was untold (`ToldIffNotReplaced`, `SecondSyncReplacesFirst`).
- A null `msgs` flattens like an empty array and is not recovered
  (`NullMessagesAreNotRecovered`).

## Model

| member | source | states |
|---|---|---|
| `TxOrdering.NewTxWithMinerFee` | mempool/miner/ordering.go:40-56 | no head exactly when the fee cap is below the base fee; otherwise its fees are the tip cap without a base fee, and with one the lesser of tip cap and feeCap - baseFee |
| `TxOrdering.AffordablePrefixIsLongest` | mempool/miner/ordering.go:102-118 | the affordable prefix is the longest leading part of a list whose fee caps all cover the base fee |
| `TxOrdering.TransactionsByPriceAndNonce.Down` | mempool/miner/ordering.go:63-72 | the sift-down used by Init, Fix and Pop restores heap order below its start and only rearranges heads |
| `TxOrdering.TransactionsByPriceAndNonce.Init` | mempool/miner/ordering.go:119 | any heads become heap ordered, the same heads |
| `TxOrdering.TransactionsByPriceAndNonce.PopHead` | mempool/miner/ordering.go:78-85 | removes exactly the root's account and keeps heap order |
| `TxOrdering.CollectHeads` | mempool/miner/ordering.go:109-118 | in whatever order accounts are visited, one head per affordable account, and heads plus rests hold every account's affordable prefix |
| `TxOrdering.TransactionsByPriceAndNonce.constructor` | mempool/miner/ordering.go:102-128 | a new set is valid and has exactly the affordable prefixes to emit |
| `TxOrdering.RootBestInQueues` | mempool/miner/ordering.go:131-136 | the heap root is a head that a linear scan over all accounts would allow: maximal tip, earliest time among equal tips |
| `TxOrdering.BestMeans` | mempool/miner/ordering.go:63-72 | a head is allowed exactly when it tips at least as much as every other and is no later than those that tip the same |
| `TxOrdering.TransactionsByPriceAndNonce.Peek` | mempool/miner/ordering.go:131-136 | nothing exactly when all is emitted, otherwise a best head and its effective tip |
| `TxOrdering.TransactionsByPriceAndNonce.Shift` | mempool/miner/ordering.go:139-149 | the best account's queue advances by one transaction, every other queue is unchanged, validity is kept |
| `TxOrdering.TransactionsByPriceAndNonce.Pop` | mempool/miner/ordering.go:154-156 | the best account is dropped with the rest of its queue, nothing else changes |
| `TxOrdering.Drain` | mempool/miner/ordering.go:131-149 | repeating Peek and Shift terminates with an empty set, and its output is a drain of what was to be emitted |
| `TxOrdering.DrainLists` | mempool/miner/ordering.go:102-149 | from construction to empty, every account emits exactly its affordable prefix, in order |
| `TxOrdering.DrainEmitsQueues` | mempool/miner/ordering.go:139-149 | however ties are broken, a drain emits each account's queue completely, in order, each element once |
| `TxOrdering.DrainCount` | mempool/miner/ordering.go:139-149 | the length of a drain is the total number of queued transactions |
| `TxOrdering.DrainTheorem` | mempool/miner/ordering.go:102-149 | the output of an account is the longest prefix of its list whose fee caps cover the base fee; unknown accounts emit nothing |
| `TxOrdering.DrainSortedIff` | mempool/miner/ordering.go:63-71 | the whole output is non-increasing in tip if and only if no account's queue ever rises in tip |
| `MempoolIterator.ExtractCosmosEffectiveTip` | mempool/iterator.go:251-292 | the amount of the last coin in the bond denomination, or zero, divided by the gas, minus the base fee and floored at zero; nil exactly without fee interface or on overflow |
| `MempoolIterator.CosmosFeeMeans` | mempool/iterator.go:251-292 | the fee a Cosmos transaction competes with, in terms of that amount |
| `MempoolIterator.EVMMempoolIterator.ShouldUseEVM` | mempool/iterator.go:135-164 | true exactly when the element the iterator stands on is the EVM head |
| `MempoolIterator.EVMMempoolIterator.Tx` | mempool/iterator.go:103-120 | shows the current element, or the Cosmos head or nothing when the EVM head does not convert |
| `MempoolIterator.EVMMempoolIterator.Next` | mempool/iterator.go:75-98 | consumes exactly the current element from its side and reports whether anything is left |
| `MempoolIterator.NewEVMMempoolIterator` | mempool/iterator.go:48-70 | no iterator exactly when both sides are empty |
| `MempoolIterator.Walk` | mempool/iterator.go:75-120 | a full Tx/Next run terminates, consumes a complete merge, and shows at each position the element consumed there if it converts, else the next Cosmos one to come, or nothing |
| `MempoolIterator.MergeInterleaves` | mempool/iterator.go:225-247 | a merge's EVM elements are a complete drain of the queues and its Cosmos elements the whole stream in order; nothing lost or repeated |
| `MempoolIterator.MergePrecedence` | mempool/iterator.go:135-164 | a Cosmos transaction precedes the next EVM one only with a strictly higher tip, an EVM one the next Cosmos one only with a tip at least as high |
| `MempoolIterator.ShownIsConsumedIff` | mempool/iterator.go:196-234 | over a run Tx shows exactly what Next consumes if and only if every queued EVM transaction converts |
| `MempoolIterator.ShownAgain` | mempool/iterator.go:103-120 | an unconvertible EVM transaction is shown as the next Cosmos one, which is shown again when it is consumed |
| `MempoolIterator.UnconvertibleIsMasked` | mempool/iterator.go:103-120 | a run that shows its one Cosmos transaction twice and its EVM transaction never |
| `JsonValues.SortedJSONKeys` | ethereum/eip712/types.go:224-244 | whatever order map iteration takes, the one descending sequence of the object's keys |
| `JsonValues.DescendingUnique` | ethereum/eip712/types.go:239-241 | two strictly descending sequences over the same keys are equal |
| `TypeNames.SanitizeTypedef` | ethereum/eip712/types.go:338-356 | the buffer loops compute the sanitised name |
| `TypeNames.SanitizedShape` | ethereum/eip712/types.go:246-269 | a sanitised sub-field prefix has no separators left and starts with the type prefix |
| `TypeNames.SanitizeIdempotentOnKeys` | ethereum/eip712/types.go:208 | sanitising a generated key a second time changes nothing |
| `TypeNames.SanitizeDotted` | ethereum/eip712/types.go:334-356 | dots join independently sanitised names |
| `TypeNames.SanitizeWords` | ethereum/eip712/types.go:349-352 | below the dots, underscores join independently capitalised words |
| `TypeNames.SanitizeWord` | ethereum/eip712/types.go:343-352 | a plain word keeps all characters but a first lower-case letter, which becomes its capital; the root prefix becomes Type |
| `TypeSchema.BuiltInTypes` | ethereum/eip712/types.go:36-74 | the types every payload has, member by member in order |
| `TypeSchema.AddTypesStable` | ethereum/eip712/types.go:278-308 | insertion leaves all earlier definitions unchanged, adds at most the returned key, and that key holds exactly the requested fields |
| `TypeSchema.AddTypesTakesFirst` | ethereum/eip712/types.go:283-307 | the name taken is the given one with the first index that is free or holds the same definition; every earlier index holds another |
| `TypeSchema.AddTypesFailsIff` | ethereum/eip712/types.go:283-303 | insertion fails if and only if all thousand indexed names hold different definitions |
| `TypeSchema.AddTypesAgain` | ethereum/eip712/types.go:287-291 | inserting the same definition again finds the copy and changes nothing |
| `TypeSchema.InferFieldSound` | ethereum/eip712/types.go:159-217 | a member is listed exactly when it is expressible, with the type of its value, arrays judged by their first element |
| `TypeSchema.InferObjectSound` | ethereum/eip712/types.go:143-220 | the walk only adds definitions; on success the object conforms at every depth to the returned type: members in descending order, each with the type of its value, and every type named after the dotted path of its object |
| `TypeSchema.ConformsMonotone` | ethereum/eip712/types.go:132-137 | conformance survives any later growth of the map, even though Tx itself changes |
| `MessageTypes.MsgRootTypeIsLastToken` | ethereum/eip712/types.go:115-128 | a message's root type is Type followed by what comes after the last slash of its type string |
| `MessageTypes.InferObjectClosed` | ethereum/eip712/types.go:143-220 | every type name referenced in the map stays primitive or defined through the whole walk |
| `MessageTypes.InferObjectErrors` | ethereum/eip712/types.go:203-219 | on an object the walk can only fail by running out of duplicate indices |
| `MessageTypes.AddMsgSound` | ethereum/eip712/types.go:91-137 | adding a message types it in Tx and keeps all earlier messages typed and the map closed |
| `MessageTypes.CreateTypesSound` | ethereum/eip712/types.go:35-87 | on success Tx lists msg0, msg1, ... in order after its own fields, each message conforms to its listed type, which is named after the last part of its type string, built-in types are intact, the map is closed; otherwise a message is malformed or indices ran out |
| `TypeLimits.InferObjectFits` | ethereum/eip712/types.go:143-308 | the walk adds at most one definition per object it meets and fails only when the thousand names may not suffice for them |
| `TypeLimits.ThousandObjectsSucceed` | ethereum/eip712/types.go:30-87 | well-formed messages with at most a thousand objects in all are always typed |
| `TypeLimits.TooManyShapesRefused` | ethereum/eip712/types.go:283-303 | more than a thousand messages of one type and pairwise different members are always refused |
| `TypeLimits.SinglesTypedIff` | ethereum/eip712/types.go:283-303 | messages of one type with one object and one member of their own each are typed if and only if there are at most a thousand |
| `TypeLimits.InferFlatMember` | ethereum/eip712/types.go:197-217 | a member without nested values is given its own name with the first index that is free or holds its definition |
| `TypeLimits.FirstVisitedFirstNumbered` | ethereum/eip712/types.go:159-217 | of two such members whose types share a name and differ, the greater one, visited first, gets index zero and is listed first |
| `TypeBuilder.TypesAreEqual` | ethereum/eip712/types.go:320-332 | decides equality of field lists |
| `TypeBuilder.TypeMap.AddTypesToRoot` | ethereum/eip712/types.go:278-308 | the in-place loop does exactly what the insertion function says, on failure too |
| `TypeBuilder.TypeMap.RecursivelyAddTypesToRoot` | ethereum/eip712/types.go:143-220 | the in-place recursion refines the inference function; a non-object is refused and changes nothing |
| `TypeBuilder.TypeMap.AddMsgTypesToRoot` | ethereum/eip712/types.go:91-137 | the in-place message step refines the message function |
| `TypeBuilder.CreateEIP712Types` | ethereum/eip712/types.go:35-87 | the result is a function of the payload value alone |
| `Decimal.NumeralValue` | ethereum/eip712/message.go:137-141 | the printed index stands for the number and has no leading zero |
| `PayloadFlattening.FlattenPayloadMessages` | ethereum/eip712/message.go:70-92 | succeeds exactly when msgs is an array or null, all messages are objects and no field is taken; each msgs[i] is then at msg{i}, msgs is gone, and an array is recovered from result and count; errors name the first obstacle |
| `PayloadFlattening.FlattenInverse` | ethereum/eip712/message.go:115-152 | with an array of msgs, msgs[i] is at msg{i}, and the original payload is recovered from the result and the count |
| `PayloadFlattening.NullMessagesAreNotRecovered` | ethereum/eip712/message.go:102-104 | a null msgs counts as no messages and is not recovered |
| `PayloadFlattening.OriginalMessagesTyped` | ethereum/eip712/message.go:26-49 | end to end, the i-th original message conforms to the type Tx lists under msg{i} |
| `ResetLoop.RunMatches` | mempool/txpool/txpool.go:149-258 | after every run of events the loop's variables match the history: token, heads, pending and answered Sync calls, shutdown |
| `ResetLoop.ResetsNeverOverlap` | mempool/txpool/txpool.go:187-218 | between two beginnings of a reset the subpools finish one, and then it is done |
| `ResetLoop.ResetsChain` | mempool/txpool/txpool.go:200-208 | a reset starts from the head the previous one reached and goes to the newest head |
| `ResetLoop.DoneReportsBegun` | mempool/txpool/txpool.go:204-232 | what is reported done is the last reset begun, and the subpools finished it in between |
| `ResetLoop.NoResetAfterQuit` | mempool/txpool/txpool.go:181-186 | no reset starts after shutdown was requested |
| `ResetLoop.QuietMeansApplied` | mempool/txpool/txpool.go:185-254 | the loop waits without a reset running only when the newest head is applied and no forced reset is pending; the state is that of the last head whose state was available, so the newest head's if all were |
| `ResetLoop.SyncSawReset` | mempool/txpool/txpool.go:204-253 | a Sync answered nil saw one reset begin, be finished by the subpools and be reported after its request, to the head newest at its beginning |
| `ResetLoop.AnsweredIff` | mempool/txpool/txpool.go:228-240 | a reported reset answers a Sync if and only if it is the last one requested, is untold and was requested before that reset began |
| `ResetLoop.ReplacedWaiterIsForgotten` | mempool/txpool/txpool.go:252-253 | an unanswered waiter that a second Sync replaced is never answered nor told of the shutdown |
| `ResetLoop.LastSyncWaitsOrTold` | mempool/txpool/txpool.go:166-178 | the last Sync of any run still waits, or was answered or told of the shutdown |
| `ResetLoop.ToldIffNotReplaced` | mempool/txpool/txpool.go:166-254 | after any run a Sync was told or still waits if and only if no other Sync came while it was untold; after a run that terminated it was told under the same condition |
| `ResetLoop.SecondSyncReplacesFirst` | mempool/txpool/txpool.go:245-254 | a run in which this happens |
| `ResetLoop.WaiterIsUntold` | mempool/txpool/txpool.go:170-253 | the channel the loop holds is that of the last Sync, as long as it is untold |
| `ResetLoop.PossibleIff` | mempool/txpool/txpool.go:180-254 | a step is possible if and only if the events so far allow it, by a definition that looks at nothing else |
| `ResetLoop.RunIff` | mempool/txpool/txpool.go:149-258 | the runs of the loop are exactly the histories in which every event was allowed when it came |
| `ResetLoop.NeverStuck` | mempool/txpool/txpool.go:180-254 | the loop always goes on: it begins a reset, waits or stops, and while waiting takes any head, Sync or shutdown and the report of a finished reset |
| `BatchAdd.FindSubpool` | mempool/txpool/txpool.go:344-354 | the first subpool whose filter accepts, or -1 |
| `BatchAdd.Split` | mempool/txpool/txpool.go:340-355 | each transaction goes to its first accepting subpool, in batch order |
| `BatchAdd.RankFindsTx` | mempool/txpool/txpool.go:350-351 | a routed transaction stands in its subpool's share at its rank |
| `BatchAdd.RankKeepsOrder` | mempool/txpool/txpool.go:343-355 | two transactions of one subpool keep their batch order |
| `BatchAdd.ShareIsRouted` | mempool/txpool/txpool.go:348-354 | a subpool's share holds nothing but transactions routed to it |
| `BatchAdd.Reassemble` | mempool/txpool/txpool.go:362-372 | taking errors from the front of each answer puts every error into its transaction's slot |
| `BatchAdd.Add` | mempool/txpool/txpool.go:333-374 | each slot holds exactly the error its subpool gave for that transaction, or unsupported |
| `Admission.AdmittedIffSound` | mempool/txpool/validation.go:216-266 | on a sound pool the check admits precisely the transactions whose insertion or replacement leaves it sound |
| `Admission.RejectionReason` | mempool/txpool/validation.go:223-264 | on any pool each error is reported exactly when the pool with the transaction in it would have that fault and no earlier one: nonce used up, nonce skipped, total cost over the balance, cap exceeded by a new nonce |
| `Admission.NoOverdraft` | mempool/txpool/validation.go:242-264 | after any offers in any order each account's pooled cost is within its balance, nonces are at or above the state's, gap-free and within the cap where the callbacks are set |
| `Admission.PooledWasAdmitted` | mempool/txpool/validation.go:216-266 | what is pooled was offered and passed the check when it was |
| `IndexKeys.KeyOrder` | indexer/kv_indexer.go:170-174 | byte order of tx-index keys is the order of height, then index |
| `IndexKeys.KeyLayout` | indexer/kv_indexer.go:165-174 | prefix 1 and the hash, or prefix 2 and eight big-endian bytes each of height and index |
| `IndexKeys.TxIndexKeyInjective` | indexer/kv_indexer.go:170-174 | different positions have different keys, negative arguments included |
| `IndexKeys.ScanRangeIsIndexPrefix` | indexer/kv_indexer.go:178-191 | the scanned range holds exactly the keys with the index prefix, so no hash key |
| `IndexKeys.ParseInvertsKey` | indexer/kv_indexer.go:227-233 | the height is read back from any index key |
| `KvIndexer.IndexTx` | indexer/kv_indexer.go:82-118 | the message loop produces the entries of the recorded messages, in order, with running index and gas, and stops at a failing save |
| `KvIndexer.KVIndexer.IndexBlock` | indexer/kv_indexer.go:52-124 | fails exactly when setting one of the block's entries or the final write fails; then nothing is written, otherwise the block's entries and nothing else |
| `KvIndexer.EntryPosition` | indexer/kv_indexer.go:59-113 | the k-th entry is that of a message whose transaction passes the filters and which has its event unless the transaction failed; its hash, both places, height, k, failure, gas used and gas summed within the transaction are given in terms of the block |
| `KvIndexer.RecordedHasEntry` | indexer/kv_indexer.go:59-119 | every such message has its entry |
| `KvIndexer.EntriesInOrder` | indexer/kv_indexer.go:58-113 | entries follow the order of the messages in the block |
| `IndexTables.IndexBlockKeepsTables` | indexer/kv_indexer.go:216-225 | indexing a block, again or for the first time, adds exactly its height's entries to both tables |
| `IndexTables.TablesAgree` | indexer/kv_indexer.go:137-162 | lookup by height and index succeeds exactly for recorded messages of indexed blocks and equals lookup by hash, the record of an indexed message with that hash, its own when no other has it |
| `IndexTables.OwnRecordIff` | indexer/kv_indexer.go:216-225 | blocks indexed in any order and perhaps again: the last entry saved for a position is found there if and only if no later entry carries its hash |
| `IndexTables.SavedAgainIsReplaced` | indexer/kv_indexer.go:216-225 | two blocks with the same hash: the first's position yields the second's record |
| `IndexTables.LoadBlock` | indexer/kv_indexer.go:177-200 | the greatest or least height holding an eth transaction, or -1 when there is none |
| `IndexDrivers.Backward` | server/indexer_cmd.go:84-98 | works downwards from the first indexed block, stopped anywhere and at the first failure; completed runs reach height 1; on an empty index the latest block is left out |
| `IndexDrivers.Forward` | server/indexer_cmd.go:99-112 | works upwards from the last indexed block, stopped anywhere and at the first failure; completed runs reach the store's height |
| `IndexDrivers.Service` | server/indexer_service.go:77-123 | under any events indexes and steps past exactly what the step function says, upwards from the last indexed block; while IndexBlock succeeds nothing is skipped |
| `IndexDrivers.ServiceIsConsecutive` | server/indexer_service.go:102-122 | the heights the service indexed and those it stepped past are disjoint and form one stretch |
| `IndexDrivers.ServiceRange` | server/indexer_service.go:77-102 | the service works above the last indexed block, or above the node's height at the start on an index without eth transactions, and not beyond the highest height heard of |
| `IndexDrivers.LatestIsGreatest` | server/indexer_service.go:45-75 | the latest height is the greatest of the node's at the start and those of the headers |
| `IndexDrivers.NoRetryAfterFetchError` | server/indexer_service.go:85-114 | in a run in which a fetch fails, nothing is indexed or stepped past from there on |
| `IndexDrivers.RunKeepsNoHoles` | server/indexer_cmd.go:94-112 | one run of any driver keeps the index free of holes, up to heights the service skipped |
| `IndexDrivers.NoHolesOverRuns` | server/indexer_cmd.go:23-29 | the same over every sequence of runs from an empty index |
| `IndexDrivers.HoleStays` | server/indexer_cmd.go:84-112 | a hole between two indexed blocks is closed by no run of any driver |
| `IndexDrivers.HoleStaysOverRuns` | server/indexer_cmd.go:84-112 | nor by any number of runs |
| `IndexDrivers.RunNoHolesIff` | server/indexer_service.go:118-121 | after a run there is no hole if and only if there was none before and the run did not skip a height not indexed before with eth transactions indexed above it |
| `IndexDrivers.NoHolesIff` | server/indexer_service.go:118-121 | over any runs from an empty index on: no hole if and only if no run skipped over such a height |
| `IndexDrivers.ServiceNoHolesIff` | server/indexer_service.go:83-122 | in terms of events: the service keeps an index free of holes if and only if no failed IndexBlock for a height not indexed before is followed by a successful one with eth transactions |
| `IndexDrivers.FailedIndexBlockLeavesHole` | server/indexer_service.go:118-121 | a run of the service on an empty index in which IndexBlock fails for block 2 and leaves a hole there |
| `Varint.SovIsLength` | ethereum/eip712/web3.pb.go:176-178 | the bit-length formula is the encoded length |
| `Varint.VarintRoundTrip` | ethereum/eip712/web3.pb.go:145-155 | every 64-bit value is read back, whatever follows it |
| `Varint.ReadFits` | ethereum/eip712/web3.pb.go:188-201 | whatever the bytes, what is read fits in 64 bits |
| `Varint.ReadMeans` | ethereum/eip712/web3.pb.go:188-201 | a varint, minimal or not, is read as its groups of seven bits, the first the least, cut to 64 bits |
| `WireFormat.SkipPassesField` | ethereum/eip712/web3.pb.go:317-394 | the skipper passes exactly the field it stands on, nested groups included, whatever varints its tags and lengths are |
| `WireFormat.DecodeAppliesField` | ethereum/eip712/web3.pb.go:182-309 | one decoder round applies a field, known or not, and moves past it |
| `WireFormat.DecodeAppliesAll` | ethereum/eip712/web3.pb.go:182-316 | decoding any fields in any order applies them one after the other, the last of a kind winning |
| `WireFormat.TagErrors` | ethereum/eip712/web3.pb.go:202-234 | which error a field gives for its tag alone: end of group, number not positive, wrong or unknown wire type |
| `WireTruncation.CutFieldNotDecoded` | ethereum/eip712/web3.pb.go:186-309 | a field cut anywhere inside, nested groups included, is an unexpected end of input |
| `WireTruncation.TruncationNoticed` | ethereum/eip712/web3.pb.go:182-394 | the first k bytes of any fields decode without error if and only if the cut lies between two fields |
| `WireTruncation.EndlessNumberRefused` | ethereum/eip712/web3.pb.go:188-201 | ten bytes that all announce another are an integer overflow |
| `WireTruncation.CutChainIdIsKept` | ethereum/eip712/web3.pb.go:212-229 | a chain id that is cut leaves what was read of it in the message |
| `WireTruncation.HugeLengthRefused` | ethereum/eip712/web3.pb.go:235-256 | a length of 2^63 or more is an invalid length, in known and unknown fields |
| `WireParsing.ParseField` | ethereum/eip712/web3.pb.go:317-394 | what the skipper passed inside the input is one well-formed field, groups nested to any depth |
| `WireParsing.AcceptedIff` | ethereum/eip712/web3.pb.go:182-394 | an input decodes without error if and only if it is a concatenation of well-formed, well-typed fields, and then the message is what they mean |
| `Web3Codec.Size` | ethereum/eip712/web3.pb.go:156-174 | the size computed from bit lengths is the length of the encoding |
| `Web3Codec.EncodingExample` | ethereum/eip712/web3.pb.go:118-155 | one message byte by byte |
| `Web3Codec.EncodeVarintWeb3` | ethereum/eip712/web3.pb.go:145-155 | writes the varint directly before the offset and nothing else |
| `Web3Codec.MarshalToSizedBuffer` | ethereum/eip712/web3.pb.go:118-143 | the encoding ends flush with the buffer, exactly Size bytes, the rest untouched |
| `Web3Codec.Marshal` | ethereum/eip712/web3.pb.go:103-111 | a fresh buffer of exactly Size bytes holding the encoding |
| `Web3Codec.ReadVarintAt` | ethereum/eip712/web3.pb.go:188-201 | the varint loop refines the reader, partial values of failed reads included |
| `Web3Codec.SkipWeb3` | ethereum/eip712/web3.pb.go:317-394 | terminates on every input and refines the skipper |
| `Web3Codec.Message.UnmarshalField` | ethereum/eip712/web3.pb.go:186-309 | one round of the loop sets the fields and index the decoder says, or fails as it says |
| `Web3Codec.Message.Unmarshal` | ethereum/eip712/web3.pb.go:182-316 | terminates on every input and refines the decoder, also in what a failed call leaves behind |
| `Web3Codec.RoundTripWithUnknownFields` | ethereum/eip712/web3.pb.go:118-316 | whatever unknown fields the decoder can pass, over-long tags and lengths included, stand before, between and after a message's fields, decoding gives the message back |
| `Web3Codec.RoundTrip` | ethereum/eip712/web3.pb.go:103-316 | Unmarshal of what Marshal writes gives the message back |
| `FeeChecker.FindTipCap` | ante/evm/fee_checker.go:68-81 | the price of the first dynamic fee option, zero if nil; MaxInt64 without such an option |
| `FeeChecker.TipCapMeans` | ante/evm/fee_checker.go:68-81 | the same of the tip cap the other results speak of |
| `FeeChecker.CheckFee` | ante/evm/fee_checker.go:83-120 | which error comes when, the fee charged, which without a dynamic fee option is the offer, and a priority that is the tip in millions of units, saturated |
| `FeeChecker.CeilIntIsCeiling` | ante/evm/fee_checker.go:109 | rounding up gives the ceiling, for negative decimals too |
| `FeeChecker.MulByInteger` | ante/cosmos/min_gas_price.go:71-74 | fixed-point multiplication with half-even rounding is exact for whole factors |
| `FeeChecker.ChargeWithinBounds` | ante/evm/fee_checker.go:97-109 | the charge is at least ceil(baseFee * gas) and at most the offer |
| `FeeChecker.CapBindingCharge` | ante/evm/fee_checker.go:97-109 | with the fee cap binding, the charge is the offer less the whole units that truncating the fee cap lost |
| `FeeChecker.CapBindingExactIff` | ante/evm/fee_checker.go:97-109 | with the fee cap binding, the charge is the offer if and only if truncation loses less than a whole unit; always for gas up to 10^18 |
| `FeeChecker.LargeGasLosesOffer` | ante/evm/fee_checker.go:97-109 | for every gas limit above 10^18 an offer of one is charged as zero |
| `FeeChecker.OrdinaryPaysOffer` | ante/evm/fee_checker.go:68-109 | without a dynamic fee option and for gas up to 10^18, an offer that covers the base fee and is at most MaxInt64 above it is charged exactly |
| `FeeChecker.TipBindingCharge` | ante/evm/fee_checker.go:97-109 | with the tip cap binding, the charge is (tip cap + base fee) * gas rounded up |
| `FeeChecker.TipBindingExactIff` | ante/evm/fee_checker.go:176-178 | with the tip cap binding, the charge is the offer exactly when the capped price still rounds up to it |
| `FeeChecker.MinGasPricePassesIff` | ante/cosmos/min_gas_price.go:48-94 | with a minimum set, exactly one coin of the EVM denomination covering ceil(minGasPrice * gas) passes, for positive gas |
| `FeeChecker.MinGasPriceOutcomes` | ante/cosmos/min_gas_price.go:48-85 | simulation always passes; otherwise the wrong denomination, and with a minimum set a missing fee, are refused as such |
| `FeeChecker.ChargeCoversMinimum` | ante/cosmos/min_gas_price.go:69-92 | a base fee at or above the minimum makes the charge cover it |
| `FeeChecker.MinimumCoveredIff` | ante/evm/fee_checker.go:60-109 | every charge covers the minimum if and only if the base fee is at least the minimum |
| `AuthzLimiter.IsDisabledMsg` | ante/cosmos/authz.go:81-89 | membership in the disabled list |
| `AuthzLimiter.CheckDisabledMsgs` | ante/cosmos/authz.go:44-77 | the recursive loop accepts exactly the accepted lists, and an error is about a message on some path: one that does not unpack, a disabled type granted or inside, or a MsgExec whose level is the one reported |
| `AuthzLimiter.Rank` | ante/cosmos/authz.go:53-57 | the level added is the number of MsgExec so far among the siblings |
| `AuthzLimiter.AcceptedIff` | ante/cosmos/authz.go:44-77 | accepted if and only if everything unpacks, nothing disabled is granted or inside a MsgExec, and ranks among MsgExec siblings along every path to a MsgExec sum to at most five |
| `AuthzLimiter.AtMost31Exec` | ante/cosmos/authz.go:13-14 | an accepted transaction holds at most 31 MsgExec nodes |
| `AuthzLimiter.ThirtyOneExecAccepted` | ante/cosmos/authz.go:44-77 | 31 MsgExec nodes are reached |
| `AuthzLimiter.SixSiblingsRefused` | ante/cosmos/authz.go:55-58 | six MsgExec messages side by side are refused |

## Left out

- JSON text: gjson path syntax in keys (dots, wildcards, modifiers), duplicate member names and sjson's editing of raw text are not modelled; `Get` is map lookup and edits are map updates.
- TypeNames.SanitizeTypedef: the title caser upper-cases a first ASCII letter only; Unicode title casing and word breaks inside a sub-part are not modelled.
- MempoolIterator.Walk: the base fee read from the chain and the outcome of converting a transaction are parameters fixed over a run; the conversion itself is not modelled.
- KvIndexer.KVIndexer.IndexBlock: decoding transactions, parsing events and encoding records are inputs or values; errors of reading the store are not modelled.
- IndexDrivers.Service: the RPC client is reduced to which fetches succeed; a block result is taken to carry the height asked for; the races on the latest height are any order of header events.
- ResetLoop.RunMatches: safety only; what subpools do during a reset and whether scheduled steps ever happen are not modelled.
- BatchAdd.Add: a subpool is its filter and its answer to the one batch it gets; each answer has one slot per transaction, as the Go code assumes.
- Admission.NoOverdraft: the pool is what its callbacks report; price-bump rules, eviction and head changes of a concrete pool are not modelled.
- FeeChecker.CheckFee: the fallbacks at height zero and before the London fork, and overflow panics of big decimals, are not modelled; the fee is the amount in the EVM denomination.
- Stateless transaction validation, the blob checks and the read-only aggregations of TxPool: straight lines of comparisons or single loops.
- The heap's Push, Empty and Clear, and the codec's MarshalTo: settled by one line each.
- App wiring, JSON-RPC, keepers, precompiles, crypto and the legacy EIP-712 encoder: plumbing, foreign calls or reflection.
