# Skandha: a verified model of its stateful core

Skandha is an ERC-4337 bundler with a peer-to-peer layer. This project models, in Dafny, the parts of
it that keep state, and proves what every step keeps, what whole runs guarantee, and, where the code
falls short of what its documentation suggests, the exact condition under which it does not.

- **Mempool, bundle builder, relayers.** `MempoolEntry.dfy`, `Mempool.dfy` (key list, entry table and
  hash index under one mutex), `MempoolBlocks.dfy` (its blocks write by write), `Bundle.dfy` (the greedy
  loop of `createBundle`), `StorageMap.dfy` (the merge of storage maps, on heap objects),
  `BundlingSystem.dfy`, a transition system in which the bundler, any number of relayers and any other
  writer of the mempool interleave write by write, `BundlingRuns.dfy`, what particular runs of it come to,
  and `LostOperations.dfy`, which operations such runs lose.
- **Peer cache.** `PeerDatastore.dfy`: a write-back LRU cache over a database, refined to one plain map.
- **Queues and scheduling.** `LinkedList.dfy` (a doubly linked list on the heap), `GossipQueue.dfy` on
  top of it, `NetworkProcessor.dfy` (a scheduler over such queues, with a ledger of every message).
- **Rate limiting.** `Gcra.dfy` (the generic cell rate algorithm, see the ATM Forum Traffic Management
  Specification 4.0, section 4.4.2) and `ReqRespRateLimiter.dfy` with its clean-up.
- **Trace analysis.** `CallTree.dfy`, `AccessInfo.dfy` (folds over call trees that carry accumulators)
  and `TraceParser.dfy` (a stack parser and a recursive parser).
- **Peer scores.** `PeerScore.dfy` (one score) and `PeerScoreStore.dfy` (all of them).
- **Wire formats.** `BufferedSource.dfy`, `ErrorMessage.dfy`, `Text.dfy`, `ProtocolId.dfy`, `GossipTopic.dfy`.
- `Sorting.dfy` and `Wrappers.dfy` are shared helpers.

The usual shape: a function or relation on values says what one operation does; a class with the
source's fields has methods whose postconditions equate the new state with that function of the old
one; lemmas then prove the properties of single steps and, by induction, of all runs. Beside them stand
laws that say what an operation does in terms of fields and numbers alone, without the helper functions
it is specified by. Calls into code
that is not modelled (simulation, balances, reputation, fees, clocks, the exponential of the decay)
are parameters, arbitrary unless a lemma says otherwise. Amounts of gas and money are unbounded
naturals, as the source's `BigInt`s are; scores and limiter times are reals. "In flight" means: marked
by the bundler for the bundle it is preparing, or held by a relayer and not yet put back.

Where the code and its own words disagree, the model follows the code:

- Replacement promises fees "at least 10% higher"; the comparison rounds down
  (`MempoolEntries.TenPercentHigherExactlyWhen`), and an entry that is older than the time to live, or
  past the chain, is replaced whatever the fees.
- Messages of `createBundle` speak of deleting one operation; all candidates of the bundle are
  cancelled (`Bundles.BundlingService.CancelAll`).
- A paymaster remainder of exactly zero is taken for "not asked yet"
  (`Bundles.PaymasterOverspentExactlyWhen`).
- A first transient write to an address is looked up among ordinary writes
  (`AccessInfos.TransientCountsExactExactlyWhen`).
- `getReferencedContracts` discards what it finds below the first level
  (`CallTrees.NestedContractIsMissed`, `CallTrees.ForestIsReferencedExactlyWhen`).
- A LIFO gossip queue of capacity zero still holds one item (`GossipQueues.BoundHoldsExactlyWhen`).
- Replacing an operation while it is in flight gets it bundled twice
  (`BundlingRuns.ReplacementMakesTwoFromTheStart`), and an operation put back after a failed submission
  can be launched by another relayer before the first has finished its clean-up
  (`BundlingRuns.PutBackIsTakenFromTheStart`).
- `setNew` promises to put all operations of a failed bundle back; nothing but one of its writes ever puts
  an operation in flight back, and a relayer that throws before it submits, or in `setNew` itself, strands
  its operations. `LostOperations.InFlightDecides` says of every step exactly which operations it puts
  back and which it strands; `LostOperations.AbortStrandsFromTheStart` and
  `LostOperations.FailedPutBackStrandsFromTheStart` give runs.
- An operation that is accepted as the replacement of a candidate is overwritten by the bundler's older
  copy, if and only if the bundler has a write left under its key
  (`LostOperations.AddedOutlivesMarksExactlyWhen`, `LostOperations.ReplacedCandidateIsLostFromTheStart`).
- The purge of old operations removes what it has read, not what is stored by then
  (`Mempools.ReplacementIsPurged`, `Mempools.PurgeTakesUnexpiredExactlyWhen`).
- A block of the mempool that throws between its writes can leave a listed key without an entry, and then
  the mempool reads as empty (`MempoolBlocks.InterruptedKeepsIntegrityExactlyWhen`).

## Model

| member | source | states |
|---|---|---|
| `BundlingSystems.RunsAreSafe` | packages/executor/src/services/BundlingService/service.ts:367-466 | in every run in which no operation in flight is replaced: no key is in two bundles in flight, none is stored as New, there are at most as many bundles in flight as relayers, and a launched bundle always finds a free relayer |
| `BundlingSystems.StepKeepsInv` | packages/executor/src/services/BundlingService/relayers/classic.ts:18-194 | the invariant behind it is kept by every single write and lookup of bundler, relayers and any other actor, failing ones and testing mode included, in any order |
| `BundlingSystems.InvIsSafe` | packages/executor/src/services/BundlingService/service.ts:367-466 | the invariant implies the four safety properties |
| `BundlingSystems.LaunchKeepsInv` | packages/executor/src/services/BundlingService/relayers/classic.ts:18-33 | a bundle goes to an unlocked relayer, one always exists, and the hand-over keeps held keys disjoint |
| `BundlingSystems.FirstFree` | packages/executor/src/services/BundlingService/relayers/base.ts:93-99 | the first unlocked relayer, or the length when all are locked |
| `BundlingSystems.MarkKeepsInv` | packages/executor/src/services/BundlingService/service.ts:450-454 | marking an entry Pending, and then counting its attempt, keeps the invariant with any other step in between |
| `BundlingSystems.FetchKeepsInv` | packages/executor/src/services/BundlingService/service.ts:378-411 | candidates stored as New are held by no relayer |
| `BundlingSystems.ChooseKeepsInv` | packages/executor/src/services/BundlingService/service.ts:448-449 | narrowing candidates to a bundle keeps the invariant |
| `BundlingSystems.WriteKeepsInv` | packages/executor/src/services/BundlingService/relayers/base.ts:237-276 | each write of setSubmitted, setCancelled, setReverted and setNew keeps the invariant; an operation put back as New is no longer in flight |
| `BundlingSystems.FailedWriteKeepsInv` | packages/executor/src/services/BundlingService/relayers/classic.ts:127-193 | so does a write that throws, whatever the life cycle goes on to |
| `BundlingSystems.WaitingKeepsInv` | packages/executor/src/services/BundlingService/relayers/base.ts:70-91 | every tick and every lookup of the wait for entries keeps the invariant, scans overlapping or not |
| `BundlingSystems.FailKeepsInv` | packages/executor/src/services/BundlingService/relayers/base.ts:101-140 | blaming one operation of a failed bundle, perhaps with a stale entry, keeps the invariant |
| `BundlingSystems.MempoolKeepsInv` | packages/executor/src/services/MempoolService/service.ts:110-213 | additions of keys not in flight, stale status writes, removals and clearing keep the invariant |
| `BundlingRuns.AddKeepsInvExactlyWhen` | packages/executor/src/services/MempoolService/service.ts:177-187 | an accepted operation keeps the invariant if and only if its key is not in flight |
| `BundlingRuns.ReplacementMakesTwo` | packages/executor/src/services/MempoolService/service.ts:177-187 | from every state with a free slot in which a held operation is replaced, some path puts it into a second bundle in flight |
| `BundlingRuns.ReplacementMakesTwoFromTheStart` | packages/executor/src/services/MempoolService/service.ts:177-187 | such paths exist from every initial system with two relayers and a stored New operation that may be replaced once bundled |
| `BundlingRuns.PutBackIsTakenAtOnce` | packages/executor/src/services/BundlingService/relayers/classic.ts:150-156 | with a free slot, an operation just put back can be launched elsewhere while the first relayer still works through its bundle |
| `BundlingRuns.PutBackIsTakenFromTheStart` | packages/executor/src/services/BundlingService/relayers/classic.ts:150-156 | such a path exists from every initial system with two relayers and a stored New operation, without any replacement |
| `BundlingRuns.SharedOnlyAfterPutBack` | packages/executor/src/services/BundlingService/relayers/classic.ts:150-156 | two busy relayers share an operation only if one of them has put it back already |
| `LostOperations.InFlightDecides` | packages/executor/src/services/BundlingService/relayers/classic.ts:33-193 | for every step and every operation in flight it does not add: new again if and only if the step is a write of setNew under its key, stranded if and only if its bundler's write fails or its relayer drops the bundle, done with it or not, and in flight otherwise |
| `LostOperations.RelayerStepDecides` | packages/executor/src/services/BundlingService/relayers/classic.ts:120-193 | the same for the steps of relayers |
| `LostOperations.BundlerStepDecides` | packages/executor/src/services/BundlingService/service.ts:450-466 | the same for the steps of the bundler: only a failed write lets go |
| `LostOperations.OnlySetNewPutsBack` | packages/executor/src/services/BundlingService/relayers/base.ts:274-276 | in every run without replacement an operation in flight stays in flight or stranded, and never New, until setNew writes it or its key is added |
| `LostOperations.AbortStrands` | packages/executor/src/services/BundlingService/relayers/classic.ts:33-120 | a relayer that throws before it submits leaves every operation of its bundle in no bundle and not New |
| `LostOperations.FailedPutBackStrands` | packages/executor/src/services/BundlingService/relayers/classic.ts:150-156 | so does a setNew that throws, for every operation not yet put back |
| `LostOperations.FailedMarkStrands` | packages/executor/src/services/BundlingService/service.ts:450-454 | so does a bundler whose write throws, for the operations it has marked |
| `LostOperations.StrandedForGood` | packages/executor/src/services/BundlingService/service.ts:367-466 | in every run such an operation stays in no bundle and never New, until its key is added anew: it is never bundled again |
| `LostOperations.AbortStrandsFromTheStart` | packages/executor/src/services/BundlingService/relayers/classic.ts:33-120 | from every initial system with a relayer and a stored New operation some run leaves it Pending and stranded after an abort |
| `LostOperations.FailedPutBackStrandsFromTheStart` | packages/executor/src/services/BundlingService/relayers/classic.ts:150-156 | and, outside testing mode, another one after a failed submission whose setNew throws |
| `LostOperations.NewIsOverwrittenExactlyWhen` | packages/executor/src/services/BundlingService/service.ts:450-454 | a step of bundler or relayers overwrites an entry stored as New if and only if it marks it Pending or blames it |
| `LostOperations.AddedOutlivesMarksExactlyWhen` | packages/executor/src/services/BundlingService/service.ts:378-454 | an operation accepted while the bundler writes to its bundle is stored afterwards if and only if no write was left under its key; otherwise the bundler's copy stands there and the accepted hash leads to it |
| `LostOperations.UnwrittenAndNotInFlight` | packages/executor/src/services/BundlingService/service.ts:378-454 | for an operation not in flight that means: its key is claimed and not yet marked |
| `LostOperations.ReplacedCandidateIsLostFromTheStart` | packages/executor/src/services/BundlingService/service.ts:378-454 | from every initial system with a relayer and a replaceable New operation some run without replacement in flight launches the old copy and has the accepted one overwritten |
| `BundlingRuns.NewIsBundled` | packages/executor/src/services/BundlingService/service.ts:377-466 | an operation stored as New is launched in five steps, whoever else holds it |
| `BundlingRuns.WriteStores` | packages/executor/src/services/BundlingService/relayers/base.ts:237-276 | a relayer's write stores the entry it has come to as Cancelled, Submitted, Reverted or New, by its phase, and nothing else |
| `BundlingRuns.WriteMovesOn` | packages/executor/src/services/BundlingService/relayers/classic.ts:106-156 | after the last write a cancelled or reverted bundle frees its relayer, a submitted one is waited for unless testing, one put back is looked at for an operation to blame |
| `BundlingRuns.FailedWriteMovesOn` | packages/executor/src/services/BundlingService/relayers/classic.ts:127-193 | a write that throws stores nothing; after a submission the bundle is put back unless testing, elsewhere the relayer is freed |
| `BundlingRuns.LockedMovesOn` | packages/executor/src/services/BundlingService/relayers/classic.ts:106-156 | what validation, submission and exceptions make of a locked relayer, in testing mode and outside it |
| `BundlingRuns.FailMovesOn` | packages/executor/src/services/BundlingService/relayers/base.ts:101-140 | blaming frees the relayer and stores the operation named, and no other, as Reverted |
| `BundlingRuns.MarkMovesOn` | packages/executor/src/services/BundlingService/service.ts:450-454 | the bundle is written once with status Pending and then once with one more attempt, entry by entry |
| `BundlingRuns.BundlerMovesOn` | packages/executor/src/services/BundlingService/service.ts:367-466 | as many slots as free relayers, one taken for each choice, and the bundle goes to the first free relayer and no other |
| `BundlingRuns.WritesUpdateStatus` | packages/executor/src/services/BundlingService/relayers/base.ts:237-276 | left alone, a writing phase stores the whole bundle with its status, as one updateStatus call does, and ends in the phase that follows |
| `BundlingRuns.LookDecides` | packages/executor/src/services/BundlingService/relayers/base.ts:80-88 | a lookup that finds New, Pending or Submitted ends its scan and leaves the relayer waiting; one that fails, or finds nothing, OnChain, Finalized, Cancelled or Reverted, moves it on; past the last entry the relayer is free |
| `BundlingRuns.TickDecides` | packages/executor/src/services/BundlingService/relayers/base.ts:74-79 | three ticks start a scan each, the fourth gives the bundle up |
| `BundlingRuns.FreedOnlyByFullScan` | packages/executor/src/services/BundlingService/relayers/base.ts:70-91 | in every run a relayer goes from waiting to free only through one scan that has looked up every entry, each lookup having failed or found its key absent or stored with one of those four statuses |
| `BundlingRuns.ScanEnds` | packages/executor/src/services/BundlingService/relayers/base.ts:80-88 | left alone, a scan frees the relayer if all remaining entries are done and is over otherwise, whatever other scans are going on |
| `BundlingRuns.WaitEnds` | packages/executor/src/services/BundlingService/relayers/base.ts:70-91 | left alone, with each scan over before the next tick, waiting frees the relayer if every entry is gone or on chain with retries left, and otherwise goes on to revert |
| `BundlingSystems.CandidatesCanBeFetched` | packages/executor/src/services/BundlingService/service.ts:378-381 | the sorted and the grouped answers of the mempool, any page of them, are stored as New, each key once |
| `BundlingSystems.ChosenCanBeMarked` | packages/executor/src/services/BundlingService/service.ts:119-138 | what createBundle picks from such candidates has distinct keys, all of them candidates' keys |
| `Mempools.RunsKeepIntegrity` | packages/executor/src/services/MempoolService/service.ts:110-213 | after every run of adds, replacements, updates (stale ones too), removals and clearings: no duplicate keys, every listed key stored, every entry under its own key |
| `Mempools.EventKeepsIntegrity` | packages/executor/src/services/MempoolService/service.ts:311-328 | every mutex-protected block keeps that integrity |
| `MempoolBlocks.WritesMakeTheBlock` | packages/executor/src/services/MempoolService/service.ts:135-213 | the database writes of a block, one after the other, come to the block |
| `MempoolBlocks.InterruptedKeepsIntegrityExactlyWhen` | packages/executor/src/services/MempoolService/service.ts:135-213 | a block that throws after n writes leaves integrity intact if and only if these do not end between listing a new key and storing it, or between deleting a listed entry and its key; otherwise a reader of all entries is answered nothing |
| `MempoolBlocks.StaysMissingExactlyWhen` | packages/executor/src/services/MempoolService/service.ts:269-275 | and that lasts until a block stores the entry or takes the key off the list |
| `MempoolBlocks.RetryListsTwice` | packages/executor/src/services/MempoolService/service.ts:197-204 | an addition that threw after listing its key and is tried again lists the operation twice |
| `MempoolBlocks.InterruptedKeepsIndexExactlyWhen` | packages/executor/src/services/MempoolService/service.ts:177-204 | a block that throws before its last write leaves every entry findable by its hash if and only if it has not stored an entry whose hash leads elsewhere |
| `Mempools.FreshRunsKeepIndex` | packages/executor/src/services/MempoolService/service.ts:330-340 | without stale updates, and with hashes that determine operations, every stored entry is listed and found by its own hash |
| `Mempools.UpdateKeepsIndexExactlyWhen` | packages/executor/src/services/MempoolService/service.ts:311-315 | an update keeps the index if and only if its key is stored and its hash is indexed to it |
| `Mempools.StaleUpdateLosesOperation` | packages/executor/src/services/MempoolService/service.ts:311-328 | an operation is added, reverted, removed, and written back by a writer that still held it: a new operation under its key is then stored but never listed |
| `Mempools.AddedExactlyWhen` | packages/executor/src/services/MempoolService/service.ts:177-204 | an addition succeeds if and only if its key is free and the reputation checks pass, or what is stored is more than 1000 times the time to live older, past OnChain, or the same operation with both fees reached by eleven tenths rounded down |
| `Mempools.AddedIsStored` | packages/executor/src/services/MempoolService/service.ts:177-204 | it is then stored with the time of the addition, listed last if its key was free, found by its hash, and the hash replaced is forgotten |
| `Mempools.LiveIsNotReplaced` | packages/executor/src/entities/MempoolEntry.ts:119-157 | in every run an operation that is New, Pending, Submitted or OnChain stays as it is until it is rewritten or removed, outbid by the same operation, or met by an addition later than the time to live after it was written |
| `Mempools.LateAdditionReplaces` | packages/executor/src/entities/MempoolEntry.ts:152-157 | after that time any addition under its key replaces it |
| `Mempools.MempoolService.AddUserOp` | packages/executor/src/services/MempoolService/service.ts:177-213 | adds, replaces or rejects exactly as specified, and fails although it has stored the operation when the reputation service cannot be told; what was stored is found by its hash |
| `Mempools.MempoolService.Update` | packages/executor/src/services/MempoolService/service.ts:311-315 | writes under the entry's own key whatever is there, and keeps integrity |
| `Mempools.MempoolService.UpdateStatus` | packages/executor/src/services/MempoolService/service.ts:110-133 | stores each entry of the list with its new status, in order |
| `Mempools.MempoolService.AttemptToBundle` | packages/executor/src/services/MempoolService/service.ts:145-151 | stores each entry with one more attempt, status untouched |
| `Mempools.MempoolService.Remove` | packages/executor/src/services/MempoolService/service.ts:317-328 | removes the key from list and table and keeps the rest, hash index included |
| `Mempools.MempoolService.ClearState` | packages/executor/src/services/MempoolService/service.ts:135-143 | deletes every listed entry and the list; the hash index stays |
| `Mempools.OtherBlocksByField` | packages/executor/src/services/MempoolService/service.ts:135-143 | what updates, removals and clearings do to each key; none touches the hash index |
| `Mempools.MempoolService.FetchAll` | packages/executor/src/services/MempoolService/service.ts:269-275 | answers every listed entry in list order: with integrity no key is ever missing |
| `Mempools.MempoolService.GetNewEntriesSorted` | packages/executor/src/services/MempoolService/service.ts:85-91 | answers the page of candidates specified by `Candidates`, offset included |
| `Mempools.CandidatesAreDearest` | packages/executor/src/services/MempoolService/service.ts:85-91 | a page's entries are listed and New, dearest first; with those before and after it they are all new entries, and no later one pays more |
| `Mempools.PagesPartitionNewEntries` | packages/executor/src/services/P2PService.ts:19-35 | following the cursors through an unchanged mempool gives the hash of every new entry exactly once, dearest first, hashes of another length than 66 left out |
| `Mempools.MempoolService.GetEntryByHash` | packages/executor/src/services/MempoolService/service.ts:77-83 | answers the entry the index leads to; with a sound index, the listed entry with that hash |
| `Mempools.MempoolService.DeleteOldUserOps` | packages/executor/src/services/MempoolService/service.ts:225-239 | removes the expired among the entries fetched, one after the other, with any blocks of other callers before each removal |
| `Mempools.PurgeRemovesExactlyExpired` | packages/executor/src/services/MempoolService/service.ts:225-239 | whatever other callers do to other keys in the meantime, a purge keeps a listed entry, unchanged, if and only if it is not yet OnChain, Finalized, Cancelled or Reverted, or was written less than the archive duration in seconds ago |
| `Mempools.PurgeTouchesOnlyExpired` | packages/executor/src/services/MempoolService/service.ts:225-239 | with any blocks of other callers between its removals, a purge leaves every key it has not read as expired as those blocks alone would |
| `Mempools.PurgeRemovesWhateverIsStored` | packages/executor/src/services/MempoolService/service.ts:317-328 | and what it has read as expired is gone afterwards, whatever was stored in between, unless it is stored anew after its removal |
| `Mempools.PurgeIsOneRemoval` | packages/executor/src/services/MempoolService/service.ts:225-239 | under each key read as expired a purge comes to a single removal among the other callers' blocks |
| `Mempools.PurgeTakesUnexpiredExactlyWhen` | packages/executor/src/services/MempoolService/service.ts:225-239 | a removal takes an operation that is not expired if and only if the other callers' blocks before it leave one there by themselves |
| `Mempools.ReplacementIsPurged` | packages/executor/src/services/MempoolService/service.ts:225-239 | so an operation that replaces an expired one between the reading and the removal is removed although it is New |
| `MempoolEntries.TenPercentHigherExactlyWhen` | packages/executor/src/entities/MempoolEntry.ts:119-143 | every replacement of a live operation pays ten per cent more if and only if both old fees are multiples of ten |
| `MempoolEntries.StatusSetsFields` | packages/executor/src/entities/MempoolEntry.ts:83-117 | which of transaction, actual transaction and revert reason each status change writes; all else stays |
| `MempoolEntries.SameKeyExactlyWhen` | packages/executor/src/services/MempoolService/service.ts:264-267 | two keys are equal if and only if chain, sender (up to case) and nonce are |
| `MempoolEntries.KeySpacesAreDisjoint` | packages/executor/src/services/MempoolService/service.ts:38-39 | entry keys, the key list's key and hash keys never collide in the shared database |
| `MempoolEntries.SortIsSortedPermutation` | packages/executor/src/entities/MempoolEntry.ts:166-175 | sorting by cost puts the dearest first and neither loses nor invents entries |
| `MempoolEntries.SortIsStable` | packages/executor/src/entities/MempoolEntry.ts:166-175 | entries of equal fee keep their order |
| `MempoolEntries.GroupingKeepsEachSender` | packages/executor/src/entities/MempoolEntry.ts:177-184 | grouping keeps each sender's entries and their order |
| `MempoolEntries.GroupsFollowFirstEntries` | packages/executor/src/entities/MempoolEntry.ts:177-184 | of two groups the one stands first whose sender has the first entry |
| `MempoolEntries.GroupingIsPermutation` | packages/executor/src/entities/MempoolEntry.ts:177-184 | grouping neither loses nor invents entries |
| `MempoolEntries.GroupsAreContiguous` | packages/executor/src/entities/MempoolEntry.ts:177-184 | the entries of one sender stand next to each other |
| `Bundles.BundlingService.CreateBundle` | packages/executor/src/services/BundlingService/service.ts:119-353 | the bundle consists of the chosen candidates with their merged storage map; its fees are the averages, rounded down, of the operations' maxFeePerGas and maxPriorityFeePerGas, each capped by the chain's, or the chain's own on Fuse; the store is untouched, or all candidates are cancelled |
| `Bundles.BundlingService.Choose` | packages/executor/src/services/BundlingService/service.ts:138-321 | the loop with its running aggregates computes the specified choice and the two fee sums |
| `Bundles.BundlingService.Consider` | packages/executor/src/services/BundlingService/service.ts:139-313 | one turn of the loop takes, skips or cancels as specified |
| `Bundles.BundlingService.Settle` | packages/executor/src/services/BundlingService/service.ts:264-313 | charges the paymaster and takes the candidate in, or records the balance and skips it |
| `Bundles.BundlingService.CancelAll` | packages/executor/src/services/BundlingService/service.ts:198-202 | all candidates end up stored as Cancelled, and no other key changes |
| `Bundles.ChosenExactlyWhen` | packages/executor/src/services/BundlingService/service.ts:138-313 | a candidate is chosen if and only if it is sound, no earlier chosen one has its sender, and its paymaster's recorded remainder covers its prefund |
| `Bundles.ChosenAreSound` | packages/executor/src/services/BundlingService/service.ts:139-262 | a chosen operation fits gas and price, validated, and touches no address that is another candidate's sender |
| `Bundles.FitsExactlyWhen` | packages/executor/src/services/BundlingService/service.ts:139-186 | a candidate fits if and only if its gas, eleven tenths of three times the verification gas, the call gas and 200000, rounded down, plus the paymaster's, is within the limit, and, where enforced, both fees reach the chain's up to the threshold in ten thousandths |
| `Bundles.ChosenSendersAreDistinct` | packages/executor/src/services/BundlingService/service.ts:220-226 | chosen senders are pairwise distinct |
| `Bundles.Chosen` | packages/executor/src/services/BundlingService/service.ts:138-313 | the chosen positions are strictly increasing: a subsequence of the candidates |
| `Bundles.LaterChoicesKeepEarlier` | packages/executor/src/services/BundlingService/service.ts:138-313 | later turns neither take back nor add earlier candidates |
| `Bundles.DepositsAreRecorded` | packages/executor/src/services/BundlingService/service.ts:264-288 | a sound candidate with a free sender records its paymaster's deposit, asked for unless a remainder other than zero is recorded, less the prefund, or as it is when it falls short; no other candidate records anything |
| `Bundles.PaymasterOverspentExactlyWhen` | packages/executor/src/services/BundlingService/service.ts:264-288 | with a constant balance, a paymaster's chosen prefunds stay within it if and only if nothing is charged once a candidate has found its remainder at exactly zero |
| `Bundles.ExactUntilZero` | packages/executor/src/services/BundlingService/service.ts:264-288 | until then prefunds spent and recorded remainder add up to the balance |
| `Bundles.ZeroRemainderOverspends` | packages/executor/src/services/BundlingService/service.ts:266-272 | two operations that each need the whole balance are both chosen |
| `Bundles.BundleFeeIsFair` | packages/executor/src/services/BundlingService/service.ts:330-350 | a capped average is at most what the chain asks and the dearest operation offers, and at least what the cheapest offers unless it is what the chain asks |
| `Bundles.CancelledExactlyWhen` | packages/executor/src/services/BundlingService/service.ts:187-246 | the candidates are cancelled if and only if one that fits has a banned entity, or fails validation while no earlier chosen operation has its sender |
| `Bundles.StorageIsMergeOfChosen` | packages/executor/src/services/BundlingService/service.ts:299-312 | the bundle's storage map is the merge, in order, of the account roots and validation maps of its operations, or empty where networks do not need it |
| `Bundles.CancellingCancelsAll` | packages/executor/src/services/MempoolService/service.ts:110-133 | writing a list of cancelled entries cancels exactly their keys |
| `StorageMaps.MergeStorageMap` | packages/executor/src/utils/mergeStorageMap.ts:13-37 | merges in place into the first map's objects; the second map and its slot objects are not changed |
| `StorageMaps.MergeEntryInto` | packages/executor/src/utils/mergeStorageMap.ts:17-35 | one address: a root replaces, slots join slots, slots under a root are ignored |
| `StorageMaps.MergeIsAssociative` | packages/executor/src/utils/mergeStorageMap.ts:13-37 | the merge is associative |
| `StorageMaps.EmptyIsIdentity` | packages/executor/src/utils/mergeStorageMap.ts:13-37 | the empty map is its identity on both sides |
| `StorageMaps.RootsStay` | packages/executor/src/utils/mergeStorageMap.ts:18-23 | a root, once there, is only ever replaced by another root |
| `StorageMaps.OrderDoesNotMatter` | packages/executor/src/utils/mergeStorageMap.ts:3-12 | agreeing maps merge to the same result in any order and with any repetition |
| `StorageMaps.OrderMattersExactlyWhen` | packages/executor/src/utils/mergeStorageMap.ts:13-37 | two maps commute if and only if they agree on every common root and slot |
| `StorageMaps.MergeAllDescribes` | packages/executor/src/services/BundlingService/service.ts:299-312 | the merge of an agreeing list has exactly the roots and slots its members mention |
| `PeerDatastores.RunsBehaveAsOneMap` | packages/node/src/network/peers/datastore.ts:60-125 | in every run of put, get and delete, with evictions and failing commits, every answer is the one a plain map gives |
| `PeerDatastores.RunsStayDurable` | packages/node/src/network/peers/datastore.ts:68-89 | in every state what is clean in memory is in the database, memory is bounded, and while commits succeed fewer than `threshold` keys are dirty |
| `PeerDatastores.StepRefinesMap` | packages/node/src/network/peers/datastore.ts:60-125 | one operation changes the map the cache stands for, and answers, as the plain map would |
| `PeerDatastores.StepKeepsOk` | packages/node/src/network/peers/datastore.ts:68-186 | one operation keeps durability and both bounds |
| `PeerDatastores.PutByFields` | packages/node/src/network/peers/datastore.ts:68-164 | a put is exactly this: room for one item, the value in memory with the time, its key marked, and from the threshold on, if the commit works, all marked values still in memory in the database and no marks |
| `PeerDatastores.GetAndDeleteByFields` | packages/node/src/network/peers/datastore.ts:97-125 | what a get or delete makes of memory, marks and database, found or not |
| `PeerDatastores.EvictionIsInvisible` | packages/node/src/network/peers/datastore.ts:169-186 | eviction leaves the map unchanged |
| `PeerDatastores.CommitIsInvisible` | packages/node/src/network/peers/datastore.ts:154-164 | a batch commit leaves the map unchanged |
| `PeerDatastores.StampsAreLastAccesses` | packages/node/src/network/peers/datastore.ts:74-103 | in every run a memory item's stamp is the time of the last put or get of its key |
| `PeerDatastores.EvictsLeastRecent` | packages/node/src/network/peers/datastore.ts:169-186 | a key leaves memory without a delete only when memory is full, and no key kept was accessed at an earlier time |
| `PeerDatastores.ForwardClockEnds` | packages/node/src/network/peers/datastore.ts:69-72 | under a clock that never steps back every operation of every run ends within one turn of the eviction loop |
| `PeerDatastores.TurnsUntilClockCatchesUp` | packages/node/src/network/peers/datastore.ts:169-180 | under any clock the loop ends within some readings if and only if there is room or one of them comes within a second of the oldest access |
| `PeerDatastores.Eth2PeerDataStore.constructor` | packages/node/src/network/peers/datastore.ts:20-50 | starts with empty memory over the given database |
| `PeerDatastores.Eth2PeerDataStore.Create` | packages/node/src/network/peers/datastore.ts:32-41 | fails exactly on thresholds and sizes that are not 0 < threshold <= maxMemoryItems |
| `PeerDatastores.Eth2PeerDataStore.Put` | packages/node/src/network/peers/datastore.ts:60-62 | for any clock: is a put step once room is made, and changes nothing before |
| `PeerDatastores.Eth2PeerDataStore.PutItem` | packages/node/src/network/peers/datastore.ts:68-89 | makes room, stores, and marks dirty unless loading from the database |
| `PeerDatastores.Eth2PeerDataStore.MakeRoom` | packages/node/src/network/peers/datastore.ts:69-72 | evicts at most one item, on the first turn whose reading finds one, and ends exactly then or when there is room |
| `PeerDatastores.Eth2PeerDataStore.PruneMemoryDatastore` | packages/node/src/network/peers/datastore.ts:169-186 | moves a least recently accessed item to the database; finds none if and only if all stamps lie a second or more ahead |
| `PeerDatastores.Eth2PeerDataStore.AddDirtyItem` | packages/node/src/network/peers/datastore.ts:144-152 | commits from the threshold on; a failed commit changes nothing but the mark |
| `PeerDatastores.Eth2PeerDataStore.CommitData` | packages/node/src/network/peers/datastore.ts:154-164 | all dirty items still in memory reach the database, and none is dirty |
| `PeerDatastores.Eth2PeerDataStore.Get` | packages/node/src/network/peers/datastore.ts:97-111 | for any clock: is a get step, memory first, then database with a load back once room is made |
| `PeerDatastores.Eth2PeerDataStore.Has` | packages/node/src/network/peers/datastore.ts:113-120 | tells whether the plain map has the key, with the effects of a get |
| `PeerDatastores.Eth2PeerDataStore.Delete` | packages/node/src/network/peers/datastore.ts:122-125 | is a delete step and keeps the cache valid |
| `LinkedLists.LinkedList.constructor` | packages/utils/src/array.ts:40-44 | a valid empty chain |
| `LinkedLists.LinkedList.Push` | packages/utils/src/array.ts:50-67 | appends one element to the contents; head, tail, prev, next and length describe one acyclic chain again |
| `LinkedLists.LinkedList.Pop` | packages/utils/src/array.ts:69-83 | takes off and answers the last element, or null when empty |
| `LinkedLists.LinkedList.Shift` | packages/utils/src/array.ts:85-99 | takes off and answers the first element, or null when empty |
| `LinkedLists.LinkedList.Clear` | packages/utils/src/array.ts:101-104 | empties the list |
| `LinkedLists.LinkedList.ToArray` | packages/utils/src/array.ts:106-117 | walks the chain and answers exactly the contents |
| `LinkedLists.LinkedList.Map` | packages/utils/src/array.ts:119-130 | answers the images of the contents, in order |
| `GossipQueues.GossipQueue.Add` | packages/node/src/network/processor/gossipQueues.ts:40-57 | queue and dropped item are as specified, on the linked list |
| `GossipQueues.GossipQueue.Next` | packages/node/src/network/processor/gossipQueues.ts:59-67 | serves the first item of a FIFO, the last of a LIFO |
| `GossipQueues.GossipQueue.GetAll` | packages/node/src/network/processor/gossipQueues.ts:69-71 | answers the items in order |
| `GossipQueues.GossipQueue.Clear` | packages/node/src/network/processor/gossipQueues.ts:36-38 | empties the queue |
| `GossipQueues.FifoKeepsAcceptedOrder` | packages/node/src/network/processor/gossipQueues.ts:40-67 | in every run what was accepted is what was served followed by what is queued |
| `GossipQueues.FifoRefusesNewest` | packages/node/src/network/processor/gossipQueues.ts:43-51 | a full FIFO refuses exactly the newcomer |
| `GossipQueues.LifoKeepsNewest` | packages/node/src/network/processor/gossipQueues.ts:43-48 | in every run a LIFO is the newest part of the unbounded stack |
| `GossipQueues.LifoServesTop` | packages/node/src/network/processor/gossipQueues.ts:59-63 | what a LIFO serves is the top of that stack |
| `GossipQueues.QueueConserves` | packages/node/src/network/processor/gossipQueues.ts:40-67 | every item offered is queued, dropped or served, exactly once |
| `GossipQueues.QueueStaysBounded` | packages/node/src/network/processor/gossipQueues.ts:43-54 | no run exceeds maxLength when it is at least one, or the queue a FIFO |
| `GossipQueues.BoundHoldsExactlyWhen` | packages/node/src/network/processor/gossipQueues.ts:43-54 | the bound holds in all runs if and only if the queue is not a LIFO of capacity zero |
| `NetworkProcessors.CreateGossipQueues` | packages/node/src/network/processor/gossipQueues.ts:90-94 | every topic gets an empty queue object of its own, sharing nothing with the others |
| `NetworkProcessors.NetworkProcessor.constructor` | packages/node/src/network/processor/index.ts:39-59 | queues are empty, counters zero, and the ledger has no message |
| `NetworkProcessors.NetworkProcessor.PushPendingGossipsubMessageToQueue` | packages/node/src/network/processor/index.ts:91-100 | an arrival is queued or refused and then work is submitted; queue objects, counters and ledger stay in step |
| `NetworkProcessors.NetworkProcessor.ExecuteWork` | packages/node/src/network/processor/index.ts:102-135 | the labelled loop submits the jobs `Work` specifies, in order |
| `NetworkProcessors.NetworkProcessor.SubmitNext` | packages/node/src/network/processor/index.ts:106-130 | one pass submits from the first topic below its limit with a message, or from none |
| `NetworkProcessors.NetworkProcessor.JobFinished` | packages/node/src/network/processor/index.ts:119-121 | a finished job leaves the counter and moves in the ledger |
| `NetworkProcessors.NetworkProcessor.DropAllJobs` | packages/node/src/network/processor/index.ts:68-72 | empties every queue; the ledger records what was dropped |
| `NetworkProcessors.RunsConserveJobs` | packages/node/src/network/processor/index.ts:91-135 | in every reachable state: received = dropped + queued + in flight + finished as multisets per topic, counters equal jobs in flight, and with limit m never exceed m + 1 |
| `NetworkProcessors.EventKeepsLanes` | packages/node/src/network/processor/index.ts:91-135 | every event keeps that conservation and that bound |
| `NetworkProcessors.LimitIsReached` | packages/node/src/network/processor/index.ts:105-117 | while messages of one topic arrive and none finishes, each starts a job until one more than the limit run, and none does after that |
| `NetworkProcessors.ArrivalStartsUpTo128` | packages/node/src/network/processor/index.ts:102-135 | after an arrival up to 128 jobs are submitted, fewer only when no topic may start one |
| `NetworkProcessors.DropAllByTopic` | packages/node/src/network/processor/index.ts:68-72 | dropping all jobs empties the queue of every served topic and leaves running jobs alone |
| `NetworkProcessors.WorkIsBoundedAndExhaustive` | packages/node/src/network/processor/index.ts:105-134 | one call submits at most its allowance (128), and fewer only when no job may start |
| `NetworkProcessors.WorkKeepsFifoOrder` | packages/node/src/network/processor/index.ts:105-134 | on a FIFO topic the jobs submitted are a prefix of the queue in order |
| `NetworkProcessors.NoLimitNeverQueues` | packages/node/src/network/processor/index.ts:107-116 | without a limit all queues are empty after every event of every run |
| `Gcra.RateLimiterGRCA.Allows` | packages/node/src/reqresp/rate_limiter/rateLimiterGRCA.ts:46-82 | answer and stored arrival times are those of `Request`; non-positive token counts fail and change nothing |
| `Gcra.RateLimiterGRCA.PruneByTime` | packages/node/src/reqresp/rate_limiter/rateLimiterGRCA.ts:84-92 | removes exactly the keys whose arrival time lies before the limit |
| `Gcra.RateLimiterGRCA.PruneByKey` | packages/node/src/reqresp/rate_limiter/rateLimiterGRCA.ts:94-96 | removes exactly that key |
| `Gcra.QuotaIsCapacity` | packages/node/src/reqresp/rate_limiter/rateLimiterGRCA.ts:34-44 | a positive quota gives a bucket that holds exactly `quota` tokens |
| `Gcra.AdmissionBounds` | packages/node/src/reqresp/rate_limiter/rateLimiterGRCA.ts:53-81 | an admitted request's arrival time lies between now plus its cost and now plus one bucket, and grows by at least its cost |
| `Gcra.ArrivalTimePays` | packages/node/src/reqresp/rate_limiter/rateLimiterGRCA.ts:46-82 | in every run the arrival time pays for all tokens admitted since an admitted request |
| `Gcra.WindowBound` | packages/node/src/reqresp/rate_limiter/rateLimiterGRCA.ts:46-82 | between two admitted requests of a key, both included, tokens times msPerToken is at most the time between them plus msPerBucket |
| `Gcra.WindowBoundAmidPrunes` | packages/node/src/reqresp/rate_limiter/rateLimiterGRCA.ts:46-92 | the same bound, from any event on, in runs that prune keys by limits not in the future |
| `Gcra.StepsAgree` | packages/node/src/reqresp/rate_limiter/rateLimiterGRCA.ts:18-20 | one request answers as, and stays in agreement with, a continuously refilled token bucket |
| `Gcra.RequestsAgree` | packages/node/src/reqresp/rate_limiter/rateLimiterGRCA.ts:46-82 | so does a request against all keys |
| `Gcra.SameAnswersAsTokenBucket` | packages/node/src/reqresp/rate_limiter/rateLimiterGRCA.ts:46-82 | in every run limiter and token buckets give the same answers |
| `Gcra.PruneGoesUnnoticedExactlyWhen` | packages/node/src/reqresp/rate_limiter/rateLimiterGRCA.ts:84-92 | a prune is indistinguishable if and only if every key it removes has a full bucket; limits not in the future guarantee it |
| `Gcra.RequestKeepsSame` | packages/node/src/reqresp/rate_limiter/rateLimiterGRCA.ts:46-82 | indistinguishable tables answer alike and stay indistinguishable |
| `Gcra.PrunesChangeNoAnswer` | packages/node/src/reqresp/rate_limiter/rateLimiterGRCA.ts:84-92 | prunes with limits not in the future change no answer of any run |
| `ReqRespRateLimiters.ReqRespRateLimiter.InitRateLimits` | packages/node/src/reqresp/rate_limiter/ReqRespRateLimiter.ts:37-64 | installs the limiters of a protocol as specified, the one per peer before the total quota is looked at; fails on a zero quota or time |
| `ReqRespRateLimiters.ReqRespRateLimiter.Allows` | packages/node/src/reqresp/rate_limiter/ReqRespRateLimiter.ts:66-86 | the peer limiter is asked first and the total limiter only after it agreed; a disabled limiter allows all |
| `ReqRespRateLimiters.ReqRespRateLimiter.PruneByPeerIdStr` | packages/node/src/reqresp/rate_limiter/ReqRespRateLimiter.ts:106-112 | forgets one peer on every protocol, and when it was seen |
| `ReqRespRateLimiters.ReqRespRateLimiter.CheckDisconnectedPeers` | packages/node/src/reqresp/rate_limiter/ReqRespRateLimiter.ts:114-124 | forgets exactly the peers idle for five minutes |
| `ReqRespRateLimiters.PassesExactlyWhenBothAdmit` | packages/node/src/reqresp/rate_limiter/ReqRespRateLimiter.ts:77-85 | a request passes if and only if both limiters admit it; a refusal by the peer limiter costs nothing in total, one by the total limiter alone is still charged to the peer |
| `ReqRespRateLimiters.AnsweredByNumbers` | packages/node/src/reqresp/rate_limiter/ReqRespRateLimiter.ts:66-86 | a request without tokens fails exactly on limited protocols; any other passes if and only if, in both limiters, it fits the bucket and the stored arrival time plus its cost is at most one bucket ahead |
| `ReqRespRateLimiters.ChargedExactlyWhenRoom` | packages/node/src/reqresp/rate_limiter/ReqRespRateLimiter.ts:66-86 | the peer's limiter is charged if and only if it has room, the one for all peers if and only if both have; a charge moves the arrival time on by the tokens' cost from now or from where it was |
| `ReqRespRateLimiters.RegisteredByNumbers` | packages/node/src/reqresp/rate_limiter/ReqRespRateLimiter.ts:37-64 | which quotas fail, and what the limiters installed hold: no arrival times, started now, the scaled quota in the time of the quota |
| `ReqRespRateLimiters.CleanupChangesNoAnswer` | packages/node/src/reqresp/rate_limiter/ReqRespRateLimiter.ts:114-124 | while per-peer buckets fill within five minutes, those of protocols registered on the way included, the clean-up changes no answer of any run |
| `ReqRespRateLimiters.AnswersAlike` | packages/node/src/reqresp/rate_limiter/ReqRespRateLimiter.ts:66-86 | a cleaned and an uncleaned limiter answer one request alike and stay alike |
| `ReqRespRateLimiters.CleanupKeepsAlike` | packages/node/src/reqresp/rate_limiter/ReqRespRateLimiter.ts:114-124 | cleaning up keeps them alike |
| `ReqRespRateLimiters.RegisterKeepsAlike` | packages/node/src/reqresp/rate_limiter/ReqRespRateLimiter.ts:37-64 | registering a protocol with a quick quota keeps them alike |
| `ReqRespRateLimiters.SlowBucketsShowTheCleanup` | packages/node/src/reqresp/rate_limiter/ReqRespRateLimiter.ts:8-9 | with any slower bucket the clean-up lets a request through that was to be refused |
| `TraceParsers.CustomTraceParser` | packages/executor/src/services/UserOpValidation/utils.ts:56-117 | the loop over the log with its stack computes `ParseFrom` |
| `TraceParsers.StackParserYieldsPostorder` | packages/executor/src/services/UserOpValidation/utils.ts:56-117 | on the log of any forest plus the final exit: all frames in post-order, then one "top" entry, and an empty stack |
| `TraceParsers.StoppedLogYieldsPrefix` | packages/executor/tracer.js:39-62 | when the tracer stops collecting, the parser yields the calls made so far, a prefix of what it yields otherwise, and no "top" entry |
| `TraceParsers.ParseOfCall` | packages/executor/tracer.js:39-62 | a call's log leaves the stack as it was and emits its frames in post-order |
| `TraceParsers.EntryByFields` | packages/executor/src/services/UserOpValidation/utils.ts:74-111 | on the log of any forest, the entry of a frame that creates a contract tells the length of the first 4000 characters of its output; any other is Reverted with parsed error or output if it has an error, otherwise Returned with decoded result or output; name, value, sender and target are the frame's |
| `TraceParsers.TopEntryByFields` | packages/executor/src/services/UserOpValidation/utils.ts:66-111 | the last entry is the top-level frame's, parsed as `validateUserOp`, without sender, target or value |
| `TraceParsers.RecordByKind` | packages/executor/src/services/UserOpValidation/utils.ts:63-116 | a record whose kind contains REVERT or RETURN takes one off the stack and makes an entry, one that starts with depth is passed over, any other goes onto the stack |
| `TraceParsers.NativeEntryByFields` | packages/executor/src/services/UserOpValidation/utils.ts:138-160 | the recursive parser's entry of a frame, field by field, and no entry of a depth frame |
| `TraceParsers.NativeTraceParser` | packages/executor/src/services/UserOpValidation/utils.ts:119-161 | appends the entries of the tree in post-order; the top-level calls are those of the first visited frame with calls from the entry point |
| `TraceParsers.TopLevelCalls` | packages/executor/src/services/UserOpValidation/utils.ts:130-136 | collects calls from the entry point unless some were found before |
| `TraceParsers.ParsersAgreeExactlyWhen` | packages/executor/src/services/UserOpValidation/utils.ts:56-161 | both parsers list the same kinds, senders and targets in the same order if and only if the forest has no "depth" frame |
| `TraceParsers.NativeKeepsAllExactlyWhen` | packages/executor/src/services/UserOpValidation/utils.ts:138-140 | without "depth" frames the recursive parser visits all frames, with one it visits fewer |
| `AccessInfos.GetAllAccesses` | packages/executor/src/services/UserOpValidation/validators/safe.ts:230-230 | called with nothing gathered, the fold accounts for every access of the tree, per address and slot: a DELEGATECALL frame's under its sender, any other frame's under its target |
| `AccessInfos.GetAccessInfo` | packages/executor/src/services/UserOpValidation/utils.ts:322-435 | the accumulator ends up describing the frames it described before and then all frames of the tree in pre-order |
| `AccessInfos.AddReads` | packages/executor/src/services/UserOpValidation/utils.ts:336-356 | one frame's reads are appended slot by slot |
| `AccessInfos.AddTransientReads` | packages/executor/src/services/UserOpValidation/utils.ts:358-381 | one frame's transient reads are appended slot by slot |
| `AccessInfos.AddWrites` | packages/executor/src/services/UserOpValidation/utils.ts:383-403 | one frame's write counts are added slot by slot |
| `AccessInfos.AddTransientWrites` | packages/executor/src/services/UserOpValidation/utils.ts:405-426 | one frame's transient write counts are added, save one at the very first access of an address |
| `AccessInfos.AccessesAreConserved` | packages/executor/src/services/UserOpValidation/utils.ts:322-435 | per address and slot: reads are the pre-order concatenation, writes the sum over the DELEGATECALL frames from the address and all other frames to it, and all key sets, transient writes included, exactly the slots those frames touched |
| `AccessInfos.EntryExactlyWhenAccessed` | packages/executor/src/services/UserOpValidation/utils.ts:334-426 | an address has an entry if and only if some frame of its own accessed anything |
| `AccessInfos.TransientCountsExactExactlyWhen` | packages/executor/src/services/UserOpValidation/utils.ts:405-426 | an address's transient counts are all exact if and only if the first frame that accesses it did more than transient writes |
| `AccessInfos.OneTransientCountStartsOver` | packages/executor/src/services/UserOpValidation/utils.ts:418-424 | otherwise exactly one slot of that frame lacks what the frame counted: later frames start over, and without any its count is undefined |
| `CallTrees.GetOpcodesInfo` | packages/executor/src/services/UserOpValidation/utils.ts:280-303 | the accumulator grows by exactly the opcode counts of the whole tree |
| `CallTrees.OutOfGasExists` | packages/executor/src/services/UserOpValidation/utils.ts:482-490 | true if and only if some frame of the tree ran out of gas |
| `CallTrees.GetExtCodeAccessInfos` | packages/executor/src/services/UserOpValidation/utils.ts:493-516 | answers exactly the list `Collected`, order and repetitions included |
| `CallTrees.CollectedIsUnion` | packages/executor/src/services/UserOpValidation/utils.ts:493-516 | its elements are exactly those given and those of all frames of the tree |
| `CallTrees.NestedTreesDoubleTheList` | packages/executor/src/services/UserOpValidation/utils.ts:506-513 | every tree nested directly in a frame at least doubles the list |
| `CallTrees.NestedTreeRepeats` | packages/executor/src/services/UserOpValidation/utils.ts:506-513 | the list handed to a nested tree stands twice in the answer, in front of what the tree adds |
| `CallTrees.GetContractSizes` | packages/executor/src/services/UserOpValidation/utils.ts:463-480 | the sizes given, overridden by those of all frames in pre-order |
| `CallTrees.SizeIsLastKnown` | packages/executor/src/services/UserOpValidation/utils.ts:463-480 | an address has a size if and only if some frame knows it, and then the one the last such frame says |
| `CallTrees.GetReferencedContracts` | packages/executor/src/services/UserOpValidation/utils.ts:305-320 | what was given stays in front, followed, with repetitions, by exactly the contracts of the frames of the list itself |
| `CallTrees.ForestIsReferencedExactlyWhen` | packages/executor/src/services/UserOpValidation/utils.ts:305-320 | every contract of the forest is answered if and only if each contract below the list is also given or one of its own frames' |
| `CallTrees.NestedContractIsMissed` | packages/executor/src/services/UserOpValidation/utils.ts:313-317 | a contract only a nested frame refers to is missing from the answer |
| `CallTrees.OpcodeSumOfAppend` | packages/executor/src/services/UserOpValidation/utils.ts:296-300 | opcode sums of consecutive frames add up |
| `PeerScores.PeerScore.constructor` | packages/node/src/network/peers/score.ts:175-181 | a new score is neutral and up to date |
| `PeerScores.PeerScore.Add` | packages/node/src/network/peers/score.ts:191-197 | is the penalty step, clamped |
| `PeerScores.PeerScore.Update` | packages/node/src/network/peers/score.ts:205-220 | is the decay step; nothing decays before lastUpdate |
| `PeerScores.PeerScore.UpdateGossipsubScore` | packages/node/src/network/peers/score.ts:222-229 | is the gossip step; ignored before lastUpdate |
| `PeerScores.PeerScore.SetSkandhaScore` | packages/node/src/network/peers/score.ts:241-258 | recomputes the total, and pushes lastUpdate half an hour ahead when that bans |
| `PeerScores.PenaltyTakesPoints` | packages/node/src/network/peers/score.ts:59-64 | a penalty takes 200, 10, 5 or 1 points, down to -100; the total is computed anew and a fall to -50 or below sets the lock-out |
| `PeerScores.DecayIsTimed` | packages/node/src/network/peers/score.ts:205-220 | a score decays, and its total is computed anew, if and only if time has passed since its last update |
| `PeerScores.GossipIsTimed` | packages/node/src/network/peers/score.ts:222-229 | a gossip score is taken down if and only if the last update is not ahead; the total follows only later |
| `PeerScores.OffencesUntilBanned` | packages/node/src/network/peers/score.ts:41-57 | one fatal action, five low, ten mid or fifty high tolerance errors ban a peer, two, four or twenty disconnect it, fewer never do |
| `PeerScores.GossipDisconnectsExactlyWhen` | packages/node/src/network/peers/score.ts:264-275 | a gossip score alone costs good standing if and only if it is not ignored and -320000/19 or worse |
| `PeerScores.BansLastThirtyMinutes` | packages/node/src/network/peers/score.ts:249-258 | in every run a peer that becomes banned stays so at every time in the next thirty minutes |
| `PeerScores.LockOutHolds` | packages/node/src/network/peers/score.ts:205-275 | before its lock-out ends, every event leaves a banned score banned and locked out |
| `PeerScores.SkandhaScoreStaysInRange` | packages/node/src/network/peers/score.ts:191-220 | in every run the skandha score stays between -100 and 0 |
| `PeerScores.GossipAloneNeverHurts` | packages/node/src/network/peers/score.ts:28-33 | without penalties, and with gossip scores of -16000 or more, a peer is always healthy |
| `PeerScoreStores.PeerRpcScoreStore.ApplyAction` | packages/node/src/network/peers/score.ts:135-138 | penalises one peer, entering it first if need be, and touches no other |
| `PeerScoreStores.PeerRpcScoreStore.UpdateGossipsubScore` | packages/node/src/network/peers/score.ts:154-161 | records a gossip score for one peer and touches no other |
| `PeerScoreStores.PeerRpcScoreStore.GetScoreState` | packages/node/src/network/peers/score.ts:124-126 | the state of the stored score, neutral for unknown peers |
| `PeerScoreStores.PeerRpcScoreStore.PruneSetToMax` | packages/utils/src/map.ts:60-78 | for any limit, keeps exactly the newest keys in order and counts the others, a negative limit counted in |
| `PeerScoreStores.PeerRpcScoreStore.Sweep` | packages/node/src/network/peers/score.ts:144-151 | updates every score, deleting while it iterates; survivors keep their order |
| `PeerScoreStores.PeerRpcScoreStore.Update` | packages/node/src/network/peers/score.ts:140-152 | prunes and then sweeps, on the score objects themselves |
| `PeerScoreStores.UpdateBoundsTable` | packages/node/src/network/peers/score.ts:140-152 | afterwards there are at most a thousand peers, each with a skandha score one point or more away from zero |
| `PeerScoreStores.KeptExactlyWhen` | packages/node/src/network/peers/score.ts:140-152 | any peer is kept if and only if it is among the newest thousand and its score, decayed for the time since its last update, is one point or more away from zero |
| `PeerScoreStores.UnknownPeerStartsNeutral` | packages/node/src/network/peers/score.ts:175-181 | an unknown peer is healthy, and is entered last with a clean score |
| `PeerScoreStores.BanSurvivesUpdateExactlyWhen` | packages/node/src/network/peers/score.ts:140-152 | a locked-out peer is still banned afterwards if and only if it is among the newest thousand and its skandha score is one point or more away from zero |
| `PeerScoreStores.UpdateGossipsubScores` | packages/node/src/network/peers/score.ts:281-308 | the budgeted loop reports every score in sorted order with the specified verdicts |
| `PeerScoreStores.IgnoredExactlyWhen` | packages/node/src/network/peers/score.ts:290-303 | a gossip score is ignored if and only if it lies between -1000 and 0 and fewer than the budget of such scores come before it |
| `PeerScoreStores.BudgetIsSpent` | packages/node/src/network/peers/score.ts:290-303 | exactly min(budget, small negative scores) are ignored |
| `PeerScoreStores.IgnoredAreBest` | packages/node/src/network/peers/score.ts:286-303 | those ignored are the best of those that could be |
| `PeerScoreStores.EachPeerIsReportedOnce` | packages/node/src/network/peers/score.ts:290-307 | each peer receives its own score once and no other peer changes |
| `PeerScoreStores.ReportsAreSorted` | packages/node/src/network/peers/score.ts:286-289 | the loop sees all reports, best first |
| `BufferedSources.BufferedIterator.Next` | packages/node/src/reqresp/utils/bufferedSource.ts:27-45 | the first call that finds buffered bytes answers them as they are, every other call fetches one chunk; consumed, buffered and unread bytes always make up the stream |
| `BufferedSources.ReadResultHeader` | packages/node/src/reqresp/encoders/responseDecode.ts:89-103 | answers the first byte of the stream, or Ended on an empty one, however it is cut; fails exactly when the chunk it fetches is empty |
| `BufferedSources.ReadErrorMessage` | packages/node/src/reqresp/encoders/responseDecode.ts:112-127 | the message is made of the printable among the first 256 bytes of the stream, or all, however it is cut, and none is consumed |
| `ErrorMessages.DecodingKeepsPrintableBytes` | packages/node/src/reqresp/utils/errorMessage.ts:34-40 | decoding bytes as UTF-8, malformed or cut off ones too, and removing what is not printable leaves exactly the printable bytes |
| `BufferedSources.ReadContextBytesForkDigest` | packages/node/src/reqresp/encoders/responseDecode.ts:155-168 | takes exactly the first four bytes, or fails exactly when fewer are left, however the stream is cut |
| `BufferedSources.CutsJoinBack` | packages/node/src/reqresp/utils/bufferedSource.ts:3-9 | every way of cutting a stream into non-empty chunks joins back to it |
| `BufferedSources.ChunksAreCuts` | packages/node/src/reqresp/utils/bufferedSource.ts:3-9 | every list of non-empty chunks is such a cut |
| `ProtocolIds.ParseOfFormatExactlyWhen` | packages/node/src/reqresp/utils/protocolId.ts:6-48 | printing and parsing gives a protocol back if and only if its method has no slash |
| `ProtocolIds.FormatOfParseExactlyWhen` | packages/node/src/reqresp/utils/protocolId.ts:18-48 | parsing and printing gives an identifier back if and only if its version is canonical |
| `ProtocolIds.ParsesExactlyWhen` | packages/node/src/reqresp/utils/protocolId.ts:18-48 | a string of four fields or more parses if and only if the last is the known encoding and the one before it digits, perhaps behind a minus sign; method and prefix are what stands before |
| `ProtocolIds.PrintedForm` | packages/node/src/reqresp/utils/protocolId.ts:6-16 | prefix, method, version and encoding joined by slashes |
| `ProtocolIds.ParsedFields` | packages/node/src/reqresp/utils/protocolId.ts:18-48 | an identifier that parses is its fields joined by slashes |
| `GossipTopics.ParseOfStringifyExactlyWhen` | packages/node/src/network/gossip/topic.ts:46-106 | the parser undoes the printer, default encoding filled in, if and only if the mempool id is a non-empty word |
| `GossipTopics.PrintedForm` | packages/node/src/network/gossip/topic.ts:46-50 | the printed topic, letter by letter |
| `GossipTopics.ParsesExactlyPrinted` | packages/node/src/network/gossip/topic.ts:71-106 | a string parses to a topic if and only if it is the printed form, perhaps followed by something that does not continue its last word |
| `GossipTopics.GossipTopicCache.GetTopic` | packages/node/src/network/gossip/topic.ts:18-26 | a faithful cache always answers, or fails, as the parser does, and stays faithful |
| `GossipTopics.GossipTopicCache.GetKnownTopic` | packages/node/src/network/gossip/topic.ts:29-31 | what a faithful cache knows is what the parser says |
| `GossipTopics.GossipTopicCache.SetTopic` | packages/node/src/network/gossip/topic.ts:33-40 | keeps a faithful cache faithful if and only if the string is known or parses to the stored object; for a new printed topic, if and only if its id is a word and its encoding not explicitly undefined |

## Left out

- Networks, RPC, signing, databases, timers, logging, metrics, events to subscribers, servers and the command line: their results are parameters, or they have no effect on the state modelled.
- BundlingSystems: each write to the mempool and each lookup in it is one atomic step, which may fail; in testing mode the bundler does not wait for `sendBundle`, which only allows more interleavings. Relayers other than the classic one are not modelled.
- BundlingSystems: blocks of the mempool are single steps; what those leave behind that throw between their writes is said in `MempoolBlocks`, and a reader between two writes of one block is not modelled.
- Bundles: the source's throttling test, `stakedEntityCount` and banned-entity test only skip to the next entity, so apart from the cancellations they cause they have no effect on the choice and no field in the model. Replies of `getGasFee` are taken to be complete, addresses to be non-empty strings.
- Bundles: as in the code nothing bounds the summed gas of a bundle, so no such bound is stated.
- Mempools.MempoolService.DeleteOldUserOps: the entries are read in one step and judged by one reading of the clock.
- Mempools.FreshRunsKeepIndex: takes the hash of an operation to determine its key, and excludes stale updates; `UpdateKeepsIndexExactlyWhen` and `StaleUpdateLosesOperation` show why.
- MempoolEntries.KeySpacesAreDisjoint: takes senders and hashes to be free of colons, as hexadecimal strings are; so does `SameKeyExactlyWhen`.
- MempoolEntries: conversions and validation of incoming fields, `serialize`, and the fields no modelled operation reads (aggregator, prefund, submission time, EIP-7702 data) are not modelled; an entry's objects are values that operations hand back changed.
- PeerDatastores: calls are atomic; a `get` that waits for the database while a `put` runs, failures of database calls other than the batch commit, and the unmerged listings `_all` and `_allKeys` are not modelled.
- PeerDatastores.EvictsLeastRecent: among equal stamps any key may go, where the source takes the first in insertion order.
- ReqRespRateLimiters.ReqRespRateLimiter: its nested limiters are values driven by the functions that specify `RateLimiterGRCA`; their identity as objects is not captured.
- Gcra: floating-point rounding; times and tokens are reals.
- PeerScores: floating-point rounding; the decay factor is any number strictly between 0 and 1, and in `PeerScoreStores` any function of the elapsed time.
- PeerScoreStores.PeerRpcScoreStore.PruneSetToMax: stated for the table of scores; the helper serves any map, and its other use, on the cache of discovered peers, is not modelled.
- TraceParsers: method names and decoded data are arbitrary functions of the input; of the tracer only the call log is modelled, its final record being the one a RETURN or REVERT of the top-level frame makes.
- AccessInfos.TransientCountsExactExactlyWhen: takes recorded write counts to be positive, as a tracer that counts from one makes them.
- `getTopLevelEpCalls`, `parseEntitySlots`, `isSlotAssociatedWith` and `compareBytecode`: searches over one level that would only add easy members.
- BufferedSources: `readEncodedPayload` and the SSZ and snappy codecs; the loop of `responseDecode` around the readers. Uint8ArrayList is not part of this model: a buffer is a sequence of bytes whose `get` throws beyond its end.
- ProtocolIds: versions are integers of any size, where the source's are exact up to 2^53.
- Text: strings are sequences of characters; lower-casing is that of ASCII letters.
- Promises the code does not keep and the model does not state: that only the failing operation is cancelled, that throttled or banned entities are never bundled, that a bundle respects the bundle gas limit, that nested referenced contracts are found.
