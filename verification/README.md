# Boreth consensus and cache models

Dafny models of the self-contained state machines and algorithms of Boreth, a Polygon Bor client,
with proofs about all their inputs and all their runs. `dafny verify dfyconfig.toml` checks
everything; there is one module per file.

| part | files | main results |
|---|---|---|
| proposer rotation | `Proposer`, `ProposerFairness`, `ProposerBound` | exact fairness in every window of one cycle, exact period, harmonic bound on any group of priorities, proportionality of every prefix and when 64 bits suffice, from zero and from any start |
| signer admission | `RecentSigners`, `Snapshot`, `Admission`, `ConcurrentValidation`, `Consensus` | pruning is invisible (exact condition), which earlier blocks bar a signer for heights in any order (exact), no signer repeats inside a window, the chain never stalls exactly from three signers on, the engine's runs are such runs, overlapping validations are sequential exactly when no block is overtaken |
| fork choice | `Difficulty`, `HeaderValidation`, `InTurnChain` | difficulty is a rotating bijection, the in-turn chain is accepted exactly from three signers on and is the unique heaviest |
| span cache and prefetch | `SpanCache`, `CacheTraces`, `Prefetch`, `FrontierCaching`, `NodeRuns` | LRU order is exactly recency, larger caches include smaller ones, the prefetch frontier is complete and fetched once, it is cached when validation needs it exactly when the capacity exceeds the lookback by five, so in node runs whose prefetcher uses the engine's span size no prefetched block escapes the signer check, and with any other size one can |
| encodings and hashing | `Rlp`, `Seal`, `ExtraDataFormat`, `BlockValidation`, `Merkle` | RLP strings are uniquely readable, what the seal preimage determines for all headers and which optional fields can be confused, span-start acceptance is the printed form, the Merkle loop is the recursive tree and what its root binds, for lists of any two lengths |
| fork id and payload | `ForkId`, `Payload` | fork ids separate heads exactly at fork blocks, payloads hold the longest fitting prefix (exactly when sums do not overflow) and then the system calls |

`Primitives` and `Arithmetic` hold shared value types and facts about division.

## How the model is set up

* Objects that the program changes in place are classes (`Rotation` for the borrowed validator set,
  `Recents`, `BorSnapshot`, `SpanCache`, `InMemorySpanStore`, `SpanPrefetcher`, `BorConsensus`, and
  `ListContent` for the byte buffer that header fields encode themselves into). Each method is
  proved against a function of the old value; runs of that function are what the lemmas are about.
* Loops are methods with invariants. Pure code is functions.
* Public-key recovery, keccak, the pair hash, the fork checksum fold, ABI call data and the span
  server are parameters. Nothing is assumed of them except in a lemma's own `requires`: a hash has
  to separate the values that are actually hashed (a hash onto 32 bytes cannot be injective
  everywhere), and the span server answers with the span it was asked for.
* `ValidateBlockPreExecution` checks and records in one step. The program releases the lock in
  between; `ConcurrentValidation` covers every interleaving that this allows.
* Integers are unbounded unless a width is part of the result: `ProposerBound.WideEnoughFrom` derives
  the 64-bit condition for priorities, RLP lengths and numbers carry their widths, and the running
  gas and the clock plus 15 seconds wrap around at 2^64 as they do without overflow checks (the
  workspace sets no build profile, so release builds have none; a debug build panics there).
* A panic is a precondition: the empty validator set in the proposer step, a zero span or sprint
  size, more system transactions than transactions.

## Where code and documents differ

The model follows the code.

* Ties in the proposer step go to the last maximum (`max_by_key`; the third round of
  crates/bor-consensus/tests/go_valset_port.rs:89), not to the first as boreth-test-cases.md:590 says.
* The recents window of block `b` is `[b - w, b)` with `w = n/2 + 1`, so a signer waits `w + 1`
  blocks (crates/bor-consensus/tests/comprehensive_tests.rs:150-157); boreth-test-cases.md:241 lets
  it sign one block earlier, and boreth-test-cases.md:462 prunes an entry the code keeps.
* `last_fetched_span` is described as the highest span fetched and cached
  (crates/bor-consensus/src/span_prefetch.rs:32), but the genesis fetch does not set it, so span 0
  can be inserted twice: exactly when `Prefetching.InsertedTwiceIff` says.
* The doc comment of `compute_fork_id` mentions Bor hardforks; the code uses Ethereum ones only.

Properties that fail outside a condition are stated with the exact condition:

* proposer: `ProposerFairness.ZeroPowerChosenIff`, `ProposerFairness.BoundedBelowIff`;
* recents: `Snapshot.StoresAgreeIff`, `Admission.PruningIsInvisibleIff`,
  `Admission.AcceptedIffNoneBars` (a sibling at the same height replaces an entry:
  `Admission.SiblingFreesSigner`), `Admission.NeverStallsIff`, `ConcurrentValidation.SequentialIff`
  (two overlapping validations: `ConcurrentValidation.RaceRepeatsSigner`);
* headers: `InTurnChain.InTurnAcceptedIff` (what stops the chain: `InTurnChain.StoppedByWindowAlone`),
  `HeaderValidation.OnTimeIff`;
* prefetch: `Prefetching.InsertedTwiceIff`, `Prefetching.PollCompletesIff` (a head that moves back:
  `Prefetching.StuckBehind`), `FrontierCaching.FrontierAlwaysCachedIff`,
  `NodeRuns.HeadIsKnownIff` (a prefetcher with another span size: `NodeRuns.OtherSizeMissesHead`);
* hashing: `Seal.PatternsCollideIff`, `Merkle.RootHashIff` (levels are not told apart:
  `Merkle.LevelsCollide`; padding is not marked: `Merkle.PaddingIsNotBound`);
* payload: `Payloads.LongestIffNoOverflow`.

## Model

| member | source | states |
|---|---|---|
| `Proposer.Rotation.SelectProposer` | crates/bor-consensus/src/proposer.rs:13-43 | one round in place: the last of the largest sums of priority and power pays the total, every other priority becomes its sum, nothing else changes, the stored proposer is the winner with its reduced priority and its signer is returned |
| `Proposer.OneRound` | crates/bor-consensus/src/proposer.rs:20-35 | whoever is the last of the largest sums is chosen and is the only one to pay |
| `Proposer.LastMax` | crates/bor-consensus/src/proposer.rs:26-32 | the winner is a maximum and every later entry is strictly smaller |
| `ProposerFairness.RunIsRounds` | crates/bor-consensus/src/proposer.rs:13-43 | a run is its rounds in order, split off at either end |
| `ProposerFairness.PicksCountTurns` | crates/bor-consensus/src/proposer.rs:26-32 | turns taken are the number of rounds won |
| `ProposerFairness.RoundConservesPriority` | crates/bor-consensus/src/proposer.rs:20-35 | a round conserves the sum of priorities, whatever the powers and the start |
| `ProposerFairness.RunConservesPriority` | crates/bor-consensus/src/proposer.rs:20-35 | so does every run |
| `ProposerFairness.Ledger` | crates/bor-consensus/src/proposer.rs:20-35 | after m rounds a priority is its start plus m times the power minus the total times the turns taken |
| `ProposerFairness.RunKeepsBalance` | crates/bor-consensus/src/proposer.rs:20-35 | from zero, priorities sum to zero and none drops below 1 - T in any run |
| `ProposerFairness.RunKeepsFloor` | crates/bor-consensus/src/proposer.rs:20-35 | from any start, a floor under all priorities holds in every run if one turn below the raised average is not under it |
| `ProposerFairness.FloorHolds` | crates/bor-consensus/src/proposer.rs:20-35 | every start has such a floor: its least priority, or one turn below the raised average if that is lower |
| `ProposerFairness.BackAtZeroIff` | crates/bor-consensus/src/proposer.rs:20-35 | the exact period: all priorities are zero after m rounds if and only if T divides every m * power |
| `ProposerFairness.CycleEndsAtZero` | crates/bor-consensus/src/proposer.rs:20-35 | for any common divisor g of the powers the state is zero again after T/g rounds |
| `ProposerFairness.StatesRecur` | crates/bor-consensus/src/proposer.rs:20-35 | every state of the run recurs T/g rounds later |
| `ProposerFairness.WindowIsFair` | crates/bor-consensus/src/proposer.rs:20-42 | in every window of T/g consecutive rounds, aligned or not, validator i is chosen exactly power/g times |
| `ProposerFairness.NoStarvation` | crates/bor-consensus/src/proposer.rs:20-42 | a validator with power is chosen in every such window |
| `ProposerFairness.ZeroPowerStaysOut` | crates/bor-consensus/src/proposer.rs:20-35 | with T > 0 a validator without power keeps priority 0 and is never chosen |
| `ProposerFairness.AllZeroPowers` | crates/bor-consensus/src/proposer.rs:20-35 | with no power at all nothing moves and the last validator is chosen every round |
| `ProposerFairness.ZeroPowerChosenIff` | crates/bor-consensus/src/proposer.rs:20-35 | exactly when a validator without power can ever be chosen |
| `ProposerFairness.BoundedBelowIff` | crates/bor-consensus/src/proposer.rs:14-35 | with T > 0 priorities stay bounded below in all rounds if and only if no power is negative |
| `ProposerBound.RoundKeepsCaps` | crates/bor-consensus/src/proposer.rs:20-35 | a round keeps the harmonic bound on every group of validators |
| `ProposerBound.RunKeepsCaps` | crates/bor-consensus/src/proposer.rs:13-43 | in every run any k of n validators together hold at most k * T * (1/(k+1) + ... + 1/n) |
| `ProposerBound.RunKeepsCapsFrom` | crates/bor-consensus/src/proposer.rs:13-43 | the same from any start, counted from the highest starting priority |
| `ProposerBound.PriorityRangeFrom` | crates/bor-consensus/src/proposer.rs:13-43 | from any start at or below top, a priority stays in [floor, top + T(H_n - 1)] between rounds and at most top + T * H_n inside one |
| `ProposerBound.PriorityRange` | crates/bor-consensus/src/proposer.rs:13-43 | from zero that is [1 - T, T(H_n - 1)] and T * H_n |
| `ProposerBound.PrefixIsProportionalFrom` | crates/bor-consensus/src/proposer.rs:20-42 | from any start, T times the turns taken in m rounds is above m * power by at most start - floor and below it by at most top - start + T(H_n - 1) |
| `ProposerBound.PrefixIsProportional` | crates/bor-consensus/src/proposer.rs:20-42 | from zero, turns taken are less than one above m * power / T and at most H_n - 1 below it |
| `ProposerBound.CheckedRunIff` | crates/bor-consensus/src/proposer.rs:14-35 | a run on 64-bit priorities goes through if and only if every partial total and every raised and stored priority of its rounds fits |
| `ProposerBound.WideEnoughFrom` | crates/bor-consensus/src/proposer.rs:14-35 | from any start, once the total, the floor and top + T * H_n fit, a run on 64-bit priorities never overflows and equals the unbounded run |
| `ProposerBound.WideEnough` | crates/bor-consensus/src/proposer.rs:14-35 | from zero it is enough that T * H_n fits |
| `RecentSigners.Recents.IsRecentlySigned` | crates/bor-consensus/src/recents.rs:19-33 | true exactly when one of the n/2 + 1 blocks before carries the signer |
| `RecentSigners.Recents.AddSigner` | crates/bor-consensus/src/recents.rs:36-38 | the log gains or replaces one entry |
| `RecentSigners.Recents.Prune` | crates/bor-consensus/src/recents.rs:41-45 | the entries from n/2 + 1 blocks before on remain |
| `Snapshot.BorSnapshot.Apply` | crates/bor-consensus/src/snapshot.rs:32-43 | sets the number, records the signer and keeps the entries of the window, or all of them without validators |
| `Snapshot.BorSnapshot.IsAuthorized` | crates/bor-consensus/src/snapshot.rs:46-51 | true exactly for the signers of the validator set |
| `Snapshot.StoresAgree` | crates/bor-consensus/src/snapshot.rs:32-43 | while the validator set, which may change between applies, is not empty, any sequence of applies leaves the log that add and prune leave |
| `Snapshot.StoresAgreeIff` | crates/bor-consensus/src/snapshot.rs:36-42 | for given set sizes the two stores agree on every history if and only if no record but the first meets an empty set |
| `Admission.KeptIsSuffixOfFull` | crates/bor-consensus/src/recents.rs:36-45 | along steady runs the kept log is the full history from the last cutoff on |
| `Admission.PruningIsInvisible` | crates/bor-consensus/src/recents.rs:19-45 | if heights increase and the window grows by at most one per block, pruning changes no verdict |
| `Admission.PruningIsInvisibleIff` | crates/bor-consensus/src/recents.rs:19-45 | between two given blocks that holds for all steady accepted runs and signers if and only if the window's first height does not move back |
| `Admission.KeptHoldsIff` | crates/bor-consensus/src/recents.rs:36-45 | for heights in any order the log holds a signer at a height exactly when a block with both is still in force: not replaced at its height by another signer and passed by no later cutoff |
| `Admission.AcceptedIffNoneBars` | crates/bor-consensus/src/reth_consensus.rs:266-288 | a block is accepted after a run if and only if its signer is authorised and no block in force inside its window has that signer |
| `Admission.NoRepeatWhileLive` | crates/bor-consensus/src/reth_consensus.rs:266-288 | an accepted block differs in signer from every earlier one in its window that is in force |
| `Admission.SiblingFreesSigner` | crates/bor-consensus/src/recents.rs:36-38 | a sibling at the same height replaces the entry, and the first signer may sign the next block |
| `Admission.NoRepeatInWindow` | crates/bor-consensus/src/reth_consensus.rs:266-288 | with increasing heights and slowly growing windows two accepted blocks no further apart than the later one's window have different signers |
| `Admission.ConsecutiveSignersDiffer` | crates/bor-consensus/src/reth_consensus.rs:266-288 | with a fixed set of n signers any n/2 + 2 consecutive accepted blocks have pairwise different signers |
| `Admission.EnoughAdmissible` | crates/bor-consensus/src/recents.rs:19-33 | whatever the log holds, at least n - (n/2 + 1) authorised signers may sign next |
| `Admission.NeverStallsIff` | crates/bor-consensus/src/reth_consensus.rs:266-288 | no run of consecutive blocks leaves everybody blocked if and only if n >= 3 |
| `ConcurrentValidation.SequentialIff` | crates/bor-consensus/src/reth_consensus.rs:276-288 | with check and recording under separate locks and any interleaving, the recorded blocks are an accepted run if and only if no block is overtaken by one that bars it |
| `ConcurrentValidation.OneAtATime` | crates/bor-consensus/src/reth_consensus.rs:276-288 | validations that do not overlap record an accepted run |
| `ConcurrentValidation.RaceRepeatsSigner` | crates/bor-consensus/src/reth_consensus.rs:276-288 | two overlapping validations can record one signer at two heights in a row |
| `Consensus.BorConsensus.InsertSpan` | crates/bor-consensus/src/reth_consensus.rs:72-74 | the span enters the cache of 64 |
| `Consensus.BorConsensus.GetSpanForBlock` | crates/bor-consensus/src/reth_consensus.rs:78-85 | returns the cached covering span and promotes it |
| `Consensus.BorConsensus.ValidateBlockPreExecution` | crates/bor-consensus/src/reth_consensus.rs:226-298 | verdict and new memory of block validation, every error case included; rejected blocks record nothing |
| `Consensus.SealedByIff` | crates/bor-consensus/src/reth_consensus.rs:226-257 | who sealed a block: a clean body and printed extra data whose seal recovers to that signer |
| `Consensus.ReportsFirstFault` | crates/bor-consensus/src/reth_consensus.rs:226-298 | the verdict is the first of all faults, each judged on its own, or acceptance |
| `Consensus.MemoryAfterBlock` | crates/bor-consensus/src/reth_consensus.rs:266-297 | what a block leaves: the spans stay, a readable block promotes its span, and just a block that passed with its span cached enters the log, cut at its window |
| `Consensus.RecordedByBlock` | crates/bor-consensus/src/reth_consensus.rs:266-288 | a run gains a block exactly when it passes with its span cached |
| `Consensus.SpanArrivalIsCached` | crates/bor-consensus/src/reth_consensus.rs:72-74 | an arriving span is cached under its id; no other span is added or altered, the log stays |
| `Consensus.EngineRunIsAdmissionRun` | crates/bor-consensus/src/reth_consensus.rs:226-298 | under any interleaving of span arrivals and validations the recorded blocks form an accepted run whose log the engine holds |
| `Consensus.EngineNeverRepeatsSigner` | crates/bor-consensus/src/reth_consensus.rs:276-288 | hence in every such engine run, heights in any order, a recorded block differs in signer from every earlier one in its window that is in force |
| `Consensus.PassesIff` | crates/bor-consensus/src/reth_consensus.rs:226-298 | a block passes if and only if the body is clean, the extra data is a printed value whose seal recovers and, when the span is cached, that signer is in the set and signed no block of the window |
| `Consensus.UnauthorizedPassesIff` | crates/bor-consensus/src/reth_consensus.rs:266-297 | a readable block of a signer outside the set passes if and only if its span is not cached, and then leaves the log and the cached spans alone |
| `Difficulty.DifficultyOfFirst` | crates/bor-consensus/src/difficulty.rs:42-71 | in any list, repeated signers included, a signer first at index i is worth n - ((i - height) mod n), an outsider 1 |
| `Difficulty.DifficultyOfIndex` | crates/bor-consensus/src/difficulty.rs:42-71 | among distinct signers index i is worth n - ((i - height) mod n) |
| `Difficulty.DifficultyIsBijection` | crates/bor-consensus/src/difficulty.rs:42-71 | at every height each difficulty 1..n belongs to exactly one signer |
| `Difficulty.FullDifficultyIffInturn` | crates/bor-consensus/src/difficulty.rs:30-58 | difficulty n is reached exactly by the in-turn signer |
| `Difficulty.DifficultyRotates` | crates/bor-consensus/src/difficulty.rs:42-71 | one height later each difficulty is one higher and n wraps to 1 |
| `Difficulty.FullTurnTotal` | crates/bor-consensus/src/difficulty.rs:42-71 | over any n consecutive heights every signer is worth n(n+1)/2 |
| `HeaderValidation.ValidatesIff` | crates/bor-consensus/src/validation.rs:89-150 | a header validates as s exactly when nonce, mix hash and ommers are empty, it is at most 15 seconds ahead, its extra data is a printed value whose seal recovers to s, s is authorised, signed no block of the window, and the difficulty is the one due |
| `HeaderValidation.ReportsFirstFailure` | crates/bor-consensus/src/validation.rs:89-150 | the outcome is the first error in the list of all failing checks, each judged on its own, or the sealer when there is none |
| `HeaderValidation.OnTimeIff` | crates/bor-consensus/src/validation.rs:115-120 | exactly the timestamps up to 15 seconds ahead are on time if and only if the clock plus 15 fits in 64 bits |
| `InTurnChain.HeaviestIffInTurn` | crates/bor-consensus/src/validation.rs:126-147 | k accepted blocks weigh at most n * k, with equality exactly when every sealer was in turn |
| `InTurnChain.InTurnAcceptedIff` | crates/bor-consensus/src/validation.rs:126-147 | an all-in-turn chain passes all checks if and only if n >= 3 or it has at most n blocks |
| `InTurnChain.StoppedByWindowAlone` | crates/bor-consensus/src/validation.rs:89-150 | with one or two signers the recents window is the only check that the next in-turn header fails, and the error reported |
| `InTurnChain.ChainIsRun` | crates/bor-consensus/src/validation.rs:131-138 | an accepted chain is an accepted run of its sealers, with the same log in the snapshot |
| `InTurnChain.InTurnIsUniqueHeaviest` | crates/bor-consensus/src/difficulty.rs:42-71 | for n >= 3 the in-turn chain is accepted and strictly outweighs an accepted chain exactly when that has a sealer out of turn |
| `SpanCaching.SpanCache.Get` | crates/heimdall-client/src/cache.rs:30-37 | returns the cached span, promotes a hit, changes nothing on a miss |
| `SpanCaching.SpanCache.Insert` | crates/heimdall-client/src/cache.rs:41-61 | the span is stored under its id and most recent; the oldest id leaves exactly when the id is new and the cache full; nothing else changes |
| `SpanCaching.SpanCache.Touch` | crates/heimdall-client/src/cache.rs:80-85 | the id leaves its first position and becomes the most recent |
| `SpanCaching.InMemorySpanStore.PutSpan` | crates/bor-storage/src/persistence.rs:38-44 | afterwards the span is found under its id and every other lookup is unchanged |
| `CacheTraces.RecencyIsByLastUse` | crates/heimdall-client/src/cache.rs:80-85 | the recency list orders distinct ids by their last use |
| `CacheTraces.RunIsWellFormed` | crates/heimdall-client/src/cache.rs:30-61 | after any trace the order has no duplicates, matches the map's keys and respects the capacity |
| `CacheTraces.OrderIsRecency` | crates/heimdall-client/src/cache.rs:30-61 | the order is exactly the capacity most recently hit or inserted distinct ids, or all of them when unbounded |
| `CacheTraces.HitIff` | crates/heimdall-client/src/cache.rs:30-37 | an id hits exactly when it is among those, and the span is the one in the unbounded store |
| `CacheTraces.HitIffFewSince` | crates/heimdall-client/src/cache.rs:30-61 | a bounded cache hits exactly the ids used before with fewer than capacity distinct ids used since |
| `CacheTraces.LargerCacheHitsWhereSmallerDoes` | crates/heimdall-client/src/cache.rs:30-61 | on a shared trace the smaller cache's order is a subsequence of the larger one's, which hits wherever the smaller does |
| `Prefetching.SpanPrefetcher.FetchAndCacheSpan` | crates/bor-consensus/src/span_prefetch.rs:64-88 | success inserts the span, any failure leaves the cache alone |
| `Prefetching.SpanPrefetcher.EnsureSpansForBlock` | crates/bor-consensus/src/span_prefetch.rs:91-110 | for any server: its answers from the first missing id up to two ahead, until the first failure, are inserted in order, and the last id asked for with success is noted |
| `Prefetching.FetchesAreAnswers` | crates/bor-consensus/src/span_prefetch.rs:94-109 | the spans of a pass are exactly those answers |
| `Prefetching.FetchesAreConsecutive` | crates/bor-consensus/src/span_prefetch.rs:94-109 | a pass fetches consecutive ids from the first missing one, none beyond two ahead, and stops earlier only at an id that is not delivered |
| `Prefetching.NeverRefetches` | crates/bor-consensus/src/span_prefetch.rs:98-108 | passes fetch ids in strictly increasing order, however the head moves |
| `Prefetching.FrontierIsComplete` | crates/bor-consensus/src/span_prefetch.rs:91-110 | with heads that do not move back every id from the head's span to the last fetched one was fetched, and that is at most two ahead |
| `Prefetching.PollCompletesIff` | crates/bor-consensus/src/span_prefetch.rs:98-108 | wherever the head went, a pass leaves a complete frontier if and only if what it skips is exactly the last one to three fetched ids |
| `Prefetching.HeadMovesBack` | crates/bor-consensus/src/span_prefetch.rs:98-102 | a head below everything fetched leaves a gap that passes there never fill |
| `Prefetching.StuckBehind` | crates/bor-consensus/src/span_prefetch.rs:98-108 | after a first poll anywhere, any number of polls at lower heads fetch nothing, though the server has every span |
| `Prefetching.InsertedTwiceIff` | crates/bor-consensus/src/span_prefetch.rs:122-128 | in every honest run an id is inserted twice if and only if it is 0, the start delivered it, and the first poll that delivers its head's span is at span 0 |
| `FrontierCaching.FrontierIsCached` | crates/bor-consensus/src/span_prefetch.rs:116-130 | with lookups up to d spans behind the head mixed in anyhow, those spans are cached whenever the capacity is 0 or at least d + 5 |
| `FrontierCaching.FrontierAlwaysCachedIff` | crates/bor-consensus/src/span_prefetch.rs:116-130 | that holds for all runs if and only if the capacity is 0 or at least d + 5; a cache of 64 allows lookups 59 spans back and no more |
| `NodeRuns.NodeIsPrefetchRun` | crates/bor-consensus/src/span_prefetch.rs:91-130 | for any interleaving of polls and validations and any span size the engine's cache is the one left by the prefetch run's trace |
| `NodeRuns.PrefetchedIsGuarded` | crates/bor-consensus/src/reth_consensus.rs:260-295 | so with the engine's span size of 6400 and validated blocks at most 59 spans behind the head, a block between the head's span and the last fetched one passes exactly when its sealer is in its span's set and signed no block of the window |
| `NodeRuns.OtherSizeMissesHead` | crates/bor-consensus/src/span_prefetch.rs:57-60 | with any other span size there is a head whose own span is not cached after a full pass |
| `NodeRuns.HeadIsKnownIff` | crates/bor-consensus/src/reth_consensus.rs:260-265 | in all ordinary runs the head's block finds its span once the head's pass has delivered, if and only if the prefetcher's span size is the engine's |
| `Rlp.StringHeader` | crates/bor-consensus/src/seal.rs:36-52 | how an encoded string starts: a byte below 0x80 alone, 0x80 plus the length up to 55, else 0xb7 plus the size of the length and the length without leading zeros |
| `Rlp.LeadingByte` | crates/bor-consensus/src/seal.rs:45-48 | numbers are big-endian: a leading byte counts 256 to the number of bytes after it |
| `Rlp.NoLeadingZero` | crates/bor-consensus/src/seal.rs:45-48 | and in the shortest form |
| `Rlp.TakeOfEncode` | crates/bor-consensus/src/seal.rs:36-52 | reading one string off the front undoes writing it and leaves the rest |
| `Rlp.PayloadInjective` | crates/bor-consensus/src/seal.rs:35-75 | item lists with the same concatenated encodings are equal |
| `Rlp.ListHeader` | crates/bor-consensus/src/seal.rs:77-80 | how a list starts: 0xc0 plus the length up to 55, else 0xf7 plus the size of the length and the length |
| `Rlp.ListInjective` | crates/bor-consensus/src/seal.rs:77-80 | the list header adds no ambiguity |
| `Seal.ComputeSealHash` | crates/bor-consensus/src/seal.rs:28-83 | the buffer built field by field and wrapped is the preimage that is hashed |
| `Seal.ShapeAcceptedIff` | crates/bor-consensus/src/reth_consensus.rs:102-154 | a header has the accepted shape if and only if its nonce is zero, its ommers hash the empty one, its gas within the limit, its extra data at least 97 bytes and no later optional field present |
| `Seal.ReportsFirstShapeFault` | crates/bor-consensus/src/reth_consensus.rs:102-154 | otherwise the first of all faults is reported |
| `Seal.PreimageLayout` | crates/bor-consensus/src/seal.rs:28-83 | the preimage is the RLP list of the fields in this order: twelve head fields, extra data without its last 65 bytes, mix hash and nonce or zeros, and the optional fields present |
| `Seal.VanityAndValidatorsAreHashed` | crates/bor-consensus/src/seal.rs:29-32 | of parsed extra data the vanity and the validator bytes are hashed |
| `Seal.PreimageIffItems` | crates/bor-consensus/src/seal.rs:28-83 | for all headers the preimage determines exactly the list of encoded items |
| `Seal.PreimageInjectiveApartFromSeal` | crates/bor-consensus/src/seal.rs:28-83 | accepted headers share a preimage if and only if seals of 65 bytes complete one common prefix to their extra data and all other fields agree, an absent mix hash counting as zero |
| `Seal.PreimageIffFields` | crates/bor-consensus/src/seal.rs:28-83 | for all headers preimages agree if and only if the fixed fields do and the present optional fields are the same list of numbers and hashes |
| `Seal.SamePresenceInjective` | crates/bor-consensus/src/seal.rs:54-75 | with the same optional fields present they agree if and only if all encoded fields do, absent mix hash and nonce counting as zero |
| `Seal.PatternsCollideIff` | crates/bor-consensus/src/seal.rs:54-75 | two patterns of present fields admit equal preimages if and only if they have the same sequence of kinds, and then every header can be completed to such a pair |
| `Seal.OptionalFieldsCollide` | crates/bor-consensus/src/seal.rs:54-75 | for example any value as base fee or as blob gas used |
| `Seal.SealHashBinds` | crates/bor-consensus/src/seal.rs:82-82 | if the hash separates two preimages, equal seal hashes mean equal headers apart from the seal |
| `ExtraDataFormat.ParseIffPrint` | crates/bor-consensus/src/extra_data.rs:40-59 | bytes parse to a value exactly when the value is well formed and prints them |
| `ExtraDataFormat.ParseFailsIff` | crates/bor-consensus/src/extra_data.rs:40-51 | parsing fails exactly on bytes that nothing well formed prints |
| `ExtraDataFormat.ParseErrorIs` | crates/bor-consensus/src/extra_data.rs:40-51 | which error: below 97 bytes too short, else a rest that is not whole addresses |
| `ExtraDataFormat.EncodeValidatorBytes` | crates/bor-primitives/src/lib.rs:40-46 | the loop builds the concatenated signer addresses |
| `ExtraDataFormat.EncodedAt` | crates/bor-primitives/src/lib.rs:40-46 | address i stands at bytes 20i to 20i + 20 |
| `ExtraDataFormat.DecodeIffEncode` | crates/bor-primitives/src/lib.rs:49-54 | bytes decode to a list exactly when they are its encoding and less than one address more; on whole addresses the two are inverse |
| `BlockValidation.AcceptedIff` | crates/bor-consensus/src/block_validation.rs:17-67 | for every outcome, when it happens: accepted exactly when the body is clean and, at the first block of a span, the extra data is vanity, a non-empty (and the expected) list, and seal; a missing list is exactly 97 bytes |
| `Merkle.ComputeRootHash` | crates/bor-rpc/src/methods.rs:39-67 | the pad-then-pair loops terminate with full pairs and compute the recursive root of the padded list |
| `Merkle.PairUpKeepsRoot` | crates/bor-rpc/src/methods.rs:55-64 | replacing a level by its pair hashes keeps the top-down root |
| `Merkle.RootBinds` | crates/bor-rpc/src/methods.rs:55-66 | equal roots of equally long trees mean equal leaves if the hash separates their pairs |
| `Merkle.RootIff` | crates/bor-rpc/src/methods.rs:55-66 | roots of trees of any two heights agree if and only if the leaves of the taller one, lifted level by level, are those of the other |
| `Merkle.RootHashIff` | crates/bor-rpc/src/methods.rs:39-67 | the same for root hashes of any two lists, the empty one included; lists of equal length with equal roots are equal |
| `Merkle.LevelsCollide` | crates/bor-rpc/src/methods.rs:55-64 | a full list shares its root with every level above it |
| `Merkle.TwoLeavesCollide` | crates/bor-rpc/src/methods.rs:55-64 | the smallest case: two hashes and the one made of them |
| `Merkle.PaddingIsNotBound` | crates/bor-rpc/src/methods.rs:49-53 | a list shares its root with the list that spells out its first padding hash |
| `ForkIds.EthForkBlocks` | crates/bor-chainspec/src/chainspec.rs:74-92 | the collected list is the fork block list of the conditions |
| `ForkIds.ForkBlocks` | crates/bor-chainspec/src/chainspec.rs:74-92 | that list is strictly increasing and holds exactly the non-zero blocks at which a block condition or a total-difficulty condition with a block activates |
| `ForkIds.ComputeForkId` | crates/bor-chainspec/src/chainspec.rs:96-109 | the loop returns the fork id of the head |
| `ForkIds.ForkIdMeans` | crates/bor-chainspec/src/chainspec.rs:96-109 | the hash folds exactly the fork blocks up to the head in ascending order, `next` is the least later one or 0 |
| `ForkIds.SameForkIdIff` | crates/bor-chainspec/src/chainspec.rs:96-109 | two heads share a fork id if and only if no fork block separates them |
| `ForkIds.LatestForkId` | crates/bor-chainspec/src/chainspec.rs:209-218 | computes the id at the last fork block |
| `ForkIds.LatestIsFinal` | crates/bor-chainspec/src/chainspec.rs:209-218 | that is the id at every head from the last fork on, with no next fork |
| `ForkIds.ForkIdOfSet` | crates/bor-chainspec/src/chainspec.rs:87-91 | only the set of fork blocks matters, not order or repetition |
| `Payloads.Build` | crates/bor-payload/src/builder.rs:70-119 | user transactions are taken up to the first whose 64-bit running sum is over the limit, which is the longest fitting prefix if and only if nothing overflows; then one transaction without gas per system call: commitSpan at a span boundary with everything pending, then the pending events in order at a sprint boundary; the total is the wrapped sum |
| `Payloads.GasAddsUp` | crates/bor-payload/src/builder.rs:78-84 | the gas of a list is the sum over its transactions |
| `Payloads.LongestIffNoOverflow` | crates/bor-payload/src/builder.rs:78-84 | where the loop stops is the longest fitting prefix if and only if no fitting prefix overflows with its next transaction |
| `Payloads.ExecuteSystemTxPlan` | crates/bor-evm/src/executor.rs:67-107 | target, caller and data of every call: commitSpan first if due and complete, then onStateReceive per event in input order |
| `Payloads.SystemTxsAtTheEnd` | crates/bor-storage/src/gas.rs:9-19 | running gas is constant over the system transactions and the index rule finds exactly the flagged ones |

## Left out

- Consensus.BorConsensus.ValidateBlockPreExecution: is one step, without the gap between the two lock scopes; `ConcurrentValidation` states what the gap allows.
- Prefetching.SpanPrefetcher.EnsureSpansForBlock: is one step; a lookup that falls between two fetches of one pass is placed before or after the pass.
- SpanCaching.SpanCache.Insert: does not model the iteration order or allocation of the hash map; the map is a finite map.
- Signature recovery, keccak and ABI encoding are parameters.
- HTTP retries, polling intervals and the mock client: the span server is an arbitrary oracle per poll.
- Block execution over reth and revm, the eth handshake, RPC types, genesis, bootnodes and command line: no logic of their own that the model could state.
- Snapshot JSON encoding, receipt keys and parameter thresholds: single expressions or library calls.
- Parent checks, transaction and receipt root comparison: equality tests on given values.
- Error message texts and logging.
