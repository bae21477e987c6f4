# Finality engine and selective observer: a verified model

The project models the GRANDPA finality predicate and the state observer built on it, and proves what their
verdicts, caches, queues and routing guarantee over every history of the client and every run.

- `Voters.dfy`: the weighted vote over a justification (saturating 64-bit sum, participation rate), quorum
  intersection, and what repeated signers do to it.
- `VoterLock.dfy`: voter set updates in place, and checks and updates under the read-write lock as a state machine.
- `Chain.dfy`: the client. A history is a sequence of snapshots; the chain may advance between any two reads of one call.
- `Finality.dfy`: status, confidence, chain rules and the verdict.
- `Agreement.dfy`: when two true verdicts must lie on one chain.
- `Window.dfy`, `Polling.dfy`: verdicts over time, and the polling loop with its timeout.
- `Cache.dfy`: the finality cache, for runs of overlapping calls.
- `AuthorityManager.dfy`: the queue of authority set changes.
- `Matching.dfy`, `Observer.dfy`, `EndToEnd.dfy`: event matching, routing per block and per stream, and the way
  back from a routed message to finality.
- `Pallet.dfy`: registration in the storage map and in the memoised observer.
- `MerkleLeaves.dfy`: the chunking that precedes the Merkle tree.

`dafny verify dfyconfig.toml` checks the whole project.

## What is assumed

- Hashing is collision-free, so a hash fixes its header; signatures and codecs are arbitrary functions.
- At or below its finalized height the client holds canonical headers only and keeps them, each finalized head
  descends from the earlier ones, and the best number is not below the finalized one. Nothing else is assumed
  about the chain: it may advance between any two reads, unfinalized headers come and go, and reads may fail.
- A voter set is a non-empty map of positive weights whose exact sum fits in 64 bits; building one may fail. The
  library that builds it is not part of this model.
- Creating the observer succeeds although the source starts it from an empty authority list (src/lib.rs:243,
  src/observer/mod.rs:184). A library that refuses the empty list would make the first creation panic while the
  table's lock is held, and every later look would find it poisoned.
- Increments of a set id wrap, as in a build without overflow checks; a build with them panics at the largest id.
- Ratios are exact reals (0.67 is 67/100); a zero divisor behaves as on floats. Block numbers lie below the
  largest value of the chain's number type, which holds at least 32 and at most 64 bits.

## Findings

- Agreement is not unconditional. With a confidence threshold of 0.6 or less, finality arriving between the second
  header read and the second look at the chain information lets a fork block and the canonical block at its
  height both be judged final (`LowThresholdDisagrees`). The fork block there carries a justification of full
  participation, which is what lifts its confidence to 0.6; a block without one stays at 0.2, and for such blocks
  0.2 is the bound (`UnjustifiedAgreementExact`). With a threshold above 0.6 the first status already saw the height
  finalized, so the second header read rejects a pruned fork block. `Agreement.AgreementExact` gives the exact
  condition. The bound is one of real numbers: in 64-bit floats the same sum is 0.6000000000000001.
- The 0.95 cap announced in the source never binds: an unfinalized block has no confirmations, so its confidence is
  at most 0.6 (`ConfidenceGap`).
- More than 50 required confirmations can never be met (`TooManyConfirmations`); a true verdict is possible exactly up
  to 50 confirmations and a threshold of 1.0 (`VerdictPossibleExact`).
- The vote does not remove duplicates: copies of one counted precommit, however light, reach full participation,
  exactly when their number times its weight reaches the total (`RepeatedSignerReachesFullRate`). So two
  justifications of full participation may share no signer (`RepeatsNeedNotIntersect`), and quorum statements need
  distinct signers.
- Changes scheduled together share one set id (`TogetherShareAnId`). The id counts the changes if and only if each is
  scheduled when none is pending (`IdCountsExact`).
- A change at a greater height blocks the ones queued behind it (`LookupExact`), and a change announced late waits for
  the next finalization (`LateChangeIsMissed`). `SchedulingExact` is the exact guard for one scheduling, `TimingExact`
  the exact condition on whole runs.
- Cached answers are under five seconds old if computing and storing are atomic, and that guarantee holds for no
  other lag: the exact bound is five seconds plus the lag (`StalenessExact`, attained by `StalenessAttained`), so a
  call that may stall for any time leaves none.
- Registration rules out empty names but not an empty message hash. Such a target is harmless until a block judged
  final has an event containing both its names, reached before any error; then the search panics and
  the worker ends, so later blocks are not handled (`PanicExactly`, `RunWithFinalityStream`). Errors, in contrast,
  never suppress later blocks (`ErrorsDoNotSpread`).
- Storage and observer can differ after a lock poisoning (`PoisonedCallDiffers`); `Pallet.AgreementExact` says exactly when.

## Model

| member | source | states |
|---|---|---|
| Voters.VerifyJustification | src/finality/mod.rs:552-597 | the accumulation loop with a saturating addition per precommit returns the exact sum of counted weights clipped once at the 64-bit maximum, divided by the total, and accepts at the required participation |
| Voters.NoVotesNoRate | src/finality/mod.rs:560-596 | no precommits, rate zero |
| Voters.RateOfNext | src/finality/mod.rs:563-596 | a precommit of a non-member, or whose signature does not verify over its own encoding and id, leaves the rate unchanged; any other raises it by exactly its weight over the total, or fills the 64-bit sum |
| Voters.SignersExactly | src/finality/mod.rs:565-569 | an authority is a signer if and only if it is a member with a precommit whose signature verifies |
| Voters.DistinctExactly | src/finality/mod.rs:563-584 | signers are distinct if and only if no member has two such precommits |
| Voters.RateIgnoresOrder | src/finality/mod.rs:560-596 | rearranging the precommits does not change the participation rate |
| Voters.RateMonotone | src/finality/mod.rs:560-596 | appending precommits never lowers the rate |
| Voters.SignedWeightIsSignerWeight | src/finality/mod.rs:560-587 | the accumulated weight is the weight of the set of valid signers if and only if no valid signer repeats, or the set already weighs the 64-bit maximum |
| Voters.RateIsShare | src/finality/mod.rs:586-596 | with distinct signers nothing saturates and the rate is the signers' share of the total, in [0, 1] |
| Voters.QuorumIntersection | src/finality/mod.rs:586-596 | two justifications reaching 0.67 with distinct signers share signers of at least 0.34 of the weight, more than a third |
| Voters.RepeatedSignerReachesFullRate | src/finality/mod.rs:563-584 | n copies of one counted precommit have the rate of n times its weight, clipped; it is full exactly when n times the weight reaches the total, with one signer |
| Voters.RepeatsNeedNotIntersect | src/finality/mod.rs:563-596 | in every voter set, copies of any two authorities' precommits make two justifications of full participation with no common signer |
| VoterLock.SharedVoterSet.Verify | src/finality/mod.rs:556-596 | a check measures the installed set, weights and total alike |
| VoterLock.SharedVoterSet.HandleAuthoritySetUpdate | src/finality/mod.rs:747-771 | a failed update returns the error and leaves the set; a successful one installs the new set |
| VoterLock.SharedVoterSet.UpdateAuthoritiesFromRuntime | src/finality/mod.rs:600-631 | the same for authorities fetched from the runtime, with the error of an unavailable runtime |
| VoterLock.RunKeepsInv | src/finality/mod.rs:557-584 | in every run of interleaved checks and updates each running check holds the clipped sum of its prefix in the set current since it began |
| VoterLock.EveryRateFromOneSet | src/finality/mod.rs:557-594 | every finished check's rate is that of one voter set, installed throughout the check |
| VoterLock.SetChangesOnlyByInstall | src/finality/mod.rs:747-771 | in every reachable state the total is positive and the set changes only by a successful construction taken while no check runs |
| VoterLock.CheckCanFinish | src/finality/mod.rs:557-596 | whenever no update holds the lock, a new check can run to its end beside any others, and adds just its verdict, measured in the current set |
| VoterLock.UpdateCanFinish | src/finality/mod.rs:747-771 | with no check running an update can take the lock, and the outcome is the set it built, if any, and nothing else |
| Finality.BlockHashExact | src/finality/mod.rs:861-873 | a faulty client is a chain error, a missing header is block not found, and otherwise the answer is whether the number is the reference's, clipped to the chain's number type |
| Finality.StatusExact | src/finality/mod.rs:658-707 | exactly when a status is which error; otherwise number plus confirmations is the finalized height if finalized, there are none if not, and the rate is the decoded vote's or zero |
| Finality.ConfidenceFactors | src/finality/mod.rs:885-921 | for any unfinalized status: the two factors in plain arithmetic, 0.4 of each on a base of 0.2, up to 0.95 |
| Finality.ConfidenceExact | src/finality/mod.rs:875-921 | 1.0 at a finalized height, 0.2 without a justification, 0.6 with one that meets the required participation, otherwise (confidence - 0.2) times the requirement is 0.4 times the rate |
| Finality.ConfidenceGap | src/finality/mod.rs:875-921 | confidence is exactly 1.0 at or below the finalized height and at most 0.6 above it, at least 0.2 for non-negative required participation; the 0.95 cap never binds |
| Finality.HighThresholdMeansFinalized | src/finality/mod.rs:330-383 | any threshold above 0.6 admits finalized heights only, under any interleaving |
| Finality.VerdictSound | src/finality/mod.rs:330-383 | a true verdict, its reads interleaved with an advancing chain, means number plus required confirmations is at most the finalized height on return and ever after, and the number conversion did not saturate |
| Finality.VerdictExact | src/finality/mod.rs:330-383 | for any interleaving of the reads: exactly when the verdict is true, false, a chain error and a consensus error, each condition on the moment of its own read and in terms of held headers, finalized and best heights, thresholds and decoded votes |
| Finality.ChainRulesExact | src/finality/mod.rs:923-958 | for any rules: the answer is true if and only if confirmations, height window and, for a justified block, participation all pass; a status error is passed on |
| Finality.TrueVerdictChecks | src/finality/mod.rs:923-958 | what every true verdict implies of its last reads: confirmations, height window, participation |
| Finality.TooManyConfirmations | src/finality/mod.rs:934-948 | more than 50 required confirmations are never met, because the height window closes first |
| Finality.JustificationMustDecode | src/finality/mod.rs:684-698 | a true verdict on a block with a justification implies that it decodes and reaches 0.67 |
| Finality.VerdictsShareSigners | src/finality/mod.rs:950-957 | two justified true verdicts checked against one voter set with distinct signers share more than a third of the weight |
| Agreement.FinalizedFirstIsCanonical | src/finality/mod.rs:330-383 | if the first status saw the height finalized, a block judged final is on the finalized chain from the second header read on |
| Agreement.JudgedFinalIsCanonical | src/finality/mod.rs:330-383 | above the gap a block judged final is on the finalized chain from the second header read on |
| Agreement.StillHeldIsCanonical | src/finality/mod.rs:330-383 | at any threshold, a block judged final whose header is still held afterwards is on the finalized chain |
| Agreement.UninterruptedCallsAgree | src/finality/mod.rs:330-383 | calls during which the chain rests agree whatever the threshold |
| Agreement.LowThresholdDisagrees | src/finality/mod.rs:355-383 | at thresholds up to 0.6 a concrete history has a justified fork block and the canonical block at its height both judged final |
| Agreement.AgreementExact | src/finality/mod.rs:330-383 | over all histories and interleavings verdicts agree if and only if the threshold is above 0.6 or more than 50 confirmations are required |
| Agreement.UnjustifiedAgreementExact | src/finality/mod.rs:330-383 | for blocks without justifications the same holds with 0.2 in place of 0.6, whatever the required participation |
| Agreement.VerdictPossibleExact | src/finality/mod.rs:355-383 | some history and call give a true verdict if and only if at most 50 confirmations are required and the threshold is at most 1.0 |
| Window.VerdictNeverReturns | src/finality/mod.rs:330-383 | between two true verdicts of a block with fixed vote and rising best height no call answers false |
| Window.VerdictInterval | src/finality/mod.rs:330-383 | between two true verdicts every call whose reads succeed answers true, if the threshold is above 0.6 or the header was held when the first call returned |
| Window.VerdictIntervalOnFullChain | src/finality/mod.rs:330-383 | the same at every threshold, with no condition on the header, for a client that holds its whole finalized chain |
| Window.WindowCloses | src/finality/mod.rs:942-948 | once best is more than 50 above the block no later call succeeds |
| Polling.WaitForFinality | src/finality/mod.rs:385-406 | the loop returns at the first poll that is true, an error, or false past the timeout, having waited at every earlier one, after at most timeout / 2 s + 1 sleeps |
| Polling.OutcomeUnique | src/finality/mod.rs:391-405 | the specification leaves one outcome |
| Polling.BoundReached | src/finality/mod.rs:391-402 | the bound on the sleeps is attained |
| Polling.WaitSound | src/finality/mod.rs:385-406 | a successful wait reports a block finalized with its confirmations from then on |
| Polling.WaitHopeless | src/finality/mod.rs:385-406 | a wait begun after the height window closed never succeeds |
| Cache.FinalityCache.GetFinalityStatusCached | src/finality/mod.rs:774-801 | a fresh entry is returned and nothing changes; otherwise the computed status is returned, and stored with old entries dropped unless computing failed |
| Cache.HitExactly | src/finality/mod.rs:780-786 | a status is served if and only if the entry holding it is stamped less than five seconds ago |
| Cache.FillExactly | src/finality/mod.rs:788-798 | a failed fill changes nothing; a successful one sets its entry, leaves every other as it was, and drops exactly those at least thirty seconds old |
| Cache.AnswersLatestFill | src/finality/mod.rs:774-801 | after every run of overlapping calls a status is served if and only if the block's latest successful fill computed it and is stamped less than five seconds ago, whatever other blocks were filled since |
| Cache.EntriesBacked | src/finality/mod.rs:788-798 | in every run of overlapping calls each cached status was computed from reads no later than its timestamp |
| Cache.HitNeverOverstates | src/finality/mod.rs:779-786 | a hit never reports a block finalized that is not, nor more confirmations than it has now |
| Cache.HitStaleness | src/finality/mod.rs:782-783 | a hit is less than five seconds plus the lag between computing and storing old |
| Cache.StalenessAttained | src/finality/mod.rs:789-795 | for every lag between computing and storing a run serves a status a millisecond short of five seconds plus the lag old, which the client would no longer give and no later reads account for |
| Cache.StalenessExact | src/finality/mod.rs:774-801 | over all histories and runs that store within a lag, answers are always less than a bound old if and only if the bound is at least five seconds plus the lag |
| Cache.EvictionInvisible | src/finality/mod.rs:797 | after every run the cache answers every question as one that never evicts |
| AuthorityManager.AuthoritySetManager.constructor | src/finality/mod.rs:110-117 | the initial state |
| AuthorityManager.AuthoritySetManager.ScheduleChange | src/finality/mod.rs:119-136 | the change joins the end of the queue, with its authorities and height, under the 64-bit successor of the current id |
| AuthorityManager.AuthoritySetManager.ProcessFinalizedBlock | src/finality/mod.rs:138-150 | the loop applies exactly the longest due prefix, its last change becomes current, the rest stays pending, and the number is recorded |
| AuthorityManager.AuthoritySetManager.ApplyChange | src/finality/mod.rs:152-165 | the change becomes the current set |
| AuthorityManager.DueCount | src/finality/mod.rs:142-149 | the due prefix is due throughout and ends at a change that is not due |
| AuthorityManager.Conservation | src/finality/mod.rs:119-165 | in every run applied followed by pending is the scheduled list in order, and the current set is the last one applied |
| AuthorityManager.BatchIndependence | src/finality/mod.rs:138-150 | any non-empty sequence of finalizations leaves the current set and queue of one finalization of the highest |
| AuthorityManager.IdBlocksReachable | src/finality/mod.rs:119-165 | in every reachable state the pending ids are a block of the current id followed by a block of the next |
| AuthorityManager.IdAfterFinalize | src/finality/mod.rs:138-165 | one finalization moves the id by at most one, exactly when the applied prefix passes the first block |
| AuthorityManager.IdBounds | src/finality/mod.rs:119-165 | as long as the 64-bit ids do not wrap, the id never falls and rises by at most one per applied change |
| AuthorityManager.IdCountsChanges | src/finality/mod.rs:119-165 | if changes are scheduled only when none is pending, the id is the initial one advanced by the number applied |
| AuthorityManager.NthIdIsSum | src/finality/mod.rs:124 | advancing an id n times adds n modulo 2^64 |
| AuthorityManager.IdCountsExact | src/finality/mod.rs:119-165 | after any run whose changes are all applied, the id is the initial one advanced once per change if and only if changes were scheduled one at a time |
| AuthorityManager.TogetherShareAnId | src/finality/mod.rs:124-129 | two changes scheduled together, at any heights, are both applied and both carry the next id |
| AuthorityManager.LookupExact | src/finality/mod.rs:142-149 | the queue agrees with the stateless lookup at every height if and only if its heights ascend |
| AuthorityManager.RefinesLookup | src/finality/mod.rs:119-165 | after every well-timed run the current set is that of the last change the highest finalized number reaches, and those above it are pending |
| AuthorityManager.SchedulingExact | src/finality/mod.rs:119-150 | scheduling on an agreeing queue keeps it agreeing with the lookup, now and after any finalization, if and only if the new height is above the highest finalized number and not below any pending one |
| AuthorityManager.TimingExact | src/finality/mod.rs:119-165 | the manager agrees with the lookup at every point of a run, now and after any finalization to come, if and only if the run is well timed |
| AuthorityManager.LateChangeIsMissed | src/finality/mod.rs:138-150 | a change announced for a finalized height is not active although the lookup counts it |
| Matching.MatchIsMention | src/observer/mod.rs:432-465 | an event matches if and only if its bytes split around the module name, the function name and the hash when given, none empty; the search panics exactly on a provoking event: any for an empty name, one containing both names for an empty hash |
| Matching.MatchSurvivesEmbedding | src/observer/mod.rs:443-464 | a match survives embedding the bytes in longer ones |
| Matching.MatchesWatchTarget | src/observer/mod.rs:253-275 | for any target the event loop answers true if and only if one single event mentions everything, and panics if and only if some event provokes it |
| Observer.SSMPObserver.RegisterWatchTarget | src/observer/mod.rs:278-281 | the target joins the end of the list |
| Observer.SSMPObserver.HandleFinalityNotification | src/observer/mod.rs:314-368 | for any list of targets the loop routes exactly the block's specified log and ends with the first error or panic, if any |
| Observer.DeliveredExactly | src/observer/mod.rs:345-365 | a log has one message per delivering target, placed by the number of delivering targets before it |
| Observer.DeliversExactly | src/observer/mod.rs:345-363 | a target delivers if and only if it can be searched for, matches, is proved from its own names and chain, and its message is accepted |
| Observer.AbortsExactly | src/observer/mod.rs:345-363 | with or without a router a target aborts with an error if and only if its own failure occurs: no events, a provoked search, a match whose transition is not proved, a proved message not accepted |
| Observer.FailureExact | src/observer/mod.rs:335-367 | a block ends with the verdict's error if the verdict failed, with none if it is not final, and otherwise with an error if and only if that is the failure of the first target that fails |
| Observer.NothingAfterFailure | src/observer/mod.rs:345-365 | neither the target that fails first nor any behind it adds to the log |
| Observer.OneMoreTarget | src/observer/mod.rs:345-365 | one target more changes nothing after an error; otherwise it ends the block with its own failure, or adds its message if it matches and there is a router |
| Observer.RoutedExactly | src/observer/mod.rs:345-365 | of a block judged final exactly the delivering targets before the first error or panic are routed, each at its place |
| Observer.SSMPWorker.RunWithFinalityStream | src/observer/mod.rs:541-550 | for any stream interleaved with registrations the items through the first panic, or all, are handled, and the routed log is the concatenation of their blocks' logs over their snapshots |
| Observer.PanicExactly | src/observer/mod.rs:345-346 | handling a block panics if and only if it is judged final and a target reached before any error meets a provoking event |
| Observer.QuietExactly | src/observer/mod.rs:541-550 | a stream is free of panics if and only if no notification's handling, over the targets registered before it, ends in one |
| Observer.SearchableIsQuiet | src/observer/mod.rs:541-550 | a stream over targets without empty patterns never panics, so all of it is handled |
| Observer.ErrorsDoNotSpread | src/observer/mod.rs:545-549 | the log before and after a notification does not depend on how its handling ends |
| Observer.MessageHasSource | src/observer/mod.rs:335-365 | every routed message comes from a notification judged final and its snapshot |
| EndToEnd.RoutedMeansFinalized | src/observer/mod.rs:335-337 | over whole runs every routed message is for a block finalized with its confirmations then and ever after |
| EndToEnd.RoutedBlocksAgree | src/observer/mod.rs:335-337 | with a threshold above 0.6 any two messages are routed for blocks of one chain |
| Pallet.Runtime.EnsureObserver | src/lib.rs:211-251 | the observer is created once and returned ever after; a poisoned lock yields none and changes nothing |
| Pallet.Runtime.OnInitializeBlock | src/lib.rs:153-156 | block initialization only ensures the observer |
| Pallet.Runtime.RegisterWatchTarget | src/lib.rs:166-193 | the errors in order, and the effect on storage, the memoised observer's list and the events |
| Pallet.CallExactly | src/lib.rs:153-193 | an unsigned call or one with an empty name changes nothing; any other registration sets the entry under its hash, deposits that hash, and with an intact lock appends to the list |
| Pallet.RunContents | src/lib.rs:166-193 | after every run storage holds the accepted targets, the list holds those that reached the observer in order, and the events are the hashes of the accepted targets in order |
| Pallet.StoredExactly | src/lib.rs:171-180 | after every run a target is stored if and only if it has both names and some signed call gave it |
| Pallet.ListedExactly | src/lib.rs:171-185 | it is listed if and only if some such call also found the lock intact |
| Pallet.AgreementExact | src/lib.rs:179-190 | storage and list hold the same targets if and only if every accepted target was accepted once with the lock intact |
| Pallet.PoisonedCallDiffers | src/lib.rs:181-185 | one accepted call that finds the lock poisoned stores a target that is not listed |
| Pallet.RegistrationAgrees | src/lib.rs:166-193 | with an intact lock they agree, the list has one entry per accepted call, every name is non-empty, and a listed target can be searched for unless it was given an empty message hash |
| MerkleLeaves.LeavesCoverData | src/proof/generator.rs:90-103 | ceil(length / 32) leaves of 32 bytes whose concatenation is the zero-padded data and starts with the data |
| MerkleLeaves.LeafBytes | src/proof/generator.rs:91-98 | byte j of leaf i is byte 32 i + j of the data, or zero behind its end |
| MerkleLeaves.SameLeavesExactly | src/proof/generator.rs:90-103 | two inputs give the same leaves if and only if they are equal after padding |

## Left out

- Verdicts of the observer's notifications are a field of the notification in `Observer.dfy`; `EndToEnd.dfy` equates them with is_final.
- Conversion errors of a notification's hash and number: they cannot occur for 32-byte hashes and 32-bit numbers.
- The powers and messages inside error values, logging, metrics and wall-clock metadata: error kinds only.
- Float rounding, not-a-number thresholds and negative zero: ratios are exact reals.
- WaitForFinality: the width of the retry counter, because its type is not part of this model.
- ProcessFinalizedBlock: the gauge update, which nothing reads.
- RunWithFinalityStream: registrations racing with one block's handling appear at the moment its snapshot is taken, which orders them completely.
- EnsureObserver: does not model a creation that panics on the empty authority list and poisons the lock, because the voter set library is not part of this model.
- Reverts of finalized or best blocks: finality only extends, and the interval results also assume a rising best number.
- The Merkle tree over the leaves, the BLS generator, inclusion proofs and the verifiers: placeholders or unseen libraries.
- The length bounds of watch targets, routing adapters, wrapper types and the pallet module outside the module tree: thin wrappers with easy claims.
