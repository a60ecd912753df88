# The prover network's verifier, modelled and proved

The verifier of the prover network runs proving contests. Provers bid amounts while a contest is
live; when it ends a winner is selected and gets a work order; the winner's proof is checked and its
credits change. Several tasks do this concurrently: they share the current contest behind a lock, talk
through bounded channels, and read and write prover profiles in separate storage calls.

The project has three layers.

* **The objects, in the program's own form.** `Execution` and `Storage` are classes whose methods update
  fields in place (winner selection, the executor, the in-memory store); `Tasks` has the task loops over
  them. Each method is proved against a function on values; `Ranking` and `Effects` say what these come
  to, in terms that do not follow their steps.
* **The protocol.** `Auction` (lifecycle, bid task, watcher, completion consumer, `submit_bid` handlers)
  and `Accounts` (proof task, `submit_proof`, `register_prover`) are state machines in which one step is
  one lock hold, one channel operation, one storage call or one local computation. `System` joins them
  with the executor lock. A run is any interleaving. `Schedules` proves that each loop of `Tasks` (bids,
  proofs, completed contests, lifecycle rounds), handling one message or round without interruption, is
  a stretch of this protocol.
* **The theorems**, over every run: `Announcements`, `BidFlow`, `BidCalls`, `WorkOrders`, `Ledger`,
  `ProofHistory`, `Submissions`, `Profiles`, `StartTimes`, `Channels`, `LockProgress`, `Timing`, lifted to
  the whole verifier in `Verifier`. `Counterexamples` has the runs
  that show what the program does not guarantee.

Arithmetic is that of the release build the Dockerfile ships: 64-bit operations wrap around. Random
draws and clock readings are parameters.

What the code does, where that differs from what one would expect:

* With two or more nonzero bids (and no overflow) the first bid always wins, so the winner is whoever bid
  first (`SelectIsClosed`, `FirstBidWins`); with a single nonzero bid a zero bid wins (`SoleBidderLoses`).
  Once an amount overflows, the winner is the bid of a drawn rank, whatever its amount (`SelectExactly`).
* A zero draw with two or more bids computes a remainder by zero. The completion task dies, and no winner
  is ever announced again (`ConsumerStopsExactly`, `ConsumerDies`, `ConsumerStopIsFinal`).
* The winner does not always get its work order: any waiting `submit_bid` call may take the message, and
  one is issued if and only if the call that takes it has the winner's address (`WorkOrderExactly`,
  `WorkOrderLost`), where the repository's README has the winner receive program and input.
* A late proof that verifies is slashed and rewarded (`EachProofExactly`). What is late is decided by the
  contest the proof task sees, not the one the proof was made for: any proof it takes up while a contest is
  live is slashed (`SlashedByTheClock`).
* A slash takes 1000 credits if and only if there are that many; otherwise it leaves almost 2^64
  (`SlashExactly`, and `CreditsWrap` for a run that gets there).
* A prover's credits are exact in a run if and only if every copy of its profile that is written back was
  read with the credits that are still stored, whatever happens to other provers (`LedgerExactly`; without
  the modulus, `CreditsAreBalance`); a reward can be lost otherwise (`RewardLost`).
* No contest is announced twice. With a watcher that looks at least every D milliseconds, none is missed in
  any run if and only if D is below both durations (`NoneMissedExactly`); with no bound on the watcher one
  can be (`ContestMissed`).
* If the proof task finds the status channel full when it sends an acceptance, it waits with the executor
  lock in its hands, and if nobody reads statuses the contest never changes again
  (`UnreadStatusesStopEverything`); a hundred unread acceptances and one more lead there (`LockJams`).

## Model

| member | source | states |
|---|---|---|
| WinnerSelection.SelectIsClosed | primitives/src/data_structure.rs:197-255 | for every bid list and both draws, without overflow, selection is: no bids, none; one bid, it; zero draw, panic; all zero, the second draw; one nonzero, the first (draw 1) or second zero bid by name; otherwise the first bid |
| WinnerSelection.SelectionSafe | primitives/src/data_structure.rs:204-254 | whatever the arithmetic wraps to: a panic happens exactly on a zero draw with two or more bids or a draw above 32 bits, and a selected winner is one of the bids (which one, SelectExactly says) |
| Ranking.SelectExactly | primitives/src/data_structure.rs:204-254 | on two or more bids and a nonzero draw below 2^32, whatever overflows: a total of zero in 64 bits gives the bid of the second draw; otherwise the winner is the first bid with the name of the bid that as many others precede, by wrapped share and then by position, as the range of the wrapped shares leaves modulo the draw, and there is one |
| Ranking.SelectOtherwise | primitives/src/data_structure.rs:197-243 | a single bid wins, a zero draw among more panics, and so does a draw of 2^32 or more |
| WinnerSelection.SelectUnderBound | primitives/src/data_structure.rs:211-215 | bids at most B with n * B^(n-1) below 2^64 are enough for the closed form, for every draw |
| WinnerSelection.OverflowDrawsAtRandom | primitives/src/data_structure.rs:211-223 | outside the bound it fails: equal bids of 2^32 and draw 2 wrap to a zero total and the winner is drawn at random |
| WinnerSelection.SoleBidderLoses | primitives/src/data_structure.rs:245-254 | with distinct names, a single nonzero bid never wins: the winner's amount is zero |
| Powers.OverflowBound | primitives/src/data_structure.rs:211-226 | amounts at most B with n * B^(n-1) below 2^64: no draw makes any power or partial sum overflow |
| Powers.OverflowExactly | primitives/src/data_structure.rs:204-215 | for two or more bids, no nonzero draw overflows in any power or partial sum if and only if the largest draw's total is below 2^64 |
| Powers.WrappedTotalIsModular | primitives/src/data_structure.rs:211-215 | the total accumulated with wrap-around is the integer total modulo 2^64 |
| BidderSort.StableSortKeepsOrder | primitives/src/data_structure.rs:235 | bidders with equal shares keep their order |
| BidderSort.StableSortPermutes | primitives/src/data_structure.rs:235 | the sorted vector is a permutation |
| BidderSort.StableSortUnique | primitives/src/data_structure.rs:235 | any sorted vector with the same bidders of each share in the same order is this one |
| Execution.MutableContest.GetWinner | primitives/src/data_structure.rs:197-255 | the in-place code returns the selection that SelectExactly, SelectOtherwise and SelectIsClosed determine, and records exactly that winner, or leaves the field alone |
| Execution.SumOfPowers | primitives/src/data_structure.rs:211-215 | the accumulation loop computes the integer total modulo 2^64 |
| Execution.PushShares | primitives/src/data_structure.rs:225-228 | the pushing loop builds one bidder per bid, in order, with its truncated share |
| Execution.FindNamed | primitives/src/data_structure.rs:252 | the lookup returns the first bid with the name |
| Execution.VerifierExecutor.StartContest | verifier/src/execution.rs:30-42 | the current contest is replaced by a live one with the given id, the first clock reading as start time, the second plus 10000 (in 64 bits) as end time, reward 1500, no bids and no winner |
| Execution.VerifierExecutor.AddBid | verifier/src/execution.rs:48-60 | the bid is appended, and true returned, exactly when every bid of the contest has another address; otherwise nothing changes |
| Execution.VerifierExecutor.GetWinner | verifier/src/execution.rs:62-64 | the current contest gets the selected winner |
| Announcements.RunIsSafe | verifier/src/main.rs:380-498 | in every state of every run the lifecycle's position, the status and the number of contests ended agree, and the ids in flight from watcher to handlers strictly increase and lie behind the current contest |
| Announcements.AnnouncedAtMostOnce | verifier/src/main.rs:453-474 | in every run, with no timing assumption, announced ids strictly increase and do not exceed the current id |
| BidFlow.BidsConserved | verifier/src/main.rs:339-378 | in every run the bids sent are those in the contest lists, dropped as duplicates, refused (each written to a profile, by RefusalIsStored and ProfileKeepsAll), in hand, queued, or lost to the early return, and they are finished with in the order sent |
| BidFlow.ListStep | verifier/src/execution.rs:48-60 | in every step the current list is the bids appended while that contest was current, and no list has an address twice |
| BidFlow.AtMostOneLateBid | verifier/src/main.rs:342-359 | after a contest is ended its list grows by at most one bid, at the end, although the check and the append are separate lock holds |
| BidFlow.SnapshotsAgree | verifier/src/main.rs:410-460 | any two snapshots of one contest, wherever they are, are both ended, one list is a prefix of the other, and they differ by at most one bid |
| BidFlow.DistinctBidders | verifier/src/execution.rs:48-60 | the current contest, every snapshot in flight and every log entry have pairwise distinct addresses |
| BidCalls.OfferExactly | verifier/src/execution.rs:48-60 | among the bid task's steps only an offer touches the contest, and it appends the bid in hand exactly when no bid there has its address |
| BidCalls.PickExactly | verifier/src/main.rs:479-483 | the completion task goes on with the very contest it received and the winner its two draws select, drops it exactly when it has no bids, and dies exactly on a panic |
| BidCalls.CallsMove | verifier/src/networking.rs:134-209 | a call sends its bid once, fails exactly when the bid task is gone, and is answered by one receive, with a work order exactly when the contest received has a winner with its address |
| BidCalls.CallsKeepTheirBid | verifier/src/networking.rs:134-151 | in every run a call has, to its answer, the bid it arrived with |
| BidCalls.AnswersWithoutContest | verifier/src/networking.rs:196-200 | in every run a call answered without having received a contest got no work order, and then the completion task is dead and nothing is queued |
| WorkOrders.OneWorkOrderPerContest | verifier/src/networking.rs:163-209 | in every run two different `submit_bid` calls never get work orders for the same contest |
| WorkOrders.WorkOrderProvenance | verifier/src/networking.rs:174-191 | a work order comes from a stored contest whose winner has the caller's address, was selected from that contest's snapshot, was appended while it was current, and had been sent |
| WorkOrders.WorkOrderExactly | verifier/src/networking.rs:163-209 | a contest taken by a caller leads to a work order if and only if that caller has the winner's address |
| LostWorkOrder.WorkOrderLost | verifier/src/networking.rs:163-195 | a reachable state in which the contest's message went to a caller who lost, and the winner still waits |
| WorkOrders.WinnersAreForwarded | verifier/src/main.rs:485-495 | the log's winner entries are, in order, exactly the contests delivered, queued for handlers and about to be queued |
| WorkOrders.AnnouncedIsNotLost | verifier/src/main.rs:452-498 | while the completion task lives, every announced contest that ended with a bid is on its way to the handlers or has been forwarded with a winner |
| WorkOrders.LogShape | verifier/src/main.rs:407-487 | winnerless entries are contests 0, 1, 2, ... in order; winner entries have increasing ids and selected winners; no contest appears more than twice; the log has at most 2(id+1) entries |
| WorkOrders.FirstBidWins | primitives/src/data_structure.rs:204-254 | in every run the stored winner of a contest with two nonzero bids and no overflow is the first bid appended to that contest, whatever was drawn |
| WorkOrders.ConsumerStopsExactly | verifier/src/main.rs:479-483 | when the completion task panics: if and only if the draw is zero with two or more bids, or above 32 bits |
| DeadConsumer.ConsumerDies | primitives/src/data_structure.rs:245-247 | a reachable state in which the completion task has panicked over contest 0 and the announced contest is in nobody's hands |
| WorkOrders.ConsumerStopIsFinal | verifier/src/main.rs:479-498 | after that no winner is ever stored or forwarded |
| WorkOrders.BidTaskStopIsFinal | verifier/src/main.rs:370 | after the bid task returns on an unregistered prover no bid is taken or sent again |
| System.RunProjects | verifier/src/main.rs:582-667 | seen from the contest half a run of the whole verifier is a run of that half, so its theorems hold for the verifier |
| Verifier.VerifierKeepsOutput | verifier/src/main.rs:582-667 | every state of every run of the whole verifier satisfies all contest-half invariants |
| Verifier.VerifierOneWorkOrder | verifier/src/networking.rs:163-209 | one work order per contest, in runs of the whole verifier |
| Ledger.BalancedStepExactly | verifier/src/main.rs:526-545 | if a prover's credits equal its balance of events (modulo 2^64) before a move, they do after it if and only if the move, should it write that prover's profile back, writes over the credits that were read |
| Ledger.LedgerExactly | verifier/src/main.rs:513-557 | per prover and whole run, both directions: its ledger is exact in every state if and only if every write of its own profile finds the credits that were read |
| Ledger.WholeLedgerExactly | verifier/src/main.rs:513-557 | the same for all provers at once |
| Ledger.UndisturbedRunIsAtomic | verifier/src/networking.rs:117-129 | if nobody writes a given prover's profile between another's read and write of it, every write of that profile acts on the stored one and that prover's ledger is exact throughout, whatever races other profiles suffer |
| Ledger.CreditsAreBalance | verifier/src/main.rs:529-544 | per prover and whole run, both directions: the credits are the integer balance in every state if and only if every write of its profile finds the credits read and neither a slash finds too few nor a reward overflows |
| Ledger.SlashExactly | verifier/src/main.rs:527-530 | in a run that kept the prover's ledger exact, a slash lowers the balance by 1000 and the stored credits too if and only if they are at least 1000; otherwise they become 2^64 - 1000 plus what was there |
| SlashedBelowZero.CreditsWrap | verifier/src/main.rs:527-530 | a reachable state in which a prover with balance -1000 holds 2^64 - 1000 credits |
| ProofHistory.LedgerTellsVerdicts | verifier/src/main.rs:519-557 | in every run slashes and rewards are, in order, the statuses emitted plus the pending one, and, amounts included, what each proof handled deserves, a late valid proof both; a reward is 1500, or 0 for a proof checked before contest 0 was started |
| ProofHistory.EachProofExactly | verifier/src/main.rs:519-557 | for every proof handled in a run: a slash and a Rejected status if and only if the contest seen was live or the timestamp exceeds its end time plus 10000 (in 64 bits); a reward and an Accepted status if and only if it verifies; the statuses are the proof itself otherwise unchanged |
| StartTimes.SlashedByTheClock | verifier/src/main.rs:519-530 | and told from the clock: seen after contest k ended, a proof is slashed if and only if its timestamp exceeds the reading contest k was started with plus 20000, in 64 bits; before the first contest, if it exceeds 10000 |
| StartTimes.TimesAreKept | verifier/src/execution.rs:30-46 | in every run the current contest and every snapshot, in flight or stored, have the start time, end time and reward of that contest's own start |
| StartTimes.StartSetsTimes | verifier/src/execution.rs:30-42 | the start step sets each field of the contest to those values |
| ProofHistory.BalanceFromStatuses | verifier/src/main.rs:519-557 | in every run a prover's balance is 1500 per acceptance less 1000 per rejection told since its last registration, less 1500 per acceptance that paid nothing |
| ProofHistory.CreditsFromStatuses | verifier/src/main.rs:519-557 | and so are, modulo 2^64, its stored credits, if its writes find the credits read and every proof was checked against a started contest |
| ProofHistory.ProofsConserved | verifier/src/main.rs:510-557 | every proof submitted is handled, in hand, queued or dropped by the early return, in order; every status emitted is read or queued |
| Submissions.OnlySaneProofs | verifier/src/networking.rs:95-101 | in every run every proof submitted, queued, in hand, handled or dropped has passed the signature check, and every slash and reward is for a prover named in one of them |
| Submissions.RefusedLeavesNothing | verifier/src/networking.rs:95-100 | an arriving call is refused at once if and only if its proof fails the check, and arriving changes nothing else |
| Submissions.CallsMove | verifier/src/networking.rs:95-135 | a call answers error 1 exactly when the check fails, 2 exactly when the proof task is gone as it sends, 3 exactly when its prover is not registered as it looks, and is done exactly when it writes the profile |
| Submissions.CallsKeepTheirProof | verifier/src/networking.rs:95-135 | in every run a call has, to its answer, the proof it arrived with |
| Profiles.RefusalIsStored | verifier/src/main.rs:366-372 | in every run a refused bid is written: its prover's profile becomes the one read with that bid, marked rejected, last, and nothing else changes |
| Profiles.ProfileKeepsAll | verifier/src/networking.rs:117-129 | in a run that does not disturb a profile, between registrations it keeps team and address and gains exactly the bids refused and the proofs recorded, in order; slashes and rewards change the credits only |
| Profiles.ProfileSinceRegistration | verifier/src/networking.rs:221-237 | so after a registration the profile is the name, team and address registered, the bids refused since, the proofs recorded since, and the credits |
| ProofHistory.OnlyTimelyProofsExitOnAccept | verifier/src/main.rs:543 | the missing-profile exit of the accepting branch is only taken by a proof inside its window |
| LockProgress.HolderBlocksExactly | verifier/src/main.rs:539-556 | the task holding the lock can move unless it is sending a status and the channel is full |
| LockProgress.RankStep | verifier/src/main.rs:539-556 | while it is held nobody else takes the lock, and only the holder's steps change its distance to release, downwards |
| LockProgress.ReleasedInThreeSteps | verifier/src/main.rs:539-556 | the lock is released by the holder's third step at the latest, in every interleaving |
| LockProgress.LockGuardsContest | verifier/src/main.rs:339-556 | a step other than verification takes the lock if and only if it reads or writes the current contest |
| LockProgress.LockChangesHands | verifier/src/main.rs:539-556 | the lock outlasts a step exactly when that step verified a valid proof, and is given back exactly by sending the acceptance or by finding the prover unregistered |
| Channels.SendsWaitExactly | verifier/src/main.rs:548 | in every run a send waits if and only if its channel holds exactly 100 messages and the reading task lives |
| Channels.ReceivesWaitExactly | verifier/src/networking.rs:163-169 | a receive waits if and only if its channel is empty, a bid call's only while the completion task lives |
| LockProgress.UnreadStatusesStopEverything | verifier/src/main.rs:539-556 | once the proof task is sending an acceptance into a full status channel and while nobody reads statuses, the lock stays held, no locking step happens and the contest never changes |
| JammedLock.LockJams | verifier/src/main.rs:539-556 | such a state is reachable: a hundred acceptances unread and one more being sent |
| Timing.AnnouncedExactlyOnce | verifier/src/main.rs:394-474 | if the watcher looks at least every D ms, D below both durations, and is never blocked by a full internal channel, the ids announced are at every moment exactly 0..k-1 or 0..k for current contest k, and an initial stretch if the completion task has panicked |
| Timing.NoContestForgotten | verifier/src/main.rs:394-498 | under the same assumptions, and if the completion task has not panicked, every past contest that ended with a bid has been forwarded with a winner or is on its way |
| Timing.NoneMissedExactly | verifier/src/main.rs:394-474 | for every D: each of these two holds in all timed runs of period D without blocking if and only if D is below both durations |
| MissedContest.ContestMissed | verifier/src/main.rs:453-474 | without timing a run exists in which contest 1 passes unannounced |
| MissedContest.MissedForGood | verifier/src/main.rs:453-474 | from such a state on only the current and later contests are announced |
| LostReward.RewardLost | verifier/src/networking.rs:101-129 | a reachable state in which a reward was written and the stored credits are zero |
| Tasks.MainOrchestrator.ListenAndProcessBids | verifier/src/main.rs:339-378 | the bid loop over the executor and the store has the effect that LiveContestCollects and DeadContestRefuses determine, including its early return |
| Effects.LiveContestCollects | verifier/src/main.rs:355-365 | on a live contest the loop appends exactly the first bid of every new address, in the order received, touches no profile and does not return early |
| Effects.DeadContestRefuses | verifier/src/main.rs:366-374 | on a contest that is not live every registered prover's profile gains its bids, in order and marked rejected, up to the first bid of an unregistered prover, which makes the loop return; nothing else changes |
| Tasks.MainOrchestrator.ProcessProof | verifier/src/main.rs:510-559 | the proof loop has the effect on profiles and statuses that CreditsAfterLoop, StatusesAfterLoop and LoopStopsExactly determine, including the fall-through and both early returns |
| Effects.LoopStopsExactly | verifier/src/main.rs:513-543 | the proof loop returns early if and only if a late or valid proof of an unregistered prover comes by |
| Effects.CreditsAfterLoop | verifier/src/main.rs:519-557 | after it every prover's credits have changed, modulo 2^64, by the sum of what its proofs are worth, up to the one that made the loop return if one did, and nothing else in its profile has |
| Effects.OneProofExactly | verifier/src/main.rs:519-557 | one proof, in numbers: 1000 off and Rejected if and only if the contest is live or the timestamp exceeds its end plus 10000; the reward and Accepted if and only if it verifies; an unregistered prover's proof changes nothing |
| Effects.StatusesAfterLoop | verifier/src/main.rs:519-557 | the loop sends, in order, the statuses each proof gets, up to the one that made it return |
| Tasks.MainOrchestrator.ProcessContestCompletion | verifier/src/main.rs:479-498 | the completion loop stores exactly what it forwards, up to the first panic |
| Effects.CompletedAreChosen | verifier/src/main.rs:479-498 | all of it has selected winners, and without a panic every snapshot with bids is forwarded |
| Effects.CompletedInOrder | verifier/src/main.rs:479-498 | they are, in order, the snapshots with bids, each with the winner of its own draws, up to the first whose selection panics |
| Tasks.MainOrchestrator.LifecycleRound | verifier/src/main.rs:383-443 | one lifecycle round has, by status, the effect that RoundExactly tells field by field |
| Effects.RoundExactly | verifier/src/main.rs:383-443 | field by field: a live contest is only ended; otherwise a contest is started with the next id, the clock readings as times, reward 1500 and no bids, the ended one being stored first |
| Tasks.MainOrchestrator.RecordProof | verifier/src/networking.rs:117-129 | the profile becomes the one stored with the proof at the end of its proofs, or nothing changes for an unregistered prover |
| Schedules.BidIsSchedule | verifier/src/main.rs:342-374 | one uninterrupted iteration of the bid loop is a sequence of the bid task's protocol steps with that effect |
| Schedules.ProofIsSchedule | verifier/src/main.rs:513-557 | one uninterrupted iteration of the proof loop is a sequence of the proof task's protocol steps with that effect |
| Schedules.RoundIsSchedule | verifier/src/main.rs:383-443 | one uninterrupted lifecycle round is a sequence of the lifecycle's protocol steps with the effect proved of LifecycleRound |
| Schedules.CompletionIsSchedule | verifier/src/main.rs:479-498 | one uninterrupted iteration of the completion loop is a sequence of its protocol steps with the effect proved of ProcessContestCompletion, a panic included |

## Left out

- Contest ids are natural numbers; the program's `contest_id + 1` wraps after 2^64 contests, which at 20 seconds a contest does not occur.
- Proof verification and the signature check are fixed verdicts attached to each submitted proof (`valid`, `sane`); hashing, signature recovery and the proof system are not part of this model.
- Serialisation is taken as lossless, so the store holds values instead of JSON strings.
- The Redis store, lost connections and storage errors other than a missing profile.
- The RPC server, subscription sinks, logging, argument parsing and `main`; a subscription that fails to open is a call that never arrives.
- The read-only calls `watch_current_contest`, `get_provers` and `get_all_contests`, and the conversion of team names.
- The `start_contest` and `add_bid` of the shared `Contest` type, which the verifier does not call.
- The order in which waiting `submit_bid` calls get the shared receiver: any of them may be next, which includes the order the runtime's lock queues them in.
- The program and input bytes of a work order, which are constants; a work order is its contest id.
- The prover client and the utilities.
- Tasks.MainOrchestrator.LifecycleRound: one round of an endless loop, without its sleeps; the sleeps are in the timed protocol.
- Timing.AnnouncedExactlyOnce: speaks of runs in which the internal channel has room whenever the watcher announces (a watcher blocked on it takes as long as it takes, and may miss contests), and takes a send on a channel with room to take no time; the watcher's period D is a parameter, because the scheduler bounds it only informally.
- Schedules.ProofIsSchedule: asks for room for two statuses, since otherwise an uninterrupted iteration does not exist.
- Schedules.CompletionIsSchedule: asks for room for one contest, for the same reason.
