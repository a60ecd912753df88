/** Runs showing what the program does not guarantee: without timing a contest can be missed; the
    message with a winner can go to another caller; the completion task can die; a reward can be erased
    by the prover's own submission handler; a slash can make almost 2^64 credits; and an unread status
    channel can stop the verifier. */

/** Steps of the contest half towards a state. */
module AuctionRuns {
  import opened Primitives
  import opened Auction

  ghost predicate Reachable(a: Auction) {
    exists trace, steps :: Run(trace, steps) && trace[|steps|] == a
  }

  lemma ReachStart()
    ensures Reachable(START)
  {
    assert Run([START], []);
  }

  lemma Reach(a: Auction, step: Step)
    requires Reachable(a) && Enabled(a, step)
    ensures Reachable(Apply(a, step))
  {
    var trace, steps :| Run(trace, steps) && trace[|steps|] == a;
    var trace', steps' := trace + [Apply(a, step)], steps + [step];
    assert Run(trace', steps') && trace'[|steps'|] == Apply(a, step);
  }

  /** The lifecycle ends a live contest. */
  lemma ReachEnd(a: Auction) returns (b: Auction)
    requires Reachable(a) && a.contest.status == Live && a.life == ReadStatus
    ensures Reachable(b)
    ensures b == a.(contest := a.contest.(status := Ended), closings := b.closings)
  {
    Reach(a, LifeReadStatus);
    var a1 := Apply(a, LifeReadStatus);
    Reach(a1, LifeEnd);
    b := Apply(a1, LifeEnd);
  }

  /** It stores an ended contest and starts the next one. */
  lemma ReachNext(a: Auction) returns (b: Auction)
    requires Reachable(a) && a.contest.status == Ended && a.life == ReadStatus
    ensures Reachable(b)
    ensures b == a.(contest := FreshContest(a.contest.contestId + 1, 0, 0), log := b.log)
  {
    Reach(a, LifeReadStatus);
    var a1 := Apply(a, LifeReadStatus);
    Reach(a1, LifeSnapshot);
    var a2 := Apply(a1, LifeSnapshot);
    Reach(a2, LifeStore);
    var a3 := Apply(a2, LifeStore);
    Reach(a3, LifeReadId);
    var a4 := Apply(a3, LifeReadId);
    Reach(a4, LifeStart(0, 0));
    b := Apply(a4, LifeStart(0, 0));
  }
}

module MissedContest {
  import opened Primitives
  import opened Auction
  import opened Announcements
  import opened AuctionRuns

  /** Contest 0 has ended and been announced; the watcher waits to see a live contest. */
  lemma ReachAnnounced() returns (a: Auction)
    ensures Reachable(a) && a.contest.status == Ended && a.life == ReadStatus
    ensures a.contest.contestId == 0 && a.watcher == AwaitLive && a.announced == [0]
  {
    ReachStart();
    Reach(START, LifeReadStatus);
    var a1 := Apply(START, LifeReadStatus);
    Reach(a1, LifeStart(0, 0));
    var a2 := ReachEnd(Apply(a1, LifeStart(0, 0)));
    Reach(a2, WatchPoll);
    var a3 := Apply(a2, WatchPoll);
    Reach(a3, WatchAnnounce);
    a := Apply(a3, WatchAnnounce);
  }

  /** A watcher that does not look while contest 1 is live finds contest 2 live, and goes back to
      polling having announced contest 0 only. */
  lemma ContestMissed()
    ensures exists a :: Reachable(a) && a.watcher == Polling && a.announced == [0] &&
                        a.contest.contestId == 2 && a.contest.status == Live
  {
    var a0 := ReachAnnounced();
    var a1 := ReachNext(a0);
    var a2 := ReachEnd(a1);
    var a3 := ReachNext(a2);
    Reach(a3, WatchAwaitLive);
    assert Reachable(Apply(a3, WatchAwaitLive));
  }

  /** The current contest and the one being announced are not before contest k. */
  ghost predicate From(a: Auction, k: nat) {
    && PhaseInv(a) && a.contest.status != NotStarted && a.contest.contestId >= k
    && (a.watcher.Announcing? ==> a.watcher.snapshot.contestId >= k)
  }

  lemma FromStep(a: Auction, step: Step, k: nat)
    requires From(a, k) && Enabled(a, step)
    ensures From(Apply(a, step), k)
    ensures forall id :: id in Apply(a, step).announced && id !in a.announced ==> id >= k
  {
    PhaseStep(a, step);
  }

  /** Whatever follows, only the current contest and later ones are announced from there on: a contest
      missed is missed for good. */
  lemma {:induction false} MissedForGood(trace: seq<Auction>, steps: seq<Step>, n: nat, k: nat)
    requires Continues(trace, steps) && n <= |steps| && From(trace[0], k)
    ensures From(trace[n], k)
    ensures forall id :: id in trace[n].announced && id !in trace[0].announced ==> id >= k
  {
    if n > 0 {
      MissedForGood(trace, steps, n - 1, k);
      FromStep(trace[n - 1], steps[n - 1], k);
      assert trace[n - 1 + 1] == Apply(trace[n - 1], steps[n - 1]);
    }
  }
}

module LostWorkOrder {
  import opened Primitives
  import opened Auction
  import opened AuctionRuns
  import WinnerSelection

  const WINNER: BidRequest := BidRequest(5, "winner", "winner", BidPending)
  const OTHER: BidRequest := BidRequest(7, "other", "other", BidPending)

  /** Two callers have sent bids while contest 0 is live. */
  lemma ReachSent() returns (a: Auction)
    ensures Reachable(a) && a.contest == FreshContest(0, 0, 0) && a.life == ReadStatus
    ensures a.bidTask == AwaitBid && a.bidQueue == [WINNER, OTHER]
    ensures a.handlers == map[0 := AwaitResult(WINNER), 1 := AwaitResult(OTHER)]
    ensures a.watcher == Polling && a.consumer == AwaitContest && a.internalQueue == [] && a.contestQueue == []
    ensures a.delivered == [] && a.announced == []
  {
    ReachStart();
    Reach(START, LifeReadStatus);
    var a1 := Apply(START, LifeReadStatus);
    Reach(a1, LifeStart(0, 0));
    var a2 := Apply(a1, LifeStart(0, 0));
    var a3 := ReachBidder(a2, 0, WINNER);
    a := ReachBidder(a3, 1, OTHER);
    assert a.handlers == map[0 := AwaitResult(WINNER), 1 := AwaitResult(OTHER)];
  }

  lemma ReachBidder(a: Auction, h: nat, bid: BidRequest) returns (b: Auction)
    requires Reachable(a) && h !in a.handlers && !a.bidTask.BidTaskGone? && |a.bidQueue| < CAPACITY
    ensures Reachable(b)
    ensures b == a.(handlers := a.handlers[h := AwaitResult(bid)], bidQueue := a.bidQueue + [bid],
                    sent := a.sent + [bid])
  {
    Reach(a, HandlerArrive(h, bid));
    var a1 := Apply(a, HandlerArrive(h, bid));
    Reach(a1, HandlerSubmit(h));
    b := Apply(a1, HandlerSubmit(h));
    assert b.handlers == a.handlers[h := AwaitResult(bid)];
  }

  /** The bid task takes the first bid of the queue into a live contest. */
  lemma ReachTaken(a: Auction) returns (b: Auction)
    requires Reachable(a) && a.contest.IsLive() && a.bidTask == AwaitBid && a.bidQueue != []
    requires !HasBidder(a.contest.bids, a.bidQueue[0].proverAddress)
    ensures Reachable(b)
    ensures b == a.(contest := a.contest.(bids := a.contest.bids + [a.bidQueue[0]]), bidQueue := a.bidQueue[1..],
                    processed := b.processed)
  {
    Reach(a, BidReceive);
    var a1 := Apply(a, BidReceive);
    Reach(a1, BidCheckLive);
    var a2 := Apply(a1, BidCheckLive);
    Reach(a2, BidOffer);
    b := Apply(a2, BidOffer);
  }

  /** The watcher announces an ended contest. */
  lemma ReachWatched(a: Auction) returns (b: Auction)
    requires Reachable(a) && a.contest.status == Ended && a.watcher == Polling
    requires a.consumer == AwaitContest && a.internalQueue == []
    ensures Reachable(b)
    ensures b == a.(watcher := AwaitLive, internalQueue := [a.contest],
                    announced := a.announced + [a.contest.contestId])
  {
    Reach(a, WatchPoll);
    var a1 := Apply(a, WatchPoll);
    Reach(a1, WatchAnnounce);
    b := Apply(a1, WatchAnnounce);
  }

  /** The consumer picks the only bid of a snapshot and forwards it. */
  lemma ReachPicked(a: Auction) returns (b: Auction)
    requires Reachable(a) && a.consumer == AwaitContest && |a.internalQueue| == 1 && a.contestQueue == []
    requires |a.internalQueue[0].bids| == 1
    ensures Reachable(b)
    ensures var c := a.internalQueue[0].(winner := Some(a.internalQueue[0].bids[0]));
            b == a.(internalQueue := [], contestQueue := [c], log := b.log)
  {
    Reach(a, ConsumeReceive);
    var a1 := Apply(a, ConsumeReceive);
    WinnerSelection.SelectSingle(a1.consumer.contest.bids, 0, 0);
    Reach(a1, ConsumePick(0, 0));
    var a2 := Apply(a1, ConsumePick(0, 0));
    b := ReachStored(a2);
  }

  lemma ReachStored(a: Auction) returns (b: Auction)
    requires Reachable(a) && a.consumer.StoringWinner? && a.contestQueue == []
    ensures Reachable(b)
    ensures b == a.(consumer := AwaitContest, contestQueue := [a.consumer.contest], log := b.log)
  {
    Reach(a, ConsumeStore);
    var a1 := Apply(a, ConsumeStore);
    Reach(a1, ConsumeForward);
    b := Apply(a1, ConsumeForward);
  }

  /** The first bid is taken, the contest ends, and it is announced, picked and forwarded. */
  lemma ReachForwarded() returns (a: Auction)
    ensures Reachable(a)
    ensures a.handlers == map[0 := AwaitResult(WINNER), 1 := AwaitResult(OTHER)]
    ensures a.contestQueue == [FreshContest(0, 0, 0).(bids := [WINNER], status := Ended, winner := Some(WINNER))]
    ensures a.delivered == []
  {
    var a0 := ReachSent();
    var a1 := ReachTaken(a0);
    assert a1.contest == FreshContest(0, 0, 0).(bids := [WINNER]);
    var a2 := ReachEnd(a1);
    var a3 := ReachWatched(a2);
    a := ReachPicked(a3);
  }

  /** The other caller, whose bid is not even in the contest, takes the message: the winner is still
      waiting and the message is gone. */
  lemma WorkOrderLost()
    ensures exists a :: Reachable(a) && |a.delivered| == 1 && a.contestQueue == [] &&
                        a.delivered[0].contest.winner == Some(WINNER) &&
                        a.handlers == map[0 := AwaitResult(WINNER), 1 := Answered(OTHER, None)]
  {
    var a0 := ReachForwarded();
    Reach(a0, HandlerReceive(1));
    var a1 := Apply(a0, HandlerReceive(1));
    assert a1.handlers == map[0 := AwaitResult(WINNER), 1 := Answered(OTHER, None)];
    assert Reachable(a1);
  }
}

module DeadConsumer {
  import opened Primitives
  import opened Auction
  import opened Announcements
  import opened WinnerSelection
  import opened AuctionRuns
  import opened LostWorkOrder

  /** Contest 0 ended with two bids, and its snapshot waits for the completion task. */
  lemma ReachSnapshot() returns (a: Auction)
    ensures Reachable(a) && a.consumer == AwaitContest
    ensures a.internalQueue == [FreshContest(0, 0, 0).(bids := [WINNER, OTHER], status := Ended)]
    ensures a.announced == [0] && a.watcher == AwaitLive && Forwarded(a) == []
  {
    var a0 := ReachSent();
    var a1 := ReachTaken(a0);
    assert a1.contest == FreshContest(0, 0, 0).(bids := [WINNER]) && a1.bidQueue == [OTHER];
    var a2 := ReachTaken(a1);
    assert a2.contest == FreshContest(0, 0, 0).(bids := [WINNER, OTHER]);
    var a3 := ReachEnd(a2);
    a := ReachWatched(a3);
  }

  /** It draws zero: the announced contest is in nobody's hands any more, and no winner will ever be
      forwarded (`ConsumerStopIsFinal`). */
  lemma ConsumerDies()
    ensures exists a :: Reachable(a) && a.consumer == ConsumerGone && a.announced == [0] && Pipeline(a) == []
  {
    var a0 := ReachSnapshot();
    Reach(a0, ConsumeReceive);
    var a1 := ReachPanic(Apply(a0, ConsumeReceive));
    assert Pipeline(a1) == [];
  }

  lemma ReachPanic(a: Auction) returns (b: Auction)
    requires Reachable(a) && a.consumer.Picking? && |a.consumer.contest.bids| == 2
    ensures Reachable(b) && b == a.(consumer := ConsumerGone, internalQueue := [])
  {
    SelectionSafe(a.consumer.contest.bids, 0, 0);
    Reach(a, ConsumePick(0, 0));
    b := Apply(a, ConsumePick(0, 0));
  }
}

/** Steps of the whole verifier towards a state. */
module VerifierRuns {
  import opened Primitives
  import opened Accounts
  import Auction
  import opened System

  ghost predicate Reachable(s: System) {
    exists trace, moves :: Run(trace, moves) && trace[|moves|] == s
  }

  lemma ReachInitial()
    ensures Reachable(INITIAL)
  {
    assert Run([INITIAL], []);
  }

  lemma Reach(s: System, m: Move)
    requires Reachable(s) && Allowed(s, m)
    ensures Reachable(Next(s, m))
  {
    var trace, moves :| Run(trace, moves) && trace[|moves|] == s;
    ContinuesSnoc(trace, moves, m);
    var trace', moves' := trace + [Next(s, m)], moves + [m];
    assert Run(trace', moves') && trace'[|moves'|] == Next(s, m);
  }

  lemma ReachPlain(s: System, step: Auction.Step) returns (t: System)
    requires Reachable(s) && Auction.Enabled(s.auction, step) && Auction.LifeStep(step) && !LockHeld(s)
    ensures Reachable(t) && t == s.(auction := Auction.LifeApply(s.auction, step))
  {
    Reach(s, AuctionMove(step));
    t := Next(s, AuctionMove(step));
  }

  lemma ReachProof(s: System, step: Step) returns (t: System)
    requires Reachable(s) && Enabled(s.accounts, step) && ProofStep(step) && !LockHeld(s)
    requires step.ProofCheckWindow? ==> step.seen == s.auction.contest
    ensures Reachable(t) && t == s.(accounts := ProofApply(s.accounts, step))
  {
    Reach(s, AccountMove(step));
    t := Next(s, AccountMove(step));
  }

  lemma ReachUnlocked(s: System, step: Step) returns (t: System)
    requires Reachable(s) && Enabled(s.accounts, step)
    requires !step.ProofCheckWindow? && !step.ProofVerify?
    ensures Reachable(t) && t == s.(accounts := Apply(s.accounts, step))
  {
    Reach(s, AccountMove(step));
    t := Next(s, AccountMove(step));
  }

  /** Contest 0 has run and ended. */
  lemma ReachEnded() returns (s: System)
    ensures Reachable(s) && s.accounts == START
    ensures s.auction.contest == FreshContest(0, 0, 0).(status := Ended)
  {
    ReachInitial();
    var s1 := ReachPlain(INITIAL, Auction.LifeReadStatus);
    var s2 := ReachPlain(s1, Auction.LifeStart(0, 0));
    var s3 := ReachPlain(s2, Auction.LifeReadStatus);
    s := ReachPlain(s3, Auction.LifeEnd);
  }
}

module LostReward {
  import opened Primitives
  import opened Accounts
  import opened System
  import opened Ledger
  import opened VerifierRuns

  const PROOF: ProofData := ProofData(0, "address", "prover", Pending, true, true)
  const PROFILE: ProverProfile := NewProfile("prover", Blue, "address")

  /** The prover registers and submits a proof; the handler queues it, reads the profile, and pauses. */
  lemma ReachSubmitted() returns (s: System)
    ensures Reachable(s)
    ensures s.auction.contest == FreshContest(0, 0, 0).(status := Ended)
    ensures s.accounts == START.(
              profiles := map["prover" := PROFILE], events := [Registered("prover")],
              proofQueue := [PROOF], submitted := [PROOF], submitters := map[0 := Writing(PROOF, PROFILE)])
  {
    var s0 := ReachEnded();
    var s1 := ReachUnlocked(s0, Register("prover", Blue, "address"));
    assert s1.accounts.profiles == map["prover" := PROFILE];
    var s2 := ReachUnlocked(s1, SubmitArrive(0, PROOF));
    var s3 := ReachUnlocked(s2, SubmitSend(0));
    assert s3.accounts.submitters == map[0 := Fetching(PROOF)];
    s := ReachUnlocked(s3, SubmitFetch(0));
    assert s.accounts.submitters == map[0 := Writing(PROOF, PROFILE)];
  }

  /** Meanwhile the proof task verifies the proof, */
  lemma ReachVerified() returns (s: System)
    ensures Reachable(s)
    ensures s.accounts == START.(
              profiles := map["prover" := PROFILE], events := [Registered("prover")],
              submitted := [PROOF], submitters := map[0 := Writing(PROOF, PROFILE)],
              proofTask := s.accounts.proofTask)
    ensures s.accounts.proofTask == AcceptFetch(PROOF, FreshContest(0, 0, 0).(status := Ended))
  {
    var s0 := ReachSubmitted();
    var s1 := ReachProof(s0, ProofReceive);
    assert s1.accounts.proofQueue == [];
    var s2 := ReachProof(s1, ProofCheckWindow(s1.auction.contest));
    assert !Late(PROOF, s1.auction.contest);
    s := ReachProof(s2, ProofVerify);
  }

  /** and writes the reward. */
  lemma ReachRewarded() returns (s: System)
    ensures Reachable(s)
    ensures s.accounts.events == [Registered("prover"), Rewarded("prover", 1500)]
    ensures s.accounts.submitters == map[0 := Writing(PROOF, PROFILE)]
  {
    var s0 := ReachVerified();
    var s1 := ReachUnlocked(s0, ProofAcceptFetch);
    assert s1.accounts.proofTask == AcceptWrite(PROOF, s0.accounts.proofTask.contest, PROFILE);
    s := ReachUnlocked(s1, ProofAcceptWrite);
  }

  /** The handler then writes its copy back: the reward is gone from the stored profile, and the
      ledger is out of balance. */
  lemma RewardLost()
    ensures exists s :: Reachable(s) && !Balanced(s.accounts) && Balance(s.accounts.events, "prover") == 1500 &&
                        "prover" in s.accounts.profiles && s.accounts.profiles["prover"].credits == 0
  {
    var s0 := ReachRewarded();
    var m := AccountMove(SubmitWrite(0));
    Reach(s0, m);
    var s1 := Next(s0, m);
    BalanceSnoc([], Registered("prover"), "prover");
    BalanceSnoc([Registered("prover")], Rewarded("prover", 1500), "prover");
    assert [Registered("prover")] + [Rewarded("prover", 1500)] == s1.accounts.events;
    assert Balance(s1.accounts.events, "prover") == 1500;
    assert s1.accounts.profiles["prover"].credits == 0;
    U64Remainder(1500);
    assert !BalancedFor(s1.accounts, "prover");
  }
}

module SlashedBelowZero {
  import opened Primitives
  import opened Accounts
  import opened System
  import opened Ledger
  import opened VerifierRuns

  /** A proof too late for contest 0, whose window closes at 20000. */
  const LATE: ProofData := ProofData(30000, "address", "prover", Pending, true, false)

  /** A newly registered prover, with no credits, submits it. */
  lemma ReachQueued() returns (s: System)
    ensures Reachable(s) && s.auction.contest == FreshContest(0, 0, 0).(status := Ended)
    ensures s.accounts.profiles == map["prover" := NewProfile("prover", Blue, "address")]
    ensures s.accounts.proofQueue == [LATE] && s.accounts.proofTask == AwaitProof
    ensures s.accounts.events == [Registered("prover")]
  {
    var s0 := ReachEnded();
    var s1 := ReachUnlocked(s0, Register("prover", Blue, "address"));
    assert s1.accounts.profiles == map["prover" := NewProfile("prover", Blue, "address")];
    var s2 := ReachUnlocked(s1, SubmitArrive(0, LATE));
    s := ReachUnlocked(s2, SubmitSend(0));
  }

  /** The slash leaves it with 2^64 - 1000 credits, although the ledger says -1000. */
  lemma CreditsWrap()
    ensures exists s :: Reachable(s) && "prover" in s.accounts.profiles &&
                        s.accounts.profiles["prover"].credits == U64 - 1000 &&
                        Balance(s.accounts.events, "prover") == -1000
  {
    var s0 := ReachQueued();
    var s1 := ReachProof(s0, ProofReceive);
    assert s1.accounts.proofTask == CheckWindow(LATE);
    var s2 := ReachProof(s1, ProofCheckWindow(s1.auction.contest));
    var s3 := ReachProof(s2, ProofRejectFetch);
    var s4 := ReachProof(s3, ProofRejectWrite);
    BalanceSnoc([], Registered("prover"), "prover");
    BalanceSnoc([Registered("prover")], Slashed("prover"), "prover");
    assert s4.accounts.events == [] + [Registered("prover")] + [Slashed("prover")];
    SlashWraps(0);
    assert Reachable(s4) && s4.accounts.profiles["prover"].credits == U64 - 1000;
  }
}

module JammedLock {
  import opened Primitives
  import opened Accounts
  import Auction
  import opened System
  import opened LockProgress
  import opened VerifierRuns
  import opened LostReward

  /** Contest 0 has ended, the prover is registered, k acceptances are unread, and the proof task waits. */
  ghost predicate Waiting(s: System, k: nat) {
    && s.auction.contest == FreshContest(0, 0, 0).(status := Ended)
    && s.accounts.proofTask == AwaitProof && s.accounts.proofQueue == []
    && |s.accounts.statusQueue| == k
    && "prover" in s.accounts.profiles
    && (forall h: nat :: h >= k ==> h !in s.accounts.submitters)
  }

  lemma ReachFirst() returns (s: System)
    ensures Reachable(s) && Waiting(s, 0)
  {
    var s0 := ReachEnded();
    s := ReachUnlocked(s0, Register("prover", Blue, "address"));
  }

  /** One more proof is queued, */
  lemma ReachQueued(s: System, k: nat) returns (t: System)
    requires Reachable(s) && Waiting(s, k)
    ensures Reachable(t) && t.auction == s.auction
    ensures t.accounts == s.accounts.(submitters := s.accounts.submitters[k := Fetching(PROOF)],
                                      proofQueue := [PROOF], submitted := t.accounts.submitted)
  {
    var s1 := ReachUnlocked(s, SubmitArrive(k, PROOF));
    t := ReachUnlocked(s1, SubmitSend(k));
    assert t.accounts.submitters == s.accounts.submitters[k := Fetching(PROOF)];
  }

  /** verified, */
  lemma ReachVerified(s: System, k: nat) returns (t: System)
    requires Reachable(s) && Waiting(s, k)
    ensures Reachable(t) && t.auction == s.auction
    ensures t.accounts.proofTask == AcceptFetch(PROOF, s.auction.contest) && t.accounts.proofQueue == []
    ensures t.accounts.statusQueue == s.accounts.statusQueue && "prover" in t.accounts.profiles
    ensures t.accounts.submitters == s.accounts.submitters[k := Fetching(PROOF)]
  {
    var s1 := ReachQueued(s, k);
    var s2 := ReachProof(s1, ProofReceive);
    var s3 := ReachProof(s2, ProofCheckWindow(s2.auction.contest));
    assert !Late(PROOF, s2.auction.contest);
    t := ReachProof(s3, ProofVerify);
  }

  /** and rewarded: its status is about to be sent, under the lock. */
  lemma ReachSending(s: System, k: nat) returns (t: System)
    requires Reachable(s) && Waiting(s, k)
    ensures Reachable(t) && t.auction == s.auction
    ensures t.accounts.proofTask == AcceptSend(PROOF, s.auction.contest) && t.accounts.proofQueue == []
    ensures t.accounts.statusQueue == s.accounts.statusQueue && "prover" in t.accounts.profiles
    ensures t.accounts.submitters == s.accounts.submitters[k := Fetching(PROOF)]
  {
    var s1 := ReachVerified(s, k);
    var s2 := ReachUnlocked(s1, ProofAcceptFetch);
    t := ReachUnlocked(s2, ProofAcceptWrite);
  }

  lemma {:induction false} ReachWaiting(k: nat) returns (s: System)
    requires k <= CAPACITY
    ensures Reachable(s) && Waiting(s, k)
  {
    if k == 0 {
      s := ReachFirst();
    } else {
      var s0 := ReachWaiting(k - 1);
      var s1 := ReachSending(s0, k - 1);
      s := ReachUnlocked(s1, ProofAcceptSend);
    }
  }

  /** A hundred acceptances that nobody reads, and one more: the proof task is stuck with the lock
      (and with it everything that locks, by `UnreadStatusesStopEverything`). */
  lemma LockJams()
    ensures exists s :: Reachable(s) && Stuck(s) && LockHeld(s)
  {
    var s0 := ReachWaiting(CAPACITY);
    var s1 := ReachSending(s0, CAPACITY);
    assert Reachable(s1) && Stuck(s1);
  }
}
