/** The loops of `Tasks` are schedules of the protocol: handling one message without interruption
    takes the verifier, step by step, to the state the loop's effect function says. */
module Schedules {
  import opened Primitives
  import Auction
  import Accounts
  import opened System
  import opened Effects

  datatype Task = BidTask | ProofTask | LifecycleTask | CompletionTask

  predicate Owns(task: Task, m: Move) {
    match task
    case BidTask => m.AuctionMove? && Auction.BidStep(m.a)
    case ProofTask => m.AccountMove? && Accounts.ProofStep(m.b)
    case LifecycleTask => m.AuctionMove? && Auction.LifeStep(m.a)
    case CompletionTask => m.AuctionMove? && Auction.ConsumeStep(m.a)
  }

  /** `task` alone takes the verifier from `s` to `t`. */
  ghost predicate Alone(task: Task, s: System, t: System) {
    exists trace, moves ::
      && Continues(trace, moves) && trace[0] == s && trace[|moves|] == t
      && forall m :: m in moves ==> Owns(task, m)
  }

  lemma Begin(task: Task, s: System)
    ensures Alone(task, s, s)
  {
    var trace, moves: seq<Move> := [s], [];
    assert Continues(trace, moves) && trace[0] == s && trace[|moves|] == s;
  }

  lemma Then(task: Task, s: System, t: System, m: Move)
    requires Alone(task, s, t) && Allowed(t, m) && Owns(task, m)
    ensures Alone(task, s, Next(t, m))
  {
    var trace, moves :| Continues(trace, moves) && trace[0] == s && trace[|moves|] == t
                        && forall m :: m in moves ==> Owns(task, m);
    ContinuesSnoc(trace, moves, m);
    var trace', moves' := trace + [Next(t, m)], moves + [m];
    assert Continues(trace', moves') && trace'[0] == s && trace'[|moves'|] == Next(t, m);
  }

  // ----- the bid task ------------------------------------------------------------------------

  /** The verifier after one bid, according to its effect. */
  function AfterBid(s: System): System
    requires s.auction.bidTask.AwaitBid? && s.auction.bidQueue != []
  {
    var a := s.auction;
    var bid := a.bidQueue[0];
    var effect := HandleBid(a.contest, s.accounts.profiles, bid);
    var rest := a.bidQueue[1..];
    var b := match effect.outcome
      case Some(o) =>
        a.(contest := effect.contest, processed := a.processed + [Auction.Processed(bid, o)], bidQueue := rest)
      case None => a.(lost := a.lost + [bid] + rest, bidQueue := [], bidTask := Auction.BidTaskGone);
    System(b, s.accounts.(profiles := effect.profiles))
  }

  lemma BidIsSchedule(s: System)
    requires s.auction.bidTask.AwaitBid? && s.auction.bidQueue != [] && !LockHeld(s)
    ensures Alone(BidTask, s, AfterBid(s))
  {
    Begin(BidTask, s);
    Then(BidTask, s, s, AuctionMove(Auction.BidReceive));
    var s1 := Next(s, AuctionMove(Auction.BidReceive));
    Then(BidTask, s, s1, AuctionMove(Auction.BidCheckLive));
    var s2 := Next(s1, AuctionMove(Auction.BidCheckLive));
    if s.auction.contest.IsLive() {
      Then(BidTask, s, s2, AuctionMove(Auction.BidOffer));
      assert Next(s2, AuctionMove(Auction.BidOffer)) == AfterBid(s);
    } else {
      BidRefusalIsSchedule(s, s2);
    }
  }

  lemma BidRefusalIsSchedule(s: System, s2: System)
    requires s.auction.bidTask.AwaitBid? && s.auction.bidQueue != [] && !s.auction.contest.IsLive()
    requires Alone(BidTask, s, s2)
    requires s2 == s.(auction := s.auction.(
                        bidTask := Auction.FetchProfile(s.auction.bidQueue[0]), bidQueue := s.auction.bidQueue[1..]))
    ensures Alone(BidTask, s, AfterBid(s))
  {
    var found := Lookup(s.accounts.profiles, s.auction.bidQueue[0].proverName);
    var fetch := AuctionMove(Auction.BidFetch(found));
    Then(BidTask, s, s2, fetch);
    var s3 := Next(s2, fetch);
    if found.Some? {
      Then(BidTask, s, s3, AuctionMove(Auction.BidWrite));
      assert Next(s3, AuctionMove(Auction.BidWrite)) == AfterBid(s);
    } else {
      assert s3 == AfterBid(s);
    }
  }

  // ----- the lifecycle task --------------------------------------------------------------------

  /** The verifier after one round, according to its effect. */
  function AfterRound(s: System, now0: u64, now1: u64): System {
    var a := s.auction;
    var effect := PassRound(a.contest, now0, now1);
    s.(auction := a.(contest := effect.contest, log := a.log + effect.stored,
                     closings := a.closings + (if a.contest.IsLive() then [a.contest.bids] else [])))
  }

  lemma RoundIsSchedule(s: System, now0: u64, now1: u64)
    requires s.auction.life.ReadStatus? && !LockHeld(s)
    ensures Alone(LifecycleTask, s, AfterRound(s, now0, now1))
  {
    Begin(LifecycleTask, s);
    var look, start := AuctionMove(Auction.LifeReadStatus), AuctionMove(Auction.LifeStart(now0, now1));
    Then(LifecycleTask, s, s, look);
    var s1 := Next(s, look);
    match s.auction.contest.status
    case NotStarted =>
      Then(LifecycleTask, s, s1, start);
      assert Next(s1, start) == AfterRound(s, now0, now1);
    case Live =>
      Then(LifecycleTask, s, s1, AuctionMove(Auction.LifeEnd));
      assert Next(s1, AuctionMove(Auction.LifeEnd)) == AfterRound(s, now0, now1);
    case Ended =>
      NextContestIsSchedule(s, s1, now0, now1);
  }

  lemma NextContestIsSchedule(s: System, s1: System, now0: u64, now1: u64)
    requires s.auction.life.ReadStatus? && !LockHeld(s) && s.auction.contest.status == Ended
    requires Alone(LifecycleTask, s, s1) && s1 == s.(auction := s.auction.(life := Auction.Snapshotting))
    ensures Alone(LifecycleTask, s, AfterRound(s, now0, now1))
  {
    var snapshot, store := AuctionMove(Auction.LifeSnapshot), AuctionMove(Auction.LifeStore);
    var readId, start := AuctionMove(Auction.LifeReadId), AuctionMove(Auction.LifeStart(now0, now1));
    Then(LifecycleTask, s, s1, snapshot);
    var s2 := Next(s1, snapshot);
    Then(LifecycleTask, s, s2, store);
    var s3 := Next(s2, store);
    assert s3 == s.(auction := s.auction.(life := Auction.ReadingId, log := s.auction.log + [s.auction.contest]));
    Then(LifecycleTask, s, s3, readId);
    var s4 := Next(s3, readId);
    Then(LifecycleTask, s, s4, start);
    assert Next(s4, start) == AfterRound(s, now0, now1);
  }

  // ----- the completion task -------------------------------------------------------------------

  /** The verifier after one snapshot, according to its effect. */
  function AfterArrival(s: System, r: nat, second: nat): System
    requires s.auction.internalQueue != [] && Fits(Arrival(s.auction.internalQueue[0], r, second))
  {
    var a := s.auction;
    var effect := Complete([Arrival(a.internalQueue[0], r, second)]);
    s.(auction := a.(
         internalQueue := if effect.alive then a.internalQueue[1..] else [],
         consumer := if effect.alive then Auction.AwaitContest else Auction.ConsumerGone,
         log := a.log + effect.forwarded, contestQueue := a.contestQueue + effect.forwarded))
  }

  /** One iteration of the completion loop, uninterrupted, if the queue to the handlers has room. */
  lemma CompletionIsSchedule(s: System, r: nat, second: nat)
    requires s.auction.consumer.AwaitContest? && s.auction.internalQueue != []
    requires Fits(Arrival(s.auction.internalQueue[0], r, second)) && |s.auction.contestQueue| < CAPACITY
    ensures Alone(CompletionTask, s, AfterArrival(s, r, second))
  {
    var arrival := Arrival(s.auction.internalQueue[0], r, second);
    CompleteOne(arrival);
    PickIsSchedule(s, arrival);
    if Pick(arrival).Won? {
      ForwardIsSchedule(s, Picked(s, arrival), arrival.contest.(winner := Some(Pick(arrival).bid)));
    } else {
      assert s.auction.log + [] == s.auction.log && s.auction.contestQueue + [] == s.auction.contestQueue;
    }
  }

  lemma CompleteOne(arrival: Arrival)
    requires Fits(arrival)
    ensures Complete([arrival]) ==
            match Pick(arrival)
            case NoBids => Completion([], true)
            case Won(bid) => Completion([arrival.contest.(winner := Some(bid))], true)
            case Panicked => Completion([], false)
  {
    assert [arrival][..0] == [];
  }

  /** The verifier once the consumer has picked a winner for the snapshot first in the queue. */
  function Picked(s: System, arrival: Arrival): System
    requires s.auction.internalQueue != [] && Fits(arrival)
  {
    var rest := s.auction.internalQueue[1..];
    s.(auction :=
      match Pick(arrival)
      case NoBids => s.auction.(internalQueue := rest, consumer := Auction.AwaitContest)
      case Won(bid) =>
        s.auction.(internalQueue := rest, consumer := Auction.StoringWinner(arrival.contest.(winner := Some(bid))))
      case Panicked => s.auction.(internalQueue := [], consumer := Auction.ConsumerGone))
  }

  lemma PickIsSchedule(s: System, arrival: Arrival)
    requires s.auction.consumer.AwaitContest? && s.auction.internalQueue != []
    requires Fits(arrival) && arrival.contest == s.auction.internalQueue[0]
    ensures Alone(CompletionTask, s, Picked(s, arrival))
  {
    var receive := AuctionMove(Auction.ConsumeReceive);
    var pick := AuctionMove(Auction.ConsumePick(arrival.r, arrival.second));
    Begin(CompletionTask, s);
    Then(CompletionTask, s, s, receive);
    var s1 := Next(s, receive);
    Then(CompletionTask, s, s1, pick);
    assert Next(s1, pick) == Picked(s, arrival);
  }

  /** The verifier once the consumer has stored and forwarded `c`. */
  function Stored(s: System, c: Contest): System {
    s.(auction := s.auction.(consumer := Auction.AwaitContest, log := s.auction.log + [c],
                             contestQueue := s.auction.contestQueue + [c]))
  }

  lemma ForwardIsSchedule(s: System, s2: System, c: Contest)
    requires Alone(CompletionTask, s, s2) && s2.auction.consumer == Auction.StoringWinner(c)
    requires |s2.auction.contestQueue| < CAPACITY
    ensures Alone(CompletionTask, s, Stored(s2, c))
  {
    var store, forward := AuctionMove(Auction.ConsumeStore), AuctionMove(Auction.ConsumeForward);
    Then(CompletionTask, s, s2, store);
    var s3 := Next(s2, store);
    Then(CompletionTask, s, s3, forward);
    assert Next(s3, forward) == Stored(s2, c);
  }

  // ----- the proof task ----------------------------------------------------------------------

  /** The verifier at the verification of the proof first in the queue, or where its rejection stops. */
  function AfterReject(s: System): System
    requires s.accounts.proofTask.AwaitProof? && s.accounts.proofQueue != []
  {
    var a, c := s.accounts, s.auction.contest;
    var p := a.proofQueue[0];
    var effect := RejectIfLate(c, a.profiles, p);
    var rest := a.proofQueue[1..];
    s.(accounts :=
      if !effect.finished then a.(proofTask := Accounts.ProofTaskGone, proofQueue := [], dropped := a.dropped + [p] + rest)
      else a.(profiles := effect.profiles, proofQueue := rest, proofTask := Accounts.Verifying(p, c),
              statusQueue := a.statusQueue + effect.statuses, emitted := a.emitted + effect.statuses,
              events := a.events + (if Accounts.Late(p, c) then [Accounts.Slashed(a.profiles[p.proverName].proverName)] else [])))
  }

  lemma RejectIsSchedule(s: System)
    requires s.accounts.proofTask.AwaitProof? && s.accounts.proofQueue != []
    requires |s.accounts.statusQueue| < CAPACITY
    ensures Alone(ProofTask, s, AfterReject(s))
  {
    var c, p := s.auction.contest, s.accounts.proofQueue[0];
    Begin(ProofTask, s);
    var receive, look := AccountMove(Accounts.ProofReceive), AccountMove(Accounts.ProofCheckWindow(c));
    Then(ProofTask, s, s, receive);
    var s1 := Next(s, receive);
    Then(ProofTask, s, s1, look);
    var s2 := Next(s1, look);
    if Accounts.Late(p, c) {
      SlashIsSchedule(s, s2);
    } else {
      assert s2 == AfterReject(s);
    }
  }

  lemma SlashIsSchedule(s: System, s2: System)
    requires s.accounts.proofTask.AwaitProof? && s.accounts.proofQueue != []
    requires |s.accounts.statusQueue| < CAPACITY
    requires Accounts.Late(s.accounts.proofQueue[0], s.auction.contest) && Alone(ProofTask, s, s2)
    requires s2 == s.(accounts := s.accounts.(
                        proofTask := Accounts.RejectFetch(s.accounts.proofQueue[0], s.auction.contest),
                        proofQueue := s.accounts.proofQueue[1..]))
    ensures Alone(ProofTask, s, AfterReject(s))
  {
    var fetch, write, send :=
      AccountMove(Accounts.ProofRejectFetch), AccountMove(Accounts.ProofRejectWrite), AccountMove(Accounts.ProofRejectSend);
    Then(ProofTask, s, s2, fetch);
    var s3 := Next(s2, fetch);
    if s3.accounts.proofTask.RejectWrite? {
      Then(ProofTask, s, s3, write);
      var s4 := Next(s3, write);
      Then(ProofTask, s, s4, send);
      assert Next(s4, send) == AfterReject(s);
    } else {
      assert s3 == AfterReject(s);
    }
  }

  /** What the protocol and the effect function must agree on after a proof. */
  ghost predicate Agrees(s: System, t: System, effect: ProofEffect)
    requires s.accounts.proofQueue != []
  {
    && t.auction == s.auction
    && t.accounts.profiles == effect.profiles
    && t.accounts.emitted == s.accounts.emitted + effect.statuses
    && if effect.finished
       then t.accounts.proofTask.AwaitProof? && t.accounts.proofQueue == s.accounts.proofQueue[1..]
       else t.accounts.proofTask.ProofTaskGone?
  }

  /** One iteration of the proof loop, uninterrupted, has the effect of `HandleProof`, if the status
      channel has room for the two statuses it may send. */
  lemma ProofIsSchedule(s: System)
    requires s.accounts.proofTask.AwaitProof? && s.accounts.proofQueue != []
    requires |s.accounts.statusQueue| + 2 <= CAPACITY
    ensures exists t :: Alone(ProofTask, s, t) &&
                        Agrees(s, t, HandleProof(s.auction.contest, s.accounts.profiles, s.accounts.proofQueue[0]))
  {
    RejectIsSchedule(s);
    var s1 := AfterReject(s);
    var effect := HandleProof(s.auction.contest, s.accounts.profiles, s.accounts.proofQueue[0]);
    if s1.accounts.proofTask.ProofTaskGone? {
      assert Agrees(s, s1, effect);
    } else {
      var verify := AccountMove(Accounts.ProofVerify);
      Then(ProofTask, s, s1, verify);
      var s2 := Next(s1, verify);
      if s2.accounts.proofTask.AwaitProof? {
        assert Agrees(s, s2, effect);
      } else {
        AcceptIsSchedule(s, s1, s2);
      }
    }
  }

  lemma AcceptIsSchedule(s: System, s1: System, s2: System)
    requires s.accounts.proofTask.AwaitProof? && s.accounts.proofQueue != []
    requires |s.accounts.statusQueue| + 2 <= CAPACITY && s1 == AfterReject(s)
    requires s1.accounts.proofTask.Verifying? && s.accounts.proofQueue[0].valid
    requires s2 == s1.(accounts := s1.accounts.(
                         proofTask := Accounts.AcceptFetch(s.accounts.proofQueue[0], s.auction.contest)))
    requires Alone(ProofTask, s, s2)
    ensures exists t :: Alone(ProofTask, s, t) &&
                        Agrees(s, t, HandleProof(s.auction.contest, s.accounts.profiles, s.accounts.proofQueue[0]))
  {
    var effect := HandleProof(s.auction.contest, s.accounts.profiles, s.accounts.proofQueue[0]);
    var fetch := AccountMove(Accounts.ProofAcceptFetch);
    Then(ProofTask, s, s2, fetch);
    var s3 := Next(s2, fetch);
    if s3.accounts.proofTask.AcceptWrite? {
      RewardIsSchedule(s, s1, s3);
    } else {
      assert Agrees(s, s3, effect);
    }
  }

  lemma RewardIsSchedule(s: System, s1: System, s3: System)
    requires s.accounts.proofTask.AwaitProof? && s.accounts.proofQueue != []
    requires |s.accounts.statusQueue| + 2 <= CAPACITY && s1 == AfterReject(s)
    requires s1.accounts.proofTask.Verifying? && s.accounts.proofQueue[0].valid
    requires s.accounts.proofQueue[0].proverName in s1.accounts.profiles
    requires var p := s.accounts.proofQueue[0];
             s3 == s1.(accounts := s1.accounts.(
                         proofTask := Accounts.AcceptWrite(p, s.auction.contest, s1.accounts.profiles[p.proverName])))
    requires Alone(ProofTask, s, s3)
    ensures exists t :: Alone(ProofTask, s, t) &&
                        Agrees(s, t, HandleProof(s.auction.contest, s.accounts.profiles, s.accounts.proofQueue[0]))
  {
    var effect := HandleProof(s.auction.contest, s.accounts.profiles, s.accounts.proofQueue[0]);
    var write, send := AccountMove(Accounts.ProofAcceptWrite), AccountMove(Accounts.ProofAcceptSend);
    Then(ProofTask, s, s3, write);
    var s4 := Next(s3, write);
    Then(ProofTask, s, s4, send);
    assert Agrees(s, Next(s4, send), effect);
  }
}
