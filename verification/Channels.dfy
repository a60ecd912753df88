/** The channels between the tasks: none ever holds more than a hundred messages, a task or call waits to
    send exactly while the channel is full and its reader has not gone, and to receive exactly while the
    channel is empty and not closed. */
module Channels {
  import opened Primitives
  import opened System
  import Auction
  import Accounts

  ghost predicate Bounded(s: System) {
    && |s.auction.bidQueue| <= 100 && |s.auction.internalQueue| <= 100 && |s.auction.contestQueue| <= 100
    && |s.accounts.proofQueue| <= 100 && |s.accounts.statusQueue| <= 100
  }

  lemma BoundedStep(s: System, m: Move)
    requires Bounded(s) && Allowed(s, m)
    ensures Bounded(Next(s, m))
  {
    match m
    case AuctionMove(a) => AuctionBounded(s, a);
    case AccountMove(b) => AccountsBounded(s, b);
  }

  lemma AuctionBounded(s: System, a: Auction.Step)
    requires Bounded(s) && Allowed(s, AuctionMove(a))
    ensures Bounded(Next(s, AuctionMove(a)))
  {
  }

  lemma AccountsBounded(s: System, b: Accounts.Step)
    requires Bounded(s) && Allowed(s, AccountMove(b))
    ensures Bounded(Next(s, AccountMove(b)))
  {
  }

  lemma {:induction false} RunIsBounded(trace: seq<System>, moves: seq<Move>, n: nat)
    requires Run(trace, moves) && n <= |moves|
    ensures Bounded(trace[n])
  {
    if n > 0 {
      RunIsBounded(trace, moves, n - 1);
      BoundedStep(trace[n - 1], moves[n - 1]);
      assert trace[n - 1 + 1] == Next(trace[n - 1], moves[n - 1]);
    }
  }

  /** In every run each send waits if and only if its channel holds exactly a hundred messages and the
      task that reads it has not gone; sends to subscribers and to the callers have no reader that
      goes. */
  lemma SendsWaitExactly(trace: seq<System>, moves: seq<Move>, n: nat)
    requires Run(trace, moves) && n <= |moves|
    ensures var s := trace[n];
            var a, b := s.auction, s.accounts;
            && (forall h :: h in a.handlers && a.handlers[h].Submitting? ==>
                  (!Allowed(s, AuctionMove(Auction.HandlerSubmit(h))) <==>
                   |a.bidQueue| == 100 && !a.bidTask.BidTaskGone?))
            && (a.watcher.Announcing? ==>
                  (!Allowed(s, AuctionMove(Auction.WatchAnnounce)) <==>
                   |a.internalQueue| == 100 && !a.consumer.ConsumerGone?))
            && (a.consumer.Forwarding? ==>
                  (!Allowed(s, AuctionMove(Auction.ConsumeForward)) <==> |a.contestQueue| == 100))
            && (forall h :: h in b.submitters && b.submitters[h].Sending? ==>
                  (!Allowed(s, AccountMove(Accounts.SubmitSend(h))) <==>
                   |b.proofQueue| == 100 && !b.proofTask.ProofTaskGone?))
            && (b.proofTask.RejectSend? ==>
                  (!Allowed(s, AccountMove(Accounts.ProofRejectSend)) <==> |b.statusQueue| == 100))
            && (b.proofTask.AcceptSend? ==>
                  (!Allowed(s, AccountMove(Accounts.ProofAcceptSend)) <==> |b.statusQueue| == 100))
  {
    RunIsBounded(trace, moves, n);
  }

  /** Each receive waits if and only if its channel is empty; a waiting `submit_bid` call besides only as
      long as the completion task lives, whose end closes the channel. */
  lemma ReceivesWaitExactly(s: System)
    ensures var a, b := s.auction, s.accounts;
            && (a.bidTask.AwaitBid? ==> (!Allowed(s, AuctionMove(Auction.BidReceive)) <==> |a.bidQueue| == 0))
            && (a.consumer.AwaitContest? ==>
                  (!Allowed(s, AuctionMove(Auction.ConsumeReceive)) <==> |a.internalQueue| == 0))
            && (b.proofTask.AwaitProof? ==>
                  (!Allowed(s, AccountMove(Accounts.ProofReceive)) <==> |b.proofQueue| == 0))
            && (!Allowed(s, AccountMove(Accounts.StatusReceive)) <==> |b.statusQueue| == 0)
            && (forall h :: h in a.handlers && a.handlers[h].AwaitResult? ==>
                  (!Allowed(s, AuctionMove(Auction.HandlerReceive(h))) <==>
                   |a.contestQueue| == 0 && !a.consumer.ConsumerGone?))
  {
  }
}
