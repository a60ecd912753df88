/** What becomes of a `submit_bid` call, and how draws and addresses decide it. */
module BidCalls {
  import opened Primitives
  import opened Auction
  import opened WinnerSelection

  // ----- one step --------------------------------------------------------------------------------

  /** How a call moves: it arrives with its bid; it sends it once, or fails exactly when the bid task has
      returned; and it is answered by one receive, with a work order exactly when a contest was queued
      whose winner has the call's address.  No other step touches it. */
  ghost predicate CallMoves(a: Auction, step: Step, h: nat)
    requires Enabled(a, step)
  {
    var b := Apply(a, step);
    if h !in a.handlers then
      if step.HandlerArrive? && step.h == h then h in b.handlers && b.handlers[h] == Submitting(step.bid)
      else h !in b.handlers
    else
      && h in b.handlers
      && var old', new' := a.handlers[h], b.handlers[h];
      if step == HandlerSubmit(h) then
        && new' == (if a.bidTask == BidTaskGone then Failed(old'.bid) else AwaitResult(old'.bid))
        && b.sent == (if a.bidTask == BidTaskGone then a.sent else a.sent + [old'.bid])
      else if step == HandlerReceive(h) then
        && new'.Answered? && new'.bid == old'.bid
        && (a.contestQueue == [] ==> new'.workOrder == None && a.consumer == ConsumerGone)
        && (a.contestQueue != [] ==>
              var c := a.contestQueue[0];
              && b.contestQueue == a.contestQueue[1..]
              && forall id :: new'.workOrder == Some(id) <==>
                   c.contestId == id && c.winner.Some? && c.winner.value.proverAddress == old'.bid.proverAddress)
      else new' == old'
  }

  lemma CallsMove(a: Auction, step: Step, h: nat)
    requires Enabled(a, step)
    ensures CallMoves(a, step, h)
  {
  }

  /** An offer appends the bid in hand exactly when no bid of the current contest has its address, and
      changes nothing else of the contest; no other step of the bid task touches the contest. */
  lemma OfferExactly(a: Auction, step: Step)
    requires Enabled(a, step) && BidStep(step)
    ensures var b := Apply(a, step);
            b.contest ==
            if step == BidOffer && (forall i :: 0 <= i < |a.contest.bids| ==>
                                      a.contest.bids[i].proverAddress != a.bidTask.bid.proverAddress)
            then a.contest.(bids := a.contest.bids + [a.bidTask.bid]) else a.contest
  {
  }

  /** The completion task goes on with the very contest it received, and with the winner that its two
      draws select. */
  lemma PickExactly(a: Auction, r: nat, second: nat)
    requires Enabled(a, ConsumePick(r, second))
    ensures var c := a.consumer.contest;
            c.bids != [] ==> r < |c.bids| && second < |c.bids|
    ensures var b, c := Apply(a, ConsumePick(r, second)), a.consumer.contest;
            && b == a.(consumer := b.consumer, internalQueue := b.internalQueue)
            && (b.consumer == AwaitContest <==> c.bids == [])
            && (forall bid :: b.consumer == StoringWinner(c.(winner := Some(bid))) <==> Select(c.bids, r, second) == Won(bid))
            && (b.consumer == ConsumerGone <==> Select(c.bids, r, second) == Panicked)
            && (b.consumer != ConsumerGone ==> b.internalQueue == a.internalQueue)
  {
    NoBidsExactly(a.consumer.contest.bids, r, second);
  }

  // ----- over runs -------------------------------------------------------------------------------

  lemma BidStays(a: Auction, step: Step, h: nat, bid: BidRequest)
    requires Enabled(a, step)
    requires (h in a.handlers && a.handlers[h].bid == bid) || step == HandlerArrive(h, bid)
    ensures h in Apply(a, step).handlers && Apply(a, step).handlers[h].bid == bid
  {
    CallsMove(a, step, h);
  }

  /** A call keeps the bid it arrived with. */
  lemma {:induction false} CallsKeepTheirBid(trace: seq<Auction>, steps: seq<Step>, i: nat, n: nat, h: nat, bid: BidRequest)
    requires Run(trace, steps) && i < n <= |steps| && steps[i] == HandlerArrive(h, bid)
    ensures h in trace[n].handlers && trace[n].handlers[h].bid == bid
  {
    if n > i + 1 {
      CallsKeepTheirBid(trace, steps, i, n - 1, h, bid);
    }
    BidStays(trace[n - 1], steps[n - 1], h, bid);
    assert trace[n - 1 + 1] == Apply(trace[n - 1], steps[n - 1]);
  }

  ghost predicate Received(a: Auction, h: nat) {
    exists i :: 0 <= i < |a.delivered| && a.delivered[i].handler == h
  }

  predicate Closed(a: Auction) {
    a.consumer == ConsumerGone && a.contestQueue == []
  }

  /** An answered call received a contest, or was told nothing because no contest can come any more. */
  ghost predicate AnswerInv(a: Auction) {
    forall h :: h in a.handlers ==>
      && (a.handlers[h].Answered? ==> Received(a, h) || (a.handlers[h].workOrder == None && Closed(a)))
      && (a.handlers[h].Failed? ==> a.bidTask == BidTaskGone)
  }

  lemma AnswerStep(a: Auction, step: Step)
    requires AnswerInv(a) && Enabled(a, step)
    ensures AnswerInv(Apply(a, step))
  {
    var b := Apply(a, step);
    StaysClosed(a, step);
    forall h | h in b.handlers
      ensures b.handlers[h].Answered? ==> Received(b, h) || (b.handlers[h].workOrder == None && Closed(b))
      ensures b.handlers[h].Failed? ==> b.bidTask == BidTaskGone
    {
      CallsMove(a, step, h);
      if step == HandlerReceive(h) && a.contestQueue != [] {
        NowReceived(a, h);
      } else if Received(a, h) {
        StillReceived(a, step, h);
      }
    }
  }

  lemma StaysClosed(a: Auction, step: Step)
    requires Enabled(a, step)
    ensures Closed(a) ==> Closed(Apply(a, step))
    ensures a.bidTask == BidTaskGone ==> Apply(a, step).bidTask == BidTaskGone
    ensures step.HandlerReceive? && a.contestQueue == [] ==> Closed(Apply(a, step))
  {
  }

  lemma NowReceived(a: Auction, h: nat)
    requires Enabled(a, HandlerReceive(h)) && a.contestQueue != []
    ensures Received(Apply(a, HandlerReceive(h)), h)
  {
    assert Apply(a, HandlerReceive(h)).delivered[|a.delivered|].handler == h;
  }

  lemma StillReceived(a: Auction, step: Step, h: nat)
    requires Enabled(a, step) && Received(a, h)
    ensures Received(Apply(a, step), h)
  {
    var i :| 0 <= i < |a.delivered| && a.delivered[i].handler == h;
    assert Apply(a, step).delivered[i] == a.delivered[i];
  }

  lemma {:induction false} RunKeepsAnswers(trace: seq<Auction>, steps: seq<Step>, n: nat)
    requires Run(trace, steps) && n <= |steps|
    ensures AnswerInv(trace[n])
  {
    if n > 0 {
      RunKeepsAnswers(trace, steps, n - 1);
      AnswerStep(trace[n - 1], steps[n - 1]);
      assert trace[n - 1 + 1] == Apply(trace[n - 1], steps[n - 1]);
    }
  }

  /** In every run a call that was answered without receiving a contest got no work order, and the
      completion task has died and nothing is queued for the calls; a call failed only if the bid task
      has returned. */
  lemma AnswersWithoutContest(trace: seq<Auction>, steps: seq<Step>, n: nat, h: nat)
    requires Run(trace, steps) && n <= |steps| && h in trace[n].handlers
    ensures var a := trace[n];
            && (a.handlers[h].Answered? && !Received(a, h) ==>
                  a.handlers[h].workOrder == None && a.consumer == ConsumerGone && a.contestQueue == [])
            && (a.handlers[h].Failed? ==> a.bidTask == BidTaskGone)
  {
    RunKeepsAnswers(trace, steps, n);
  }
}
