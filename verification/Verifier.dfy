/** The guarantees of the contest half, in runs of the whole verifier. */
module Verifier {
  import opened Primitives
  import Auction
  import opened System
  import opened WorkOrders

  /** Nothing the profile half does, and nothing about who holds the lock, adds behaviours to the
      contest half: every state the verifier reaches satisfies everything proved of it alone. */
  lemma VerifierKeepsOutput(trace: seq<System>, moves: seq<Move>, n: nat)
    requires Run(trace, moves) && n <= |moves|
    ensures OutputInv(trace[n].auction)
  {
    RunProjects(trace, moves, n);
    RunKeepsOutput(AuctionTrace(trace, moves, n), AuctionSteps(moves, n), |AuctionSteps(moves, n)|);
  }

  /** At most one `submit_bid` call of the verifier gets a work order for a given contest. */
  lemma VerifierOneWorkOrder(trace: seq<System>, moves: seq<Move>, n: nat, g: nat, h: nat)
    requires Run(trace, moves) && n <= |moves|
    requires g != h && g in trace[n].auction.handlers && h in trace[n].auction.handlers
    requires trace[n].auction.handlers[g].Answered? && trace[n].auction.handlers[g].workOrder.Some?
    requires trace[n].auction.handlers[h].Answered? && trace[n].auction.handlers[h].workOrder.Some?
    ensures trace[n].auction.handlers[g].workOrder != trace[n].auction.handlers[h].workOrder
  {
    RunProjects(trace, moves, n);
    OneWorkOrderPerContest(AuctionTrace(trace, moves, n), AuctionSteps(moves, n), |AuctionSteps(moves, n)|, g, h);
  }
}
