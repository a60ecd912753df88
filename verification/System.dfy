/** The whole verifier: both halves, the executor lock they share, and the bid task's profile write. */
module System {
  import opened Primitives
  import Auction
  import Accounts

  datatype System = System(auction: Auction.Auction, accounts: Accounts.Accounts)

  const INITIAL: System := System(Auction.START, Accounts.START)

  datatype Move = AuctionMove(a: Auction.Step) | AccountMove(b: Accounts.Step)

  /** The lock is held across steps only by the proof task, from a successful verification to the
      end of the accepting branch. */
  predicate LockHeld(s: System) {
    var t := s.accounts.proofTask;
    t.AcceptFetch? || t.AcceptWrite? || t.AcceptSend?
  }

  /** Steps that take and release the executor lock. */
  predicate UsesLock(m: Move) {
    match m
    case AuctionMove(a) =>
      a.LifeReadStatus? || a.LifeEnd? || a.LifeSnapshot? || a.LifeReadId? || a.LifeStart? ||
      a.BidCheckLive? || a.BidOffer? || a.WatchPoll? || a.WatchAwaitLive?
    case AccountMove(b) => b.ProofCheckWindow? || b.ProofVerify?
  }

  predicate Allowed(s: System, m: Move) {
    && (UsesLock(m) ==> !LockHeld(s))
    && match m
       case AuctionMove(a) =>
         Auction.Enabled(s.auction, a) &&
         (a.BidFetch? ==> a.found == Lookup(s.accounts.profiles, s.auction.bidTask.bid.proverName))
       case AccountMove(b) =>
         Accounts.Enabled(s.accounts, b) && (b.ProofCheckWindow? ==> b.seen == s.auction.contest)
  }

  function Next(s: System, m: Move): System
    requires Allowed(s, m)
  {
    match m
    case AuctionMove(a) =>
      var accounts :=
        if a.BidWrite? then
          var t := s.auction.bidTask;
          s.accounts.(profiles := Accounts.Put(s.accounts.profiles, Auction.WithRefusedBid(t.base, t.bid)))
        else s.accounts;
      System(Auction.Apply(s.auction, a), accounts)
    case AccountMove(b) => s.(accounts := Accounts.Apply(s.accounts, b))
  }

  ghost predicate Continues(trace: seq<System>, moves: seq<Move>) {
    && |trace| == |moves| + 1
    && forall i :: 0 <= i < |moves| ==> Allowed(trace[i], moves[i]) && trace[i + 1] == Next(trace[i], moves[i])
  }

  ghost predicate Run(trace: seq<System>, moves: seq<Move>) {
    Continues(trace, moves) && trace[0] == INITIAL
  }

  lemma ContinuesSnoc(trace: seq<System>, moves: seq<Move>, m: Move)
    requires Continues(trace, moves) && Allowed(trace[|moves|], m)
    ensures Continues(trace + [Next(trace[|moves|], m)], moves + [m])
  {
    var trace', moves' := trace + [Next(trace[|moves|], m)], moves + [m];
    forall i | 0 <= i < |moves'|
      ensures Allowed(trace'[i], moves'[i]) && trace'[i + 1] == Next(trace'[i], moves'[i])
    {
      if i < |moves| {
        assert trace'[i] == trace[i] && trace'[i + 1] == trace[i + 1] && moves'[i] == moves[i];
      }
    }
  }

  /** The moves of the contest half among the first n, in order. */
  function AuctionSteps(moves: seq<Move>, n: nat): seq<Auction.Step>
    requires n <= |moves|
  {
    if n == 0 then []
    else AuctionSteps(moves, n - 1) + (if moves[n - 1].AuctionMove? then [moves[n - 1].a] else [])
  }

  /** The states of the contest half after each of them. */
  function AuctionTrace(trace: seq<System>, moves: seq<Move>, n: nat): seq<Auction.Auction>
    requires n <= |moves| && |trace| == |moves| + 1
  {
    if n == 0 then [trace[0].auction]
    else AuctionTrace(trace, moves, n - 1) + (if moves[n - 1].AuctionMove? then [trace[n].auction] else [])
  }

  /** Seen from its contest half, a run of the verifier is a run of that half alone, so whatever holds
      in every run of the half holds in every run of the verifier. */
  lemma {:induction false} RunProjects(trace: seq<System>, moves: seq<Move>, n: nat)
    requires Run(trace, moves) && n <= |moves|
    ensures Auction.Run(AuctionTrace(trace, moves, n), AuctionSteps(moves, n))
    ensures AuctionTrace(trace, moves, n)[|AuctionSteps(moves, n)|] == trace[n].auction
  {
    if n == 0 {
    } else {
      RunProjects(trace, moves, n - 1);
      var front, steps := AuctionTrace(trace, moves, n - 1), AuctionSteps(moves, n - 1);
      var m := moves[n - 1];
      assert trace[n - 1 + 1] == Next(trace[n - 1], m);
      if m.AuctionMove? {
        var half, all := front + [trace[n].auction], steps + [m.a];
        forall i | 0 <= i < |all|
          ensures Auction.Enabled(half[i], all[i]) && half[i + 1] == Auction.Apply(half[i], all[i])
        {
          assert i < |steps| ==> front[i + 1] == Auction.Apply(front[i], steps[i]);
        }
      } else {
        assert steps + [] == steps && front + [] == front;
      }
    }
  }
}
