/** Progress of the executor lock.  Every lock hold but one is a single step; the exception is the
    proof task's accepting branch, which fetches, writes and sends a status under the lock. */
module LockProgress {
  import opened Primitives
  import opened Accounts
  import Auction
  import opened System

  /** How many of its own steps the proof task is from releasing the lock. */
  function Rank(s: System): nat {
    match s.accounts.proofTask
    case AcceptFetch(_, _) => 3
    case AcceptWrite(_, _, _) => 2
    case AcceptSend(_, _) => 1
    case _ => 0
  }

  /** The holder's next step. */
  function HolderMove(s: System): Move
    requires LockHeld(s)
  {
    match s.accounts.proofTask
    case AcceptFetch(_, _) => AccountMove(ProofAcceptFetch)
    case AcceptWrite(_, _, _) => AccountMove(ProofAcceptWrite)
    case _ => AccountMove(ProofAcceptSend)
  }

  /** The lock is held by a task that is waiting for room on the status channel. */
  predicate Stuck(s: System) {
    s.accounts.proofTask.AcceptSend? && |s.accounts.statusQueue| >= CAPACITY
  }

  predicate OwnMove(m: Move) {
    m.AccountMove? && ProofStep(m.b)
  }

  /** The holder can always move, unless the status channel is full when it sends. */
  lemma HolderBlocksExactly(s: System)
    requires LockHeld(s)
    ensures Allowed(s, HolderMove(s)) <==> !Stuck(s)
    ensures forall m :: Allowed(s, m) && OwnMove(m) ==> m == HolderMove(s)
  {
  }

  /** While the lock is held nobody else takes it, the holder's steps bring the release nearer, and
      no other step puts it off. */
  lemma RankStep(s: System, m: Move)
    requires LockHeld(s) && Allowed(s, m)
    ensures !UsesLock(m)
    ensures if OwnMove(m) then Rank(Next(s, m)) < Rank(s) else Rank(Next(s, m)) == Rank(s)
    ensures LockHeld(Next(s, m)) <==> Rank(Next(s, m)) > 0
  {
  }

  function OwnMoves(moves: seq<Move>, n: nat): nat
    requires n <= |moves|
  {
    if n == 0 then 0 else OwnMoves(moves, n - 1) + (if OwnMove(moves[n - 1]) then 1 else 0)
  }

  /** The lock is released by the holder's third step at the latest, whatever the others do. */
  lemma {:induction false} ReleasedInThreeSteps(trace: seq<System>, moves: seq<Move>, n: nat)
    requires Continues(trace, moves) && n <= |moves|
    requires forall i :: 0 <= i <= n ==> LockHeld(trace[i])
    ensures OwnMoves(moves, n) + Rank(trace[n]) <= Rank(trace[0]) <= 3
    ensures OwnMoves(moves, n) <= 2
  {
    if n > 0 {
      ReleasedInThreeSteps(trace, moves, n - 1);
      RankStep(trace[n - 1], moves[n - 1]);
      assert trace[n - 1 + 1] == Next(trace[n - 1], moves[n - 1]);
    }
  }

  /** Once the proof task is sending an acceptance into a full status channel, and as long as nobody
      reads statuses, the verifier is stopped: the lock stays taken, no step that locks and no step of
      the proof task happens, and the contest stays as it is. */
  lemma {:induction false} UnreadStatusesStopEverything(trace: seq<System>, moves: seq<Move>, n: nat)
    requires Continues(trace, moves) && n <= |moves| && Stuck(trace[0])
    requires forall i :: 0 <= i < n ==> moves[i] != AccountMove(StatusReceive)
    ensures Stuck(trace[n]) && LockHeld(trace[n])
    ensures trace[n].auction.contest == trace[0].auction.contest
    ensures forall i :: 0 <= i < n ==> !UsesLock(moves[i]) && !OwnMove(moves[i])
  {
    StaysStuck(trace, moves, n);
    forall i | 0 <= i < n ensures !UsesLock(moves[i]) && !OwnMove(moves[i]) {
      StaysStuck(trace, moves, i);
      StuckStep(trace[i], moves[i]);
    }
  }

  lemma {:induction false} StaysStuck(trace: seq<System>, moves: seq<Move>, n: nat)
    requires Continues(trace, moves) && n <= |moves| && Stuck(trace[0])
    requires forall i :: 0 <= i < n ==> moves[i] != AccountMove(StatusReceive)
    ensures Stuck(trace[n]) && trace[n].auction.contest == trace[0].auction.contest
  {
    if n > 0 {
      StaysStuck(trace, moves, n - 1);
      StuckStep(trace[n - 1], moves[n - 1]);
      assert trace[n - 1 + 1] == Next(trace[n - 1], moves[n - 1]);
    }
  }

  lemma StuckStep(s: System, m: Move)
    requires Stuck(s) && Allowed(s, m) && m != AccountMove(StatusReceive)
    ensures Stuck(Next(s, m)) && !UsesLock(m) && !OwnMove(m)
    ensures Next(s, m).auction.contest == s.auction.contest
  {
  }

  // ----- what the lock is for --------------------------------------------------------------------

  /** The verifier with another current contest. */
  function WithContest(s: System, c: Contest): System {
    s.(auction := s.auction.(contest := c))
  }

  /** The move neither reads nor writes the current contest as far as `c` shows: with `c` in its place
      the move does the same and leaves `c`. */
  ghost predicate Blind(s: System, m: Move, c: Contest)
    requires Allowed(s, m)
  {
    Allowed(WithContest(s, c), m) && Next(WithContest(s, c), m) == WithContest(Next(s, m), c)
  }

  lemma UnlockedIsBlind(s: System, m: Move, c: Contest)
    requires Allowed(s, m) && !UsesLock(m)
    ensures Blind(s, m, c)
  {
  }

  /** A contest that shows that a locking move looks at the current one, or replaces it. */
  function Telltale(s: System, m: Move): Contest {
    var c := s.auction.contest;
    if m == AuctionMove(Auction.LifeEnd) then c.(status := Live)
    else if m.AuctionMove? && m.a.LifeStart? then c.(status := Ended)
    else if m == AuctionMove(Auction.LifeReadStatus) || m == AuctionMove(Auction.BidCheckLive) ||
            m == AuctionMove(Auction.WatchPoll) || m == AuctionMove(Auction.WatchAwaitLive) then
      c.(status := if c.status == Live then Ended else Live)
    else c.(contestId := c.contestId + 1, bids := [])
  }

  lemma LockedIsNotBlind(s: System, m: Move)
    requires Allowed(s, m) && UsesLock(m) && m != AccountMove(ProofVerify)
    ensures exists c :: !Blind(s, m, c)
  {
    if m == AuctionMove(Auction.WatchPoll) && s.auction.contest.status == NotStarted {
      assert !Blind(s, m, s.auction.contest.(status := Ended));
    } else {
      NotBlind(s, m);
    }
  }

  lemma NotBlind(s: System, m: Move)
    requires Allowed(s, m) && UsesLock(m) && m != AccountMove(ProofVerify)
    requires m == AuctionMove(Auction.WatchPoll) ==> s.auction.contest.status != NotStarted
    ensures !Blind(s, m, Telltale(s, m))
  {
  }

  /** The steps that take the lock are exactly those that read or write the current contest, besides the
      verification of a proof, which takes it for the accepting branch. */
  lemma LockGuardsContest(s: System, m: Move)
    requires Allowed(s, m) && m != AccountMove(ProofVerify)
    ensures UsesLock(m) <==> exists c :: !Blind(s, m, c)
  {
    if UsesLock(m) {
      LockedIsNotBlind(s, m);
    } else {
      forall c ensures Blind(s, m, c) {
        UnlockedIsBlind(s, m, c);
      }
    }
  }

  /** The lock stays taken after a step exactly when that step verified a valid proof, and is given back
      exactly by sending the acceptance or by finding the prover unregistered. */
  lemma LockChangesHands(s: System, m: Move)
    requires Allowed(s, m)
    ensures !LockHeld(s) ==>
              (LockHeld(Next(s, m)) <==> m == AccountMove(ProofVerify) && s.accounts.proofTask.proof.valid)
    ensures LockHeld(s) ==>
              (!LockHeld(Next(s, m)) <==>
               m == AccountMove(ProofAcceptSend) ||
               (m == AccountMove(ProofAcceptFetch) && s.accounts.proofTask.proof.proverName !in s.accounts.profiles))
  {
  }
}
