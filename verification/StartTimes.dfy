/** The clock readings a contest is started with: every copy of the contest keeps them, and they decide
    which proofs are slashed. */
module StartTimes {
  import opened Primitives
  import opened Accounts
  import Auction
  import opened Announcements
  import opened BidFlow
  import opened System
  import opened ProofHistory
  import WorkOrders
  import Verifier

  /** The two clock readings of a start. */
  datatype Reading = Reading(now0: u64, now1: u64)

  /** The readings of the starts among the first n moves, in order: the k-th is contest k's. */
  function Starts(moves: seq<Move>, n: nat): seq<Reading>
    requires n <= |moves|
  {
    if n == 0 then [] else Starts(moves, n - 1) + ReadingOf(moves[n - 1])
  }

  function ReadingOf(m: Move): seq<Reading> {
    if m.AuctionMove? && m.a.LifeStart? then [Reading(m.a.now0, m.a.now1)] else []
  }

  /** A start replaces the current contest by a live one with no bids and no winner, the first reading as
      its start time, the second plus 10000 as its end time, and a reward of 1500. */
  lemma StartSetsTimes(s: System, now0: u64, now1: u64)
    requires Allowed(s, AuctionMove(Auction.LifeStart(now0, now1)))
    ensures var c := Next(s, AuctionMove(Auction.LifeStart(now0, now1))).auction.contest;
            && c.contestId == s.auction.life.nextId && c.status == Live
            && c.startTime == now0 && c.endTime == (now1 + 10000) % 0x1_0000_0000_0000_0000
            && c.bids == [] && c.winner == None && c.reward == 1500
  {
  }

  /** `c` was started, and has the times and the reward of its own start. */
  predicate StartedAt(c: Contest, starts: seq<Reading>) {
    && c.status != NotStarted && c.contestId < |starts|
    && c.startTime == starts[c.contestId].now0
    && c.endTime == (starts[c.contestId].now1 + 10000) % 0x1_0000_0000_0000_0000
    && c.reward == 1500
  }

  /** Or it is the contest the executor begins with. */
  predicate Timed(c: Contest, starts: seq<Reading>) {
    if c.status == NotStarted then c == Contest(0, 0, 0, [], None, 0, NotStarted) else StartedAt(c, starts)
  }

  lemma TimedStays(c: Contest, starts: seq<Reading>, more: seq<Reading>)
    requires Timed(c, starts)
    ensures Timed(c, starts + more)
  {
  }

  // ----- the contest half ----------------------------------------------------------------------

  ghost predicate TimesInv(a: Auction.Auction, starts: seq<Reading>) {
    && |starts| == (if a.contest.status == NotStarted then 0 else a.contest.contestId + 1)
    && Timed(a.contest, starts)
    && (forall c :: c in Snapshots(a) ==> StartedAt(c, starts))
  }

  lemma TimesStep(a: Auction.Auction, step: Auction.Step, starts: seq<Reading>)
    requires PhaseInv(a) && TimesInv(a, starts) && Auction.Enabled(a, step)
    ensures TimesInv(Auction.Apply(a, step), starts + ReadingOf(AuctionMove(step)))
  {
    var b, more := Auction.Apply(a, step), ReadingOf(AuctionMove(step));
    CurrentTimes(a, step, starts);
    forall c | c in Snapshots(b) ensures StartedAt(c, starts + more) {
      var d := SnapshotOrigin(a, step, c);
      OriginTimes(a, starts, d, c);
      TimedStays(c, starts, more);
    }
  }

  lemma CurrentTimes(a: Auction.Auction, step: Auction.Step, starts: seq<Reading>)
    requires PhaseInv(a) && TimesInv(a, starts) && Auction.Enabled(a, step)
    ensures var b, all := Auction.Apply(a, step), starts + ReadingOf(AuctionMove(step));
            && |all| == (if b.contest.status == NotStarted then 0 else b.contest.contestId + 1)
            && Timed(b.contest, all)
  {
    if Auction.LifeStep(step) {
      LifeTimes(a, step, starts);
    } else {
      KeepsTimes(a, step);
      assert starts + [] == starts;
    }
  }

  lemma LifeTimes(a: Auction.Auction, step: Auction.Step, starts: seq<Reading>)
    requires PhaseInv(a) && TimesInv(a, starts) && Auction.Enabled(a, step) && Auction.LifeStep(step)
    ensures var b, all := Auction.Apply(a, step), starts + ReadingOf(AuctionMove(step));
            && |all| == (if b.contest.status == NotStarted then 0 else b.contest.contestId + 1)
            && Timed(b.contest, all)
  {
  }

  lemma KeepsTimes(a: Auction.Auction, step: Auction.Step)
    requires PhaseInv(a) && Auction.Enabled(a, step) && !Auction.LifeStep(step)
    ensures var c, d := a.contest, Auction.Apply(a, step).contest;
            d == c.(bids := d.bids) && (c.status == NotStarted ==> d == c)
  {
    if Auction.BidStep(step) {
      BidTaskKeepsTimes(a, step);
    } else {
      KeepsContest(a, step);
    }
  }

  lemma BidTaskKeepsTimes(a: Auction.Auction, step: Auction.Step)
    requires PhaseInv(a) && Auction.Enabled(a, step) && Auction.BidStep(step)
    ensures var c, d := a.contest, Auction.Apply(a, step).contest;
            d == c.(bids := d.bids) && (c.status == NotStarted ==> d == c)
  {
  }

  lemma OriginTimes(a: Auction.Auction, starts: seq<Reading>, d: Contest, c: Contest)
    requires TimesInv(a, starts) && (d in Snapshots(a) || (d == a.contest && d.status == Ended))
    requires c == d.(winner := c.winner)
    ensures StartedAt(c, starts)
  {
    assert StartedAt(d, starts);
  }

  /** A snapshot was one before, up to its winner, or was just taken of an ended contest. */
  lemma SnapshotOrigin(a: Auction.Auction, step: Auction.Step, c: Contest) returns (d: Contest)
    requires PhaseInv(a) && Auction.Enabled(a, step) && c in Snapshots(Auction.Apply(a, step))
    ensures d in Snapshots(a) || (d == a.contest && d.status == Ended)
    ensures c == d.(winner := c.winner)
  {
    if c in Pipeline(Auction.Apply(a, step)) {
      d := PipelineOrigin(a, step, c);
      assert d in Pipeline(a) ==> d in Snapshots(a);
    } else {
      d := c;
      OtherOrigin(a, step, c);
    }
  }

  // ----- the whole verifier --------------------------------------------------------------------

  /** Also the contests that proofs were and are checked against have the times of their starts. */
  ghost predicate SeenInv(s: System, starts: seq<Reading>) {
    && TimesInv(s.auction, starts)
    && (HoldsContest(s.accounts.proofTask) ==> Timed(s.accounts.proofTask.contest, starts))
    && (forall h :: h in s.accounts.handled ==> Timed(h.contest, starts))
  }

  lemma SeenStep(s: System, m: Move, starts: seq<Reading>)
    requires PhaseInv(s.auction) && SeenInv(s, starts) && Allowed(s, m)
    ensures SeenInv(Next(s, m), starts + ReadingOf(m))
  {
    match m
    case AuctionMove(a) =>
      TimesStep(s.auction, a, starts);
      HandsKeptByAuction(s, a);
      forall h | h in s.accounts.handled ensures Timed(h.contest, starts + ReadingOf(m)) {
        TimedStays(h.contest, starts, ReadingOf(m));
      }
      if HoldsContest(s.accounts.proofTask) {
        TimedStays(s.accounts.proofTask.contest, starts, ReadingOf(m));
      }
    case AccountMove(b) =>
      assert starts + [] == starts;
      SeenByTask(s, b, starts);
  }

  lemma HandsKeptByAuction(s: System, a: Auction.Step)
    requires Allowed(s, AuctionMove(a))
    ensures var t := Next(s, AuctionMove(a));
            t.accounts.proofTask == s.accounts.proofTask && t.accounts.handled == s.accounts.handled
  {
  }

  lemma SeenByTask(s: System, b: Step, starts: seq<Reading>)
    requires SeenInv(s, starts) && Allowed(s, AccountMove(b))
    ensures SeenInv(Next(s, AccountMove(b)), starts)
  {
  }

  lemma {:induction false} RunKeepsTimes(trace: seq<System>, moves: seq<Move>, n: nat)
    requires Run(trace, moves) && n <= |moves|
    ensures SeenInv(trace[n], Starts(moves, n))
  {
    if n == 0 {
      assert Snapshots(Auction.START) == [];
    } else {
      RunKeepsTimes(trace, moves, n - 1);
      Verifier.VerifierKeepsOutput(trace, moves, n - 1);
      SeenStep(trace[n - 1], moves[n - 1], Starts(moves, n - 1));
      assert trace[n - 1 + 1] == Next(trace[n - 1], moves[n - 1]);
    }
  }

  /** In every run the current contest, and every snapshot of a contest wherever it is, have the times of
      that contest's own start. */
  lemma TimesAreKept(trace: seq<System>, moves: seq<Move>, n: nat)
    requires Run(trace, moves) && n <= |moves|
    ensures var a, starts := trace[n].auction, Starts(moves, n);
            && |starts| == (if a.contest.status == NotStarted then 0 else a.contest.contestId + 1)
            && (a.contest.status != NotStarted ==> StartedAt(a.contest, starts))
            && (forall c :: c in Snapshots(a) ==> StartedAt(c, starts))
  {
    RunKeepsTimes(trace, moves, n);
  }

  /** A proof seen with a live contest; with an ended one and a timestamp more than 20000 past the reading
      that contest was started with, in 64 bits; or before the first contest and past 10000. */
  predicate PastTheClock(p: ProofData, c: Contest, starts: seq<Reading>)
    requires c.status == Ended ==> c.contestId < |starts|
  {
    match c.status
    case Live => true
    case Ended => p.timestamp > (starts[c.contestId].now1 + 20000) % 0x1_0000_0000_0000_0000
    case NotStarted => p.timestamp > 10000
  }

  /** When a handled proof is slashed, told from the clock alone: exactly these are. */
  lemma SlashedByTheClock(trace: seq<System>, moves: seq<Move>, n: nat, k: nat)
    requires Run(trace, moves) && n <= |moves| && k < |trace[n].accounts.handled|
    ensures var a, starts := trace[n].accounts, Starts(moves, n);
            var p, c := a.handled[k].proof, a.handled[k].contest;
            var lo, hi := Cut(a.handled, k), Cut(a.handled, k + 1);
            && (c.status == Ended ==> c.contestId < |starts|)
            && lo <= hi <= |Written(a.events)|
            && (Slashed(p.proverName) in Written(a.events)[lo..hi] <==> PastTheClock(p, c, starts))
  {
    RunKeepsTimes(trace, moves, n);
    RunKeepsHistory(trace, moves, n);
    var a, h := trace[n].accounts, trace[n].accounts.handled[k];
    assert h in a.handled;
    WindowByTheClock(h.proof, h.contest, Starts(moves, n));
    PiecesInHand(a, k);
    SlashInPiece(h.proof, h.contest);
  }

  lemma SlashInPiece(p: ProofData, c: Contest)
    ensures Slashed(p.proverName) in Deserved(p, c) <==> OutsideWindow(p, c)
  {
  }

  lemma WindowByTheClock(p: ProofData, c: Contest, starts: seq<Reading>)
    requires Timed(c, starts)
    ensures OutsideWindow(p, c) <==> PastTheClock(p, c, starts)
  {
    if c.status == Ended {
      TwoDurations(starts[c.contestId].now1);
    }
  }

  lemma TwoDurations(x: u64)
    ensures ((x + 10000) % U64 + 10000) % U64 == (x + 20000) % U64
  {
  }
}
