/** What a stored profile holds: the registration's data, the refused bids and the submitted proofs
    written to it since, in order, and the credits; in every run that does not disturb it. */
module Profiles {
  import opened Primitives
  import opened Accounts
  import Auction
  import BidFlow
  import opened System
  import opened Ledger
  import opened Submissions
  import Effects

  // ----- whose profile is held -----------------------------------------------------------------

  /** The bid task and the `submit_proof` calls hold the profile of the prover named in their bid or
      proof; so does the proof task. */
  ghost predicate NamesInv(s: System) {
    && (s.auction.bidTask.WriteProfile? ==> s.auction.bidTask.base.proverName == s.auction.bidTask.bid.proverName)
    && (var t := s.accounts.proofTask;
        t.RejectWrite? || t.AcceptWrite? ==> t.base.proverName == t.proof.proverName)
    && (forall h :: h in s.accounts.submitters ==> OwnProfile(s.accounts.submitters[h]))
  }

  predicate OwnProfile(pc: SubmitPc) {
    pc.Writing? ==> pc.base.proverName == pc.proof.proverName
  }

  lemma NamesStep(s: System, m: Move)
    requires KeyInv(s) && NamesInv(s) && Allowed(s, m)
    ensures NamesInv(Next(s, m))
  {
    var t := Next(s, m);
    forall h | h in t.accounts.submitters ensures OwnProfile(t.accounts.submitters[h]) {
      CallsMove(s, m, h);
      assert h in s.accounts.submitters ==> OwnProfile(s.accounts.submitters[h]);
    }
    match m
    case AuctionMove(a) => BidTaskName(s, a);
    case AccountMove(b) => ProofTaskName(s, b);
  }

  lemma BidTaskName(s: System, a: Auction.Step)
    requires KeyInv(s) && NamesInv(s) && Allowed(s, AuctionMove(a))
    ensures var t := Next(s, AuctionMove(a));
            && (t.auction.bidTask.WriteProfile? ==> t.auction.bidTask.base.proverName == t.auction.bidTask.bid.proverName)
            && t.accounts.proofTask == s.accounts.proofTask
  {
  }

  lemma ProofTaskName(s: System, b: Step)
    requires KeyInv(s) && NamesInv(s) && Allowed(s, AccountMove(b))
    ensures var t := Next(s, AccountMove(b));
            && t.auction == s.auction
            && (t.accounts.proofTask.RejectWrite? || t.accounts.proofTask.AcceptWrite? ==>
                  t.accounts.proofTask.base.proverName == t.accounts.proofTask.proof.proverName)
  {
  }

  lemma {:induction false} RunKeepsNames(trace: seq<System>, moves: seq<Move>, n: nat)
    requires Run(trace, moves) && n <= |moves|
    ensures KeyInv(trace[n]) && NamesInv(trace[n])
  {
    RunKeepsKeys(trace, moves, n);
    if n > 0 {
      RunKeepsNames(trace, moves, n - 1);
      NamesStep(trace[n - 1], moves[n - 1]);
      assert trace[n - 1 + 1] == Next(trace[n - 1], moves[n - 1]);
    }
  }

  // ----- one write -------------------------------------------------------------------------------

  /** A refused bid is stored: the profile of its prover becomes the one the bid task read, with that
      bid, marked rejected, at the end of its bids, and no other difference. */
  lemma RefusalIsStored(trace: seq<System>, moves: seq<Move>, n: nat)
    requires Run(trace, moves) && n < |moves| && moves[n] == AuctionMove(Auction.BidWrite)
    ensures trace[n].auction.bidTask.WriteProfile?
    ensures var bid, base := trace[n].auction.bidTask.bid, trace[n].auction.bidTask.base;
            trace[n + 1].accounts.profiles ==
            trace[n].accounts.profiles[bid.proverName := base.(bids := base.bids + [bid.(bidStatus := BidRejected)])]
  {
    RunKeepsNames(trace, moves, n);
  }

  /** A registration stores a profile with no credits, bids or proofs, whatever was there. */
  lemma RegistrationIsFresh(s: System, name: string, team: Team, address: string)
    ensures Allowed(s, AccountMove(Register(name, team, address)))
    ensures Next(s, AccountMove(Register(name, team, address))).accounts.profiles ==
            s.accounts.profiles[name := ProverProfile(address, name, 0, team, [], [])]
  {
  }

  // ----- over a stretch --------------------------------------------------------------------------

  /** The bids of `name` refused so far, in order, as they are stored. */
  function RefusedBids(s: System, name: string): seq<BidRequest> {
    Effects.RejectedOf(BidFlow.WithOutcome(s.auction.processed, Auction.Refused), name)
  }

  /** The proofs of `name` that calls wrote to its profile so far, in order. */
  function RecordedProofs(trace: seq<System>, moves: seq<Move>, n: nat, name: string): seq<ProofData>
    requires Run(trace, moves) && n <= |moves|
  {
    if n == 0 then [] else RecordedProofs(trace, moves, n - 1, name) + Recorded(trace[n - 1], moves[n - 1], name)
  }

  /** The proof of `name` the move records, if any. */
  function Recorded(s: System, m: Move, name: string): seq<ProofData>
    requires Allowed(s, m)
  {
    if m.AccountMove? && m.b.SubmitWrite? && s.accounts.submitters[m.b.h].proof.proverName == name
    then [s.accounts.submitters[m.b.h].proof] else []
  }

  /** The bid of `name` the move refuses, if any, as it is stored. */
  function Refusing(s: System, m: Move, name: string): seq<BidRequest>
    requires Allowed(s, m)
  {
    if m == AuctionMove(Auction.BidWrite) && s.auction.bidTask.bid.proverName == name
    then [s.auction.bidTask.bid.(bidStatus := BidRejected)] else []
  }

  lemma RefusedStep(s: System, m: Move, name: string)
    requires Allowed(s, m)
    ensures RefusedBids(Next(s, m), name) == RefusedBids(s, name) + Refusing(s, m, name)
  {
    var ps, qs := s.auction.processed, Next(s, m).auction.processed;
    if m == AuctionMove(Auction.BidWrite) {
      var bid := s.auction.bidTask.bid;
      var before := BidFlow.WithOutcome(ps, Auction.Refused);
      BidFlow.WithOutcomeSnoc(ps, Auction.Processed(bid, Auction.Refused), Auction.Refused);
      assert (before + [bid])[..|before|] == before;
    } else {
      NotRefused(s, m);
    }
  }

  lemma NotRefused(s: System, m: Move)
    requires Allowed(s, m) && m != AuctionMove(Auction.BidWrite)
    ensures BidFlow.WithOutcome(Next(s, m).auction.processed, Auction.Refused) ==
            BidFlow.WithOutcome(s.auction.processed, Auction.Refused)
  {
    if m.AuctionMove? && m.a.BidOffer? {
      OfferNotRefused(s.auction);
    } else {
      ProcessedStays(s, m);
    }
  }

  lemma OfferNotRefused(a: Auction.Auction)
    requires Auction.Enabled(a, Auction.BidOffer)
    ensures BidFlow.WithOutcome(Auction.Apply(a, Auction.BidOffer).processed, Auction.Refused) ==
            BidFlow.WithOutcome(a.processed, Auction.Refused)
  {
    var p := Auction.Apply(a, Auction.BidOffer).processed[|a.processed|];
    BidFlow.WithOutcomeSnoc(a.processed, p, Auction.Refused);
    assert Auction.Apply(a, Auction.BidOffer).processed == a.processed + [p];
  }

  lemma ProcessedStays(s: System, m: Move)
    requires Allowed(s, m)
    requires m != AuctionMove(Auction.BidWrite) && m != AuctionMove(Auction.BidOffer)
    ensures Next(s, m).auction.processed == s.auction.processed
  {
    if m.AuctionMove? {
      if Auction.LifeStep(m.a) {
        LifeKeepsProcessed(s.auction, m.a);
      } else {
        OthersKeepProcessed(s.auction, m.a);
      }
    }
  }

  lemma LifeKeepsProcessed(a: Auction.Auction, step: Auction.Step)
    requires Auction.Enabled(a, step) && Auction.LifeStep(step)
    ensures Auction.Apply(a, step).processed == a.processed
  {
  }

  lemma OthersKeepProcessed(a: Auction.Auction, step: Auction.Step)
    requires Auction.Enabled(a, step) && !Auction.LifeStep(step) && !step.BidWrite? && !step.BidOffer?
    ensures Auction.Apply(a, step).processed == a.processed
  {
  }

  /** From `p` to `q` only the credits changed, and these bids and proofs were added at the end. */
  ghost predicate Grown(p: ProverProfile, q: ProverProfile, bids: seq<BidRequest>, proofs: seq<ProofData>) {
    q == p.(credits := q.credits, bids := p.bids + bids, proofs := p.proofs + proofs)
  }

  lemma GrownTwice(p: ProverProfile, q: ProverProfile, r: ProverProfile, bids: seq<BidRequest>,
                   proofs: seq<ProofData>, bids': seq<BidRequest>, proofs': seq<ProofData>)
    requires Grown(p, q, bids, proofs) && Grown(q, r, bids', proofs')
    ensures Grown(p, r, bids + bids', proofs + proofs')
  {
    assert (p.bids + bids) + bids' == p.bids + (bids + bids');
    assert (p.proofs + proofs) + proofs' == p.proofs + (proofs + proofs');
  }

  lemma GrownNot(p: ProverProfile)
    ensures Grown(p, p, [], [])
  {
    assert p.bids + [] == p.bids && p.proofs + [] == p.proofs;
  }

  /** One undisturbed move: what it adds to the profile. */
  lemma ProfileStep(s: System, m: Move, name: string)
    requires KeyInv(s) && NamesInv(s) && CopiesAreCurrent(s, name) && Allowed(s, m)
    requires name in s.accounts.profiles
    requires !(m.AccountMove? && m.b.Register? && m.b.name == name)
    ensures name in Next(s, m).accounts.profiles
    ensures Grown(s.accounts.profiles[name], Next(s, m).accounts.profiles[name],
                  Refusing(s, m, name), Recorded(s, m, name))
  {
    if WritesBack(s, m, name) {
      OwnWrite(s, m, name);
    } else {
      LeftAlone(s, m, name);
      NotOwn(s, m, name);
      GrownNot(s.accounts.profiles[name]);
    }
  }

  lemma OwnWrite(s: System, m: Move, name: string)
    requires KeyInv(s) && NamesInv(s) && CopiesAreCurrent(s, name) && Allowed(s, m) && WritesBack(s, m, name)
    requires name in s.accounts.profiles
    ensures name in Next(s, m).accounts.profiles
    ensures Grown(s.accounts.profiles[name], Next(s, m).accounts.profiles[name],
                  Refusing(s, m, name), Recorded(s, m, name))
  {
    ProfilesAfter(s, m);
    var p := s.accounts.profiles[name];
    assert Base(s, WriterOf(m).value) == Some(p);
    assert p.bids + [] == p.bids && p.proofs + [] == p.proofs;
  }

  lemma NotOwn(s: System, m: Move, name: string)
    requires NamesInv(s) && Allowed(s, m) && !WritesBack(s, m, name)
    ensures Refusing(s, m, name) == [] && Recorded(s, m, name) == []
  {
    if m == AuctionMove(Auction.BidWrite) {
      assert Base(s, BidWriter).Some?;
    } else if m.AccountMove? && m.b.SubmitWrite? {
      assert OwnProfile(s.accounts.submitters[m.b.h]);
      assert Base(s, SubmitWriter(m.b.h)).Some?;
    }
  }

  /** In a run that does not disturb `name`'s profile, and as long as `name` does not register again,
      the profile keeps its address and team and everything in it, and gains exactly the bids of `name`
      refused since and the proofs of `name` recorded since, in order: none is lost. */
  lemma {:induction false} ProfileKeepsAll(trace: seq<System>, moves: seq<Move>, m: nat, n: nat, name: string)
    requires Run(trace, moves) && m <= n <= |moves| && UndisturbedThrough(trace, moves, n, name)
    requires name in trace[m].accounts.profiles
    requires forall i :: m <= i < n ==> !(moves[i].AccountMove? && moves[i].b.Register? && moves[i].b.name == name)
    ensures name in trace[n].accounts.profiles
    ensures RefusedBids(trace[m], name) <= RefusedBids(trace[n], name)
    ensures RecordedProofs(trace, moves, m, name) <= RecordedProofs(trace, moves, n, name)
    ensures Grown(trace[m].accounts.profiles[name], trace[n].accounts.profiles[name],
                  RefusedBids(trace[n], name)[|RefusedBids(trace[m], name)|..],
                  RecordedProofs(trace, moves, n, name)[|RecordedProofs(trace, moves, m, name)|..])
  {
    if m < n {
      var s, t := trace[n - 1], trace[n];
      ProfileKeepsAll(trace, moves, m, n - 1, name);
      OneMoveOn(trace, moves, n - 1, name);
      var bids, proofs := RefusedBids(s, name), RecordedProofs(trace, moves, n - 1, name);
      var i, j := |RefusedBids(trace[m], name)|, |RecordedProofs(trace, moves, m, name)|;
      GrownTwice(trace[m].accounts.profiles[name], s.accounts.profiles[name], t.accounts.profiles[name],
                 bids[i..], proofs[j..], Refusing(s, moves[n - 1], name), Recorded(s, moves[n - 1], name));
      Suffix(bids, i, Refusing(s, moves[n - 1], name));
      Suffix(proofs, j, Recorded(s, moves[n - 1], name));
    } else {
      GrownNot(trace[m].accounts.profiles[name]);
    }
  }

  lemma Suffix<T>(xs: seq<T>, k: nat, more: seq<T>)
    requires k <= |xs|
    ensures xs[k..] + more == (xs + more)[k..]
  {
  }

  lemma OneMoveOn(trace: seq<System>, moves: seq<Move>, n: nat, name: string)
    requires Run(trace, moves) && n < |moves| && UndisturbedThrough(trace, moves, n, name)
    requires name in trace[n].accounts.profiles
    requires !(moves[n].AccountMove? && moves[n].b.Register? && moves[n].b.name == name)
    ensures name in trace[n + 1].accounts.profiles
    ensures Grown(trace[n].accounts.profiles[name], trace[n + 1].accounts.profiles[name],
                  Refusing(trace[n], moves[n], name), Recorded(trace[n], moves[n], name))
    ensures RefusedBids(trace[n + 1], name) == RefusedBids(trace[n], name) + Refusing(trace[n], moves[n], name)
  {
    RunKeepsNames(trace, moves, n);
    UndisturbedKeepsCopies(trace, moves, n, name);
    ProfileStep(trace[n], moves[n], name);
    RefusedStep(trace[n], moves[n], name);
  }

  /** So after a registration the profile is the registration's data, the bids refused and the proofs
      recorded since, and the credits. */
  lemma ProfileSinceRegistration(trace: seq<System>, moves: seq<Move>, m: nat, n: nat, name: string, team: Team, address: string)
    requires Run(trace, moves) && m < n <= |moves| && UndisturbedThrough(trace, moves, n, name)
    requires moves[m] == AccountMove(Register(name, team, address))
    requires forall i :: m < i < n ==> !(moves[i].AccountMove? && moves[i].b.Register? && moves[i].b.name == name)
    ensures name in trace[n].accounts.profiles
    ensures var q := trace[n].accounts.profiles[name];
            && |RefusedBids(trace[m], name)| <= |RefusedBids(trace[n], name)|
            && |RecordedProofs(trace, moves, m, name)| <= |RecordedProofs(trace, moves, n, name)|
            && q == ProverProfile(address, name, q.credits, team,
                                  RefusedBids(trace[n], name)[|RefusedBids(trace[m], name)|..],
                                  RecordedProofs(trace, moves, n, name)[|RecordedProofs(trace, moves, m, name)|..])
  {
    RegistrationIsFresh(trace[m], name, team, address);
    RefusedStep(trace[m], moves[m], name);
    assert RefusedBids(trace[m], name) + [] == RefusedBids(trace[m], name);
    var recorded := RecordedProofs(trace, moves, m, name);
    assert recorded + [] == recorded;
    ProfileKeepsAll(trace, moves, m + 1, n, name);
  }
}
