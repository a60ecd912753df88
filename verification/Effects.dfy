/** What the task loops do, as functions of the state they start in and of the messages they receive,
    and what that comes to for each contest and prover. */
module Effects {
  import opened Primitives
  import opened WinnerSelection
  import Auction
  import Accounts
  import WorkOrders

  // ----- one bid -----------------------------------------------------------------------------

  /** The effect of one bid; no outcome means that the task returned. */
  datatype BidEffect = BidEffect(
    contest: Contest, profiles: map<string, ProverProfile>, outcome: Option<Auction.Outcome>)

  function HandleBid(c: Contest, profiles: map<string, ProverProfile>, bid: BidRequest): BidEffect {
    if c.IsLive() then
      if HasBidder(c.bids, bid.proverAddress) then BidEffect(c, profiles, Some(Auction.Duplicate))
      else BidEffect(c.(bids := c.bids + [bid]), profiles, Some(Auction.Taken(c.contestId)))
    else match Lookup(profiles, bid.proverName)
         case Some(base) =>
           BidEffect(c, Accounts.Put(profiles, Auction.WithRefusedBid(base, bid)), Some(Auction.Refused))
         case None => BidEffect(c, profiles, None)
  }

  /** The effect of a whole queue; `finished` is false when the task returned. */
  datatype BidsEffect = BidsEffect(contest: Contest, profiles: map<string, ProverProfile>, finished: bool)

  /** All bids of a queue, up to the one that makes the task return. */
  function HandleBids(c: Contest, profiles: map<string, ProverProfile>, queue: seq<BidRequest>): BidsEffect {
    if queue == [] then BidsEffect(c, profiles, true)
    else
      var before := HandleBids(c, profiles, queue[..|queue| - 1]);
      if !before.finished then before
      else
        var last := HandleBid(before.contest, before.profiles, queue[|queue| - 1]);
        BidsEffect(last.contest, last.profiles, last.outcome.Some?)
  }

  /** Bid k is the first of its address: neither the contest nor an earlier bid of the queue has it. */
  predicate IsFirst(bids: seq<BidRequest>, queue: seq<BidRequest>, k: nat)
    requires k < |queue|
  {
    && (forall i :: 0 <= i < |bids| ==> bids[i].proverAddress != queue[k].proverAddress)
    && (forall i :: 0 <= i < k ==> queue[i].proverAddress != queue[k].proverAddress)
  }

  /** The bids of the queue that are the first of their address, in the order of the queue. */
  function FirstBids(bids: seq<BidRequest>, queue: seq<BidRequest>): seq<BidRequest> {
    if queue == [] then []
    else FirstBids(bids, queue[..|queue| - 1]) +
         (if IsFirst(bids, queue, |queue| - 1) then [queue[|queue| - 1]] else [])
  }

  /** The addresses the contest then has are its own and those of the queue. */
  lemma {:induction false} FirstBidsCover(bids: seq<BidRequest>, queue: seq<BidRequest>, address: string)
    ensures HasBidder(bids + FirstBids(bids, queue), address) <==>
            HasBidder(bids, address) || HasBidder(queue, address)
  {
    if queue == [] {
      assert bids + [] == bids;
    } else {
      var front, last := queue[..|queue| - 1], queue[|queue| - 1];
      FirstBidsCover(bids, front, address);
      BidderSnoc(front, last, address);
      BidderSnoc(bids + FirstBids(bids, front), last, address);
      assert queue == front + [last];
      assert bids + (FirstBids(bids, front) + [last]) == (bids + FirstBids(bids, front)) + [last];
      assert bids + (FirstBids(bids, front) + []) == bids + FirstBids(bids, front);
    }
  }

  lemma BidderSnoc(bids: seq<BidRequest>, bid: BidRequest, address: string)
    ensures HasBidder(bids + [bid], address) <==> HasBidder(bids, address) || bid.proverAddress == address
  {
    if HasBidder(bids, address) {
      var i :| 0 <= i < |bids| && bids[i].proverAddress == address;
      assert (bids + [bid])[i].proverAddress == address;
    }
    assert (bids + [bid])[|bids|] == bid;
  }

  lemma NobodyYet(bids: seq<BidRequest>, queue: seq<BidRequest>)
    requires queue != []
    ensures var n := |queue| - 1;
            IsFirst(bids, queue, n) <==>
            !HasBidder(bids, queue[n].proverAddress) && !HasBidder(queue[..n], queue[n].proverAddress)
  {
    var n := |queue| - 1;
    forall i | 0 <= i < n ensures queue[..n][i] == queue[i] {
    }
  }

  /** A live contest gains exactly the first bid of every new address, in the order they were received;
      no profile changes and the task does not return. */
  lemma {:induction false} LiveContestCollects(c: Contest, profiles: map<string, ProverProfile>, queue: seq<BidRequest>)
    requires c.status == Live
    ensures HandleBids(c, profiles, queue) == BidsEffect(c.(bids := c.bids + FirstBids(c.bids, queue)), profiles, true)
  {
    if queue == [] {
      assert c.bids + [] == c.bids;
    } else {
      var front, last := queue[..|queue| - 1], queue[|queue| - 1];
      LiveContestCollects(c, profiles, front);
      FirstBidsCover(c.bids, front, last.proverAddress);
      NobodyYet(c.bids, queue);
      var old' := c.bids + FirstBids(c.bids, front);
      assert c.bids + (FirstBids(c.bids, front) + [last]) == old' + [last];
      assert c.bids + (FirstBids(c.bids, front) + []) == old';
    }
  }

  /** The queue's bids of `name`, in order, each marked rejected. */
  function RejectedOf(queue: seq<BidRequest>, name: string): seq<BidRequest> {
    if queue == [] then []
    else
      var last := queue[|queue| - 1];
      RejectedOf(queue[..|queue| - 1], name) +
      (if last.proverName == name then [last.(bidStatus := BidRejected)] else [])
  }

  /** How many bids come before the first of a prover that is not registered. */
  function Registered(names: set<string>, queue: seq<BidRequest>): (k: nat)
    ensures k <= |queue| && forall i :: 0 <= i < k ==> queue[i].proverName in names
    ensures k < |queue| ==> queue[k].proverName !in names
  {
    if queue == [] || queue[0].proverName !in names then 0 else 1 + Registered(names, queue[1..])
  }

  lemma RegisteredSnoc(names: set<string>, front: seq<BidRequest>, bid: BidRequest)
    ensures Registered(names, front + [bid]) ==
            if Registered(names, front) < |front| || bid.proverName !in names then Registered(names, front)
            else |front| + 1
  {
    var k, all := Registered(names, front), front + [bid];
    assert forall i :: 0 <= i < |front| ==> all[i] == front[i];
    RegisteredUnique(names, all, if k < |front| || bid.proverName !in names then k else |all|);
  }

  lemma RegisteredUnique(names: set<string>, queue: seq<BidRequest>, k: nat)
    requires k <= |queue| && forall i :: 0 <= i < k ==> queue[i].proverName in names
    requires k < |queue| ==> queue[k].proverName !in names
    ensures Registered(names, queue) == k
  {
  }

  /** A contest that is not live gains nothing: every registered prover's profile gains its bids, in
      order and marked rejected, up to the one of an unregistered prover, which makes the task return;
      nothing else in any profile changes. */
  lemma {:induction false} DeadContestRefuses(c: Contest, profiles: map<string, ProverProfile>, queue: seq<BidRequest>, name: string)
    requires c.status != Live && Keyed(profiles) && name in profiles
    ensures var after, k := HandleBids(c, profiles, queue), Registered(profiles.Keys, queue);
            && after.contest == c && Keyed(after.profiles) && after.profiles.Keys == profiles.Keys
            && (after.finished <==> k == |queue|)
            && after.profiles[name] == profiles[name].(bids := profiles[name].bids + RejectedOf(queue[..k], name))
  {
    if queue == [] {
      assert profiles[name].bids + [] == profiles[name].bids;
    } else {
      var front, last := queue[..|queue| - 1], queue[|queue| - 1];
      DeadContestRefuses(c, profiles, front, name);
      assert queue == front + [last];
      RegisteredSnoc(profiles.Keys, front, last);
      var k := Registered(profiles.Keys, queue);
      if k == |queue| {
        assert front[..|front|] == front && queue[..k] == queue;
        RefuseOneMore(c, profiles, HandleBids(c, profiles, front).profiles, front, last, name);
      } else {
        assert queue[..k] == front[..k];
      }
    }
  }

  lemma RefuseOneMore(c: Contest, profiles: map<string, ProverProfile>, before: map<string, ProverProfile>,
                      front: seq<BidRequest>, bid: BidRequest, name: string)
    requires c.status != Live && Keyed(before) && name in before && bid.proverName in before && name in profiles
    requires before[name] == profiles[name].(bids := profiles[name].bids + RejectedOf(front, name))
    ensures var after := HandleBid(c, before, bid);
            && after.contest == c && after.outcome.Some?
            && Keyed(after.profiles) && after.profiles.Keys == before.Keys
            && after.profiles[name] ==
               profiles[name].(bids := profiles[name].bids + RejectedOf(front + [bid], name))
  {
    assert (front + [bid])[..|front|] == front;
    var old', refused := profiles[name].bids, RejectedOf(front, name);
    assert (old' + refused) + [bid.(bidStatus := BidRejected)] == old' + (refused + [bid.(bidStatus := BidRejected)]);
    assert refused + [] == refused;
  }

  // ----- one proof ---------------------------------------------------------------------------

  /** The effect of one proof; `finished` is false when the task returned. */
  datatype ProofEffect = ProofEffect(
    profiles: map<string, ProverProfile>, statuses: seq<ProofData>, finished: bool)

  function RejectIfLate(c: Contest, profiles: map<string, ProverProfile>, p: ProofData): ProofEffect {
    if !Accounts.Late(p, c) then ProofEffect(profiles, [], true)
    else match Lookup(profiles, p.proverName)
         case Some(base) =>
           ProofEffect(Accounts.Put(profiles, Accounts.Slash(base)), [p.(status := Rejected)], true)
         case None => ProofEffect(profiles, [], false)
  }

  function HandleProof(c: Contest, profiles: map<string, ProverProfile>, p: ProofData): ProofEffect {
    AcceptIfValid(c, RejectIfLate(c, profiles, p), p)
  }

  /** The second half, which follows also a rejection. */
  function AcceptIfValid(c: Contest, rejected: ProofEffect, p: ProofData): ProofEffect {
    if !rejected.finished || !p.valid then rejected
    else match Lookup(rejected.profiles, p.proverName)
         case Some(base) =>
           ProofEffect(Accounts.Put(rejected.profiles, Accounts.Reward(base, c)),
                       rejected.statuses + [p.(status := Accepted)], true)
         case None => rejected.(finished := false)
  }

  function HandleProofs(c: Contest, profiles: map<string, ProverProfile>, queue: seq<ProofData>): ProofEffect {
    if queue == [] then ProofEffect(profiles, [], true)
    else
      var before := HandleProofs(c, profiles, queue[..|queue| - 1]);
      if !before.finished then before
      else
        var last := HandleProof(c, before.profiles, queue[|queue| - 1]);
        last.(statuses := before.statuses + last.statuses)
  }

  lemma NextProof(c: Contest, profiles: map<string, ProverProfile>, queue: seq<ProofData>, i: nat)
    requires i < |queue| && HandleProofs(c, profiles, queue[..i]).finished
    ensures var before := HandleProofs(c, profiles, queue[..i]);
            var last := HandleProof(c, before.profiles, queue[i]);
            HandleProofs(c, profiles, queue[..i + 1]) == last.(statuses := before.statuses + last.statuses)
  {
    assert queue[..i + 1][..i] == queue[..i];
  }

  ghost predicate Keyed(profiles: map<string, ProverProfile>) {
    forall name :: name in profiles ==> profiles[name].proverName == name
  }

  /** What a proof is worth to its prover: a slash if late, plus the reward if it verifies. */
  function Worth(c: Contest, p: ProofData): int {
    (if OutsideWindow(p, c) then 0 - CREDIT_SLASH else 0) + (if p.valid then c.reward else 0)
  }

  function TotalWorth(c: Contest, queue: seq<ProofData>, name: string): int {
    if queue == [] then 0
    else
      TotalWorth(c, queue[..|queue| - 1], name) + WorthTo(c, queue[|queue| - 1], name)
  }

  /** What one proof is worth to `name`. */
  function WorthTo(c: Contest, p: ProofData, name: string): int {
    if p.proverName == name then Worth(c, p) else 0
  }

  /** Credits moved by `d`, in 64 bits. */
  function Shift(x: u64, d: int): u64 {
    (x + d) % U64
  }

  lemma ShiftTwice(x: u64, d: int, e: int)
    ensures Shift(Shift(x, d), e) == Shift(x, d + e) && Shift(x, 0) == x
  {
    var y := x + d;
    var q := y / U64;
    assert y == q * U64 + y % U64;
    var z := y % U64 + e;
    assert x + (d + e) == q * U64 + z;
    assert (q * U64 + z) / U64 == q + z / U64;
  }

  /** The proof makes the task return: it needs the profile of a prover that is not registered. */
  predicate Stops(c: Contest, names: set<string>, p: ProofData) {
    p.proverName !in names && (OutsideWindow(p, c) || p.valid)
  }

  lemma StopsExactly(c: Contest, profiles: map<string, ProverProfile>, p: ProofData)
    requires Keyed(profiles)
    ensures var after := HandleProof(c, profiles, p);
            && Keyed(after.profiles) && after.profiles.Keys == profiles.Keys
            && (after.finished <==> !Stops(c, profiles.Keys, p))
            && (!after.finished ==> after.profiles == profiles)
  {
    if p.proverName in profiles {
      assert Lookup(RejectIfLate(c, profiles, p).profiles, p.proverName).Some?;
    }
  }

  lemma WorthOfOne(c: Contest, profiles: map<string, ProverProfile>, p: ProofData, name: string)
    requires Keyed(profiles) && name in profiles && HandleProof(c, profiles, p).finished
    ensures var after := HandleProof(c, profiles, p).profiles;
            name in after &&
            after[name] == profiles[name].(credits := Shift(profiles[name].credits, WorthTo(c, p, name)))
  {
    ShiftTwice(profiles[name].credits, if OutsideWindow(p, c) then 0 - CREDIT_SLASH else 0, c.reward);
    if p.proverName in profiles {
      assert Lookup(RejectIfLate(c, profiles, p).profiles, p.proverName).Some?;
    }
  }

  /** How many proofs the task goes through before the one that makes it return. */
  function Passed(c: Contest, names: set<string>, queue: seq<ProofData>): (k: nat)
    ensures k <= |queue| && forall i :: 0 <= i < k ==> !Stops(c, names, queue[i])
    ensures k < |queue| ==> Stops(c, names, queue[k])
  {
    if queue == [] || Stops(c, names, queue[0]) then 0 else 1 + Passed(c, names, queue[1..])
  }

  lemma PassedSnoc(c: Contest, names: set<string>, front: seq<ProofData>, p: ProofData)
    ensures Passed(c, names, front + [p]) ==
            if Passed(c, names, front) < |front| || Stops(c, names, p) then Passed(c, names, front) else |front| + 1
  {
    var k, all := Passed(c, names, front), front + [p];
    assert forall i :: 0 <= i < |front| ==> all[i] == front[i];
    PassedUnique(c, names, all, if k < |front| || Stops(c, names, p) then k else |all|);
  }

  lemma PassedUnique(c: Contest, names: set<string>, queue: seq<ProofData>, k: nat)
    requires k <= |queue| && forall i :: 0 <= i < k ==> !Stops(c, names, queue[i])
    requires k < |queue| ==> Stops(c, names, queue[k])
    ensures Passed(c, names, queue) == k
  {
  }

  /** The loop returns early if and only if one of the proofs stops it. */
  lemma {:induction false} LoopStopsExactly(c: Contest, profiles: map<string, ProverProfile>, queue: seq<ProofData>)
    requires Keyed(profiles)
    ensures var after := HandleProofs(c, profiles, queue);
            && Keyed(after.profiles) && after.profiles.Keys == profiles.Keys
            && (after.finished <==> Passed(c, profiles.Keys, queue) == |queue|)
  {
    if queue == [] {
    } else {
      var front, p := queue[..|queue| - 1], queue[|queue| - 1];
      LoopStopsExactly(c, profiles, front);
      assert queue == front + [p];
      PassedSnoc(c, profiles.Keys, front, p);
      StopsExactly(c, HandleProofs(c, profiles, front).profiles, p);
    }
  }

  /** After the loop every prover's credits have changed by what its proofs are worth, up to the one
      that made the task return; it returned if there is such a proof.  Nothing else in its profile has
      changed. */
  lemma {:induction false} CreditsAfterLoop(c: Contest, profiles: map<string, ProverProfile>, queue: seq<ProofData>, name: string)
    requires Keyed(profiles) && name in profiles
    ensures var after, k := HandleProofs(c, profiles, queue), Passed(c, profiles.Keys, queue);
            && Keyed(after.profiles) && after.profiles.Keys == profiles.Keys
            && (after.finished <==> k == |queue|)
            && after.profiles[name] ==
               profiles[name].(credits := Shift(profiles[name].credits, TotalWorth(c, queue[..k], name)))
  {
    if queue == [] {
      ShiftTwice(profiles[name].credits, 0, 0);
    } else {
      var front, p := queue[..|queue| - 1], queue[|queue| - 1];
      var k, before := Passed(c, profiles.Keys, queue), HandleProofs(c, profiles, front);
      CreditsAfterLoop(c, profiles, front, name);
      LoopStopsExactly(c, profiles, queue);
      assert queue == front + [p];
      PassedSnoc(c, profiles.Keys, front, p);
      if k == |queue| {
        assert front[..|front|] == front && queue[..k] == queue;
        CreditsAfterOneMore(c, profiles, queue, name);
      } else {
        assert queue[..k] == front[..k];
        StopsExactly(c, before.profiles, p);
      }
    }
  }

  lemma CreditsAfterOneMore(c: Contest, profiles: map<string, ProverProfile>, queue: seq<ProofData>, name: string)
    requires Keyed(profiles) && name in profiles && queue != [] && HandleProofs(c, profiles, queue).finished
    requires var front := queue[..|queue| - 1];
             var before := HandleProofs(c, profiles, front).profiles;
             Keyed(before) && name in before &&
             before[name] == profiles[name].(credits := Shift(profiles[name].credits, TotalWorth(c, front, name)))
    ensures name in HandleProofs(c, profiles, queue).profiles
    ensures HandleProofs(c, profiles, queue).profiles[name] ==
            profiles[name].(credits := Shift(profiles[name].credits, TotalWorth(c, queue, name)))
  {
    var front, p := queue[..|queue| - 1], queue[|queue| - 1];
    WorthOfOne(c, HandleProofs(c, profiles, front).profiles, p, name);
    ShiftTwice(profiles[name].credits, TotalWorth(c, front, name), WorthTo(c, p, name));
  }

  /** The statuses of the proofs, in order: each itself, rejected if it is outside the window and then
      accepted if it verifies. */
  function Told(c: Contest, queue: seq<ProofData>): seq<ProofData> {
    if queue == [] then [] else Told(c, queue[..|queue| - 1]) + Telling(c, queue[|queue| - 1])
  }

  function Telling(c: Contest, p: ProofData): seq<ProofData> {
    (if OutsideWindow(p, c) then [p.(status := Rejected)] else [])
    + (if p.valid then [p.(status := Accepted)] else [])
  }

  /** The loop sends those statuses, up to the proof that makes it return. */
  lemma {:induction false} StatusesAfterLoop(c: Contest, profiles: map<string, ProverProfile>, queue: seq<ProofData>)
    requires Keyed(profiles)
    ensures HandleProofs(c, profiles, queue).statuses == Told(c, queue[..Passed(c, profiles.Keys, queue)])
  {
    if queue == [] {
    } else {
      var front := queue[..|queue| - 1];
      StatusesAfterLoop(c, profiles, front);
      LoopStopsExactly(c, profiles, front);
      StatusesAfterOneMore(c, profiles, queue);
      ToldOneMore(c, profiles.Keys, queue);
    }
  }

  lemma {:induction false} ToldOneMore(c: Contest, names: set<string>, queue: seq<ProofData>)
    requires queue != []
    ensures var front, p := queue[..|queue| - 1], queue[|queue| - 1];
            var told := Told(c, front[..Passed(c, names, front)]);
            Told(c, queue[..Passed(c, names, queue)]) ==
            if Passed(c, names, front) < |front| || Stops(c, names, p) then told else told + Telling(c, p)
  {
    var front, p := queue[..|queue| - 1], queue[|queue| - 1];
    var k := Passed(c, names, queue);
    assert queue == front + [p];
    PassedSnoc(c, names, front, p);
    if k == |queue| {
      assert front[..|front|] == front && queue[..k] == queue;
    } else {
      assert queue[..k] == front[..k];
    }
  }

  lemma StatusesAfterOneMore(c: Contest, profiles: map<string, ProverProfile>, queue: seq<ProofData>)
    requires Keyed(profiles) && queue != []
    ensures var before, p := HandleProofs(c, profiles, queue[..|queue| - 1]), queue[|queue| - 1];
            HandleProofs(c, profiles, queue).statuses ==
            if !before.finished || Stops(c, profiles.Keys, p) then before.statuses else before.statuses + Telling(c, p)
  {
    var front, p := queue[..|queue| - 1], queue[|queue| - 1];
    LoopStopsExactly(c, profiles, front);
    var before := HandleProofs(c, profiles, front);
    StatusesOfOne(c, before.profiles, p);
    assert before.statuses + [] == before.statuses;
  }

  lemma StatusesOfOne(c: Contest, profiles: map<string, ProverProfile>, p: ProofData)
    requires Keyed(profiles)
    ensures HandleProof(c, profiles, p).statuses ==
            if Stops(c, profiles.Keys, p) then [] else Telling(c, p)
  {
    if p.proverName in profiles {
      assert Lookup(RejectIfLate(c, profiles, p).profiles, p.proverName).Some?;
    }
  }

  /** One proof, in numbers: a registered prover loses 1000 credits and is told Rejected if and only if
      the contest is live or the timestamp is past its end time plus 10000; it gains the reward and is
      told Accepted if and only if the proof verifies; nothing else changes.  A proof of an unregistered
      prover changes nothing, and makes the task return if it is late or verifies. */
  lemma OneProofExactly(c: Contest, profiles: map<string, ProverProfile>, p: ProofData)
    requires Keyed(profiles)
    ensures var after := HandleProofs(c, profiles, [p]);
            var late := c.status == Live || p.timestamp > (c.endTime + 10000) % 0x1_0000_0000_0000_0000;
            if p.proverName !in profiles then
              && after.profiles == profiles && after.statuses == []
              && (after.finished <==> !late && !p.valid)
            else
              var old' := profiles[p.proverName];
              var worth := (if late then -1000 else 0) + (if p.valid then c.reward else 0);
              && after.finished
              && after.profiles ==
                 profiles[p.proverName := old'.(credits := (old'.credits + worth) % 0x1_0000_0000_0000_0000)]
              && after.statuses ==
                 (if late then [p.(status := Rejected)] else []) + (if p.valid then [p.(status := Accepted)] else [])
  {
    LoopOfOne(c, profiles, p);
    StopsExactly(c, profiles, p);
    StatusesOfOne(c, profiles, p);
    if p.proverName in profiles {
      OneProofProfile(c, profiles, p);
      assert Worth(c, p) == (if OutsideWindow(p, c) then -1000 else 0) + (if p.valid then c.reward else 0);
    }
  }

  lemma LoopOfOne(c: Contest, profiles: map<string, ProverProfile>, p: ProofData)
    ensures HandleProofs(c, profiles, [p]) == HandleProof(c, profiles, p)
  {
    assert [p][..0] == [];
    assert [] + HandleProof(c, profiles, p).statuses == HandleProof(c, profiles, p).statuses;
  }

  lemma OneProofProfile(c: Contest, profiles: map<string, ProverProfile>, p: ProofData)
    requires Keyed(profiles) && p.proverName in profiles
    ensures var old' := profiles[p.proverName];
            HandleProof(c, profiles, p).profiles ==
            profiles[p.proverName := old'.(credits := (old'.credits + Worth(c, p)) % U64)]
  {
    StopsExactly(c, profiles, p);
    WorthOfOne(c, profiles, p, p.proverName);
    OthersUntouched(c, profiles, p);
  }

  lemma OthersUntouched(c: Contest, profiles: map<string, ProverProfile>, p: ProofData)
    requires Keyed(profiles) && p.proverName in profiles
    ensures var after := HandleProof(c, profiles, p).profiles;
            p.proverName in after && after == profiles[p.proverName := after[p.proverName]]
  {
    assert Lookup(RejectIfLate(c, profiles, p).profiles, p.proverName).Some?;
  }

  // ----- the lifecycle -------------------------------------------------------------------------

  /** The contest after one round, and the contests stored in it. */
  datatype RoundEffect = RoundEffect(contest: Contest, stored: seq<Contest>)

  function PassRound(c: Contest, now0: u64, now1: u64): RoundEffect {
    match c.status
    case NotStarted => RoundEffect(FreshContest(0, now0, now1), [])
    case Live => RoundEffect(c.(status := Ended), [])
    case Ended => RoundEffect(FreshContest(c.contestId + 1, now0, now1), [c])
  }

  /** One round, field by field: a live contest is ended and otherwise kept; from any other status a
      contest is started with the next id, the first clock reading as start time, the second plus 10000
      as end time, no bids, no winner and a reward of 1500, and an ended one is stored before. */
  lemma RoundExactly(c: Contest, now0: u64, now1: u64)
    ensures var effect := PassRound(c, now0, now1);
            var next := effect.contest;
            if c.status == Live then effect == RoundEffect(c.(status := Ended), [])
            else
              && effect.stored == (if c.status == Ended then [c] else [])
              && next.contestId == (if c.status == Ended then c.contestId + 1 else 0)
              && next.startTime == now0 && next.endTime == (now1 + 10000) % 0x1_0000_0000_0000_0000
              && next.bids == [] && next.winner == None && next.reward == 1500 && next.status == Live
  {
  }

  // ----- completed contests --------------------------------------------------------------------

  /** A snapshot received and the two draws made for it. */
  datatype Arrival = Arrival(contest: Contest, r: nat, second: nat)

  predicate Fits(a: Arrival) {
    a.contest.bids != [] ==> a.r < |a.contest.bids| && a.second < |a.contest.bids|
  }

  predicate AllFit(arrivals: seq<Arrival>) {
    forall i :: 0 <= i < |arrivals| ==> Fits(arrivals[i])
  }

  function Pick(a: Arrival): Selection
    requires Fits(a)
  {
    Select(a.contest.bids, a.r, a.second)
  }

  datatype Completion = Completion(forwarded: seq<Contest>, alive: bool)

  /** The winners of the snapshots received, up to the one whose selection panics. */
  function Complete(arrivals: seq<Arrival>): Completion
    requires AllFit(arrivals)
  {
    if arrivals == [] then Completion([], true)
    else
      var before, last := Complete(arrivals[..|arrivals| - 1]), arrivals[|arrivals| - 1];
      if !before.alive then before
      else match Pick(last)
           case NoBids => before
           case Won(bid) => before.(forwarded := before.forwarded + [last.contest.(winner := Some(bid))])
           case Panicked => before.(alive := false)
  }

  lemma {:induction false} StoppedStaysStopped(arrivals: seq<Arrival>, k: nat)
    requires AllFit(arrivals) && k <= |arrivals| && !Complete(arrivals[..k]).alive
    ensures Complete(arrivals) == Complete(arrivals[..k])
  {
    if k == |arrivals| {
      assert arrivals[..k] == arrivals;
    } else {
      assert arrivals[..|arrivals| - 1][..k] == arrivals[..k];
      StoppedStaysStopped(arrivals[..|arrivals| - 1], k);
    }
  }

  lemma PickIsChosen(a: Arrival)
    requires Fits(a)
    ensures Pick(a) == NoBids <==> a.contest.bids == []
    ensures Pick(a).Won? ==> WorkOrders.Chosen(a.contest.(winner := Some(Pick(a).bid)))
  {
    if Pick(a).Won? {
      var c := a.contest.(winner := Some(Pick(a).bid));
      assert Select(c.bids, a.r, a.second) == Won(c.winner.value);
    }
  }

  ghost predicate AllChosen(cs: seq<Contest>) {
    forall i :: 0 <= i < |cs| ==> WorkOrders.Chosen(cs[i])
  }

  lemma AllChosenSnoc(cs: seq<Contest>, c: Contest)
    requires AllChosen(cs) && WorkOrders.Chosen(c)
    ensures AllChosen(cs + [c])
  {
  }

  /** The snapshots with bids, in order. */
  function Contested(arrivals: seq<Arrival>): seq<Arrival> {
    if arrivals == [] then []
    else Contested(arrivals[..|arrivals| - 1])
         + (if arrivals[|arrivals| - 1].contest.bids == [] then [] else [arrivals[|arrivals| - 1]])
  }

  /** `c` is the snapshot with the winner that its own draws select. */
  ghost predicate Decides(a: Arrival, c: Contest) {
    && a.r < |a.contest.bids| && a.second < |a.contest.bids|
    && exists bid :: Select(a.contest.bids, a.r, a.second) == Won(bid) && c == a.contest.(winner := Some(bid))
  }

  /** What is forwarded are, in order and with their winners, the snapshots with bids, up to the first
      whose selection panics. */
  lemma {:induction false} CompletedInOrder(arrivals: seq<Arrival>)
    requires AllFit(arrivals)
    ensures var done, all := Complete(arrivals), Contested(arrivals);
            && |done.forwarded| <= |all| && (done.alive <==> |done.forwarded| == |all|)
            && (forall i :: 0 <= i < |done.forwarded| ==> Decides(all[i], done.forwarded[i]))
            && (!done.alive ==>
                  var a := all[|done.forwarded|];
                  a.r < |a.contest.bids| && a.second < |a.contest.bids| &&
                  Select(a.contest.bids, a.r, a.second) == Panicked)
  {
    if arrivals == [] {
    } else {
      var front, last := arrivals[..|arrivals| - 1], arrivals[|arrivals| - 1];
      CompletedInOrder(front);
      NoBidsExactly(last.contest.bids, last.r, last.second);
      assert Fits(last);
      if Complete(front).alive && Pick(last).Won? {
        assert Decides(last, last.contest.(winner := Some(Pick(last).bid)));
      }
    }
  }

  /** Everything forwarded has a winner that its selection picked; and without a panic, every
      snapshot with bids is forwarded. */
  lemma {:induction false} CompletedAreChosen(arrivals: seq<Arrival>)
    requires AllFit(arrivals)
    ensures AllChosen(Complete(arrivals).forwarded)
    ensures Complete(arrivals).alive ==> |Complete(arrivals).forwarded| == |Contested(arrivals)|
  {
    if arrivals == [] {
    } else {
      var front, last := arrivals[..|arrivals| - 1], arrivals[|arrivals| - 1];
      CompletedAreChosen(front);
      PickIsChosen(last);
      if Pick(last).Won? {
        AllChosenSnoc(Complete(front).forwarded, last.contest.(winner := Some(Pick(last).bid)));
      }
    }
  }

  // ----- returning early -----------------------------------------------------------------------

  lemma {:induction false} BidsStopAt(c: Contest, profiles: map<string, ProverProfile>, queue: seq<BidRequest>, k: nat)
    requires k <= |queue| && !HandleBids(c, profiles, queue[..k]).finished
    ensures HandleBids(c, profiles, queue) == HandleBids(c, profiles, queue[..k])
  {
    if k == |queue| {
      assert queue[..k] == queue;
    } else {
      assert queue[..|queue| - 1][..k] == queue[..k];
      BidsStopAt(c, profiles, queue[..|queue| - 1], k);
    }
  }

  lemma {:induction false} ProofsStopAt(c: Contest, profiles: map<string, ProverProfile>, queue: seq<ProofData>, k: nat)
    requires k <= |queue| && !HandleProofs(c, profiles, queue[..k]).finished
    ensures HandleProofs(c, profiles, queue) == HandleProofs(c, profiles, queue[..k])
  {
    if k == |queue| {
      assert queue[..k] == queue;
    } else {
      assert queue[..|queue| - 1][..k] == queue[..k];
      ProofsStopAt(c, profiles, queue[..|queue| - 1], k);
    }
  }
}
