/** Where bids go: none is lost unaccounted for, each contest's list is the bids appended while that
    contest was current, at most one of them after the contest was ended, and no address twice. */
module BidFlow {
  import opened Primitives
  import opened Auction
  import opened Announcements
  import WinnerSelection

  function Bids(ps: seq<Processed>): (bs: seq<BidRequest>)
    ensures |bs| == |ps| && forall i :: 0 <= i < |ps| ==> bs[i] == ps[i].bid
  {
    seq(|ps|, i requires 0 <= i < |ps| => ps[i].bid)
  }

  /** The bids whose outcome is `o`, in order. */
  function WithOutcome(ps: seq<Processed>, o: Outcome): seq<BidRequest> {
    if ps == [] then []
    else WithOutcome(ps[..|ps| - 1], o) + (if ps[|ps| - 1].outcome == o then [ps[|ps| - 1].bid] else [])
  }

  /** The bids appended while contest `id` was current: its list, past or present. */
  function ListOf(a: Auction, id: nat): seq<BidRequest> {
    WithOutcome(a.processed, Taken(id))
  }

  lemma WithOutcomeSnoc(ps: seq<Processed>, p: Processed, o: Outcome)
    ensures WithOutcome(ps + [p], o) == WithOutcome(ps, o) + (if p.outcome == o then [p.bid] else [])
  {
    assert (ps + [p])[..|ps|] == ps;
  }

  function InHand(pc: BidPc): seq<BidRequest> {
    if pc.AwaitBid? || pc.BidTaskGone? then [] else [pc.bid]
  }

  ghost predicate Distinct(bids: seq<BidRequest>) {
    forall i, j :: 0 <= i < j < |bids| ==> bids[i].proverAddress != bids[j].proverAddress
  }

  // ----- conservation ------------------------------------------------------------------------

  /** Every bid sent is, in order, finished with, in hand, queued, or lost to the early return. */
  ghost predicate FlowInv(a: Auction) {
    && a.sent == Bids(a.processed) + InHand(a.bidTask) + a.bidQueue + a.lost
    && (a.bidTask.BidTaskGone? ==> a.bidQueue == [])
    && (!a.bidTask.BidTaskGone? ==> a.lost == [])
  }

  lemma BidsSnoc(ps: seq<Processed>, p: Processed)
    ensures Bids(ps + [p]) == Bids(ps) + [p.bid]
  {
  }

  lemma FlowStep(a: Auction, step: Step)
    requires FlowInv(a) && Enabled(a, step)
    ensures FlowInv(Apply(a, step))
  {
    if step.BidReceive? {
      assert InHand(Apply(a, step).bidTask) + Apply(a, step).bidQueue == a.bidQueue;
    } else if step.BidOffer? || step.BidWrite? {
      FinishStep(a, step);
    } else if step.BidFetch? {
      FetchStep(a, step);
    } else if step.HandlerSubmit? {
      SubmitStep(a, step);
    } else {
      KeepsFlow(a, step);
    }
  }

  /** Nothing that bid conservation speaks of differs. */
  ghost predicate SameFlow(a: Auction, b: Auction) {
    && b.sent == a.sent && b.processed == a.processed && b.bidQueue == a.bidQueue && b.lost == a.lost
    && InHand(b.bidTask) == InHand(a.bidTask) && (b.bidTask.BidTaskGone? <==> a.bidTask.BidTaskGone?)
  }

  lemma KeepsFlow(a: Auction, step: Step)
    requires Enabled(a, step) && !step.HandlerSubmit? && (!BidStep(step) || step.BidCheckLive?)
    ensures SameFlow(a, Apply(a, step))
  {
    if LifeStep(step) {
      LifeKeepsFlow(a, step);
    } else if WatchStep(step) {
      WatchKeepsFlow(a, step);
    } else if ConsumeStep(step) {
      ConsumeKeepsFlow(a, step);
    }
  }

  lemma LifeKeepsFlow(a: Auction, step: Step)
    requires Enabled(a, step) && LifeStep(step)
    ensures SameFlow(a, Apply(a, step))
  {
  }

  lemma WatchKeepsFlow(a: Auction, step: Step)
    requires Enabled(a, step) && WatchStep(step)
    ensures SameFlow(a, Apply(a, step))
  {
  }

  lemma ConsumeKeepsFlow(a: Auction, step: Step)
    requires Enabled(a, step) && ConsumeStep(step)
    ensures SameFlow(a, Apply(a, step))
  {
  }

  lemma FinishStep(a: Auction, step: Step)
    requires FlowInv(a) && Enabled(a, step) && (step.BidOffer? || step.BidWrite?)
    ensures FlowInv(Apply(a, step))
  {
    var b := Apply(a, step);
    BidsSnoc(a.processed, b.processed[|a.processed|]);
    assert InHand(b.bidTask) == [] && InHand(a.bidTask) == [a.bidTask.bid];
    assert Bids(b.processed) == Bids(a.processed) + InHand(a.bidTask);
  }

  lemma FetchStep(a: Auction, step: Step)
    requires FlowInv(a) && Enabled(a, step) && step.BidFetch?
    ensures FlowInv(Apply(a, step))
  {
    var b := Apply(a, step);
    if step.found == None {
      assert b.lost == InHand(a.bidTask) + a.bidQueue;
      assert InHand(b.bidTask) == [];
    } else {
      assert InHand(b.bidTask) == InHand(a.bidTask);
    }
  }

  lemma SubmitStep(a: Auction, step: Step)
    requires FlowInv(a) && Enabled(a, step) && step.HandlerSubmit?
    ensures FlowInv(Apply(a, step))
  {
    var b := Apply(a, step);
    if !a.bidTask.BidTaskGone? {
      var bid := a.handlers[step.h].bid;
      assert a.lost == [];
      assert b.sent == a.sent + [bid] && b.bidQueue == a.bidQueue + [bid];
    }
  }

  /** The lists of contests 0 to n-1 together. */
  function Lists(ps: seq<Processed>, n: nat): multiset<BidRequest> {
    if n == 0 then multiset{} else Lists(ps, n - 1) + multiset(WithOutcome(ps, Taken(n - 1)))
  }

  lemma {:induction false} ListsKeep(ps: seq<Processed>, p: Processed, n: nat)
    requires p.outcome.Taken? ==> p.outcome.contestId >= n
    ensures Lists(ps + [p], n) == Lists(ps, n)
  {
    if n == 0 {
    } else {
      ListsKeep(ps, p, n - 1);
      WithOutcomeSnoc(ps, p, Taken(n - 1));
    }
  }

  lemma {:induction false} ListsGain(ps: seq<Processed>, p: Processed, n: nat)
    requires p.outcome.Taken? && p.outcome.contestId < n
    ensures Lists(ps + [p], n) == Lists(ps, n) + multiset{p.bid}
  {
    if p.outcome.contestId == n - 1 {
      LastListGains(ps, p, n);
    } else {
      ListsGain(ps, p, n - 1);
      WithOutcomeSnoc(ps, p, Taken(n - 1));
      var list := WithOutcome(ps, Taken(n - 1));
      assert WithOutcome(ps + [p], Taken(n - 1)) == list;
      AddToEither(Lists(ps, n - 1), multiset(list), multiset{p.bid});
    }
  }

  lemma {:induction false} LastListGains(ps: seq<Processed>, p: Processed, n: nat)
    requires p.outcome.Taken? && p.outcome.contestId + 1 == n
    ensures Lists(ps + [p], n) == Lists(ps, n) + multiset{p.bid}
  {
    var before, list := Lists(ps, n - 1), WithOutcome(ps, Taken(n - 1));
    LastListGrows(ps, p, n);
    AddLast(before, list, p.bid);
  }

  lemma {:induction false} LastListGrows(ps: seq<Processed>, p: Processed, n: nat)
    requires p.outcome.Taken? && p.outcome.contestId + 1 == n
    ensures Lists(ps + [p], n) == Lists(ps, n - 1) + multiset(WithOutcome(ps, Taken(n - 1)) + [p.bid])
  {
    var qs, o := ps + [p], p.outcome;
    ListsKeep(ps, p, n - 1);
    WithOutcomeSnoc(ps, p, o);
    LastList(qs, n, o);
  }

  lemma {:induction false} LastList(ps: seq<Processed>, n: nat, o: Outcome)
    requires n > 0 && o == Taken(n - 1)
    ensures Lists(ps, n) == Lists(ps, n - 1) + multiset(WithOutcome(ps, o))
  {
  }

  lemma AddLast(before: multiset<BidRequest>, list: seq<BidRequest>, bid: BidRequest)
    ensures before + multiset(list + [bid]) == (before + multiset(list)) + multiset{bid}
  {
    MultisetSnoc(list, bid);
    AddToEither(before, multiset(list), multiset{bid});
  }

  lemma AddToEither(x: multiset<BidRequest>, y: multiset<BidRequest>, m: multiset<BidRequest>)
    ensures (x + m) + y == (x + y) + m == x + (y + m)
  {
  }

  lemma MultisetSnoc(s: seq<BidRequest>, x: BidRequest)
    ensures multiset(s + [x]) == multiset(s) + multiset{x}
  {
  }

  lemma {:induction false} ListsOfNone(n: nat)
    ensures Lists([], n) == multiset{}
  {
    if n == 0 {
    } else {
      ListsOfNone(n - 1);
    }
  }

  /** The finished bids by destination: the contest lists, the duplicates and the refused ones. */
  function Destinations(ps: seq<Processed>, n: nat): multiset<BidRequest> {
    Lists(ps, n) + multiset(WithOutcome(ps, Duplicate)) + multiset(WithOutcome(ps, Refused))
  }

  lemma AddToOne(x: multiset<BidRequest>, y: multiset<BidRequest>, z: multiset<BidRequest>, m: multiset<BidRequest>)
    ensures (x + m) + y + z == (x + y + z) + m
    ensures x + (y + m) + z == (x + y + z) + m
    ensures x + y + (z + m) == (x + y + z) + m
  {
  }

  lemma {:induction false} DestinationsSnoc(ps: seq<Processed>, p: Processed, n: nat)
    requires p.outcome.Taken? ==> p.outcome.contestId < n
    ensures Destinations(ps + [p], n) == Destinations(ps, n) + multiset{p.bid}
  {
    var dup, refused := WithOutcome(ps, Duplicate), WithOutcome(ps, Refused);
    AddToOne(Lists(ps, n), multiset(dup), multiset(refused), multiset{p.bid});
    WithOutcomeSnoc(ps, p, Duplicate);
    WithOutcomeSnoc(ps, p, Refused);
    match p.outcome
    case Taken(_) =>
      ListsGain(ps, p, n);
      assert dup + [] == dup && refused + [] == refused;
    case Duplicate =>
      ListsKeep(ps, p, n);
      assert multiset(dup + [p.bid]) == multiset(dup) + multiset{p.bid};
      assert refused + [] == refused;
    case Refused =>
      ListsKeep(ps, p, n);
      assert multiset(refused + [p.bid]) == multiset(refused) + multiset{p.bid};
      assert dup + [] == dup;
  }

  /** Every finished bid is in exactly one of those places. */
  lemma {:induction false} ProcessedSplits(ps: seq<Processed>, n: nat)
    requires forall p :: p in ps && p.outcome.Taken? ==> p.outcome.contestId < n
    ensures multiset(Bids(ps)) == Destinations(ps, n)
  {
    if ps == [] {
      ListsOfNone(n);
    } else {
      var front, p := ps[..|ps| - 1], ps[|ps| - 1];
      assert ps == front + [p];
      assert p in ps;
      ProcessedSplits(front, n);
      DestinationsSnoc(front, p, n);
      assert Bids(ps) == Bids(front) + [p.bid];
    }
  }

  // ----- the contest lists -------------------------------------------------------------------

  ghost predicate ListInv(a: Auction) {
    && a.contest.bids == ListOf(a, a.contest.contestId)
    && (forall p :: p in a.processed && p.outcome.Taken? ==> p.outcome.contestId <= a.contest.contestId)
    && (forall id: nat :: Distinct(ListOf(a, id)))
  }

  lemma {:induction false} NoneTaken(ps: seq<Processed>, id: nat)
    requires forall p :: p in ps && p.outcome.Taken? ==> p.outcome.contestId < id
    ensures WithOutcome(ps, Taken(id)) == []
  {
    if ps == [] {
    } else {
      NoneTaken(ps[..|ps| - 1], id);
      assert ps[|ps| - 1] in ps;
    }
  }

  /** How one step changes the lists: only an accepted offer does, and only the current one. */
  lemma ListChange(a: Auction, step: Step, id: nat)
    requires Enabled(a, step)
    ensures ListOf(Apply(a, step), id) ==
            if step.BidOffer? && !HasBidder(a.contest.bids, a.bidTask.bid.proverAddress) && id == a.contest.contestId
            then ListOf(a, id) + [a.bidTask.bid] else ListOf(a, id)
  {
    if step.BidOffer? {
      WithOutcomeSnoc(a.processed, Processed(a.bidTask.bid, Duplicate), Taken(id));
      WithOutcomeSnoc(a.processed, Processed(a.bidTask.bid, Taken(a.contest.contestId)), Taken(id));
    } else if step.BidWrite? {
      WithOutcomeSnoc(a.processed, Processed(a.bidTask.bid, Refused), Taken(id));
    }
  }

  lemma TakenIdsStep(a: Auction, step: Step)
    requires PhaseInv(a) && ListInv(a) && Enabled(a, step)
    ensures forall p :: p in Apply(a, step).processed && p.outcome.Taken? ==>
                          p.outcome.contestId <= Apply(a, step).contest.contestId
  {
  }

  lemma ListStep(a: Auction, step: Step)
    requires PhaseInv(a) && ListInv(a) && Enabled(a, step)
    ensures ListInv(Apply(a, step))
  {
    TakenIdsStep(a, step);
    CurrentListStep(a, step);
    forall id: nat ensures Distinct(ListOf(Apply(a, step), id)) {
      DistinctStep(a, step, id);
    }
  }

  lemma CurrentListStep(a: Auction, step: Step)
    requires PhaseInv(a) && ListInv(a) && Enabled(a, step)
    ensures Apply(a, step).contest.bids == ListOf(Apply(a, step), Apply(a, step).contest.contestId)
  {
    if step.LifeStart? {
      FreshListIsEmpty(a, step);
    } else {
      ListChange(a, step, a.contest.contestId);
    }
  }

  lemma FreshListIsEmpty(a: Auction, step: Step)
    requires PhaseInv(a) && ListInv(a) && Enabled(a, step) && step.LifeStart?
    ensures Apply(a, step).contest.bids == [] == ListOf(Apply(a, step), Apply(a, step).contest.contestId)
  {
    ListChange(a, step, a.life.nextId);
    if a.contest.status == Ended {
      NoneTaken(a.processed, a.life.nextId);
    }
  }

  lemma DistinctStep(a: Auction, step: Step, id: nat)
    requires ListInv(a) && Enabled(a, step)
    ensures Distinct(ListOf(Apply(a, step), id))
  {
    ListChange(a, step, id);
    assert Distinct(ListOf(a, id));
  }

  // ----- late bids ---------------------------------------------------------------------------

  /** `t` is `s` with at most one bid more. */
  predicate AtMostOneMore(s: seq<BidRequest>, t: seq<BidRequest>) {
    s <= t && |t| <= |s| + 1
  }

  ghost predicate LateInv(a: Auction) {
    && (forall id :: 0 <= id < |a.closings| ==> AtMostOneMore(a.closings[id], ListOf(a, id)))
    && (a.contest.status == Ended && a.bidTask.Offering? ==>
          a.contest.contestId < |a.closings| && a.contest.bids == a.closings[a.contest.contestId])
  }

  lemma LateStep(a: Auction, step: Step)
    requires PhaseInv(a) && ListInv(a) && LateInv(a) && Enabled(a, step)
    ensures LateInv(Apply(a, step))
  {
    forall id | 0 <= id < |Apply(a, step).closings|
      ensures AtMostOneMore(Apply(a, step).closings[id], ListOf(Apply(a, step), id))
    {
      LateStepAt(a, step, id);
    }
    LateOffer(a, step);
  }

  lemma LateStepAt(a: Auction, step: Step, id: nat)
    requires PhaseInv(a) && ListInv(a) && LateInv(a) && Enabled(a, step) && id < |Apply(a, step).closings|
    ensures AtMostOneMore(Apply(a, step).closings[id], ListOf(Apply(a, step), id))
  {
    ClosingsGrow(a, step);
    if step.BidOffer? {
      LateAtOffer(a, step, id);
    } else if id < |a.closings| {
      assert AtMostOneMore(a.closings[id], ListOf(a, id));
      ListChange(a, step, id);
    } else {
      LateAtEnd(a, step, id);
    }
  }

  lemma LateAtEnd(a: Auction, step: Step, id: nat)
    requires PhaseInv(a) && ListInv(a) && Enabled(a, step) && step.LifeEnd? && id == |a.closings|
    ensures Apply(a, step).closings == a.closings + [a.contest.bids]
    ensures ListOf(Apply(a, step), id) == a.contest.bids
  {
    ListChange(a, step, id);
  }

  /** A bid can still be appended to an ended contest only if none was appended since its end. */
  lemma LateAtOffer(a: Auction, step: Step, id: nat)
    requires PhaseInv(a) && ListInv(a) && LateInv(a) && Enabled(a, step) && step.BidOffer? && id < |a.closings|
    ensures AtMostOneMore(a.closings[id], ListOf(Apply(a, step), id))
  {
    ListChange(a, step, id);
    assert AtMostOneMore(a.closings[id], ListOf(a, id));
    if id == a.contest.contestId {
      assert ListOf(a, id) == a.closings[id];
    }
  }

  lemma ClosingsGrow(a: Auction, step: Step)
    requires Enabled(a, step)
    ensures Apply(a, step).closings == a.closings + (if step.LifeEnd? then [a.contest.bids] else [])
  {
  }

  lemma LateOffer(a: Auction, step: Step)
    requires PhaseInv(a) && LateInv(a) && Enabled(a, step)
    ensures var b := Apply(a, step);
            b.contest.status == Ended && b.bidTask.Offering? ==>
              b.contest.contestId < |b.closings| && b.contest.bids == b.closings[b.contest.contestId]
  {
    if step.LifeEnd? {
      ClosingsGrow(a, step);
    } else if LifeStep(step) {
      LateLife(a, step);
    } else if !BidStep(step) {
      LateOther(a, step);
    }
  }

  lemma LateLife(a: Auction, step: Step)
    requires Enabled(a, step) && LifeStep(step) && !step.LifeEnd?
    ensures var b := Apply(a, step);
            b.bidTask == a.bidTask && b.closings == a.closings && (b.contest == a.contest || b.contest.status == Live)
  {
  }

  lemma LateOther(a: Auction, step: Step)
    requires Enabled(a, step) && !LifeStep(step) && !BidStep(step)
    ensures var b := Apply(a, step);
            b.bidTask == a.bidTask && b.closings == a.closings && b.contest == a.contest
  {
  }

  // ----- snapshots ---------------------------------------------------------------------------

  /** A snapshot taken of an ended contest lies between the list at its end and its final list. */
  ghost predicate Faithful(a: Auction, c: Contest) {
    && c.status == Ended
    && c.contestId < |a.closings|
    && a.closings[c.contestId] <= c.bids <= ListOf(a, c.contestId)
  }

  /** All snapshots anywhere: in the pipeline, in the log, in the lifecycle's hands. */
  function Snapshots(a: Auction): seq<Contest> {
    Pipeline(a) + a.log + (if a.life.Storing? then [a.life.snapshot] else [])
  }

  ghost predicate SnapshotInv(a: Auction) {
    forall c :: c in Snapshots(a) ==> Faithful(a, c)
  }

  /** A snapshot in the pipeline was there before, up to its winner, or was just taken by the watcher. */
  lemma PipelineOrigin(a: Auction, step: Step, c: Contest) returns (d: Contest)
    requires Enabled(a, step) && c in Pipeline(Apply(a, step))
    ensures d in Pipeline(a) || (step.WatchPoll? && d == a.contest && d.status == Ended)
    ensures c == d.(winner := c.winner)
  {
    PipelineChange(a, step);
    var b := Apply(a, step);
    d := c;
    if step.ConsumePick? && c in Held(b) {
      d := a.consumer.contest;
    }
  }

  lemma LogOrigin(a: Auction, step: Step)
    requires Enabled(a, step)
    ensures forall c :: c in Apply(a, step).log ==> c in Snapshots(a)
  {
    if step.ConsumeStore? {
      assert a.consumer.contest in Held(a);
    }
  }

  lemma SnapshotStep(a: Auction, step: Step)
    requires PhaseInv(a) && ListInv(a) && LateInv(a) && SnapshotInv(a) && Enabled(a, step)
    ensures SnapshotInv(Apply(a, step))
  {
    var b := Apply(a, step);
    forall c | c in Snapshots(b) ensures Faithful(b, c) {
      if c in Pipeline(b) {
        var d := PipelineOrigin(a, step, c);
        assert d in Pipeline(a) ==> d in Snapshots(a);
        FaithfulStep(a, step, d, c);
      } else {
        OtherOrigin(a, step, c);
        FaithfulStep(a, step, c, c);
      }
    }
  }

  /** A snapshot in the log or in the lifecycle's hands was somewhere before, or was just taken of an
      ended contest. */
  lemma OtherOrigin(a: Auction, step: Step, c: Contest)
    requires PhaseInv(a) && Enabled(a, step)
    requires c in Snapshots(Apply(a, step)) && c !in Pipeline(Apply(a, step))
    ensures c in Snapshots(a) || (c == a.contest && c.status == Ended)
  {
    LogOrigin(a, step);
    var b := Apply(a, step);
    if c !in b.log {
      assert b.life.Storing? && c == b.life.snapshot;
      HandOrigin(a, step);
    }
  }

  lemma HandOrigin(a: Auction, step: Step)
    requires PhaseInv(a) && Enabled(a, step) && Apply(a, step).life.Storing?
    ensures var c := Apply(a, step).life.snapshot;
            (a.life.Storing? && c == a.life.snapshot) || (c == a.contest && c.status == Ended)
  {
  }

  /** What an old snapshot was faithful to does not change; the ended current contest is faithful. */
  lemma FaithfulStep(a: Auction, step: Step, d: Contest, c: Contest)
    requires PhaseInv(a) && ListInv(a) && LateInv(a) && Enabled(a, step)
    requires Faithful(a, d) || (d == a.contest && d.status == Ended)
    requires c == d.(winner := c.winner)
    ensures Faithful(Apply(a, step), c)
  {
    if d == a.contest {
      assert AtMostOneMore(a.closings[d.contestId], ListOf(a, d.contestId));
    }
    assert Faithful(a, d);
    ListChange(a, step, c.contestId);
  }

  // ----- over runs ---------------------------------------------------------------------------

  ghost predicate BidInv(a: Auction) {
    SafeInv(a) && FlowInv(a) && ListInv(a) && LateInv(a) && SnapshotInv(a)
  }

  lemma BidInvStep(a: Auction, step: Step)
    requires BidInv(a) && Enabled(a, step)
    ensures BidInv(Apply(a, step))
  {
    SafeStep(a, step);
    FlowStep(a, step);
    ListStep(a, step);
    LateStep(a, step);
    SnapshotStep(a, step);
  }

  lemma BidInvStart()
    ensures BidInv(START)
  {
    SafeStart();
    ListStart();
    FlowStart();
    assert Snapshots(START) == [];
  }

  lemma ListStart()
    ensures ListInv(START) && LateInv(START)
  {
    assert forall id: nat :: ListOf(START, id) == [];
  }

  lemma FlowStart()
    ensures FlowInv(START)
  {
  }

  lemma {:induction false} RunKeepsBids(trace: seq<Auction>, steps: seq<Step>, n: nat)
    requires Run(trace, steps) && n <= |steps|
    ensures BidInv(trace[n])
  {
    if n == 0 {
      BidInvStart();
    } else {
      RunKeepsBids(trace, steps, n - 1);
      BidInvStep(trace[n - 1], steps[n - 1]);
      assert trace[n - 1 + 1] == Apply(trace[n - 1], steps[n - 1]);
    }
  }

  /** Conservation: the bids sent are those queued, in hand, in a contest's list, dropped as
      duplicates, written to a profile as rejected, or lost when the bid task returned. */
  lemma BidsConserved(trace: seq<Auction>, steps: seq<Step>, n: nat)
    requires Run(trace, steps) && n <= |steps|
    ensures var a := trace[n];
            multiset(a.sent) ==
            Lists(a.processed, a.contest.contestId + 1)
            + multiset(WithOutcome(a.processed, Duplicate)) + multiset(WithOutcome(a.processed, Refused))
            + multiset(InHand(a.bidTask)) + multiset(a.bidQueue) + multiset(a.lost)
    ensures trace[n].sent ==
            Bids(trace[n].processed) + InHand(trace[n].bidTask) + trace[n].bidQueue + trace[n].lost
    ensures trace[n].lost != [] ==> trace[n].bidTask.BidTaskGone?
  {
    RunKeepsBids(trace, steps, n);
    SentSplits(trace[n]);
  }

  lemma SentSplits(a: Auction)
    requires FlowInv(a) && ListInv(a)
    ensures multiset(a.sent) ==
            Destinations(a.processed, a.contest.contestId + 1)
            + multiset(InHand(a.bidTask)) + multiset(a.bidQueue) + multiset(a.lost)
  {
    ProcessedSplits(a.processed, a.contest.contestId + 1);
    FourParts(Bids(a.processed), InHand(a.bidTask), a.bidQueue, a.lost);
  }

  lemma FourParts(s: seq<BidRequest>, t: seq<BidRequest>, u: seq<BidRequest>, v: seq<BidRequest>)
    ensures multiset(s + t + u + v) == multiset(s) + multiset(t) + multiset(u) + multiset(v)
  {
  }

  /** At most one bid gets into a contest after it was ended, and it goes at the end of the list. */
  lemma AtMostOneLateBid(trace: seq<Auction>, steps: seq<Step>, n: nat)
    requires Run(trace, steps) && n <= |steps|
    ensures var a := trace[n];
            a.contest.status == Ended ==>
              |a.closings| == a.contest.contestId + 1 &&
              AtMostOneMore(a.closings[a.contest.contestId], a.contest.bids)
    ensures forall id :: 0 <= id < |trace[n].closings| ==>
                           AtMostOneMore(trace[n].closings[id], ListOf(trace[n], id))
  {
    RunKeepsBids(trace, steps, n);
  }

  /** Two snapshots of one contest, wherever they are, are both ended, one list is a prefix of the
      other, and they differ by at most one bid. */
  lemma SnapshotsAgree(trace: seq<Auction>, steps: seq<Step>, n: nat, c: Contest, d: Contest)
    requires Run(trace, steps) && n <= |steps|
    requires c in Snapshots(trace[n]) && d in Snapshots(trace[n]) && c.contestId == d.contestId
    ensures c.status == d.status == Ended
    ensures AtMostOneMore(c.bids, d.bids) || AtMostOneMore(d.bids, c.bids)
  {
    RunKeepsBids(trace, steps, n);
    var a := trace[n];
    assert Faithful(a, c) && Faithful(a, d);
    var final := ListOf(a, c.contestId);
    assert AtMostOneMore(a.closings[c.contestId], final);
    assert c.bids == final[..|c.bids|] && d.bids == final[..|d.bids|];
  }

  /** No contest, current, in flight or stored, holds two bids from one address. */
  lemma DistinctBidders(trace: seq<Auction>, steps: seq<Step>, n: nat)
    requires Run(trace, steps) && n <= |steps|
    ensures Distinct(trace[n].contest.bids)
    ensures forall c :: c in Snapshots(trace[n]) ==> Distinct(c.bids)
  {
    RunKeepsBids(trace, steps, n);
    var a := trace[n];
    forall c | c in Snapshots(a) ensures Distinct(c.bids) {
      assert Faithful(a, c);
      var final := ListOf(a, c.contestId);
      assert Distinct(final);
      assert c.bids == final[..|c.bids|];
    }
  }
}
