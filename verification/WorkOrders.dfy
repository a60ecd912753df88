/** What comes out of the pipeline: the contest log, the winners forwarded, and the work orders
    answered to `submit_bid` callers. */
module WorkOrders {
  import opened Primitives
  import opened Auction
  import opened Announcements
  import opened BidFlow
  import opened Powers
  import opened WinnerSelection

  // ----- the contest log ---------------------------------------------------------------------

  /** The log entries stored by the completion task, which have a winner. */
  function Winners(log: seq<Contest>): seq<Contest> {
    if log == [] then []
    else Winners(log[..|log| - 1]) + (if log[|log| - 1].winner.Some? then [log[|log| - 1]] else [])
  }

  /** The log entries stored by the lifecycle task, which have none. */
  function Plain(log: seq<Contest>): seq<Contest> {
    if log == [] then []
    else Plain(log[..|log| - 1]) + (if log[|log| - 1].winner.None? then [log[|log| - 1]] else [])
  }

  lemma LogSnoc(log: seq<Contest>, c: Contest)
    ensures Winners(log + [c]) == if c.winner.Some? then Winners(log) + [c] else Winners(log)
    ensures Plain(log + [c]) == if c.winner.None? then Plain(log) + [c] else Plain(log)
  {
    assert (log + [c])[..|log|] == log;
  }

  /** `c`'s winner is a bid of `c` that the selection picks for some draws. */
  ghost predicate Chosen(c: Contest) {
    && c.winner.Some?
    && c.winner.value in c.bids
    && exists r: nat, second: nat ::
         r < |c.bids| && second < |c.bids| && Select(c.bids, r, second) == Won(c.winner.value)
  }

  /** How many contests the lifecycle task has stored. */
  function StoredCount(a: Auction): nat {
    match a.contest.status
    case NotStarted => 0
    case Live => a.contest.contestId
    case Ended => a.contest.contestId + (if a.life.ReadingId? || a.life.Starting? then 1 else 0)
  }

  ghost predicate LogInv(a: Auction) {
    Winners(a.log) == Forwarded(a) && PlainInv(a)
  }

  ghost predicate PlainInv(a: Auction) {
    && |Plain(a.log)| == StoredCount(a)
    && (forall i :: 0 <= i < |Plain(a.log)| ==> Plain(a.log)[i].contestId == i)
    && (a.life.Storing? ==>
          a.life.snapshot.winner.None? && a.life.snapshot.contestId == a.contest.contestId &&
          a.contest.status == Ended)
    && (a.life.Snapshotting? || a.life.ReadingId? ==> a.contest.status == Ended)
  }

  ghost predicate ChosenInv(a: Auction) {
    && (forall c :: c in Forwarded(a) ==> Chosen(c))
    && (a.consumer.StoringWinner? ==> Chosen(a.consumer.contest))
  }

  lemma LogStep(a: Auction, step: Step)
    requires PhaseInv(a) && LogInv(a) && ChosenInv(a) && Enabled(a, step)
    ensures LogInv(Apply(a, step))
  {
    ForwardedChange(a, step);
    if LifeStep(step) {
      LifeLogStep(a, step);
    } else if step.ConsumeStore? {
      KeepsPhase(a, step);
      LogSnoc(a.log, a.consumer.contest);
    } else {
      KeepsPhase(a, step);
      KeepsLog(a, step);
    }
  }

  lemma KeepsLog(a: Auction, step: Step)
    requires Enabled(a, step) && !LifeStep(step) && !step.ConsumeStore?
    ensures Apply(a, step).log == a.log
  {
  }

  lemma LifeLogStep(a: Auction, step: Step)
    requires PhaseInv(a) && PlainInv(a) && Enabled(a, step) && LifeStep(step)
    ensures Winners(Apply(a, step).log) == Winners(a.log) && PlainInv(Apply(a, step))
  {
    if step.LifeStore? {
      LogSnoc(a.log, a.life.snapshot);
    } else {
      assert Apply(a, step).log == a.log;
    }
  }

  /** Storing a winner is the only step that adds to what is forwarded; nothing takes away from it. */
  lemma ForwardedChange(a: Auction, step: Step)
    requires Enabled(a, step)
    ensures Forwarded(Apply(a, step)) ==
            Forwarded(a) + (if step.ConsumeStore? then [a.consumer.contest] else [])
  {
    if step.HandlerReceive? {
      ReceiveChange(a, step);
    }
  }

  lemma ChosenStep(a: Auction, step: Step)
    requires ChosenInv(a) && Enabled(a, step)
    ensures ChosenInv(Apply(a, step))
  {
    ForwardedChange(a, step);
    if step.ConsumePick? {
      PickedIsChosen(a, step);
    } else {
      NothingPicked(a, step);
    }
  }

  lemma PickedIsChosen(a: Auction, step: Step)
    requires Enabled(a, step) && step.ConsumePick?
    ensures Apply(a, step).consumer.StoringWinner? ==> Chosen(Apply(a, step).consumer.contest)
  {
    if Apply(a, step).consumer.StoringWinner? {
      var c := Apply(a, step).consumer.contest;
      assert Select(c.bids, step.r, step.second) == Won(c.winner.value);
    }
  }

  lemma NothingPicked(a: Auction, step: Step)
    requires Enabled(a, step) && !step.ConsumePick?
    ensures Apply(a, step).consumer.StoringWinner? ==> Apply(a, step).consumer == a.consumer
  {
  }

  // ----- work orders -------------------------------------------------------------------------

  ghost predicate Backed(a: Auction, h: nat, bid: BidRequest, id: nat) {
    exists i :: 0 <= i < |a.delivered| && a.delivered[i].handler == h && a.delivered[i].bid == bid &&
                WorkOrder(a.delivered[i].contest, bid) == Some(id)
  }

  ghost predicate OrderInv(a: Auction) {
    forall h :: h in a.handlers ==>
      && (a.handlers[h].AwaitResult? || a.handlers[h].Answered? ==> a.handlers[h].bid in a.sent)
      && (a.handlers[h].Answered? && a.handlers[h].workOrder.Some? ==>
            Backed(a, h, a.handlers[h].bid, a.handlers[h].workOrder.value))
  }

  lemma OrderStep(a: Auction, step: Step)
    requires OrderInv(a) && Enabled(a, step)
    ensures OrderInv(Apply(a, step))
  {
    var b := Apply(a, step);
    forall h | h in b.handlers
      ensures b.handlers[h].AwaitResult? || b.handlers[h].Answered? ==> b.handlers[h].bid in b.sent
      ensures b.handlers[h].Answered? && b.handlers[h].workOrder.Some? ==>
                Backed(b, h, b.handlers[h].bid, b.handlers[h].workOrder.value)
    {
      if h in a.handlers && b.handlers[h] == a.handlers[h] {
        if a.handlers[h].Answered? && a.handlers[h].workOrder.Some? {
          OldOrderStep(a, step, h);
        }
      } else if step.HandlerReceive? && a.contestQueue != [] {
        assert b.delivered[|a.delivered|] == Delivery(h, b.handlers[h].bid, a.contestQueue[0]);
      }
    }
  }

  lemma OldOrderStep(a: Auction, step: Step, h: nat)
    requires OrderInv(a) && Enabled(a, step) && h in a.handlers
    requires a.handlers[h].Answered? && a.handlers[h].workOrder.Some?
    ensures Backed(Apply(a, step), h, a.handlers[h].bid, a.handlers[h].workOrder.value)
  {
    var b := Apply(a, step);
    var i :| 0 <= i < |a.delivered| && a.delivered[i].handler == h && a.delivered[i].bid == a.handlers[h].bid &&
             WorkOrder(a.delivered[i].contest, a.handlers[h].bid) == Some(a.handlers[h].workOrder.value);
    assert b.delivered[i] == a.delivered[i];
  }

  /** Every contest received by a handler was answered by that handler. */
  ghost predicate DeliveredInv(a: Auction) {
    forall i :: 0 <= i < |a.delivered| ==> AnsweredBy(a, a.delivered[i])
  }

  predicate AnsweredBy(a: Auction, d: Delivery) {
    d.handler in a.handlers && a.handlers[d.handler] == Answered(d.bid, WorkOrder(d.contest, d.bid))
  }

  lemma AnswersStay(a: Auction, step: Step, h: nat)
    requires Enabled(a, step) && h in a.handlers && a.handlers[h].Answered?
    ensures h in Apply(a, step).handlers && Apply(a, step).handlers[h] == a.handlers[h]
  {
  }

  lemma DeliveredStep(a: Auction, step: Step)
    requires DeliveredInv(a) && Enabled(a, step)
    ensures DeliveredInv(Apply(a, step))
  {
    var b := Apply(a, step);
    forall i | 0 <= i < |b.delivered| ensures AnsweredBy(b, b.delivered[i]) {
      if i < |a.delivered| {
        assert b.delivered[i] == a.delivered[i] && AnsweredBy(a, a.delivered[i]);
        AnswersStay(a, step, a.delivered[i].handler);
      }
    }
  }

  // ----- nothing announced is lost ------------------------------------------------------------

  ghost predicate InPipeline(a: Auction, id: nat) {
    exists i :: 0 <= i < |Pipeline(a)| && Pipeline(a)[i].contestId == id
  }

  /** While the consumer lives, an announced contest is on its way, or has been forwarded, or had no
      bid when it ended. */
  ghost predicate AccountedInv(a: Auction) {
    !a.consumer.ConsumerGone? ==>
      forall id :: id in a.announced ==> InPipeline(a, id) || (id < |a.closings| && a.closings[id] == [])
  }

  lemma ClosingsStay(a: Auction, step: Step)
    requires Enabled(a, step)
    ensures a.closings <= Apply(a, step).closings
  {
  }

  lemma StillInPipeline(a: Auction, step: Step, id: nat)
    requires Enabled(a, step) && InPipeline(a, id) && !Apply(a, step).consumer.ConsumerGone?
    requires SnapshotInv(a)
    ensures InPipeline(Apply(a, step), id) || (id < |a.closings| && a.closings[id] == [])
  {
    var b := Apply(a, step);
    var i :| 0 <= i < |Pipeline(a)| && Pipeline(a)[i].contestId == id;
    PipelineChange(a, step);
    if step.ConsumePick? {
      SurvivesPick(a, step, i);
    } else {
      assert Pipeline(b)[i] == Pipeline(a)[i];
    }
  }

  /** A pick that does not panic replaces the contest by itself with a winner, or drops it for having
      no bids. */
  lemma PickedPipeline(a: Auction, step: Step)
    requires Enabled(a, step) && step.ConsumePick? && !Apply(a, step).consumer.ConsumerGone?
    ensures Pipeline(a) == Forwarded(a) + [a.consumer.contest] + Incoming(a)
    ensures var b := Apply(a, step);
            if b.consumer.StoringWinner?
            then b.consumer.contest.contestId == a.consumer.contest.contestId &&
                 Pipeline(b) == Forwarded(a) + [b.consumer.contest] + Incoming(a)
            else a.consumer.contest.bids == [] && Pipeline(b) == Forwarded(a) + Incoming(a)
  {
    ConsumeChange(a, step);
    NoBidsExactly(a.consumer.contest.bids, step.r, step.second);
    assert Held(a) == [a.consumer.contest];
  }

  lemma SurvivesPick(a: Auction, step: Step, i: nat)
    requires Enabled(a, step) && step.ConsumePick? && !Apply(a, step).consumer.ConsumerGone?
    requires i < |Pipeline(a)| && SnapshotInv(a)
    ensures var id := Pipeline(a)[i].contestId;
            InPipeline(Apply(a, step), id) || (id < |a.closings| && a.closings[id] == [])
  {
    var p, q, n := Pipeline(a), Pipeline(Apply(a, step)), |Forwarded(a)|;
    PickedPipeline(a, step);
    if |q| == |p| {
      assert q[i].contestId == p[i].contestId;
    } else if i == n {
      assert p[i] in Snapshots(a);
      assert Faithful(a, p[i]);
    } else {
      assert q[if i < n then i else i - 1] == p[i];
    }
  }

  lemma AccountedStep(a: Auction, step: Step)
    requires BidInv(a) && AccountedInv(a) && Enabled(a, step)
    ensures AccountedInv(Apply(a, step))
  {
    var b := Apply(a, step);
    if !b.consumer.ConsumerGone? {
      forall id | id in b.announced
        ensures InPipeline(b, id) || (id < |b.closings| && b.closings[id] == [])
      {
        if id in a.announced {
          StillAccounted(a, step, id);
        } else {
          JustAnnounced(a, step);
        }
      }
    }
  }

  lemma StillAccounted(a: Auction, step: Step, id: nat)
    requires BidInv(a) && AccountedInv(a) && Enabled(a, step) && id in a.announced
    requires !Apply(a, step).consumer.ConsumerGone?
    ensures var b := Apply(a, step);
            InPipeline(b, id) || (id < |b.closings| && b.closings[id] == [])
  {
    ClosingsStay(a, step);
    if InPipeline(a, id) {
      StillInPipeline(a, step, id);
    }
  }

  lemma JustAnnounced(a: Auction, step: Step)
    requires Enabled(a, step) && Apply(a, step).announced != a.announced
    ensures Apply(a, step).announced == a.announced + [a.watcher.snapshot.contestId]
    ensures InPipeline(Apply(a, step), a.watcher.snapshot.contestId)
  {
    var b := Apply(a, step);
    assert Pipeline(b)[|Pipeline(b)| - 1] == a.watcher.snapshot;
  }

  // ----- over runs ---------------------------------------------------------------------------

  ghost predicate OutputInv(a: Auction) {
    BidInv(a) && LogInv(a) && ChosenInv(a) && OrderInv(a) && DeliveredInv(a) && AccountedInv(a)
  }

  lemma OutputStart()
    ensures OutputInv(START)
  {
    BidInvStart();
    assert Forwarded(START) == [];
  }

  lemma OutputStep(a: Auction, step: Step)
    requires OutputInv(a) && Enabled(a, step)
    ensures OutputInv(Apply(a, step))
  {
    BidInvStep(a, step);
    LogStep(a, step);
    ChosenStep(a, step);
    OrderStep(a, step);
    DeliveredStep(a, step);
    AccountedStep(a, step);
  }

  lemma {:induction false} RunKeepsOutput(trace: seq<Auction>, steps: seq<Step>, n: nat)
    requires Run(trace, steps) && n <= |steps|
    ensures OutputInv(trace[n])
  {
    if n == 0 {
      OutputStart();
    } else {
      RunKeepsOutput(trace, steps, n - 1);
      OutputStep(trace[n - 1], steps[n - 1]);
      assert trace[n - 1 + 1] == Apply(trace[n - 1], steps[n - 1]);
    }
  }

  /** Two different callers never get a work order for the same contest. */
  lemma OneWorkOrderPerContest(trace: seq<Auction>, steps: seq<Step>, n: nat, g: nat, h: nat)
    requires Run(trace, steps) && n <= |steps|
    requires g != h && g in trace[n].handlers && h in trace[n].handlers
    requires trace[n].handlers[g].Answered? && trace[n].handlers[g].workOrder.Some?
    requires trace[n].handlers[h].Answered? && trace[n].handlers[h].workOrder.Some?
    ensures trace[n].handlers[g].workOrder != trace[n].handlers[h].workOrder
  {
    RunKeepsOutput(trace, steps, n);
    var a := trace[n];
    var ds := a.delivered;
    var i :| 0 <= i < |ds| && ds[i].handler == g && ds[i].bid == a.handlers[g].bid &&
             WorkOrder(ds[i].contest, ds[i].bid) == a.handlers[g].workOrder;
    var j :| 0 <= j < |ds| && ds[j].handler == h && ds[j].bid == a.handlers[h].bid &&
             WorkOrder(ds[j].contest, ds[j].bid) == a.handlers[h].workOrder;
    assert i != j;
    assert Pipeline(a)[i] == ds[i].contest && Pipeline(a)[j] == ds[j].contest;
    var lo, hi := if i < j then i else j, if i < j then j else i;
    assert Pipeline(a)[lo].contestId < Pipeline(a)[hi].contestId;
  }

  /** `c` is a stored contest whose winner has `address`, was picked by the selection from that
      contest's snapshot, was appended while that contest was current, and had been sent. */
  ghost predicate Sources(a: Auction, c: Contest, address: string) {
    && c in Winners(a.log) && Chosen(c)
    && c.winner.value.proverAddress == address
    && c.winner.value in ListOf(a, c.contestId)
    && c.winner.value in a.sent
  }

  /** Every work order comes from such a contest, and its caller had sent a bid. */
  lemma WorkOrderProvenance(trace: seq<Auction>, steps: seq<Step>, n: nat, h: nat)
    requires Run(trace, steps) && n <= |steps|
    requires h in trace[n].handlers && trace[n].handlers[h].Answered?
    requires trace[n].handlers[h].workOrder.Some?
    ensures exists c: Contest :: Some(c.contestId) == trace[n].handlers[h].workOrder &&
                        Sources(trace[n], c, trace[n].handlers[h].bid.proverAddress)
    ensures trace[n].handlers[h].bid in trace[n].sent
  {
    RunKeepsOutput(trace, steps, n);
    var a := trace[n];
    assert Backed(a, h, a.handlers[h].bid, a.handlers[h].workOrder.value);
    var i :| 0 <= i < |a.delivered| && a.delivered[i].handler == h && a.delivered[i].bid == a.handlers[h].bid &&
             WorkOrder(a.delivered[i].contest, a.handlers[h].bid) == a.handlers[h].workOrder;
    assert Forwarded(a)[i] == a.delivered[i].contest;
    ForwardedSources(a, a.delivered[i].contest);
  }

  lemma ForwardedSources(a: Auction, c: Contest)
    requires OutputInv(a) && c in Forwarded(a)
    ensures c.winner.Some? && Sources(a, c, c.winner.value.proverAddress)
  {
    assert c in Snapshots(a);
    assert Faithful(a, c);
    var w, final := c.winner.value, ListOf(a, c.contestId);
    var k :| 0 <= k < |c.bids| && c.bids[k] == w;
    assert final[k] == w;
    ListedWasSent(a.processed, Taken(c.contestId), w);
    assert w in Bids(a.processed);
  }

  lemma {:induction false} ListedWasSent(ps: seq<Processed>, o: Outcome, bid: BidRequest)
    requires bid in WithOutcome(ps, o)
    ensures bid in Bids(ps)
  {
    var front := ps[..|ps| - 1];
    assert Bids(ps) == Bids(front) + [ps[|ps| - 1].bid];
    if bid in WithOutcome(front, o) {
      ListedWasSent(front, o, bid);
    }
  }

  ghost predicate OrderIssued(a: Auction, id: nat) {
    exists h :: h in a.handlers && a.handlers[h].Answered? && a.handlers[h].workOrder == Some(id)
  }

  /** A forwarded contest that a handler received leads to a work order if and only if that handler is
      the winner's: any waiting handler may take the message, and then nobody else sees it. */
  lemma WorkOrderExactly(trace: seq<Auction>, steps: seq<Step>, n: nat, i: nat)
    requires Run(trace, steps) && n <= |steps| && i < |trace[n].delivered|
    ensures var d := trace[n].delivered[i];
            && d.contest.winner.Some?
            && (OrderIssued(trace[n], d.contest.contestId) <==>
                d.bid.proverAddress == d.contest.winner.value.proverAddress)
  {
    RunKeepsOutput(trace, steps, n);
    var a, d := trace[n], trace[n].delivered[i];
    assert AnsweredBy(a, d);
    assert Forwarded(a)[i] == d.contest;
    if OrderIssued(a, d.contest.contestId) {
      var h :| h in a.handlers && a.handlers[h].Answered? && a.handlers[h].workOrder == Some(d.contest.contestId);
      assert Backed(a, h, a.handlers[h].bid, d.contest.contestId);
      SameDelivery(a, h, i);
    }
  }

  lemma SameDelivery(a: Auction, h: nat, i: nat)
    requires PipelineInv(a) && i < |a.delivered| && h in a.handlers
    requires Backed(a, h, a.handlers[h].bid, a.delivered[i].contest.contestId)
    ensures WorkOrder(a.delivered[i].contest, a.delivered[i].bid) == Some(a.delivered[i].contest.contestId)
  {
    var ds := a.delivered;
    var j :| 0 <= j < |ds| && ds[j].handler == h && ds[j].bid == a.handlers[h].bid &&
             WorkOrder(ds[j].contest, ds[j].bid) == Some(ds[i].contest.contestId);
    assert Pipeline(a)[i] == ds[i].contest && Pipeline(a)[j] == ds[j].contest;
    assert ds[j].contest.contestId == ds[i].contest.contestId;
  }

  /** Every stored winner is forwarded exactly once and in order: what the handlers received, what is
      queued for them and what is about to be queued are the log's winner entries. */
  lemma WinnersAreForwarded(trace: seq<Auction>, steps: seq<Step>, n: nat)
    requires Run(trace, steps) && n <= |steps|
    ensures var a := trace[n];
            Winners(a.log) ==
            Contests(a.delivered) + a.contestQueue + (if a.consumer.Forwarding? then [a.consumer.contest] else [])
  {
    RunKeepsOutput(trace, steps, n);
  }

  /** While the consumer lives, every announced contest that ended with a bid is on its way to the
      handlers or has been forwarded to them with a winner. */
  lemma AnnouncedIsNotLost(trace: seq<Auction>, steps: seq<Step>, n: nat, id: nat)
    requires Run(trace, steps) && n <= |steps| && !trace[n].consumer.ConsumerGone?
    requires id in trace[n].announced
    ensures id < |trace[n].closings| && (trace[n].closings[id] != [] ==> InPipeline(trace[n], id))
  {
    RunKeepsOutput(trace, steps, n);
    var a := trace[n];
    if InPipeline(a, id) {
      var i :| 0 <= i < |Pipeline(a)| && Pipeline(a)[i].contestId == id;
      assert Pipeline(a)[i] in Snapshots(a);
      assert Faithful(a, Pipeline(a)[i]);
    }
  }

  function Entries(log: seq<Contest>, id: nat): nat {
    if log == [] then 0 else Entries(log[..|log| - 1], id) + (if log[|log| - 1].contestId == id then 1 else 0)
  }

  lemma {:induction false} EntriesSplit(log: seq<Contest>, id: nat)
    ensures |log| == |Plain(log)| + |Winners(log)|
    ensures Entries(log, id) == Entries(Plain(log), id) + Entries(Winners(log), id)
  {
    if log == [] {
    } else {
      var front, c := log[..|log| - 1], log[|log| - 1];
      EntriesSplit(front, id);
      assert (Plain(front) + [c])[..|Plain(front)|] == Plain(front);
      assert (Winners(front) + [c])[..|Winners(front)|] == Winners(front);
      assert Plain(front) + [] == Plain(front) && Winners(front) + [] == Winners(front);
    }
  }

  lemma {:induction false} IncreasingEntries(cs: seq<Contest>, id: nat)
    requires Increasing(cs)
    ensures Entries(cs, id) <= 1
    ensures (forall c :: c in cs ==> c.contestId < id) ==> Entries(cs, id) == 0
  {
    if cs == [] {
    } else {
      var front, c := cs[..|cs| - 1], cs[|cs| - 1];
      IncreasingEntries(front, id);
      assert c in cs;
      assert forall x :: x in front ==> x in cs && x.contestId < c.contestId;
    }
  }

  lemma {:induction false} IncreasingLength(cs: seq<Contest>, bound: nat)
    requires Increasing(cs) && forall c :: c in cs ==> c.contestId < bound
    ensures |cs| <= bound
  {
    if cs == [] {
    } else {
      var c := cs[|cs| - 1];
      assert c in cs;
      IncreasingLength(cs[..|cs| - 1], c.contestId);
    }
  }

  lemma WinnersIncrease(a: Auction)
    requires OutputInv(a)
    ensures Increasing(Winners(a.log)) && |Winners(a.log)| <= a.contest.contestId + 1
    ensures forall c :: c in Winners(a.log) ==> c.contestId <= a.contest.contestId && Chosen(c)
  {
    var winners := Winners(a.log);
    assert forall i :: 0 <= i < |winners| ==> winners[i] == Pipeline(a)[i];
    assert forall c :: c in winners ==> c in Pipeline(a);
    IncreasingLength(winners, a.contest.contestId + 1);
  }

  lemma PlainIncrease(a: Auction)
    requires PlainInv(a)
    ensures Increasing(Plain(a.log)) && |Plain(a.log)| <= a.contest.contestId + 1
  {
  }

  ghost predicate WellShaped(a: Auction) {
    && (forall i :: 0 <= i < |Plain(a.log)| ==> Plain(a.log)[i].contestId == i)
    && |Plain(a.log)| == StoredCount(a) <= a.contest.contestId + 1
    && Increasing(Winners(a.log))
    && (forall c :: c in Winners(a.log) ==> c.contestId <= a.contest.contestId && Chosen(c))
    && |a.log| <= 2 * (a.contest.contestId + 1)
    && (forall id :: Entries(a.log, id) <= 2)
  }

  /** The shape of the contest log: the entries without a winner are contests 0, 1, 2, ... in order;
      those with one have increasing ids; no contest is stored more than twice; every recorded
      winner is one of the entry's bids, picked by the selection. */
  lemma LogShape(trace: seq<Auction>, steps: seq<Step>, n: nat)
    requires Run(trace, steps) && n <= |steps|
    ensures WellShaped(trace[n])
  {
    RunKeepsOutput(trace, steps, n);
    var a := trace[n];
    WinnersIncrease(a);
    PlainIncrease(a);
    EntriesSplit(a.log, 0);
    forall id ensures Entries(a.log, id) <= 2 {
      EntriesSplit(a.log, id);
      IncreasingEntries(Plain(a.log), id);
      IncreasingEntries(Winners(a.log), id);
    }
  }

  // ----- who wins ----------------------------------------------------------------------------

  /** A contest in which two amounts are not zero and the largest draw's total fits in 64 bits. */
  predicate Contended(bids: seq<BidRequest>) {
    |ZeroBids(bids)| + 2 <= |bids| < U64 && Total(bids, |bids| - 1) < U64
  }

  /** Whatever is drawn, such a contest's winner is its first bid. */
  lemma {:induction false} ContendedIsFirst(bids: seq<BidRequest>, r: nat, second: nat)
    requires Contended(bids) && r < |bids| && second < |bids| && Select(bids, r, second).Won?
    ensures Select(bids, r, second) == Won(bids[0])
  {
    if r == 0 {
      SelectionSafe(bids, r, second);
    } else {
      TotalGrows(bids, r, |bids| - 1);
      SelectIsClosed(bids, r, second);
      ContendedClosed(bids, r, second);
    }
  }

  lemma {:induction false} ContendedClosed(bids: seq<BidRequest>, r: nat, second: nat)
    requires |ZeroBids(bids)| + 2 <= |bids| && 0 < r < |bids| && second < |bids|
    ensures SelectClosed(bids, r, second) == if r >= U32 then Panicked else Won(bids[0])
  {
  }

  /** In every run a stored winner of such a contest is the first bid that was appended to it: amounts
      and draws do not matter, only who came first. */
  lemma FirstBidWins(trace: seq<Auction>, steps: seq<Step>, n: nat, c: Contest)
    requires Run(trace, steps) && n <= |steps| && c in Winners(trace[n].log) && Contended(c.bids)
    ensures ListOf(trace[n], c.contestId) != []
    ensures c.winner == Some(ListOf(trace[n], c.contestId)[0])
  {
    RunKeepsOutput(trace, steps, n);
    var a := trace[n];
    assert c in Snapshots(a) && Faithful(a, c);
    assert Chosen(c);
    var r: nat, second: nat :| r < |c.bids| && second < |c.bids| && Select(c.bids, r, second) == Won(c.winner.value);
    ContendedIsFirst(c.bids, r, second);
    assert c.bids <= ListOf(a, c.contestId);
  }

  // ----- early exits -------------------------------------------------------------------------

  /** The consumer dies exactly on a zero draw with two or more bids, or on a draw above 32 bits. */
  lemma ConsumerStopsExactly(a: Auction, r: nat, second: nat)
    requires Enabled(a, ConsumePick(r, second)) && |a.consumer.contest.bids| < U64
    ensures Apply(a, ConsumePick(r, second)).consumer.ConsumerGone? <==>
            (|a.consumer.contest.bids| >= 2 && r == 0) || (a.consumer.contest.bids != [] && r >= U32)
  {
    SelectionSafe(a.consumer.contest.bids, r, second);
  }

  /** Once it is dead no winner is ever stored or forwarded again. */
  lemma {:induction false} ConsumerStopIsFinal(trace: seq<Auction>, steps: seq<Step>, n: nat)
    requires Continues(trace, steps) && n <= |steps| && trace[0].consumer.ConsumerGone?
    ensures trace[n].consumer.ConsumerGone? && Forwarded(trace[n]) == Forwarded(trace[0])
  {
    if n > 0 {
      ConsumerStopIsFinal(trace, steps, n - 1);
      ForwardedChange(trace[n - 1], steps[n - 1]);
      assert trace[n - 1 + 1] == Apply(trace[n - 1], steps[n - 1]);
    }
  }

  lemma BidTaskStays(a: Auction, step: Step)
    requires Enabled(a, step) && a.bidTask.BidTaskGone?
    ensures var b := Apply(a, step);
            b.bidTask.BidTaskGone? && b.processed == a.processed && b.sent == a.sent && b.lost == a.lost
  {
  }

  /** Once the bid task has returned no bid enters any contest again. */
  lemma {:induction false} BidTaskStopIsFinal(trace: seq<Auction>, steps: seq<Step>, n: nat)
    requires Continues(trace, steps) && n <= |steps| && trace[0].bidTask.BidTaskGone?
    ensures trace[n].bidTask.BidTaskGone? && trace[n].processed == trace[0].processed
    ensures trace[n].sent == trace[0].sent && trace[n].lost == trace[0].lost
  {
    if n > 0 {
      BidTaskStopIsFinal(trace, steps, n - 1);
      BidTaskStays(trace[n - 1], steps[n - 1]);
      assert trace[n - 1 + 1] == Apply(trace[n - 1], steps[n - 1]);
    }
  }
}
