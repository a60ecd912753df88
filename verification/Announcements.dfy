/** Announced contests never repeat: whatever the interleaving, the contests in the pipeline from
    the watcher to the handlers carry strictly increasing ids, and so do the ids announced. */
module Announcements {
  import opened Primitives
  import opened Auction
  import WinnerSelection

  // ----- the phases of the lifecycle ---------------------------------------------------------

  /** What the lifecycle task may be doing in each status, and how many contests it has ended. */
  ghost predicate PhaseInv(a: Auction) {
    && a.contest.winner == None
    && match a.contest.status
       case NotStarted =>
         a.contest == DEFAULT_CONTEST && a.closings == [] && (a.life == ReadStatus || a.life == Starting(0)) &&
         !a.bidTask.Offering?
       case Live =>
         |a.closings| == a.contest.contestId && (a.life == ReadStatus || a.life == Ending)
       case Ended =>
         && |a.closings| == a.contest.contestId + 1
         && !a.life.Ending?
         && (a.life.Starting? ==> a.life.nextId == a.contest.contestId + 1)
  }

  lemma PhaseStep(a: Auction, step: Step)
    requires PhaseInv(a) && Enabled(a, step)
    ensures PhaseInv(Apply(a, step))
  {
    if LifeStep(step) {
      LifePhaseStep(a, step);
    } else if BidStep(step) {
      BidPhaseStep(a, step);
    } else {
      KeepsContest(a, step);
    }
  }

  lemma LifePhaseStep(a: Auction, step: Step)
    requires PhaseInv(a) && Enabled(a, step) && LifeStep(step)
    ensures PhaseInv(Apply(a, step))
  {
  }

  lemma BidPhaseStep(a: Auction, step: Step)
    requires PhaseInv(a) && Enabled(a, step) && BidStep(step)
    ensures PhaseInv(Apply(a, step))
  {
  }

  /** The watcher, the consumer and the handlers leave the contest and the other two tasks alone. */
  lemma KeepsContest(a: Auction, step: Step)
    requires Enabled(a, step) && !LifeStep(step) && !BidStep(step)
    ensures var b := Apply(a, step);
            b.contest == a.contest && b.life == a.life && b.closings == a.closings && b.bidTask == a.bidTask
  {
  }

  /** Only the lifecycle task changes the phase. */
  lemma KeepsPhase(a: Auction, step: Step)
    requires Enabled(a, step) && !LifeStep(step)
    ensures var b := Apply(a, step);
            b.life == a.life && b.contest.status == a.contest.status && b.contest.contestId == a.contest.contestId
  {
  }

  /** Only the watcher moves the watcher and announces, and a dead consumer stays dead. */
  lemma KeepsWatcher(a: Auction, step: Step)
    requires Enabled(a, step) && !WatchStep(step)
    ensures var b := Apply(a, step);
            && b.watcher == a.watcher && b.announced == a.announced
            && (a.consumer.ConsumerGone? ==> b.consumer.ConsumerGone?)
  {
  }

  // ----- the pipeline ------------------------------------------------------------------------

  function Contests(ds: seq<Delivery>): (cs: seq<Contest>)
    ensures |cs| == |ds| && forall i :: 0 <= i < |ds| ==> cs[i] == ds[i].contest
  {
    seq(|ds|, i requires 0 <= i < |ds| => ds[i].contest)
  }

  /** The contests forwarded to the handlers, oldest first. */
  function Forwarded(a: Auction): seq<Contest> {
    Contests(a.delivered) + a.contestQueue +
    (if a.consumer.Forwarding? then [a.consumer.contest] else [])
  }

  /** The contest the consumer is working on, before it is stored. */
  function Held(a: Auction): seq<Contest> {
    if a.consumer.Picking? || a.consumer.StoringWinner? then [a.consumer.contest] else []
  }

  /** The snapshots on their way from the watcher to the consumer. */
  function Incoming(a: Auction): seq<Contest> {
    a.internalQueue + (if a.watcher.Announcing? then [a.watcher.snapshot] else [])
  }

  function Pipeline(a: Auction): seq<Contest> {
    Forwarded(a) + Held(a) + Incoming(a)
  }

  ghost predicate Increasing(cs: seq<Contest>) {
    forall i, j :: 0 <= i < j < |cs| ==> cs[i].contestId < cs[j].contestId
  }

  /** An id the watcher has observed as ended and will not observe again. */
  predicate Spent(a: Auction, id: nat) {
    && a.contest.status != NotStarted
    && id <= a.contest.contestId
    && (a.contest.status == Live || a.watcher.Polling? ==> id < a.contest.contestId)
  }

  ghost predicate PipelineInv(a: Auction) {
    && Increasing(Pipeline(a))
    && forall c :: c in Pipeline(a) ==> Spent(a, c.contestId)
  }

  ghost predicate AnnouncedInv(a: Auction) {
    && (forall i, j :: 0 <= i < j < |a.announced| ==> a.announced[i] < a.announced[j])
    && (forall k :: k in a.announced ==>
          Spent(a, k) && (a.watcher.Announcing? ==> k < a.watcher.snapshot.contestId))
    && (a.watcher.Announcing? ==> Spent(a, a.watcher.snapshot.contestId))
  }

  /** How one step changes the pipeline. */
  ghost predicate PipelineMoves(a: Auction, step: Step, b: Auction) {
    match step
    case WatchPoll =>
      Pipeline(b) == Pipeline(a) + (if a.contest.status == Ended then [a.contest] else [])
    case WatchAnnounce =>
      Pipeline(b) == if a.consumer.ConsumerGone? && Pipeline(a) != [] then Pipeline(a)[..|Pipeline(a)| - 1] else Pipeline(a)
    case ConsumePick(_, _) =>
      && a.consumer.Picking?
      && Forwarded(b) == Forwarded(a)
      && (Incoming(b) == Incoming(a) || b.consumer.ConsumerGone?)
    case _ => Pipeline(b) == Pipeline(a)
  }

  lemma PipelineChange(a: Auction, step: Step)
    requires Enabled(a, step)
    ensures PipelineMoves(a, step, Apply(a, step))
  {
    if WatchStep(step) {
      WatchChange(a, step);
    } else if ConsumeStep(step) {
      ConsumeChange(a, step);
    } else if step.HandlerReceive? {
      ReceiveChange(a, step);
    }
  }

  lemma WatchChange(a: Auction, step: Step)
    requires Enabled(a, step) && WatchStep(step)
    ensures PipelineMoves(a, step, Apply(a, step))
  {
    var b := Apply(a, step);
    if step.WatchPoll? {
      assert Incoming(b) == Incoming(a) + (if a.contest.status == Ended then [a.contest] else []);
    } else if step.WatchAnnounce? {
      if a.consumer.ConsumerGone? {
        assert Pipeline(a) == Pipeline(b) + [a.watcher.snapshot];
      } else {
        assert Incoming(b) == Incoming(a);
      }
    }
  }

  lemma ConsumeChange(a: Auction, step: Step)
    requires Enabled(a, step) && ConsumeStep(step)
    ensures PipelineMoves(a, step, Apply(a, step))
  {
    var b := Apply(a, step);
    match step
    case ConsumeReceive =>
      assert Held(b) + Incoming(b) == Held(a) + Incoming(a);
    case ConsumeStore =>
      assert Forwarded(b) + Held(b) == Forwarded(a) + Held(a);
    case ConsumeForward =>
      assert Forwarded(b) == Forwarded(a);
    case _ =>
  }

  lemma ReceiveChange(a: Auction, step: Step)
    requires Enabled(a, step) && step.HandlerReceive?
    ensures PipelineMoves(a, step, Apply(a, step)) && Forwarded(Apply(a, step)) == Forwarded(a)
  {
    var b := Apply(a, step);
    if a.contestQueue != [] {
      assert Contests(b.delivered) == Contests(a.delivered) + [a.contestQueue[0]];
    }
  }

  lemma PipelineStep(a: Auction, step: Step)
    requires PhaseInv(a) && PipelineInv(a) && Enabled(a, step)
    ensures PipelineInv(Apply(a, step))
  {
    var b := Apply(a, step);
    if step.ConsumePick? {
      PickKeepsOrder(a, step);
    } else if WatchStep(step) {
      WatchKeepsOrder(a, step);
    } else {
      PipelineChange(a, step);
      forall c | c in Pipeline(b) ensures Spent(b, c.contestId) {
        StaysSpent(a, step, c.contestId);
      }
    }
  }

  lemma StaysSpent(a: Auction, step: Step, id: nat)
    requires PhaseInv(a) && Enabled(a, step) && !WatchStep(step) && Spent(a, id)
    ensures Spent(Apply(a, step), id)
  {
  }

  lemma WatchKeepsOrder(a: Auction, step: Step)
    requires PhaseInv(a) && PipelineInv(a) && Enabled(a, step) && WatchStep(step)
    ensures PipelineInv(Apply(a, step))
  {
    WatchChange(a, step);
    var b := Apply(a, step);
    assert Increasing(Pipeline(b));
    forall c | c in Pipeline(b) ensures Spent(b, c.contestId) {
      WatchOrigin(a, step, c);
    }
  }

  lemma WatchOrigin(a: Auction, step: Step, c: Contest)
    requires Enabled(a, step) && WatchStep(step) && PipelineMoves(a, step, Apply(a, step))
    requires c in Pipeline(Apply(a, step))
    ensures c in Pipeline(a) || (step.WatchPoll? && c == a.contest && a.contest.status == Ended)
  {
  }

  /** Taking out an element, or it and some of the next ones, keeps the order; so does replacing
      it by one with the same id. */
  lemma IncreasingSplice(front: seq<Contest>, c: Contest, skipped: seq<Contest>, rest: seq<Contest>, d: Contest)
    requires Increasing(front + [c] + (skipped + rest)) && d.contestId == c.contestId
    ensures Increasing(front + rest)
    ensures Increasing(front + [d] + (skipped + rest))
  {
    var cs, ds, n, m := front + [c] + (skipped + rest), front + rest, |front|, |skipped| + 1;
    forall i, j | 0 <= i < j < |ds| ensures ds[i].contestId < ds[j].contestId {
      assert ds[i] == cs[if i < n then i else i + m];
      assert ds[j] == cs[if j < n then j else j + m];
    }
    var es := front + [d] + (skipped + rest);
    forall i, j | 0 <= i < j < |es| ensures es[i].contestId < es[j].contestId {
      assert es[i].contestId == cs[i].contestId && es[j].contestId == cs[j].contestId;
    }
  }

  /** The state after picking. */
  ghost predicate Picked(a: Auction, b: Auction)
    requires a.consumer.Picking?
  {
    || b == a.(consumer := AwaitContest)
    || b == a.(consumer := ConsumerGone, internalQueue := [])
    || (b.consumer.StoringWinner? && b == a.(consumer := b.consumer) &&
        b.consumer.contest.contestId == a.consumer.contest.contestId)
  }

  lemma PickResult(a: Auction, step: Step)
    requires Enabled(a, step) && step.ConsumePick?
    ensures Picked(a, Apply(a, step))
  {
  }

  /** Picking takes the consumer's contest out, or records its winner, or drops it and the queue. */
  lemma PickShape(a: Auction, b: Auction) returns (skipped: seq<Contest>)
    requires a.consumer.Picking? && Picked(a, b)
    ensures Pipeline(a) == Forwarded(a) + [a.consumer.contest] + (skipped + Incoming(b))
    ensures b.contest == a.contest && b.watcher == a.watcher
    ensures if b.consumer.StoringWinner?
            then b.consumer.contest.contestId == a.consumer.contest.contestId &&
                 Pipeline(b) == Forwarded(a) + [b.consumer.contest] + (skipped + Incoming(b))
            else Pipeline(b) == Forwarded(a) + Incoming(b)
  {
    skipped := if b.consumer.ConsumerGone? then a.internalQueue else [];
    assert Incoming(a) == skipped + Incoming(b);
    assert Held(a) == [a.consumer.contest] && Forwarded(b) == Forwarded(a);
    if b.consumer.StoringWinner? {
      assert Held(b) == [b.consumer.contest] && skipped == [];
    } else {
      assert Held(b) == [];
    }
  }

  lemma PickKeepsOrder(a: Auction, step: Step)
    requires PipelineInv(a) && Enabled(a, step) && step.ConsumePick?
    ensures PipelineInv(Apply(a, step))
  {
    var b, c := Apply(a, step), a.consumer.contest;
    PickResult(a, step);
    var skipped := PickShape(a, b);
    var d := if b.consumer.StoringWinner? then b.consumer.contest else c;
    var front, rest := Forwarded(a), Incoming(b);
    assert Increasing(front + [c] + (skipped + rest));
    IncreasingSplice(front, c, skipped, rest, d);
    assert c in Pipeline(a);
    forall x | x in Pipeline(b) ensures Spent(b, x.contestId) {
      assert x in front + [c] + (skipped + rest) || x == d;
    }
  }

  lemma AnnouncedStep(a: Auction, step: Step)
    requires PhaseInv(a) && AnnouncedInv(a) && Enabled(a, step)
    ensures AnnouncedInv(Apply(a, step))
  {
    if step.WatchAnnounce? {
      AnnounceStep(a, step);
    } else if WatchStep(step) {
      LookStep(a, step);
    } else {
      KeepsWatcher(a, step);
      forall id | Spent(a, id) ensures Spent(Apply(a, step), id) {
        StaysSpent(a, step, id);
      }
    }
  }

  lemma LookStep(a: Auction, step: Step)
    requires PhaseInv(a) && AnnouncedInv(a) && Enabled(a, step) && (step.WatchPoll? || step.WatchAwaitLive?)
    ensures AnnouncedInv(Apply(a, step))
  {
  }

  lemma AnnounceStep(a: Auction, step: Step)
    requires PhaseInv(a) && AnnouncedInv(a) && Enabled(a, step) && step.WatchAnnounce?
    ensures AnnouncedInv(Apply(a, step))
  {
    forall i | 0 <= i < |a.announced| ensures a.announced[i] < a.watcher.snapshot.contestId {
      assert a.announced[i] in a.announced;
    }
  }

  ghost predicate SafeInv(a: Auction) {
    PhaseInv(a) && PipelineInv(a) && AnnouncedInv(a)
  }

  lemma SafeStep(a: Auction, step: Step)
    requires SafeInv(a) && Enabled(a, step)
    ensures SafeInv(Apply(a, step))
  {
    PhaseStep(a, step);
    PipelineStep(a, step);
    AnnouncedStep(a, step);
  }

  lemma SafeStart()
    ensures SafeInv(START)
  {
    assert Pipeline(START) == [];
  }

  lemma {:induction false} RunIsSafe(trace: seq<Auction>, steps: seq<Step>, n: nat)
    requires Run(trace, steps) && n <= |steps|
    ensures SafeInv(trace[n])
  {
    if n == 0 {
      SafeStart();
    } else {
      RunIsSafe(trace, steps, n - 1);
      SafeStep(trace[n - 1], steps[n - 1]);
      assert trace[n - 1 + 1] == Apply(trace[n - 1], steps[n - 1]);
    }
  }

  /** No contest is announced twice, with no assumption on timing. */
  lemma AnnouncedAtMostOnce(trace: seq<Auction>, steps: seq<Step>, n: nat)
    requires Run(trace, steps) && n <= |steps|
    ensures forall i, j :: 0 <= i < j < |trace[n].announced| ==> trace[n].announced[i] < trace[n].announced[j]
    ensures forall k :: k in trace[n].announced ==> k <= trace[n].contest.contestId
  {
    RunIsSafe(trace, steps, n);
  }
}
