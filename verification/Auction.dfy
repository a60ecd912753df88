/** The contest half of the verifier as a state machine: the lifecycle task, the bid task, the
    watcher, the completion consumer and the `submit_bid` handlers, which share one contest behind
    a lock and talk through bounded channels.

    One step is one lock hold, one channel operation, one storage call or one local computation.
    The last six fields are histories: no task reads them. */
module Auction {
  import opened Primitives
  import WinnerSelection

  datatype LifecyclePc =
    | ReadStatus
    | Ending
    | Snapshotting
    | Storing(snapshot: Contest)
    | ReadingId
    | Starting(nextId: nat)

  datatype BidPc =
    | AwaitBid
    | CheckLive(bid: BidRequest)
    | Offering(bid: BidRequest)
    | FetchProfile(bid: BidRequest)
    | WriteProfile(bid: BidRequest, base: ProverProfile)
    | BidTaskGone

  datatype WatcherPc = Polling | Announcing(snapshot: Contest) | AwaitLive | WatcherGone

  datatype ConsumerPc =
    | AwaitContest
    | Picking(contest: Contest)
    | StoringWinner(contest: Contest)
    | Forwarding(contest: Contest)
    | ConsumerGone

  /** A `submit_bid` call; an answer is the contest id of the work order, or none. */
  datatype HandlerPc =
    | Submitting(bid: BidRequest)
    | AwaitResult(bid: BidRequest)
    | Answered(bid: BidRequest, workOrder: Option<nat>)
    | Failed(bid: BidRequest)

  /** What became of a bid the bid task finished with. */
  datatype Outcome = Taken(contestId: nat) | Duplicate | Refused
  datatype Processed = Processed(bid: BidRequest, outcome: Outcome)

  datatype Delivery = Delivery(handler: nat, bid: BidRequest, contest: Contest)

  datatype Auction = Auction(
    contest: Contest,
    life: LifecyclePc,
    bidQueue: seq<BidRequest>,
    bidTask: BidPc,
    watcher: WatcherPc,
    internalQueue: seq<Contest>,
    consumer: ConsumerPc,
    contestQueue: seq<Contest>,
    handlers: map<nat, HandlerPc>,
    log: seq<Contest>,
    sent: seq<BidRequest>,          // bids put on the bid channel
    processed: seq<Processed>,      // bids the bid task finished with
    lost: seq<BidRequest>,          // bids dropped when the bid task returned early
    closings: seq<seq<BidRequest>>, // the bid list of each contest when it was ended
    announced: seq<nat>,            // contest ids the watcher put on the internal channel
    delivered: seq<Delivery>)       // contests received by handlers

  const START: Auction := Auction(
    DEFAULT_CONTEST, ReadStatus, [], AwaitBid, Polling, [], AwaitContest, [], map[], [],
    [], [], [], [], [], [])

  datatype Step =
    | LifeReadStatus | LifeEnd | LifeSnapshot | LifeStore | LifeReadId
    | LifeStart(now0: u64, now1: u64)
    | BidReceive | BidCheckLive | BidOffer | BidFetch(found: Option<ProverProfile>) | BidWrite
    | WatchPoll | WatchAnnounce | WatchAwaitLive
    | ConsumeReceive | ConsumePick(r: nat, second: nat) | ConsumeStore | ConsumeForward
    | HandlerArrive(h: nat, bid: BidRequest) | HandlerSubmit(h: nat) | HandlerReceive(h: nat)

  predicate Enabled(a: Auction, step: Step) {
    match step
    case LifeReadStatus => a.life.ReadStatus?
    case LifeEnd => a.life.Ending?
    case LifeSnapshot => a.life.Snapshotting?
    case LifeStore => a.life.Storing?
    case LifeReadId => a.life.ReadingId?
    case LifeStart(_, _) => a.life.Starting?
    case BidReceive => a.bidTask.AwaitBid? && a.bidQueue != []
    case BidCheckLive => a.bidTask.CheckLive?
    case BidOffer => a.bidTask.Offering?
    case BidFetch(_) => a.bidTask.FetchProfile?
    case BidWrite => a.bidTask.WriteProfile?
    case WatchPoll => a.watcher.Polling?
    case WatchAnnounce =>
      a.watcher.Announcing? && (a.consumer.ConsumerGone? || |a.internalQueue| < CAPACITY)
    case WatchAwaitLive => a.watcher.AwaitLive?
    case ConsumeReceive => a.consumer.AwaitContest? && a.internalQueue != []
    case ConsumePick(r, second) =>
      a.consumer.Picking? &&
      (a.consumer.contest.bids != [] ==>
         r < |a.consumer.contest.bids| && second < |a.consumer.contest.bids|)
    case ConsumeStore => a.consumer.StoringWinner?
    case ConsumeForward => a.consumer.Forwarding? && |a.contestQueue| < CAPACITY
    case HandlerArrive(h, _) => h !in a.handlers
    case HandlerSubmit(h) =>
      h in a.handlers && a.handlers[h].Submitting? &&
      (a.bidTask.BidTaskGone? || |a.bidQueue| < CAPACITY)
    case HandlerReceive(h) =>
      h in a.handlers && a.handlers[h].AwaitResult? &&
      (a.contestQueue != [] || a.consumer.ConsumerGone?)
  }

  /** The lifecycle task, the only writer of the contest's id and status. */
  function LifeApply(a: Auction, step: Step): Auction
    requires Enabled(a, step)
  {
    match step
    case LifeReadStatus =>
      (match a.contest.status
       case Live => a.(life := Ending)
       case Ended => a.(life := Snapshotting)
       case NotStarted => a.(life := Starting(0)))
    case LifeEnd =>
      a.(contest := a.contest.(status := Ended), closings := a.closings + [a.contest.bids],
         life := ReadStatus)
    case LifeSnapshot => a.(life := Storing(a.contest))
    case LifeStore => a.(log := a.log + [a.life.snapshot], life := ReadingId)
    case LifeReadId => a.(life := Starting(a.contest.contestId + 1))
    case LifeStart(now0, now1) =>
      a.(contest := FreshContest(a.life.nextId, now0, now1), life := ReadStatus)
    case _ => a
  }

  /** The bid task.  The liveness check and the append are two separate lock holds. */
  function BidApply(a: Auction, step: Step): Auction
    requires Enabled(a, step)
  {
    match step
    case BidReceive => a.(bidTask := CheckLive(a.bidQueue[0]), bidQueue := a.bidQueue[1..])
    case BidCheckLive =>
      if a.contest.IsLive() then a.(bidTask := Offering(a.bidTask.bid))
      else a.(bidTask := FetchProfile(a.bidTask.bid))
    case BidOffer =>
      var bid := a.bidTask.bid;
      if HasBidder(a.contest.bids, bid.proverAddress) then
        a.(processed := a.processed + [Processed(bid, Duplicate)], bidTask := AwaitBid)
      else
        a.(contest := a.contest.(bids := a.contest.bids + [bid]),
           processed := a.processed + [Processed(bid, Taken(a.contest.contestId))],
           bidTask := AwaitBid)
    case BidFetch(found) =>
      (match found
       case Some(base) => a.(bidTask := WriteProfile(a.bidTask.bid, base))
       case None =>  // the `?` returns: the receiver and everything queued in it are dropped
         a.(lost := a.lost + [a.bidTask.bid] + a.bidQueue, bidQueue := [], bidTask := BidTaskGone))
    case BidWrite =>
      a.(processed := a.processed + [Processed(a.bidTask.bid, Refused)], bidTask := AwaitBid)
    case _ => a
  }

  /** The profile the bid task writes back for a bid refused because no contest is live. */
  function WithRefusedBid(base: ProverProfile, bid: BidRequest): ProverProfile {
    base.(bids := base.bids + [bid.(bidStatus := BidRejected)])
  }

  /** The watcher spawned by the completion task. */
  function WatchApply(a: Auction, step: Step): Auction
    requires Enabled(a, step)
  {
    match step
    case WatchPoll =>
      if a.contest.status == Ended then a.(watcher := Announcing(a.contest)) else a
    case WatchAnnounce =>
      if a.consumer.ConsumerGone? then a.(watcher := WatcherGone)
      else a.(internalQueue := a.internalQueue + [a.watcher.snapshot],
              announced := a.announced + [a.watcher.snapshot.contestId], watcher := AwaitLive)
    case WatchAwaitLive =>
      if a.contest.status == Live then a.(watcher := Polling) else a
    case _ => a
  }

  /** The completion task.  A panic while picking drops its receiver and its sender. */
  function ConsumeApply(a: Auction, step: Step): Auction
    requires Enabled(a, step)
  {
    match step
    case ConsumeReceive =>
      a.(consumer := Picking(a.internalQueue[0]), internalQueue := a.internalQueue[1..])
    case ConsumePick(r, second) =>
      var c := a.consumer.contest;
      (match WinnerSelection.Select(c.bids, r, second)
       case NoBids => a.(consumer := AwaitContest)
       case Won(bid) => a.(consumer := StoringWinner(c.(winner := Some(bid))))
       case Panicked => a.(consumer := ConsumerGone, internalQueue := []))
    case ConsumeStore =>
      a.(log := a.log + [a.consumer.contest], consumer := Forwarding(a.consumer.contest))
    case ConsumeForward =>
      a.(contestQueue := a.contestQueue + [a.consumer.contest], consumer := AwaitContest)
    case _ => a
  }

  /** The work order for a handler that bid `bid` and received contest `c`. */
  function WorkOrder(c: Contest, bid: BidRequest): Option<nat> {
    if c.winner.Some? && c.winner.value.proverAddress == bid.proverAddress then Some(c.contestId)
    else None
  }

  /** The `submit_bid` handlers: each takes one contest from the shared receiver. */
  function HandlerApply(a: Auction, step: Step): Auction
    requires Enabled(a, step)
  {
    match step
    case HandlerArrive(h, bid) => a.(handlers := a.handlers[h := Submitting(bid)])
    case HandlerSubmit(h) =>
      var bid := a.handlers[h].bid;
      if a.bidTask.BidTaskGone? then a.(handlers := a.handlers[h := Failed(bid)])
      else a.(handlers := a.handlers[h := AwaitResult(bid)], bidQueue := a.bidQueue + [bid],
              sent := a.sent + [bid])
    case HandlerReceive(h) =>
      var bid := a.handlers[h].bid;
      if a.contestQueue == [] then a.(handlers := a.handlers[h := Answered(bid, None)])
      else
        var c := a.contestQueue[0];
        a.(handlers := a.handlers[h := Answered(bid, WorkOrder(c, bid))],
           contestQueue := a.contestQueue[1..], delivered := a.delivered + [Delivery(h, bid, c)])
    case _ => a
  }

  predicate LifeStep(step: Step) {
    step.LifeReadStatus? || step.LifeEnd? || step.LifeSnapshot? || step.LifeStore? ||
    step.LifeReadId? || step.LifeStart?
  }

  predicate BidStep(step: Step) {
    step.BidReceive? || step.BidCheckLive? || step.BidOffer? || step.BidFetch? || step.BidWrite?
  }

  predicate WatchStep(step: Step) {
    step.WatchPoll? || step.WatchAnnounce? || step.WatchAwaitLive?
  }

  predicate ConsumeStep(step: Step) {
    step.ConsumeReceive? || step.ConsumePick? || step.ConsumeStore? || step.ConsumeForward?
  }

  function Apply(a: Auction, step: Step): Auction
    requires Enabled(a, step)
  {
    if LifeStep(step) then LifeApply(a, step)
    else if BidStep(step) then BidApply(a, step)
    else if WatchStep(step) then WatchApply(a, step)
    else if ConsumeStep(step) then ConsumeApply(a, step)
    else HandlerApply(a, step)
  }

  /** A stretch of a run, in any interleaving. */
  ghost predicate Continues(trace: seq<Auction>, steps: seq<Step>) {
    && |trace| == |steps| + 1
    && forall i :: 0 <= i < |steps| ==> Enabled(trace[i], steps[i]) && trace[i + 1] == Apply(trace[i], steps[i])
  }

  /** A run from the start. */
  ghost predicate Run(trace: seq<Auction>, steps: seq<Step>) {
    Continues(trace, steps) && trace[0] == START
  }
}
