/** Announcing every contest exactly once.

    Untimed, a slow watcher misses contests (`ContestMissed`).  Here the protocol runs against a clock:
    the lifecycle's sleeps bound each phase from below, and the watcher looks at the contest at least
    every D milliseconds, unless it is blocked sending or gone.  If it is never blocked, no contest is
    missed in any run exactly when D is below both durations. */
module Timing {
  import opened Primitives
  import opened Auction
  import opened Announcements
  import opened WorkOrders

  /** `wake` is when the lifecycle's sleep ends, `since` when the status last changed, `seen` when
      the watcher last looked. */
  datatype Timed = Timed(auction: Auction, now: nat, wake: nat, since: nat, seen: nat)

  const TIMED_START: Timed := Timed(START, 0, 0, 0, 0)

  datatype Event = Act(step: Step) | Tick(ms: nat)

  /** While the watcher polls, time passes only until its next look is due.  A send on a channel with
      room, or on a closed one, completes without yielding, so no time passes before it; a send on a
      full channel takes as long as it takes, and a watcher that is gone bounds nothing. */
  predicate Possible(t: Timed, e: Event, d: nat) {
    match e
    case Act(step) =>
      Enabled(t.auction, step) && (step.LifeEnd? || step.LifeReadId? ==> t.now >= t.wake)
    case Tick(ms) =>
      match t.auction.watcher
      case WatcherGone => true
      case Announcing(_) => !t.auction.consumer.ConsumerGone? && !HasRoom(t.auction)
      case _ => t.now + ms <= t.seen + d
  }

  predicate HasRoom(a: Auction) {
    |a.internalQueue| < CAPACITY
  }

  /** The watcher is never blocked: the internal channel has room whenever it announces. */
  ghost predicate NeverBlocked(trace: seq<Timed>, n: nat)
    requires n < |trace|
  {
    forall i :: 0 <= i <= n && trace[i].auction.watcher.Announcing? ==> HasRoom(trace[i].auction)
  }

  function Advance(t: Timed, e: Event, d: nat): Timed
    requires Possible(t, e, d)
  {
    match e
    case Tick(ms) => t.(now := t.now + ms)
    case Act(step) =>
      var a := Apply(t.auction, step);
      var wake :=
        if step.LifeReadStatus? && a.life.Ending? then t.now + CONTEST_DURATION
        else if step.LifeStore? then t.now + PROOF_DURATION
        else t.wake;
      var since := if step.LifeEnd? || step.LifeStart? then t.now else t.since;
      var seen := if step.WatchPoll? || step.WatchAwaitLive? then t.now else t.seen;
      Timed(a, t.now, wake, since, seen)
  }

  ghost predicate TimedRun(trace: seq<Timed>, events: seq<Event>, d: nat) {
    && |trace| == |events| + 1
    && trace[0] == TIMED_START
    && forall i :: 0 <= i < |events| ==>
         Possible(trace[i], events[i], d) && trace[i + 1] == Advance(trace[i], events[i], d)
  }

  /** The ids 0 to n-1 in order. */
  predicate FirstIds(ids: seq<nat>, n: nat) {
    |ids| == n && forall i :: 0 <= i < n ==> ids[i] == i
  }

  /** The sleeps make the two phases last. */
  ghost predicate SleepInv(t: Timed) {
    var a := t.auction;
    && t.since <= t.now
    && (a.life.Ending? ==> t.wake >= t.since + CONTEST_DURATION)
    && (a.life.ReadingId? ==> t.wake >= t.since + PROOF_DURATION && a.contest.status == Ended)
    && (a.life.Starting? && a.contest.status == Ended ==> t.now >= t.since + PROOF_DURATION)
    && (a.life.Snapshotting? || a.life.Storing? ==> a.contest.status == Ended)
  }

  /** What has been announced, by what the watcher is doing and the phase the contest is in. */
  ghost predicate WatchInv(t: Timed, d: nat) {
    var a := t.auction;
    var k := a.contest.contestId;
    && t.seen <= t.now && (a.watcher.WatcherGone? || t.now <= t.seen + d)
    && match a.watcher
       case WatcherGone => FirstIds(a.announced, |a.announced|) && a.consumer.ConsumerGone?
       case Polling =>
         FirstIds(a.announced, if a.contest.status == NotStarted then 0 else k) &&
         (a.contest.status == Ended ==> t.seen <= t.since)
       case Announcing(c) =>
         FirstIds(a.announced, k) && c.contestId == k && a.contest.status == Ended && t.now <= t.since + d
       case AwaitLive =>
         match a.contest.status
         case NotStarted => false
         case Ended => FirstIds(a.announced, k + 1)
         case Live => FirstIds(a.announced, k) && t.seen <= t.since
  }

  lemma SleepStep(t: Timed, e: Event, d: nat)
    requires PhaseInv(t.auction) && SleepInv(t) && Possible(t, e, d)
    ensures SleepInv(Advance(t, e, d))
  {
    if e.Act? {
      if LifeStep(e.step) {
        LifeSleeps(t, e, d);
      } else {
        KeepsPhase(t.auction, e.step);
      }
    }
  }

  lemma LifeSleeps(t: Timed, e: Event, d: nat)
    requires PhaseInv(t.auction) && SleepInv(t) && Possible(t, e, d)
    requires e.Act? && LifeStep(e.step)
    ensures SleepInv(Advance(t, e, d))
  {
  }

  lemma WatchInvStep(t: Timed, e: Event, d: nat)
    requires d < CONTEST_DURATION && d < PROOF_DURATION
    requires PhaseInv(t.auction) && SleepInv(t) && WatchInv(t, d) && Possible(t, e, d)
    requires t.auction.watcher.Announcing? ==> HasRoom(t.auction)
    ensures WatchInv(Advance(t, e, d), d)
  {
    if e.Act? {
      if LifeStep(e.step) {
        PhaseTurns(t, e, d);
      } else if WatchStep(e.step) {
        WatcherLooks(t, e, d);
      } else {
        KeepsPhase(t.auction, e.step);
        KeepsWatcher(t.auction, e.step);
      }
    }
  }

  /** The watcher has looked during a phase before the lifecycle ends it. */
  lemma PhaseTurns(t: Timed, e: Event, d: nat)
    requires d < CONTEST_DURATION && d < PROOF_DURATION
    requires PhaseInv(t.auction) && SleepInv(t) && WatchInv(t, d) && Possible(t, e, d)
    requires e.Act? && LifeStep(e.step)
    ensures WatchInv(Advance(t, e, d), d)
  {
  }

  lemma WatcherLooks(t: Timed, e: Event, d: nat)
    requires PhaseInv(t.auction) && SleepInv(t) && WatchInv(t, d) && Possible(t, e, d)
    requires e.Act? && WatchStep(e.step)
    ensures WatchInv(Advance(t, e, d), d)
  {
    KeepsPhase(t.auction, e.step);
  }

  lemma {:induction false} TimedRunKeeps(trace: seq<Timed>, events: seq<Event>, d: nat, n: nat)
    requires d < CONTEST_DURATION && d < PROOF_DURATION
    requires TimedRun(trace, events, d) && n <= |events| && NeverBlocked(trace, n)
    ensures PhaseInv(trace[n].auction) && SleepInv(trace[n]) && WatchInv(trace[n], d)
  {
    if n > 0 {
      TimedRunKeeps(trace, events, d, n - 1);
      var t, e := trace[n - 1], events[n - 1];
      if e.Act? {
        PhaseStep(t.auction, e.step);
      }
      SleepStep(t, e, d);
      WatchInvStep(t, e, d);
      assert trace[n - 1 + 1] == Advance(t, e, d);
    }
  }

  /** The ids announced are exactly 0 to k-1 or 0 to k, where k is the current contest: none is missed
      and none repeated.  If the consumer has panicked they are still an initial stretch. */
  predicate NoneMissed(a: Auction) {
    && FirstIds(a.announced, |a.announced|)
    && (!a.consumer.ConsumerGone? ==>
          if a.contest.status == NotStarted then a.announced == []
          else |a.announced| == a.contest.contestId || |a.announced| == a.contest.contestId + 1)
  }

  /** So it is at every moment of a timed run with a short enough period. */
  lemma AnnouncedExactlyOnce(trace: seq<Timed>, events: seq<Event>, d: nat, n: nat)
    requires d < CONTEST_DURATION && d < PROOF_DURATION
    requires TimedRun(trace, events, d) && n <= |events| && NeverBlocked(trace, n)
    ensures NoneMissed(trace[n].auction)
  {
    TimedRunKeeps(trace, events, d, n);
  }

  lemma {:induction false} TimedRunKeepsOutput(trace: seq<Timed>, events: seq<Event>, d: nat, n: nat)
    requires TimedRun(trace, events, d) && n <= |events|
    ensures OutputInv(trace[n].auction)
  {
    if n == 0 {
      OutputStart();
    } else {
      TimedRunKeepsOutput(trace, events, d, n - 1);
      var t, e := trace[n - 1], events[n - 1];
      assert trace[n - 1 + 1] == Advance(t, e, d);
      if e.Act? {
        OutputStep(t.auction, e.step);
      }
    }
  }

  /** Every past contest that ended with a bid is in the pipeline: forwarded with its winner or on its
      way, unless the consumer has panicked. */
  ghost predicate NoneForgotten(a: Auction) {
    !a.consumer.ConsumerGone? ==>
      forall id :: 0 <= id < a.contest.contestId ==>
                     id < |a.closings| && (a.closings[id] != [] ==> InPipeline(a, id))
  }

  /** End to end: so it is with a watcher that looks in time. */
  lemma NoContestForgotten(trace: seq<Timed>, events: seq<Event>, d: nat, n: nat)
    requires d < CONTEST_DURATION && d < PROOF_DURATION
    requires TimedRun(trace, events, d) && n <= |events| && NeverBlocked(trace, n)
    ensures NoneForgotten(trace[n].auction)
  {
    AnnouncedExactlyOnce(trace, events, d, n);
    TimedRunKeepsOutput(trace, events, d, n);
    var a := trace[n].auction;
    assert PhaseInv(a) && AccountedInv(a);
    if !a.consumer.ConsumerGone? {
      forall id | 0 <= id < a.contest.contestId
        ensures id < |a.closings| && (a.closings[id] != [] ==> InPipeline(a, id))
      {
        assert a.announced[id] == id;
      }
    }
  }

  // ----- the period cannot be longer -----------------------------------------------------------

  /** `t` is reached in a timed run of period `d` whose watcher is never blocked. */
  ghost predicate TimelyReach(t: Timed, d: nat) {
    exists trace, events ::
      TimedRun(trace, events, d) && NeverBlocked(trace, |events|) && trace[|events|] == t
  }

  lemma TimelyStart(d: nat)
    ensures TimelyReach(TIMED_START, d)
  {
    var trace, events: seq<Event> := [TIMED_START], [];
    assert TimedRun(trace, events, d) && NeverBlocked(trace, |events|) && trace[|events|] == TIMED_START;
  }

  lemma Timely(t: Timed, e: Event, d: nat) returns (u: Timed)
    requires TimelyReach(t, d) && Possible(t, e, d)
    requires Advance(t, e, d).auction.watcher.Announcing? ==> HasRoom(Advance(t, e, d).auction)
    ensures u == Advance(t, e, d) && TimelyReach(u, d)
  {
    u := Advance(t, e, d);
    var trace, events :| TimedRun(trace, events, d) && NeverBlocked(trace, |events|) && trace[|events|] == t;
    var trace', events' := trace + [u], events + [e];
    forall i | 0 <= i < |events'|
      ensures Possible(trace'[i], events'[i], d) && trace'[i + 1] == Advance(trace'[i], events'[i], d)
    {
      if i < |events| {
        assert trace'[i] == trace[i] && trace'[i + 1] == trace[i + 1] && events'[i] == events[i];
      }
    }
    assert TimedRun(trace', events', d) && NeverBlocked(trace', |events'|) && trace'[|events'|] == u;
  }

  const BID: BidRequest := BidRequest(5, "address", "prover", BidPending)

  /** Contest 0 has been started and the lifecycle sleeps. */
  lemma TimelyLive(d: nat) returns (t: Timed)
    ensures TimelyReach(t, d)
    ensures t == Timed(START.(contest := FreshContest(0, 0, 0), life := Ending), 0, CONTEST_DURATION, 0, 0)
  {
    TimelyStart(d);
    var t1 := Timely(TIMED_START, Act(LifeReadStatus), d);
    var t2 := Timely(t1, Act(LifeStart(0, 0)), d);
    t := Timely(t2, Act(LifeReadStatus), d);
  }

  /** Steps of the bid task and the handlers leave the clock alone. */
  lemma TimelyPlain(t: Timed, step: Step, d: nat) returns (u: Timed)
    requires TimelyReach(t, d) && Enabled(t.auction, step) && t.auction.watcher == Polling
    requires !LifeStep(step) && !WatchStep(step) && !ConsumeStep(step)
    ensures TimelyReach(u, d) && u == t.(auction := Apply(t.auction, step)) && u.auction.watcher == Polling
  {
    KeepsWatcher(t.auction, step);
    u := Timely(t, Act(step), d);
  }

  /** A bid is sent, */
  lemma TimelySent(d: nat) returns (t: Timed)
    ensures TimelyReach(t, d)
    ensures t.now == t.seen == 0 && t.wake == CONTEST_DURATION
    ensures t.auction == START.(contest := FreshContest(0, 0, 0), life := Ending, bidQueue := [BID], sent := [BID],
                                handlers := t.auction.handlers)
  {
    var t0 := TimelyLive(d);
    var t1 := TimelyPlain(t0, HandlerArrive(0, BID), d);
    t := TimelyPlain(t1, HandlerSubmit(0), d);
  }

  /** and taken. */
  lemma TimelyBid(d: nat) returns (t: Timed)
    ensures TimelyReach(t, d)
    ensures t.now == t.seen == 0 && t.wake == CONTEST_DURATION
    ensures t.auction.contest == FreshContest(0, 0, 0).(bids := [BID]) && t.auction.life == Ending
    ensures t.auction.watcher == Polling && t.auction.announced == [] && t.auction.closings == []
    ensures t.auction.consumer == AwaitContest && Pipeline(t.auction) == []
  {
    var t0 := TimelySent(d);
    var t1 := TimelyPlain(t0, BidReceive, d);
    var t2 := TimelyPlain(t1, BidCheckLive, d);
    assert t2.auction.contest == FreshContest(0, 0, 0) && t2.auction.bidTask == Offering(BID);
    t := TimelyPlain(t2, BidOffer, d);
    assert Pipeline(t.auction) == [];
  }

  /** The watcher has just looked at a contest that is about to end. */
  lemma TimelyLook(d: nat) returns (t: Timed)
    requires d >= CONTEST_DURATION
    ensures TimelyReach(t, d)
    ensures t.now == t.seen == t.wake
    ensures t.auction.contest == FreshContest(0, 0, 0).(bids := [BID]) && t.auction.life == Ending
    ensures t.auction.watcher == Polling && t.auction.announced == [] && t.auction.closings == []
    ensures t.auction.consumer == AwaitContest && Pipeline(t.auction) == []
  {
    var t0 := TimelyBid(d);
    var t1 := Timely(t0, Tick(CONTEST_DURATION), d);
    t := Timely(t1, Act(WatchPoll), d);
  }

  /** The lifecycle ends it, */
  lemma TimelyEnd(t: Timed, d: nat) returns (u: Timed)
    requires TimelyReach(t, d) && t.auction.life == Ending && t.now == t.wake
    requires t.auction.contest.status == Live && t.auction.watcher == Polling
    ensures TimelyReach(u, d)
    ensures u == t.(since := t.now,
                    auction := t.auction.(
                      life := Snapshotting, contest := t.auction.contest.(status := Ended),
                      closings := t.auction.closings + [t.auction.contest.bids]))
  {
    var t1 := Timely(t, Act(LifeEnd), d);
    u := Timely(t1, Act(LifeReadStatus), d);
  }

  /** stores it and sleeps. */
  lemma TimelyStore(t: Timed, d: nat) returns (u: Timed)
    requires TimelyReach(t, d) && t.auction.life == Snapshotting && t.auction.watcher == Polling
    ensures TimelyReach(u, d)
    ensures u == t.(wake := t.now + PROOF_DURATION,
                    auction := t.auction.(life := ReadingId, log := t.auction.log + [t.auction.contest]))
  {
    var t1 := Timely(t, Act(LifeSnapshot), d);
    u := Timely(t1, Act(LifeStore), d);
  }

  /** It starts the next contest. */
  lemma TimelyNext(t: Timed, d: nat) returns (u: Timed)
    requires TimelyReach(t, d) && t.auction.life == ReadingId && t.auction.watcher == Polling
    requires t.auction.contest.status == Ended && t.wake == t.now + PROOF_DURATION <= t.seen + d
    ensures TimelyReach(u, d)
    ensures u.auction == t.auction.(life := ReadStatus,
                                    contest := FreshContest(t.auction.contest.contestId + 1, 0, 0))
  {
    var t1 := Timely(t, Tick(PROOF_DURATION), d);
    var t2 := Timely(t1, Act(LifeReadId), d);
    u := Timely(t2, Act(LifeStart(0, 0)), d);
  }

  /** A watcher that may take as long as both phases looks just before contest 0 ends and not before
      contest 1 has started: contest 0, which has a bid, is not announced and not in the pipeline. */
  lemma SlowWatcherMisses(d: nat) returns (t: Timed)
    requires d >= CONTEST_DURATION && d >= PROOF_DURATION
    ensures TimelyReach(t, d) && !NoneMissed(t.auction) && !NoneForgotten(t.auction)
  {
    var t0 := TimelyLook(d);
    var t1 := TimelyEnd(t0, d);
    var t2 := TimelyStore(t1, d);
    t := TimelyNext(t2, d);
    assert Pipeline(t.auction) == Pipeline(t0.auction);
    assert !InPipeline(t.auction, 0);
  }

  /** Exactly the periods below both durations, which are equal, guarantee that none is missed. */
  lemma NoneMissedExactly(d: nat)
    ensures (forall t :: TimelyReach(t, d) ==> NoneMissed(t.auction)) <==>
            d < CONTEST_DURATION && d < PROOF_DURATION
    ensures (forall t :: TimelyReach(t, d) ==> NoneForgotten(t.auction)) <==>
            d < CONTEST_DURATION && d < PROOF_DURATION
  {
    if d < CONTEST_DURATION && d < PROOF_DURATION {
      forall t | TimelyReach(t, d) ensures NoneMissed(t.auction) && NoneForgotten(t.auction) {
        var trace, events :| TimedRun(trace, events, d) && NeverBlocked(trace, |events|) && trace[|events|] == t;
        AnnouncedExactlyOnce(trace, events, d, |events|);
        NoContestForgotten(trace, events, d, |events|);
      }
    } else {
      var t := SlowWatcherMisses(d);
    }
  }
}
