/** What the proof task did to the ledger, told from the statuses it emitted and from the proofs it
    went through. */
module ProofHistory {
  import opened Primitives
  import opened Accounts
  import Auction
  import opened System
  import opened Ledger

  datatype Verdict = Verdict(name: string, status: ProofStatus)

  /** The slashes and rewards among the events. */
  function Written(events: seq<LedgerEvent>): seq<LedgerEvent> {
    if events == [] then []
    else Written(events[..|events| - 1]) + NotRegistration(events[|events| - 1])
  }

  function NotRegistration(e: LedgerEvent): seq<LedgerEvent> {
    if e.Registered? then [] else [e]
  }

  function VerdictOf(e: LedgerEvent): Verdict {
    Verdict(e.name, match e
                    case Registered(_) => Pending
                    case Slashed(_) => Rejected
                    case Rewarded(_, _) => Accepted)
  }

  /** Slashes and rewards as verdicts. */
  function Verdicts(written: seq<LedgerEvent>): (vs: seq<Verdict>)
    ensures |vs| == |written| && forall i :: 0 <= i < |vs| ==> vs[i] == VerdictOf(written[i])
  {
    seq(|written|, i requires 0 <= i < |written| => VerdictOf(written[i]))
  }

  /** The verdicts announced on the status channel. */
  function Announced(emitted: seq<ProofData>): (vs: seq<Verdict>)
    ensures |vs| == |emitted|
    ensures forall i :: 0 <= i < |vs| ==> vs[i] == Verdict(emitted[i].proverName, emitted[i].status)
  {
    seq(|emitted|, i requires 0 <= i < |emitted| => Verdict(emitted[i].proverName, emitted[i].status))
  }

  /** What one proof deserves against the contest it is checked with: a slash if it is late, and that
      contest's reward if it verifies.  One does not exclude the other. */
  function Deserved(proof: ProofData, contest: Contest): seq<LedgerEvent> {
    SlashDue(proof, contest) + (if proof.valid then [Rewarded(proof.proverName, contest.reward)] else [])
  }

  function SlashDue(proof: ProofData, contest: Contest): seq<LedgerEvent> {
    if OutsideWindow(proof, contest) then [Slashed(proof.proverName)] else []
  }

  function AllDeserved(handled: seq<Handled>): seq<LedgerEvent> {
    if handled == [] then []
    else AllDeserved(handled[..|handled| - 1]) +
         Deserved(handled[|handled| - 1].proof, handled[|handled| - 1].contest)
  }

  /** The statuses one proof gets: itself, rejected and accepted. */
  function StatusesDue(proof: ProofData, contest: Contest): seq<ProofData> {
    RejectionDue(proof, contest) + (if proof.valid then [proof.(status := Accepted)] else [])
  }

  function RejectionDue(proof: ProofData, contest: Contest): seq<ProofData> {
    if OutsideWindow(proof, contest) then [proof.(status := Rejected)] else []
  }

  function AllStatuses(handled: seq<Handled>): seq<ProofData> {
    if handled == [] then []
    else AllStatuses(handled[..|handled| - 1]) +
         StatusesDue(handled[|handled| - 1].proof, handled[|handled| - 1].contest)
  }

  /** The statuses of the proof in hand that are already out. */
  function StatusesSoFar(t: ProofPc): seq<ProofData> {
    match t
    case Verifying(p, c) => RejectionDue(p, c)
    case AcceptFetch(p, c) => RejectionDue(p, c)
    case AcceptWrite(p, c, _) => RejectionDue(p, c)
    case AcceptSend(p, c) => RejectionDue(p, c)
    case _ => []
  }

  /** The part of the proof in hand that is already in the ledger. */
  function SoFar(t: ProofPc): seq<LedgerEvent> {
    match t
    case RejectSend(p, _) => [Slashed(p.proverName)]
    case Verifying(p, c) => SlashDue(p, c)
    case AcceptFetch(p, c) => SlashDue(p, c)
    case AcceptWrite(p, c, _) => SlashDue(p, c)
    case AcceptSend(p, c) => Deserved(p, c)
    case _ => []
  }

  /** The verdict written but not yet announced. */
  function Unannounced(t: ProofPc): seq<Verdict> {
    match t
    case RejectSend(p, _) => [Verdict(p.proverName, Rejected)]
    case AcceptSend(p, _) => [Verdict(p.proverName, Accepted)]
    case _ => []
  }

  /** What the position of the proof task says about the proof in its hands. */
  ghost predicate TaskInv(a: Accounts) {
    var t := a.proofTask;
    && (t.RejectFetch? || t.RejectWrite? || t.RejectSend? ==> OutsideWindow(t.proof, t.contest))
    && (t.AcceptFetch? || t.AcceptWrite? || t.AcceptSend? ==> t.proof.valid)
    && (t.RejectWrite? || t.AcceptWrite? ==> t.base.proverName == t.proof.proverName)
    && (t.RejectSend? ==> t.proof.proverName in a.profiles)
    && (t.RejectWrite? || t.AcceptWrite? || t.AcceptSend? ==> t.proof.proverName in a.profiles)
    && ((t.Verifying? || t.AcceptFetch?) && OutsideWindow(t.proof, t.contest) ==> t.proof.proverName in a.profiles)
  }

  ghost predicate AnnouncedInv(a: Accounts) {
    Verdicts(Written(a.events)) == Announced(a.emitted) + Unannounced(a.proofTask)
  }

  ghost predicate DeservedInv(a: Accounts) {
    Written(a.events) == AllDeserved(a.handled) + SoFar(a.proofTask)
  }

  lemma WrittenSnoc(events: seq<LedgerEvent>, e: LedgerEvent)
    ensures Written(events + [e]) == Written(events) + NotRegistration(e)
  {
    assert (events + [e])[..|events|] == events;
  }

  lemma VerdictsConcat(xs: seq<LedgerEvent>, ys: seq<LedgerEvent>)
    ensures Verdicts(xs + ys) == Verdicts(xs) + Verdicts(ys)
  {
  }

  lemma AnnouncedSnoc(emitted: seq<ProofData>, p: ProofData)
    ensures Announced(emitted + [p]) == Announced(emitted) + [Verdict(p.proverName, p.status)]
  {
  }

  lemma DeservedSnoc(handled: seq<Handled>, h: Handled)
    ensures AllDeserved(handled + [h]) == AllDeserved(handled) + Deserved(h.proof, h.contest)
  {
    assert (handled + [h])[..|handled|] == handled;
  }

  ghost predicate StatusInv(a: Accounts) {
    a.emitted == AllStatuses(a.handled) + StatusesSoFar(a.proofTask)
  }

  lemma StatusesSnoc(handled: seq<Handled>, h: Handled)
    ensures AllStatuses(handled + [h]) == AllStatuses(handled) + StatusesDue(h.proof, h.contest)
  {
    assert (handled + [h])[..|handled|] == handled;
  }

  lemma StatusStep(a: Accounts, step: Step)
    requires TaskInv(a) && Enabled(a, step) && StatusInv(a)
    ensures StatusInv(Apply(a, step))
  {
    if step.ProofRejectSend? {
      assert StatusesSoFar(a.proofTask) == [];
    } else if step.ProofAcceptSend? || step.ProofVerify? {
      StatusFinish(a, step);
    } else {
      QuietStatuses(a, step);
    }
  }

  lemma StatusFinish(a: Accounts, step: Step)
    requires TaskInv(a) && Enabled(a, step) && StatusInv(a) && (step.ProofAcceptSend? || step.ProofVerify?)
    ensures StatusInv(Apply(a, step))
  {
    var t := a.proofTask;
    if step.ProofAcceptSend? || !t.proof.valid {
      var last := if step.ProofAcceptSend? then [t.proof.(status := Accepted)] else [];
      FinishChange(a, step);
      assert RejectionDue(t.proof, t.contest) + [] == RejectionDue(t.proof, t.contest);
      FinishStatuses(a, Apply(a, step), Handled(t.proof, t.contest), last);
    } else {
      VerifiedChange(a);
    }
  }

  lemma FinishChange(a: Accounts, step: Step)
    requires TaskInv(a) && Enabled(a, step)
    requires step.ProofAcceptSend? || (step.ProofVerify? && !a.proofTask.proof.valid)
    ensures var b, t := Apply(a, step), a.proofTask;
            && b.handled == a.handled + [Handled(t.proof, t.contest)] && b.proofTask == AwaitProof
            && b.emitted == a.emitted + (if step.ProofAcceptSend? then [t.proof.(status := Accepted)] else [])
            && StatusesSoFar(t) == RejectionDue(t.proof, t.contest)
            && (step.ProofAcceptSend? ==> t.proof.valid)
  {
  }

  lemma VerifiedChange(a: Accounts)
    requires Enabled(a, ProofVerify) && a.proofTask.proof.valid
    ensures var b := Apply(a, ProofVerify);
            b.handled == a.handled && b.emitted == a.emitted && StatusesSoFar(b.proofTask) == StatusesSoFar(a.proofTask)
  {
  }

  lemma FinishStatuses(a: Accounts, b: Accounts, h: Handled, last: seq<ProofData>)
    requires StatusInv(a) && b.handled == a.handled + [h] && b.emitted == a.emitted + last
    requires StatusesSoFar(b.proofTask) == []
    requires StatusesSoFar(a.proofTask) + last == StatusesDue(h.proof, h.contest)
    ensures StatusInv(b)
  {
    StatusesSnoc(a.handled, h);
    Regroup(AllStatuses(a.handled), StatusesSoFar(a.proofTask), last);
    assert AllStatuses(b.handled) + [] == AllStatuses(b.handled);
  }

  lemma QuietStatuses(a: Accounts, step: Step)
    requires TaskInv(a) && Enabled(a, step)
    requires !step.ProofRejectSend? && !step.ProofAcceptSend? && !step.ProofVerify?
    ensures var b := Apply(a, step);
            && b.emitted == a.emitted && b.handled == a.handled
            && StatusesSoFar(b.proofTask) == StatusesSoFar(a.proofTask)
  {
    if step.ProofAcceptFetch? {
      assert Lookup(a.profiles, a.proofTask.proof.proverName).None? ==> StatusesSoFar(a.proofTask) == [];
    }
  }

  lemma TaskStep(s: System, m: Move)
    requires KeyInv(s) && TaskInv(s.accounts) && Allowed(s, m)
    ensures TaskInv(Next(s, m).accounts)
  {
    ProfilesAfter(s, m);
    match m
    case AuctionMove(_) =>
    case AccountMove(b) =>
      if ProofStep(b) {
        ProofTaskStep(s, b);
      }
  }

  lemma ProofTaskStep(s: System, b: Step)
    requires KeyInv(s) && TaskInv(s.accounts) && Allowed(s, AccountMove(b)) && ProofStep(b)
    ensures TaskInv(Next(s, AccountMove(b)).accounts)
  {
  }

  /** How a step changes the histories: it writes an event, or announces a status and may finish the
      proof, or finishes it, or none of these. */
  ghost predicate Writes(a: Accounts, b: Accounts, e: LedgerEvent) {
    && b.events == a.events + [e] && b.emitted == a.emitted && b.handled == a.handled
    && SoFar(b.proofTask) == SoFar(a.proofTask) + NotRegistration(e)
    && Unannounced(b.proofTask) == Unannounced(a.proofTask) + Verdicts(NotRegistration(e))
  }

  ghost predicate Announces(a: Accounts, b: Accounts, status: ProofData) {
    && b.events == a.events && b.emitted == a.emitted + [status]
    && Unannounced(a.proofTask) == [Verdict(status.proverName, status.status)] && Unannounced(b.proofTask) == []
  }

  ghost predicate Finishes(a: Accounts, b: Accounts, h: Handled) {
    && b.events == a.events && b.handled == a.handled + [h]
    && SoFar(a.proofTask) == Deserved(h.proof, h.contest) && SoFar(b.proofTask) == []
  }

  lemma WritesKeeps(a: Accounts, b: Accounts, e: LedgerEvent)
    requires Writes(a, b, e) && AnnouncedInv(a) && DeservedInv(a)
    ensures AnnouncedInv(b) && DeservedInv(b)
  {
    WrittenSnoc(a.events, e);
    VerdictsConcat(Written(a.events), NotRegistration(e));
    Regroup(Announced(a.emitted), Unannounced(a.proofTask), Verdicts(NotRegistration(e)));
    Regroup(AllDeserved(a.handled), SoFar(a.proofTask), NotRegistration(e));
  }

  lemma Regroup<T>(x: seq<T>, y: seq<T>, z: seq<T>)
    ensures (x + y) + z == x + (y + z)
  {
  }

  lemma AnnouncesKeeps(a: Accounts, b: Accounts, status: ProofData)
    requires Announces(a, b, status) && AnnouncedInv(a)
    ensures AnnouncedInv(b)
  {
    AnnouncedSnoc(a.emitted, status);
    assert Announced(b.emitted) + [] == Announced(b.emitted);
  }

  lemma FinishesKeeps(a: Accounts, b: Accounts, h: Handled)
    requires Finishes(a, b, h) && DeservedInv(a)
    ensures DeservedInv(b)
  {
    DeservedSnoc(a.handled, h);
    assert AllDeserved(b.handled) + [] == AllDeserved(b.handled);
  }

  lemma VerdictStep(a: Accounts, step: Step)
    requires TaskInv(a) && Enabled(a, step) && AnnouncedInv(a) && DeservedInv(a)
    ensures AnnouncedInv(Apply(a, step)) && DeservedInv(Apply(a, step))
  {
    if step.Register? {
      WritesKeeps(a, Apply(a, step), Registered(step.name));
    } else if step.ProofRejectWrite? || step.ProofAcceptWrite? {
      WriteStep(a, step);
    } else if step.ProofRejectSend? || step.ProofAcceptSend? {
      SendStep(a, step);
    } else if step.ProofVerify? && !a.proofTask.proof.valid {
      FinishesKeeps(a, Apply(a, step), Handled(a.proofTask.proof, a.proofTask.contest));
    } else {
      QuietVerdicts(a, step);
    }
  }

  lemma WriteStep(a: Accounts, step: Step)
    requires TaskInv(a) && Enabled(a, step) && AnnouncedInv(a) && DeservedInv(a)
    requires step.ProofRejectWrite? || step.ProofAcceptWrite?
    ensures AnnouncedInv(Apply(a, step)) && DeservedInv(Apply(a, step))
  {
    var t := a.proofTask;
    var e := if step.ProofRejectWrite? then Slashed(t.proof.proverName)
             else Rewarded(t.proof.proverName, t.contest.reward);
    WritesKeeps(a, Apply(a, step), e);
  }

  lemma SendStep(a: Accounts, step: Step)
    requires TaskInv(a) && Enabled(a, step) && AnnouncedInv(a) && DeservedInv(a)
    requires step.ProofRejectSend? || step.ProofAcceptSend?
    ensures AnnouncedInv(Apply(a, step)) && DeservedInv(Apply(a, step))
  {
    if step.ProofRejectSend? {
      RejectSendEffect(a);
    } else {
      AcceptSendEffect(a);
      FinishesKeeps(a, Apply(a, step), Handled(a.proofTask.proof, a.proofTask.contest));
    }
    var status := a.proofTask.proof.(status := if step.ProofRejectSend? then Rejected else Accepted);
    AnnouncesKeeps(a, Apply(a, step), status);
  }

  lemma RejectSendEffect(a: Accounts)
    requires TaskInv(a) && Enabled(a, ProofRejectSend)
    ensures var b := Apply(a, ProofRejectSend);
            && Announces(a, b, a.proofTask.proof.(status := Rejected))
            && b.handled == a.handled && SoFar(b.proofTask) == SoFar(a.proofTask)
  {
  }

  lemma AcceptSendEffect(a: Accounts)
    requires TaskInv(a) && Enabled(a, ProofAcceptSend)
    ensures var b := Apply(a, ProofAcceptSend);
            && Announces(a, b, a.proofTask.proof.(status := Accepted))
            && Finishes(a, b, Handled(a.proofTask.proof, a.proofTask.contest))
  {
  }

  lemma QuietVerdicts(a: Accounts, step: Step)
    requires TaskInv(a) && Enabled(a, step)
    requires !step.Register? && !step.ProofRejectWrite? && !step.ProofAcceptWrite?
    requires !step.ProofRejectSend? && !step.ProofAcceptSend?
    requires step.ProofVerify? ==> a.proofTask.proof.valid
    ensures var b := Apply(a, step);
            && b.events == a.events && b.emitted == a.emitted && b.handled == a.handled
            && SoFar(b.proofTask) == SoFar(a.proofTask)
            && Unannounced(b.proofTask) == Unannounced(a.proofTask)
  {
    if step.ProofAcceptFetch? {
      assert Lookup(a.profiles, a.proofTask.proof.proverName).None? ==> SoFar(a.proofTask) == [];
    }
  }

  // ----- where proofs and statuses go -----------------------------------------------------------

  function Proofs(handled: seq<Handled>): (ps: seq<ProofData>)
    ensures |ps| == |handled| && forall i :: 0 <= i < |handled| ==> ps[i] == handled[i].proof
  {
    seq(|handled|, i requires 0 <= i < |handled| => handled[i].proof)
  }

  function InHand(t: ProofPc): seq<ProofData> {
    if t.AwaitProof? || t.ProofTaskGone? then [] else [t.proof]
  }

  /** Every proof submitted is, in order, gone through, in hand, queued, or dropped by the early
      return; every status emitted is read or queued. */
  ghost predicate ProofFlowInv(a: Accounts) {
    && a.submitted == Proofs(a.handled) + InHand(a.proofTask) + a.proofQueue + a.dropped
    && (a.proofTask.ProofTaskGone? ==> a.proofQueue == [])
    && (!a.proofTask.ProofTaskGone? ==> a.dropped == [])
    && a.emitted == a.read + a.statusQueue
  }

  lemma ProofFlowStep(a: Accounts, step: Step)
    requires ProofFlowInv(a) && Enabled(a, step)
    ensures ProofFlowInv(Apply(a, step))
  {
    if ProofStep(step) {
      ProofTaskFlow(a, step);
    } else if step.SubmitSend? {
      SubmitFlow(a, step);
    }
  }

  lemma ProofTaskFlow(a: Accounts, step: Step)
    requires ProofFlowInv(a) && Enabled(a, step) && ProofStep(step)
    ensures ProofFlowInv(Apply(a, step))
  {
    var b, t := Apply(a, step), a.proofTask;
    if step.ProofReceive? {
      assert InHand(b.proofTask) + b.proofQueue == a.proofQueue;
    } else if step.ProofVerify? || step.ProofAcceptSend? {
      FinishFlow(a, step);
    } else if step.ProofRejectFetch? || step.ProofAcceptFetch? {
      FetchFlow(a, step);
    } else {
      assert InHand(b.proofTask) == InHand(t);
    }
  }

  lemma FinishFlow(a: Accounts, step: Step)
    requires ProofFlowInv(a) && Enabled(a, step) && (step.ProofVerify? || step.ProofAcceptSend?)
    ensures ProofFlowInv(Apply(a, step))
  {
    var b, t := Apply(a, step), a.proofTask;
    if b.handled != a.handled {
      assert InHand(t) == [t.proof] && InHand(b.proofTask) == [];
      assert Proofs(b.handled) == Proofs(a.handled) + InHand(t);
    } else {
      assert InHand(b.proofTask) == InHand(t);
    }
  }

  lemma FetchFlow(a: Accounts, step: Step)
    requires ProofFlowInv(a) && Enabled(a, step) && (step.ProofRejectFetch? || step.ProofAcceptFetch?)
    ensures ProofFlowInv(Apply(a, step))
  {
    var b, t := Apply(a, step), a.proofTask;
    if b.proofTask.ProofTaskGone? {
      assert InHand(t) == [t.proof] && InHand(b.proofTask) == [];
      assert b.dropped == InHand(t) + a.proofQueue;
    } else {
      assert InHand(b.proofTask) == InHand(t);
    }
  }

  lemma SubmitFlow(a: Accounts, step: Step)
    requires ProofFlowInv(a) && Enabled(a, step) && step.SubmitSend?
    ensures ProofFlowInv(Apply(a, step))
  {
    if !a.proofTask.ProofTaskGone? {
      assert a.dropped == [];
      assert Apply(a, step).submitted == a.submitted + [a.submitters[step.h].proof];
    }
  }

  // ----- the amounts ---------------------------------------------------------------------------

  /** A contest that was started pays the fixed reward, the one the executor begins with nothing. */
  predicate PaysRight(c: Contest) {
    c.reward == if c.status == NotStarted then 0 else CONTEST_REWARD
  }

  predicate HoldsContest(t: ProofPc) {
    !t.AwaitProof? && !t.CheckWindow? && !t.ProofTaskGone?
  }

  ghost predicate AmountInv(s: System) {
    && PaysRight(s.auction.contest)
    && (s.auction.life.Ending? ==> s.auction.contest.status == Live)
    && (HoldsContest(s.accounts.proofTask) ==> PaysRight(s.accounts.proofTask.contest))
    && (forall h :: h in s.accounts.handled ==> PaysRight(h.contest))
  }

  lemma AmountStep(s: System, m: Move)
    requires AmountInv(s) && Allowed(s, m)
    ensures AmountInv(Next(s, m))
  {
    match m
    case AuctionMove(a) => ContestAmount(s, a);
    case AccountMove(b) => HandledAmount(s, b);
  }

  lemma ContestAmount(s: System, a: Auction.Step)
    requires AmountInv(s) && Allowed(s, AuctionMove(a))
    ensures AmountInv(Next(s, AuctionMove(a)))
  {
    CurrentAmount(s.auction, a);
    var t := Next(s, AuctionMove(a));
    assert t.accounts.proofTask == s.accounts.proofTask && t.accounts.handled == s.accounts.handled;
  }

  lemma CurrentAmount(a: Auction.Auction, step: Auction.Step)
    requires Auction.Enabled(a, step) && PaysRight(a.contest)
    requires a.life.Ending? ==> a.contest.status == Live
    ensures var b := Auction.Apply(a, step);
            PaysRight(b.contest) && (b.life.Ending? ==> b.contest.status == Live)
  {
    if !Auction.LifeStep(step) {
      PhaseAndReward(a, step);
    }
  }

  lemma PhaseAndReward(a: Auction.Auction, step: Auction.Step)
    requires Auction.Enabled(a, step) && !Auction.LifeStep(step)
    ensures var b := Auction.Apply(a, step);
            b.life == a.life && b.contest.status == a.contest.status && b.contest.reward == a.contest.reward
  {
  }

  lemma HandledAmount(s: System, b: Step)
    requires AmountInv(s) && Allowed(s, AccountMove(b))
    ensures AmountInv(Next(s, AccountMove(b)))
  {
  }

  /** The ledger's amounts are the two constants, except for rewards of nothing. */
  ghost predicate FixedAmounts(written: seq<LedgerEvent>) {
    forall e :: e in written ==> e.Slashed? || (e.Rewarded? && (e.amount == CONTEST_REWARD || e.amount == 0))
  }

  lemma {:induction false} DeservedAmounts(handled: seq<Handled>)
    requires forall h :: h in handled ==> PaysRight(h.contest)
    ensures FixedAmounts(AllDeserved(handled))
  {
    if handled == [] {
    } else {
      assert handled[|handled| - 1] in handled;
      DeservedAmounts(handled[..|handled| - 1]);
    }
  }

  /** How many slashes and rewards there were when `name` registered last. */
  function Since(events: seq<LedgerEvent>, name: string): (k: nat)
    ensures k <= |Written(events)|
  {
    if events == [] then 0
    else
      var front, last := events[..|events| - 1], events[|events| - 1];
      if last == Registered(name) then |Written(front)| else Since(front, name)
  }

  /** What slashes and rewards add up to for `name`. */
  function Tally(written: seq<LedgerEvent>, name: string): int {
    if written == [] then 0
    else Tally(written[..|written| - 1], name) + Amount(written[|written| - 1], name)
  }

  function Amount(e: LedgerEvent, name: string): int {
    if e.name != name then 0
    else match e
         case Registered(_) => 0
         case Slashed(_) => 0 - CREDIT_SLASH
         case Rewarded(_, amount) => amount
  }

  lemma {:induction false} TallySnoc(written: seq<LedgerEvent>, e: LedgerEvent, name: string)
    ensures Tally(written + NotRegistration(e), name) == Tally(written, name) + Amount(e, name)
  {
    if e.Registered? {
      assert written + [] == written;
    } else {
      assert (written + [e])[..|written|] == written;
    }
  }

  lemma {:induction false} BalanceMoves(events: seq<LedgerEvent>, e: LedgerEvent, name: string)
    ensures Balance(events + [e], name) ==
            if e == Registered(name) then 0 else Balance(events, name) + Amount(e, name)
  {
    BalanceSnoc(events, e, name);
  }

  /** The balance is the sum of what was written since the last registration. */
  lemma {:induction false} BalanceIsTally(events: seq<LedgerEvent>, name: string)
    ensures Balance(events, name) == Tally(Written(events)[Since(events, name)..], name)
  {
    if events == [] {
    } else {
      var front, last := events[..|events| - 1], events[|events| - 1];
      BalanceIsTally(front, name);
      BalanceStaysTally(front, last, name);
      assert events == front + [last];
    }
  }

  lemma {:induction false} BalanceStaysTally(events: seq<LedgerEvent>, e: LedgerEvent, name: string)
    requires Balance(events, name) == Tally(Written(events)[Since(events, name)..], name)
    ensures Balance(events + [e], name) == Tally(Written(events + [e])[Since(events + [e], name)..], name)
  {
    BalanceMoves(events, e, name);
    SinceSnoc(events, e, name);
    TallySnoc(Written(events)[Since(events, name)..], e, name);
  }

  /** What was written since then, after one more event. */
  lemma {:induction false} SinceSnoc(events: seq<LedgerEvent>, e: LedgerEvent, name: string)
    ensures Written(events + [e])[Since(events + [e], name)..] ==
            if e == Registered(name) then [] else Written(events)[Since(events, name)..] + NotRegistration(e)
  {
    WrittenSnoc(events, e);
    assert (events + [e])[..|events|] == events;
  }

  function Count<T(==)>(xs: seq<T>, x: T): nat {
    if xs == [] then 0 else Count(xs[..|xs| - 1], x) + (if xs[|xs| - 1] == x then 1 else 0)
  }

  lemma {:induction false} TallyIsCounts(written: seq<LedgerEvent>, name: string)
    requires FixedAmounts(written)
    ensures Tally(written, name) ==
            CONTEST_REWARD * Count(Verdicts(written), Verdict(name, Accepted))
            - CREDIT_SLASH * Count(Verdicts(written), Verdict(name, Rejected))
            - CONTEST_REWARD * Count(written, Rewarded(name, 0))
  {
    if written == [] {
    } else {
      var front, last := written[..|written| - 1], written[|written| - 1];
      assert last in written;
      TallyIsCounts(front, name);
      assert Verdicts(written)[..|front|] == Verdicts(front);
    }
  }

  // ----- over runs ---------------------------------------------------------------------------

  ghost predicate HistoryInv(s: System) {
    && KeyInv(s) && TaskInv(s.accounts) && AnnouncedInv(s.accounts) && DeservedInv(s.accounts)
    && ProofFlowInv(s.accounts) && StatusInv(s.accounts) && AmountInv(s)
  }

  lemma HistoryStep(s: System, m: Move)
    requires HistoryInv(s) && Allowed(s, m)
    ensures HistoryInv(Next(s, m))
  {
    KeyStep(s, m);
    TaskStep(s, m);
    AmountStep(s, m);
    match m
    case AuctionMove(_) =>
    case AccountMove(b) =>
      VerdictStep(s.accounts, b);
      StatusStep(s.accounts, b);
      ProofFlowStep(s.accounts, b);
  }

  lemma {:induction false} RunKeepsHistory(trace: seq<System>, moves: seq<Move>, n: nat)
    requires Run(trace, moves) && n <= |moves|
    ensures HistoryInv(trace[n])
  {
    if n > 0 {
      RunKeepsHistory(trace, moves, n - 1);
      HistoryStep(trace[n - 1], moves[n - 1]);
      assert trace[n - 1 + 1] == Next(trace[n - 1], moves[n - 1]);
    }
  }

  /** No proof and no status disappears unaccounted for, and both keep their order. */
  lemma ProofsConserved(trace: seq<System>, moves: seq<Move>, n: nat)
    requires Run(trace, moves) && n <= |moves|
    ensures var a := trace[n].accounts;
            && a.submitted == Proofs(a.handled) + InHand(a.proofTask) + a.proofQueue + a.dropped
            && (a.dropped != [] ==> a.proofTask.ProofTaskGone?)
            && a.emitted == a.read + a.statusQueue
  {
    RunKeepsHistory(trace, moves, n);
  }

  /** In every run, interference or not, the slashes and rewards written are, in order, the statuses
      emitted plus the one about to be; and they are what the proofs handled deserve, late ones that
      verify being slashed and then rewarded, plus what is done of the proof in hand.  Rewards are the
      fixed one, or nothing for a proof checked before contest 0 was started. */
  lemma LedgerTellsVerdicts(trace: seq<System>, moves: seq<Move>, n: nat)
    requires Run(trace, moves) && n <= |moves|
    ensures var a := trace[n].accounts;
            && Verdicts(Written(a.events)) == Announced(a.emitted) + Unannounced(a.proofTask)
            && Written(a.events) == AllDeserved(a.handled) + SoFar(a.proofTask)
            && (forall h :: h in a.handled ==> PaysRight(h.contest))
            && (HoldsContest(a.proofTask) ==> PaysRight(a.proofTask.contest))
  {
    RunKeepsHistory(trace, moves, n);
  }

  /** Where the ledger entries, and the statuses, of handled proof k begin. */
  function Cut(handled: seq<Handled>, k: nat): nat
    requires k <= |handled|
  {
    |AllDeserved(handled[..k])|
  }

  lemma {:induction false} DeservedPrefix(handled: seq<Handled>, k: nat)
    requires k <= |handled|
    ensures AllDeserved(handled[..k]) <= AllDeserved(handled)
  {
    if k < |handled| {
      DeservedPrefix(handled[..|handled| - 1], k);
      assert handled[..|handled| - 1][..k] == handled[..k];
    } else {
      assert handled[..k] == handled;
    }
  }

  lemma {:induction false} StatusesPrefix(handled: seq<Handled>, k: nat)
    requires k <= |handled|
    ensures AllStatuses(handled[..k]) <= AllStatuses(handled)
  {
    if k < |handled| {
      StatusesPrefix(handled[..|handled| - 1], k);
      assert handled[..|handled| - 1][..k] == handled[..k];
    } else {
      assert handled[..k] == handled;
    }
  }

  lemma {:induction false} DeservedPiece(handled: seq<Handled>, k: nat)
    requires k < |handled|
    ensures Cut(handled, k) <= Cut(handled, k + 1) <= |AllDeserved(handled)|
    ensures AllDeserved(handled)[Cut(handled, k)..Cut(handled, k + 1)] == Deserved(handled[k].proof, handled[k].contest)
  {
    assert handled[..k + 1] == handled[..k] + [handled[k]];
    DeservedSnoc(handled[..k], handled[k]);
    DeservedPrefix(handled, k + 1);
    Middle(AllDeserved(handled[..k]), Deserved(handled[k].proof, handled[k].contest), AllDeserved(handled));
  }

  lemma {:induction false} StatusesPiece(handled: seq<Handled>, k: nat)
    requires k < |handled|
    ensures Cut(handled, k) <= Cut(handled, k + 1) <= |AllStatuses(handled)|
    ensures AllStatuses(handled)[Cut(handled, k)..Cut(handled, k + 1)] == StatusesDue(handled[k].proof, handled[k].contest)
  {
    assert handled[..k + 1] == handled[..k] + [handled[k]];
    StatusesSnoc(handled[..k], handled[k]);
    StatusesPrefix(handled, k + 1);
    SameLength(handled[..k]);
    SameLength(handled[..k + 1]);
    Middle(AllStatuses(handled[..k]), StatusesDue(handled[k].proof, handled[k].contest), AllStatuses(handled));
  }

  lemma Middle<T>(x: seq<T>, y: seq<T>, z: seq<T>)
    requires x + y <= z
    ensures z[|x|..|x + y|] == y
  {
  }

  lemma {:induction false} SameLength(handled: seq<Handled>)
    ensures |AllDeserved(handled)| == |AllStatuses(handled)|
  {
    if handled == [] {
    } else {
      SameLength(handled[..|handled| - 1]);
    }
  }

  /** What every proof handled in a run brought on, in numbers: a slash and a Rejected status if and
      only if it was seen while its contest was live or its timestamp is past that contest's end time
      plus 10000; a reward and an Accepted status if and only if it verifies; the statuses are the proof
      itself otherwise unchanged. */
  lemma EachProofExactly(trace: seq<System>, moves: seq<Move>, n: nat, k: nat)
    requires Run(trace, moves) && n <= |moves| && k < |trace[n].accounts.handled|
    ensures var a := trace[n].accounts;
            var p, c := a.handled[k].proof, a.handled[k].contest;
            var lo, hi := Cut(a.handled, k), Cut(a.handled, k + 1);
            var late := c.status == Live || p.timestamp > (c.endTime + 10000) % 0x1_0000_0000_0000_0000;
            && lo <= hi <= |a.emitted| <= |Written(a.events)|
            && Written(a.events)[lo..hi] ==
               (if late then [Slashed(p.proverName)] else [])
               + (if p.valid then [Rewarded(p.proverName, if c.status == NotStarted then 0 else 1500)] else [])
            && a.emitted[lo..hi] ==
               (if late then [p.(status := Rejected)] else []) + (if p.valid then [p.(status := Accepted)] else [])
  {
    RunKeepsHistory(trace, moves, n);
    assert trace[n].accounts.handled[k] in trace[n].accounts.handled;
    PiecesInHand(trace[n].accounts, k);
  }

  lemma PiecesInHand(a: Accounts, k: nat)
    requires DeservedInv(a) && StatusInv(a) && AnnouncedInv(a) && k < |a.handled|
    ensures var lo, hi := Cut(a.handled, k), Cut(a.handled, k + 1);
            && lo <= hi <= |a.emitted| <= |Written(a.events)|
            && Written(a.events)[lo..hi] == Deserved(a.handled[k].proof, a.handled[k].contest)
            && a.emitted[lo..hi] == StatusesDue(a.handled[k].proof, a.handled[k].contest)
  {
    DeservedPiece(a.handled, k);
    StatusesPiece(a.handled, k);
    var lo, hi := Cut(a.handled, k), Cut(a.handled, k + 1);
    SliceOfFirst(AllDeserved(a.handled), SoFar(a.proofTask), lo, hi);
    SliceOfFirst(AllStatuses(a.handled), StatusesSoFar(a.proofTask), lo, hi);
  }

  lemma SliceOfFirst<T>(x: seq<T>, y: seq<T>, lo: nat, hi: nat)
    requires lo <= hi <= |x|
    ensures (x + y)[lo..hi] == x[lo..hi]
  {
  }

  /** The statuses told about `name` since it registered last: 1500 for each acceptance, less 1000 for
      each rejection and less 1500 for each acceptance that paid nothing, are its balance. */
  lemma BalanceFromStatuses(trace: seq<System>, moves: seq<Move>, n: nat, name: string)
    requires Run(trace, moves) && n <= |moves|
    ensures var a := trace[n].accounts;
            var told, since := Announced(a.emitted) + Unannounced(a.proofTask), Since(a.events, name);
            && since <= |told| == |Written(a.events)|
            && Balance(a.events, name) ==
               CONTEST_REWARD * Count(told[since..], Verdict(name, Accepted))
               - CREDIT_SLASH * Count(told[since..], Verdict(name, Rejected))
               - CONTEST_REWARD * Count(Written(a.events)[since..], Rewarded(name, 0))
  {
    RunKeepsHistory(trace, moves, n);
    var a := trace[n].accounts;
    WrittenAmounts(a);
    BalanceFromVerdicts(a.events, name);
  }

  lemma WrittenAmounts(a: Accounts)
    requires DeservedInv(a) && (forall h :: h in a.handled ==> PaysRight(h.contest))
    requires HoldsContest(a.proofTask) ==> PaysRight(a.proofTask.contest)
    ensures FixedAmounts(Written(a.events))
  {
    DeservedAmounts(a.handled);
    assert FixedAmounts(SoFar(a.proofTask));
  }

  lemma {:induction false} BalanceFromVerdicts(events: seq<LedgerEvent>, name: string)
    requires FixedAmounts(Written(events))
    ensures var told, since := Verdicts(Written(events)), Since(events, name);
            Balance(events, name) ==
            CONTEST_REWARD * Count(told[since..], Verdict(name, Accepted))
            - CREDIT_SLASH * Count(told[since..], Verdict(name, Rejected))
            - CONTEST_REWARD * Count(Written(events)[since..], Rewarded(name, 0))
  {
    var written, since := Written(events), Since(events, name);
    BalanceIsTally(events, name);
    TallyIsCounts(written[since..], name);
    assert Verdicts(written)[since..] == Verdicts(written[since..]);
  }

  /** No acceptance of `name` pays nothing once every proof was checked against a started contest. */
  lemma StartedContestsPay(a: Accounts, name: string, since: nat)
    requires DeservedInv(a) && since <= |Written(a.events)|
    requires forall h :: h in a.handled ==> PaysRight(h.contest) && h.contest.status != NotStarted
    requires HoldsContest(a.proofTask) ==>
               PaysRight(a.proofTask.contest) && a.proofTask.contest.status != NotStarted
    ensures Count(Written(a.events)[since..], Rewarded(name, 0)) == 0
  {
    NothingUnpaid(a.handled, name);
    assert Rewarded(name, 0) !in SoFar(a.proofTask);
    CountNone(Written(a.events), since, Rewarded(name, 0));
  }

  lemma {:induction false} NothingUnpaid(handled: seq<Handled>, name: string)
    requires forall h :: h in handled ==> PaysRight(h.contest) && h.contest.status != NotStarted
    ensures Rewarded(name, 0) !in AllDeserved(handled)
  {
    if handled == [] {
    } else {
      assert handled[|handled| - 1] in handled;
      NothingUnpaid(handled[..|handled| - 1], name);
    }
  }

  lemma {:induction false} CountNone(written: seq<LedgerEvent>, since: nat, e: LedgerEvent)
    requires e !in written && since <= |written|
    ensures Count(written[since..], e) == 0
  {
    if since < |written| {
      var front := written[..|written| - 1];
      CountNone(front, since, e);
      assert written[since..][..|written| - since - 1] == front[since..];
    }
  }

  /** The closed ledger: in a run that writes back `name`'s profile only with the credits still stored,
      and in which every proof was checked after contest 0 was started, the stored credits are, modulo
      2^64, 1500 for each acceptance told less 1000 for each rejection since `name` registered last. */
  lemma CreditsFromStatuses(trace: seq<System>, moves: seq<Move>, n: nat, name: string)
    requires Run(trace, moves) && n <= |moves| && UnchangedThrough(trace, moves, n, name)
    requires name in trace[n].accounts.profiles
    requires forall h :: h in trace[n].accounts.handled ==> h.contest.status != NotStarted
    requires HoldsContest(trace[n].accounts.proofTask) ==> trace[n].accounts.proofTask.contest.status != NotStarted
    ensures var a := trace[n].accounts;
            var told, since := Announced(a.emitted) + Unannounced(a.proofTask), Since(a.events, name);
            && since <= |told|
            && a.profiles[name].credits ==
               (CONTEST_REWARD * Count(told[since..], Verdict(name, Accepted))
                - CREDIT_SLASH * Count(told[since..], Verdict(name, Rejected))) % U64
  {
    CreditsAreBalanced(trace, moves, n, name);
    StartedBalance(trace, moves, n, name);
  }

  lemma StartedBalance(trace: seq<System>, moves: seq<Move>, n: nat, name: string)
    requires Run(trace, moves) && n <= |moves|
    requires forall h :: h in trace[n].accounts.handled ==> h.contest.status != NotStarted
    requires HoldsContest(trace[n].accounts.proofTask) ==> trace[n].accounts.proofTask.contest.status != NotStarted
    ensures var a := trace[n].accounts;
            var told, since := Announced(a.emitted) + Unannounced(a.proofTask), Since(a.events, name);
            && since <= |told|
            && Balance(a.events, name) ==
               CONTEST_REWARD * Count(told[since..], Verdict(name, Accepted))
               - CREDIT_SLASH * Count(told[since..], Verdict(name, Rejected))
  {
    BalanceFromStatuses(trace, moves, n, name);
    NothingUnpaidSince(trace, moves, n, name);
  }

  lemma CreditsAreBalanced(trace: seq<System>, moves: seq<Move>, n: nat, name: string)
    requires Run(trace, moves) && n <= |moves| && UnchangedThrough(trace, moves, n, name)
    requires name in trace[n].accounts.profiles
    ensures trace[n].accounts.profiles[name].credits == Balance(trace[n].accounts.events, name) % U64
  {
    LedgerExactly(trace, moves, n, name);
    assert BalancedFor(trace[n].accounts, name);
  }

  lemma NothingUnpaidSince(trace: seq<System>, moves: seq<Move>, n: nat, name: string)
    requires Run(trace, moves) && n <= |moves|
    requires forall h :: h in trace[n].accounts.handled ==> h.contest.status != NotStarted
    requires HoldsContest(trace[n].accounts.proofTask) ==> trace[n].accounts.proofTask.contest.status != NotStarted
    ensures Count(Written(trace[n].accounts.events)[Since(trace[n].accounts.events, name)..], Rewarded(name, 0)) == 0
  {
    RunKeepsHistory(trace, moves, n);
    StartedContestsPay(trace[n].accounts, name, Since(trace[n].accounts.events, name));
  }

  /** The missing-profile exit of the accepting branch is only taken by a proof inside its window: a
      late proof was slashed first, so its prover is registered. */
  lemma OnlyTimelyProofsExitOnAccept(trace: seq<System>, moves: seq<Move>, n: nat)
    requires Run(trace, moves) && n < |moves|
    requires moves[n] == AccountMove(ProofAcceptFetch)
    requires trace[n + 1].accounts.proofTask.ProofTaskGone?
    ensures var t := trace[n].accounts.proofTask;
            && t.contest.status != Live
            && t.proof.timestamp <= (t.contest.endTime + 10000) % 0x1_0000_0000_0000_0000
    ensures trace[n].accounts.proofTask.proof.proverName !in trace[n].accounts.profiles
  {
    RunKeepsHistory(trace, moves, n);
    TimelyExit(trace[n]);
  }

  lemma TimelyExit(s: System)
    requires TaskInv(s.accounts) && Allowed(s, AccountMove(ProofAcceptFetch))
    requires Next(s, AccountMove(ProofAcceptFetch)).accounts.proofTask.ProofTaskGone?
    ensures !OutsideWindow(s.accounts.proofTask.proof, s.accounts.proofTask.contest)
    ensures s.accounts.proofTask.proof.proverName !in s.accounts.profiles
  {
  }
}
