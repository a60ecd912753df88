/** The profile half of the verifier as a state machine: the proof task and the `submit_proof` and
    `register_prover` handlers, which read and write prover profiles in separate storage calls.

    The last six fields are histories: no task reads them. */
module Accounts {
  import opened Primitives

  /** The proof task.  From AcceptFetch to AcceptSend it holds the executor lock: the guard taken for
      `verify_proof` lives until the end of the `match`. */
  datatype ProofPc =
    | AwaitProof
    | CheckWindow(proof: ProofData)
    | RejectFetch(proof: ProofData, contest: Contest)
    | RejectWrite(proof: ProofData, contest: Contest, base: ProverProfile)
    | RejectSend(proof: ProofData, contest: Contest)
    | Verifying(proof: ProofData, contest: Contest)
    | AcceptFetch(proof: ProofData, contest: Contest)
    | AcceptWrite(proof: ProofData, contest: Contest, base: ProverProfile)
    | AcceptSend(proof: ProofData, contest: Contest)
    | ProofTaskGone

  /** A `submit_proof` call; a refused one carries the error code it answers. */
  datatype SubmitPc =
    | Sending(proof: ProofData)
    | Fetching(proof: ProofData)
    | Writing(proof: ProofData, base: ProverProfile)
    | Done
    | Refused(error: nat)

  datatype LedgerEvent = Registered(name: string) | Slashed(name: string) | Rewarded(name: string, amount: u64)

  datatype Handled = Handled(proof: ProofData, contest: Contest)

  datatype Accounts = Accounts(
    profiles: map<string, ProverProfile>,
    proofQueue: seq<ProofData>,
    proofTask: ProofPc,
    statusQueue: seq<ProofData>,
    submitters: map<nat, SubmitPc>,
    events: seq<LedgerEvent>,   // registrations, slashes and rewards, as they were written
    emitted: seq<ProofData>,    // statuses put on the status channel
    read: seq<ProofData>,       // statuses read by subscribers
    submitted: seq<ProofData>,  // proofs put on the proof channel
    handled: seq<Handled>,      // proofs the proof task went through to the end
    dropped: seq<ProofData>)    // proofs dropped when the proof task returned early

  const START: Accounts := Accounts(map[], [], AwaitProof, [], map[], [], [], [], [], [], [])

  datatype Step =
    | ProofReceive | ProofCheckWindow(seen: Contest)
    | ProofRejectFetch | ProofRejectWrite | ProofRejectSend
    | ProofVerify | ProofAcceptFetch | ProofAcceptWrite | ProofAcceptSend
    | SubmitArrive(h: nat, proof: ProofData) | SubmitSend(h: nat) | SubmitFetch(h: nat) | SubmitWrite(h: nat)
    | Register(name: string, team: Team, address: string)
    | StatusReceive

  /** The proof task's test, on the contest it has just seen. */
  predicate Late(proof: ProofData, contest: Contest) {
    contest.IsLive() || WrapAdd(contest.endTime, PROOF_DURATION) < proof.timestamp
  }

  function Slash(base: ProverProfile): ProverProfile {
    base.(credits := WrapSub(base.credits, CREDIT_SLASH))
  }

  function Reward(base: ProverProfile, contest: Contest): ProverProfile {
    base.(credits := WrapAdd(base.credits, contest.reward))
  }

  function WithProof(base: ProverProfile, proof: ProofData): ProverProfile {
    base.(proofs := base.proofs + [proof])
  }

  /** `store_prover_profile`: keyed by the profile's own name. */
  function Put(profiles: map<string, ProverProfile>, profile: ProverProfile): map<string, ProverProfile> {
    profiles[profile.proverName := profile]
  }

  predicate HasSubmitter(a: Accounts, h: nat) {
    h in a.submitters
  }

  predicate Enabled(a: Accounts, step: Step) {
    match step
    case ProofReceive => a.proofTask.AwaitProof? && a.proofQueue != []
    case ProofCheckWindow(_) => a.proofTask.CheckWindow?
    case ProofRejectFetch => a.proofTask.RejectFetch?
    case ProofRejectWrite => a.proofTask.RejectWrite?
    case ProofRejectSend => a.proofTask.RejectSend? && |a.statusQueue| < CAPACITY
    case ProofVerify => a.proofTask.Verifying?
    case ProofAcceptFetch => a.proofTask.AcceptFetch?
    case ProofAcceptWrite => a.proofTask.AcceptWrite?
    case ProofAcceptSend => a.proofTask.AcceptSend? && |a.statusQueue| < CAPACITY
    case SubmitArrive(h, _) => !HasSubmitter(a, h)
    case SubmitSend(h) =>
      HasSubmitter(a, h) && a.submitters[h].Sending? &&
      (a.proofTask.ProofTaskGone? || |a.proofQueue| < CAPACITY)
    case SubmitFetch(h) => HasSubmitter(a, h) && a.submitters[h].Fetching?
    case SubmitWrite(h) => HasSubmitter(a, h) && a.submitters[h].Writing?
    case Register(_, _, _) => true
    case StatusReceive => a.statusQueue != []
  }

  /** The task returns: its receiver is dropped with everything queued in it. */
  function ProofTaskReturns(a: Accounts): Accounts
    requires !a.proofTask.AwaitProof? && !a.proofTask.ProofTaskGone?
  {
    a.(proofTask := ProofTaskGone, proofQueue := [], dropped := a.dropped + [a.proofTask.proof] + a.proofQueue)
  }

  function ProofApply(a: Accounts, step: Step): Accounts
    requires Enabled(a, step)
  {
    var t := a.proofTask;
    match step
    case ProofReceive => a.(proofTask := CheckWindow(a.proofQueue[0]), proofQueue := a.proofQueue[1..])
    case ProofCheckWindow(seen) =>
      if Late(t.proof, seen) then a.(proofTask := RejectFetch(t.proof, seen))
      else a.(proofTask := Verifying(t.proof, seen))
    case ProofRejectFetch =>
      (match Lookup(a.profiles, t.proof.proverName)
       case Some(base) => a.(proofTask := RejectWrite(t.proof, t.contest, base))
       case None => ProofTaskReturns(a))
    case ProofRejectWrite =>
      a.(profiles := Put(a.profiles, Slash(t.base)), events := a.events + [Slashed(t.base.proverName)],
         proofTask := RejectSend(t.proof, t.contest))
    case ProofRejectSend =>  // no `continue`: verification follows
      var status := t.proof.(status := Rejected);
      a.(statusQueue := a.statusQueue + [status], emitted := a.emitted + [status],
         proofTask := Verifying(t.proof, t.contest))
    case ProofVerify =>
      if t.proof.valid then a.(proofTask := AcceptFetch(t.proof, t.contest))
      else a.(proofTask := AwaitProof, handled := a.handled + [Handled(t.proof, t.contest)])
    case ProofAcceptFetch =>
      (match Lookup(a.profiles, t.proof.proverName)
       case Some(base) => a.(proofTask := AcceptWrite(t.proof, t.contest, base))
       case None => ProofTaskReturns(a))
    case ProofAcceptWrite =>
      a.(profiles := Put(a.profiles, Reward(t.base, t.contest)),
         events := a.events + [Rewarded(t.base.proverName, t.contest.reward)],
         proofTask := AcceptSend(t.proof, t.contest))
    case ProofAcceptSend =>
      var status := t.proof.(status := Accepted);
      a.(statusQueue := a.statusQueue + [status], emitted := a.emitted + [status],
         proofTask := AwaitProof, handled := a.handled + [Handled(t.proof, t.contest)])
    case _ => a
  }

  function SubmitApply(a: Accounts, step: Step): Accounts
    requires Enabled(a, step)
  {
    match step
    case SubmitArrive(h, proof) =>
      a.(submitters := a.submitters[h := if proof.sane then Sending(proof) else Refused(1)])
    case SubmitSend(h) =>
      var proof := a.submitters[h].proof;
      if a.proofTask.ProofTaskGone? then a.(submitters := a.submitters[h := Refused(2)])
      else a.(submitters := a.submitters[h := Fetching(proof)], proofQueue := a.proofQueue + [proof],
              submitted := a.submitted + [proof])
    case SubmitFetch(h) =>
      var proof := a.submitters[h].proof;
      (match Lookup(a.profiles, proof.proverName)
       case Some(base) => a.(submitters := a.submitters[h := Writing(proof, base)])
       case None => a.(submitters := a.submitters[h := Refused(3)]))
    case SubmitWrite(h) =>
      var w := a.submitters[h];
      a.(profiles := Put(a.profiles, WithProof(w.base, w.proof)), submitters := a.submitters[h := Done])
    case _ => a
  }

  predicate ProofStep(step: Step) {
    step.ProofReceive? || step.ProofCheckWindow? || step.ProofRejectFetch? || step.ProofRejectWrite? ||
    step.ProofRejectSend? || step.ProofVerify? || step.ProofAcceptFetch? || step.ProofAcceptWrite? ||
    step.ProofAcceptSend?
  }

  function Apply(a: Accounts, step: Step): Accounts
    requires Enabled(a, step)
  {
    if ProofStep(step) then ProofApply(a, step)
    else if step.Register? then
      a.(profiles := Put(a.profiles, NewProfile(step.name, step.team, step.address)),
         events := a.events + [Registered(step.name)])
    else if step.StatusReceive? then
      a.(statusQueue := a.statusQueue[1..], read := a.read + [a.statusQueue[0]])
    else SubmitApply(a, step)
  }
}
