/** What becomes of a `submit_proof` call: which calls are refused and how, and that nothing which fails
    the signature check ever gets any further. */
module Submissions {
  import opened Primitives
  import opened Accounts
  import opened System
  import opened Ledger
  import opened ProofHistory

  /** The answer a call will never change. */
  predicate Answered(pc: SubmitPc) {
    pc.Done? || pc.Refused?
  }

  /** How a call moves: it arrives with its proof and is refused at once, with error 1, exactly when the
      proof fails the signature check; it is refused with error 2 exactly when it sends after the proof
      task has returned, and with error 3 exactly when its prover is not registered when it looks; and it
      is done exactly when it writes the profile back.  No other move touches it. */
  ghost predicate CallMoves(s: System, m: Move, h: nat)
    requires Allowed(s, m)
  {
    var a, b := s.accounts, Next(s, m).accounts;
    if h !in a.submitters then
      if m.AccountMove? && m.b.SubmitArrive? && m.b.h == h then
        h in b.submitters && b.submitters[h] == if m.b.proof.sane then Sending(m.b.proof) else Refused(1)
      else h !in b.submitters
    else
      && h in b.submitters
      && var old', new' := a.submitters[h], b.submitters[h];
      if m == AccountMove(SubmitSend(h)) then
        new' == if a.proofTask == ProofTaskGone then Refused(2) else Fetching(old'.proof)
      else if m == AccountMove(SubmitFetch(h)) then
        new' == if old'.proof.proverName in a.profiles
                then Writing(old'.proof, a.profiles[old'.proof.proverName]) else Refused(3)
      else if m == AccountMove(SubmitWrite(h)) then new' == Done
      else new' == old'
  }

  lemma CallsMove(s: System, m: Move, h: nat)
    requires Allowed(s, m)
    ensures CallMoves(s, m, h)
  {
  }

  /** A call refused on arrival leaves everything else as it was: nothing is queued and no profile
      changes.  A call that is not refused queues its proof last, once. */
  lemma RefusedLeavesNothing(s: System, h: nat, proof: ProofData)
    requires Allowed(s, AccountMove(SubmitArrive(h, proof)))
    ensures var t := Next(s, AccountMove(SubmitArrive(h, proof)));
            && t.auction == s.auction
            && t.accounts == s.accounts.(submitters := t.accounts.submitters)
            && h in t.accounts.submitters
            && (Answered(t.accounts.submitters[h]) <==> !proof.sane)
  {
  }

  lemma QueuedOnce(s: System, h: nat)
    requires Allowed(s, AccountMove(SubmitSend(h)))
    ensures var a, b := s.accounts, Next(s, AccountMove(SubmitSend(h))).accounts;
            && b.profiles == a.profiles
            && b.submitted == (if a.proofTask == ProofTaskGone then a.submitted else a.submitted + [a.submitters[h].proof])
            && b.proofQueue == (if a.proofTask == ProofTaskGone then a.proofQueue else a.proofQueue + [a.submitters[h].proof])
  {
  }

  // ----- the signature check -------------------------------------------------------------------

  /** A call that has not been answered holds a proof that passed. */
  predicate Vetted(pc: SubmitPc) {
    Answered(pc) || pc.proof.sane
  }

  ghost predicate SaneInv(a: Accounts) {
    && (forall p :: p in a.submitted ==> p.sane)
    && (forall h :: h in a.submitters ==> Vetted(a.submitters[h]))
  }

  lemma SaneStep(s: System, m: Move)
    requires SaneInv(s.accounts) && Allowed(s, m)
    ensures SaneInv(Next(s, m).accounts)
  {
    var a, b := s.accounts, Next(s, m).accounts;
    forall h | h in b.submitters ensures Vetted(b.submitters[h]) {
      CallsMove(s, m, h);
      assert h in a.submitters ==> Vetted(a.submitters[h]);
    }
    if m.AccountMove? && m.b.SubmitSend? {
      QueuedOnce(s, m.b.h);
      assert Vetted(a.submitters[m.b.h]);
    } else {
      SubmittedStays(s, m);
    }
  }

  lemma SubmittedStays(s: System, m: Move)
    requires Allowed(s, m) && !(m.AccountMove? && m.b.SubmitSend?)
    ensures Next(s, m).accounts.submitted == s.accounts.submitted
  {
  }

  lemma {:induction false} RunIsSane(trace: seq<System>, moves: seq<Move>, n: nat)
    requires Run(trace, moves) && n <= |moves|
    ensures SaneInv(trace[n].accounts)
  {
    if n > 0 {
      RunIsSane(trace, moves, n - 1);
      SaneStep(trace[n - 1], moves[n - 1]);
      assert trace[n - 1 + 1] == Next(trace[n - 1], moves[n - 1]);
    }
  }

  /** The proof of `name` that an event comes from. */
  ghost predicate FromSane(a: Accounts, e: LedgerEvent) {
    exists p :: p in a.submitted && p.sane && p.proverName == e.name
  }

  lemma {:induction false} DeservedFromHandled(handled: seq<Handled>, e: LedgerEvent)
    requires e in AllDeserved(handled)
    ensures exists h :: h in handled && h.proof.proverName == e.name
  {
    var front, last := handled[..|handled| - 1], handled[|handled| - 1];
    if e in AllDeserved(front) {
      DeservedFromHandled(front, e);
    } else {
      assert last in handled && last.proof.proverName == e.name;
    }
  }

  lemma SubmittedHolds(a: Accounts)
    requires ProofFlowInv(a)
    ensures forall h :: h in a.handled ==> h.proof in a.submitted
    ensures forall p :: p in InHand(a.proofTask) || p in a.proofQueue || p in a.dropped ==> p in a.submitted
  {
    forall h | h in a.handled ensures h.proof in a.submitted {
      var i :| 0 <= i < |a.handled| && a.handled[i] == h;
      assert Proofs(a.handled)[i] == h.proof;
      assert h.proof in Proofs(a.handled);
    }
  }

  /** In every run the proofs submitted, and with them those queued, in the proof task's hands, handled or
      dropped, have all passed the signature check, and every slash and reward is for the prover named in
      one of them. */
  lemma OnlySaneProofs(trace: seq<System>, moves: seq<Move>, n: nat)
    requires Run(trace, moves) && n <= |moves|
    ensures var a := trace[n].accounts;
            && (forall p :: p in a.submitted || p in a.proofQueue || p in InHand(a.proofTask) || p in a.dropped ==> p.sane)
            && (forall h :: h in a.handled ==> h.proof.sane)
            && (forall e :: e in Written(a.events) ==> FromSane(a, e))
  {
    RunIsSane(trace, moves, n);
    RunKeepsHistory(trace, moves, n);
    var a := trace[n].accounts;
    SubmittedHolds(a);
    forall e | e in Written(a.events) ensures FromSane(a, e) {
      EventFromSane(a, e);
    }
  }

  lemma EventFromSane(a: Accounts, e: LedgerEvent)
    requires ProofFlowInv(a) && DeservedInv(a) && SaneInv(a) && e in Written(a.events)
    ensures FromSane(a, e)
  {
    SubmittedHolds(a);
    if e in AllDeserved(a.handled) {
      DeservedFromHandled(a.handled, e);
      var h :| h in a.handled && h.proof.proverName == e.name;
      assert h.proof in a.submitted;
    } else {
      InHandEvent(a.proofTask, e);
    }
  }

  lemma InHandEvent(t: ProofPc, e: LedgerEvent)
    requires e in SoFar(t)
    ensures InHand(t) == [t.proof] && t.proof.proverName == e.name
  {
  }

  /** The call has that proof, unless it is answered. */
  ghost predicate Has(a: Accounts, h: nat, proof: ProofData) {
    h in a.submitters && (Answered(a.submitters[h]) || a.submitters[h].proof == proof)
  }

  lemma HasStays(s: System, m: Move, h: nat, proof: ProofData)
    requires Allowed(s, m) && (Has(s.accounts, h, proof) || m == AccountMove(SubmitArrive(h, proof)))
    ensures Has(Next(s, m).accounts, h, proof)
  {
    CallsMove(s, m, h);
  }

  /** A call keeps the proof it arrived with. */
  lemma {:induction false} CallsKeepTheirProof(trace: seq<System>, moves: seq<Move>, i: nat, n: nat, h: nat, proof: ProofData)
    requires Run(trace, moves) && i < n <= |moves| && moves[i] == AccountMove(SubmitArrive(h, proof))
    ensures Has(trace[n].accounts, h, proof)
  {
    if n > i + 1 {
      CallsKeepTheirProof(trace, moves, i, n - 1, h, proof);
    }
    HasStays(trace[n - 1], moves[n - 1], h, proof);
    assert trace[n - 1 + 1] == Next(trace[n - 1], moves[n - 1]);
  }
}
