/** The task loops as the program writes them, updating the executor and the store in place.

    A loop here runs without the other tasks: what it does is the effect proved of it.  For one message
    that effect is a stretch of the protocol, in which nobody else moves. */
module Tasks {
  import opened Primitives
  import opened Execution
  import opened Storage
  import opened WinnerSelection
  import Accounts
  import opened Effects

  class MainOrchestrator {
    const executor: VerifierExecutor
    const storage: InMemoryStorage

    constructor ()
      ensures fresh(executor) && fresh(executor.currentContest) && fresh(storage)
      ensures executor.View() == DEFAULT_CONTEST && storage.proverProfiles == map[] && storage.contests == []
    {
      executor := new VerifierExecutor();
      storage := new InMemoryStorage();
    }

    /** The bid task, on the bids received until the channel closes. */
    method ListenAndProcessBids(received: seq<BidRequest>) returns (returnedEarly: bool)
      modifies executor.currentContest`bids, storage`proverProfiles
      ensures var after := HandleBids(old(executor.View()), old(storage.proverProfiles), received);
              && executor.View() == after.contest && storage.proverProfiles == after.profiles
              && returnedEarly == !after.finished
    {
      ghost var c0, p0 := executor.View(), storage.proverProfiles;
      for i := 0 to |received|
        invariant HandleBids(c0, p0, received[..i]) == BidsEffect(executor.View(), storage.proverProfiles, true)
      {
        assert received[..i + 1][..i] == received[..i];
        var bid := received[i];
        var contest := executor.Snapshot();
        if contest.IsLive() {
          var isValid := executor.AddBid(bid);
        } else {
          bid := bid.(bidStatus := BidRejected);
          var found := storage.GetProverProfile(bid.proverName);
          if found.None? {
            BidsStopAt(c0, p0, received, i + 1);
            return true;
          }
          var profile := found.value;
          profile := profile.(bids := profile.bids + [bid]);
          storage.UpdateProverProfile(profile);
        }
      }
      assert received[..|received|] == received;
      return false;
    }

    /** The proof task, on the proofs received until the channel closes. */
    method ProcessProof(received: seq<ProofData>) returns (statuses: seq<ProofData>, returnedEarly: bool)
      modifies storage`proverProfiles
      ensures var after := HandleProofs(old(executor.View()), old(storage.proverProfiles), received);
              storage.proverProfiles == after.profiles && statuses == after.statuses && returnedEarly == !after.finished
    {
      ghost var p0 := storage.proverProfiles;
      statuses := [];
      for i := 0 to |received|
        invariant HandleProofs(executor.View(), p0, received[..i]) == ProofEffect(storage.proverProfiles, statuses, true)
      {
        ghost var before, profiles := statuses, storage.proverProfiles;
        NextProof(executor.View(), p0, received, i);
        var proof := received[i];
        var current := executor.Snapshot();
        if current.IsLive() || WrapAdd(current.endTime, PROOF_DURATION) < proof.timestamp {
          proof := proof.(status := Rejected);
          var found := storage.GetProverProfile(proof.proverName);
          if found.None? {
            ProofsStopAt(current, p0, received, i + 1);
            return statuses, true;
          }
          var profile := found.value.(credits := WrapSub(found.value.credits, CREDIT_SLASH));
          storage.UpdateProverProfile(profile);
          statuses := statuses + [proof];
        }
        ghost var rejected := RejectIfLate(current, profiles, received[i]);
        assert rejected.finished && storage.proverProfiles == rejected.profiles && statuses == before + rejected.statuses;
        if proof.valid {
          proof := proof.(status := Accepted);
          var found := storage.GetProverProfile(proof.proverName);
          if found.None? {
            ProofsStopAt(current, p0, received, i + 1);
            return statuses, true;
          }
          var profile := found.value.(credits := WrapAdd(found.value.credits, current.reward));
          storage.UpdateProverProfile(profile);
          statuses := statuses + [proof];
        }
        assert statuses == before + AcceptIfValid(current, rejected, received[i]).statuses;
      }
      assert received[..|received|] == received;
      return statuses, false;
    }

    /** The completion task, on the snapshots received and the draws made for them. */
    method ProcessContestCompletion(arrivals: seq<Arrival>) returns (forwarded: seq<Contest>, panicked: bool)
      requires AllFit(arrivals)
      modifies storage`contests
      ensures Completion(forwarded, !panicked) == Complete(arrivals)
      ensures storage.contests == old(storage.contests) + forwarded
    {
      forwarded := [];
      for i := 0 to |arrivals|
        invariant Complete(arrivals[..i]) == Completion(forwarded, true)
        invariant storage.contests == old(storage.contests) + forwarded
      {
        assert arrivals[..i + 1][..i] == arrivals[..i];
        var contest := new MutableContest(arrivals[i].contest);
        var winner := contest.GetWinner(arrivals[i].r, arrivals[i].second);
        assert winner == Pick(arrivals[i]);
        if winner.Panicked? {
          StoppedStaysStopped(arrivals, i + 1);
          return forwarded, true;
        }
        if winner.Won? {
          var stored := contest.View();
          storage.StoreContest(stored);
          forwarded := forwarded + [stored];
        }
      }
      assert arrivals[..|arrivals|] == arrivals;
      return forwarded, false;
    }

    /** One round of the lifecycle task, without its sleeps. */
    method LifecycleRound(now0: u64, now1: u64)
      modifies executor, executor.currentContest`status, storage`contests
      ensures var effect := PassRound(old(executor.View()), now0, now1);
              executor.View() == effect.contest && storage.contests == old(storage.contests) + effect.stored
    {
      var contest := executor.Snapshot();
      match contest.status {
        case Live => executor.EndContest();
        case Ended =>
          var toStore := executor.Snapshot();
          storage.StoreContest(toStore);
          var current := executor.Snapshot();
          executor.StartContest(current.contestId + 1, now0, now1);
        case NotStarted => executor.StartContest(0, now0, now1);
      }
    }

    /** The part of `submit_proof` after the proof is queued. */
    method RecordProof(proof: ProofData) returns (ok: bool)
      modifies storage`proverProfiles
      ensures ok <==> proof.proverName in old(storage.proverProfiles)
      ensures var before := old(storage.proverProfiles);
              if !ok then storage.proverProfiles == before
              else
                var base := before[proof.proverName];
                storage.proverProfiles == before[base.proverName := base.(proofs := base.proofs + [proof])]
    {
      var found := storage.GetProverProfile(proof.proverName);
      if found.None? {
        return false;
      }
      storage.UpdateProverProfile(found.value.(proofs := found.value.proofs + [proof]));
      return true;
    }

    method RegisterProver(name: string, team: Team, address: string)
      modifies storage`proverProfiles
      ensures storage.proverProfiles ==
              old(storage.proverProfiles)[name := ProverProfile(address, name, 0, team, [], [])]
    {
      storage.StoreProverProfile(NewProfile(name, team, address));
    }
  }
}
