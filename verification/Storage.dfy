/** The in-memory store: profiles by name, and an append-only list of contests. */
module Storage {
  import opened Primitives

  class InMemoryStorage {
    var proverProfiles: map<string, ProverProfile>
    var contests: seq<Contest>

    constructor ()
      ensures proverProfiles == map[] && contests == []
    {
      proverProfiles, contests := map[], [];
    }

    method StoreProverProfile(profile: ProverProfile)
      modifies this`proverProfiles
      ensures proverProfiles == old(proverProfiles)[profile.proverName := profile]
    {
      proverProfiles := proverProfiles[profile.proverName := profile];
    }

    method GetProverProfile(name: string) returns (found: Option<ProverProfile>)
      ensures found == Lookup(proverProfiles, name)
    {
      if name in proverProfiles {
        return Some(proverProfiles[name]);
      }
      return None;
    }

    method UpdateProverProfile(profile: ProverProfile)
      modifies this`proverProfiles
      ensures proverProfiles == old(proverProfiles)[profile.proverName := profile]
    {
      StoreProverProfile(profile);
    }

    method StoreContest(contest: Contest)
      modifies this`contests
      ensures contests == old(contests) + [contest]
    {
      contests := contests + [contest];
    }
  }
}
