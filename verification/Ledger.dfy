/** The credit ledger: what a prover's stored credits have to do with the registrations, slashes and
    rewards written so far, although profiles are read and written back in separate steps. */
module Ledger {
  import opened Primitives
  import opened Accounts
  import Auction
  import opened System

  // ----- balances ----------------------------------------------------------------------------

  /** What the events since `name`'s last registration add up to, over the integers. */
  function Balance(events: seq<LedgerEvent>, name: string): int {
    if events == [] then 0
    else
      var e, before := events[|events| - 1], Balance(events[..|events| - 1], name);
      if e.name != name then before
      else match e
           case Registered(_) => 0
           case Slashed(_) => before - CREDIT_SLASH
           case Rewarded(_, amount) => before + amount
  }

  lemma BalanceSnoc(events: seq<LedgerEvent>, e: LedgerEvent, name: string)
    ensures Balance(events + [e], name) ==
            if e.name != name then Balance(events, name)
            else match e
                 case Registered(_) => 0
                 case Slashed(_) => Balance(events, name) - CREDIT_SLASH
                 case Rewarded(_, amount) => Balance(events, name) + amount
  {
    assert (events + [e])[..|events|] == events;
  }

  /** The stored credits of `name` are its balance modulo 2^64. */
  ghost predicate BalancedFor(a: Accounts, name: string) {
    name in a.profiles ==> a.profiles[name].credits == Balance(a.events, name) % U64
  }

  /** The stored credits of every prover are. */
  ghost predicate Balanced(a: Accounts) {
    forall name :: BalancedFor(a, name)
  }

  lemma ModShift(x: int, y: int, d: int)
    ensures (x + d) % U64 == (y + d) % U64 <==> x % U64 == y % U64
  {
    if x % U64 == y % U64 {
      ModSame(x, y, d);
    }
    if (x + d) % U64 == (y + d) % U64 {
      ModSame(x + d, y + d, -d);
    }
  }

  lemma ModSame(x: int, y: int, d: int)
    requires x % U64 == y % U64
    ensures (x + d) % U64 == (y + d) % U64
  {
    var q := x / U64 - y / U64;
    assert x + d == (y + d) + q * U64;
    ModPeriodic(y + d, q);
  }

  lemma ModPeriodic(x: int, q: int)
    ensures (x + q * U64) % U64 == x % U64
  {
    var r := x % U64;
    assert x + q * U64 == (x / U64 + q) * U64 + r;
    assert (x + q * U64) / U64 == x / U64 + q;
  }

  // ----- writers -----------------------------------------------------------------------------

  /** The tasks that hold a profile between reading it and writing it back. */
  datatype Writer = ProofWriter | BidWriter | SubmitWriter(h: nat)

  /** The profile a writer has read and not yet written back. */
  function Base(s: System, w: Writer): Option<ProverProfile> {
    match w
    case ProofWriter =>
      if s.accounts.proofTask.RejectWrite? || s.accounts.proofTask.AcceptWrite?
      then Some(s.accounts.proofTask.base) else None
    case BidWriter =>
      if s.auction.bidTask.WriteProfile? then Some(s.auction.bidTask.base) else None
    case SubmitWriter(h) =>
      if h in s.accounts.submitters && s.accounts.submitters[h].Writing?
      then Some(s.accounts.submitters[h].base) else None
  }

  /** The writer that writes its profile back in this move. */
  function WriterOf(m: Move): Option<Writer> {
    match m
    case AuctionMove(a) => if a.BidWrite? then Some(BidWriter) else None
    case AccountMove(b) =>
      if b.ProofRejectWrite? || b.ProofAcceptWrite? then Some(ProofWriter)
      else if b.SubmitWrite? then Some(SubmitWriter(b.h))
      else None
  }

  /** What a writer does to the profile it read. */
  function Change(s: System, m: Move, profile: ProverProfile): ProverProfile
    requires Allowed(s, m) && WriterOf(m).Some?
  {
    match m
    case AuctionMove(_) => Auction.WithRefusedBid(profile, s.auction.bidTask.bid)
    case AccountMove(b) =>
      if b.ProofRejectWrite? then Slash(profile)
      else if b.ProofAcceptWrite? then Reward(profile, s.accounts.proofTask.contest)
      else WithProof(profile, s.accounts.submitters[b.h].proof)
  }

  /** The prover a move writes, if any. */
  function Touched(s: System, m: Move): Option<string>
    requires Allowed(s, m)
  {
    if WriterOf(m).Some? then
      assert Base(s, WriterOf(m).value).Some?;
      Some(Base(s, WriterOf(m).value).value.proverName)
    else if m.AccountMove? && m.b.Register? then Some(m.b.name)
    else None
  }

  /** Profiles are stored under their own names, and every profile held is of a stored prover. */
  ghost predicate KeyInv(s: System) {
    && (forall name :: name in s.accounts.profiles ==> s.accounts.profiles[name].proverName == name)
    && (forall w :: Base(s, w).Some? ==> Base(s, w).value.proverName in s.accounts.profiles)
  }

  /** The profiles after a move: a write puts the changed copy back, whatever is stored by then. */
  lemma ProfilesAfter(s: System, m: Move)
    requires Allowed(s, m)
    ensures Next(s, m).accounts.profiles ==
            if WriterOf(m).Some? then
              assert Base(s, WriterOf(m).value).Some?;
              Put(s.accounts.profiles, Change(s, m, Base(s, WriterOf(m).value).value))
            else if m.AccountMove? && m.b.Register? then
              Put(s.accounts.profiles, NewProfile(m.b.name, m.b.team, m.b.address))
            else s.accounts.profiles
  {
  }

  /** A writer after a move holds what it held, or has just read the stored profile. */
  ghost predicate HoldsFairly(s: System, m: Move, w: Writer)
    requires Allowed(s, m)
  {
    var base := Base(Next(s, m), w);
    base.Some? ==>
      if Base(s, w).Some? then base == Base(s, w) && WriterOf(m) != Some(w)
      else Touched(s, m).None? && exists name :: base == Lookup(s.accounts.profiles, name)
  }

  lemma BaseAfter(s: System, m: Move, w: Writer)
    requires Allowed(s, m)
    ensures HoldsFairly(s, m, w)
  {
    if Base(Next(s, m), w) != Base(s, w) && Base(Next(s, m), w).Some? {
      match m
      case AuctionMove(a) => ReadByBidTask(s, a, w);
      case AccountMove(b) => ReadByHandlers(s, b, w);
    }
  }

  lemma ReadByBidTask(s: System, a: Auction.Step, w: Writer)
    requires Allowed(s, AuctionMove(a)) && Base(Next(s, AuctionMove(a)), w).Some?
    requires Base(Next(s, AuctionMove(a)), w) != Base(s, w)
    ensures HoldsFairly(s, AuctionMove(a), w)
  {
    assert Base(Next(s, AuctionMove(a)), w) == Lookup(s.accounts.profiles, s.auction.bidTask.bid.proverName);
  }

  lemma ReadByHandlers(s: System, b: Step, w: Writer)
    requires Allowed(s, AccountMove(b)) && Base(Next(s, AccountMove(b)), w).Some?
    requires Base(Next(s, AccountMove(b)), w) != Base(s, w)
    ensures HoldsFairly(s, AccountMove(b), w)
  {
    var name := if b.SubmitFetch? then s.accounts.submitters[b.h].proof.proverName
                else s.accounts.proofTask.proof.proverName;
    assert Base(Next(s, AccountMove(b)), w) == Lookup(s.accounts.profiles, name);
  }

  lemma KeyStep(s: System, m: Move)
    requires KeyInv(s) && Allowed(s, m)
    ensures KeyInv(Next(s, m))
  {
    ProfilesAfter(s, m);
    var t := Next(s, m);
    forall w | Base(t, w).Some? ensures Base(t, w).value.proverName in t.accounts.profiles {
      BaseAfter(s, m, w);
      assert HoldsFairly(s, m, w);
    }
  }

  // ----- when the ledger is exact --------------------------------------------------------------

  /** The move writes `name`'s profile back. */
  predicate WritesBack(s: System, m: Move, name: string)
    requires Allowed(s, m)
  {
    WriterOf(m).Some? && Touched(s, m) == Some(name)
  }

  /** The credits of the profile a writer writes back, as it read them. */
  function Read(s: System, m: Move): u64
    requires Allowed(s, m) && WriterOf(m).Some?
  {
    assert Base(s, WriterOf(m).value).Some?;
    Base(s, WriterOf(m).value).value.credits
  }

  /** If the move writes `name`'s profile back, the write would succeed as a compare-and-swap on the
      credits: the stored credits are still those of the profile that was read. */
  predicate CreditsUnchanged(s: System, m: Move, name: string)
    requires Allowed(s, m)
  {
    WritesBack(s, m, name) ==>
      name in s.accounts.profiles && s.accounts.profiles[name].credits == Read(s, m)
  }

  /** What a writer's move adds to the balance of the prover it writes. */
  function Delta(s: System, m: Move): int
    requires Allowed(s, m)
  {
    if m.AuctionMove? then 0
    else if m.b.ProofRejectWrite? then 0 - CREDIT_SLASH
    else if m.b.ProofAcceptWrite? then s.accounts.proofTask.contest.reward
    else 0
  }

  lemma DeltaIsRight(s: System, m: Move, name: string)
    requires Allowed(s, m) && WriterOf(m).Some?
    ensures var base := Base(s, WriterOf(m).value);
            && base.Some?
            && Change(s, m, base.value).credits == (base.value.credits + Delta(s, m)) % U64
            && Change(s, m, base.value).proverName == base.value.proverName
            && Balance(Next(s, m).accounts.events, name) ==
               Balance(s.accounts.events, name) + (if name == base.value.proverName then Delta(s, m) else 0)
  {
    if m.AccountMove? && m.b.ProofRejectWrite? {
      BalanceSnoc(s.accounts.events, Slashed(s.accounts.proofTask.base.proverName), name);
    } else if m.AccountMove? && m.b.ProofAcceptWrite? {
      BalanceSnoc(s.accounts.events,
                  Rewarded(s.accounts.proofTask.base.proverName, s.accounts.proofTask.contest.reward), name);
    } else {
      var credits := Base(s, WriterOf(m).value).value.credits;
      assert credits % U64 == credits;
    }
  }

  /** `name` is written: its credits become those read, changed by `d`, and its balance changes by `d`. */
  ghost predicate WroteBack(a: Accounts, b: Accounts, name: string, read: u64, d: int) {
    && name in a.profiles && name in b.profiles
    && b.profiles[name].credits == (read + d) % U64
    && Balance(b.events, name) == Balance(a.events, name) + d
  }

  lemma WrittenBack(s: System, m: Move, name: string)
    requires KeyInv(s) && Allowed(s, m) && WritesBack(s, m, name)
    ensures WroteBack(s.accounts, Next(s, m).accounts, name, Read(s, m), Delta(s, m))
  {
    ProfilesAfter(s, m);
    DeltaIsRight(s, m, name);
  }

  /** A move that does not write `name`'s profile back registers `name` or leaves it alone. */
  lemma LeftAlone(s: System, m: Move, name: string)
    requires KeyInv(s) && Allowed(s, m) && !WritesBack(s, m, name)
    ensures var a, t := s.accounts, Next(s, m).accounts;
            if m.AccountMove? && m.b.Register? && m.b.name == name
            then name in t.profiles && t.profiles[name].credits == 0 == Balance(t.events, name)
            else Lookup(t.profiles, name) == Lookup(a.profiles, name) && Balance(t.events, name) == Balance(a.events, name)
  {
    ProfilesAfter(s, m);
    if WriterOf(m).Some? {
      DeltaIsRight(s, m, name);
    } else if m.AccountMove? && m.b.Register? {
      BalanceSnoc(s.accounts.events, Registered(m.b.name), name);
    }
  }

  /** One move keeps `name`'s ledger exact if and only if its write, if it writes `name`, passes that
      comparison. */
  lemma BalancedStepExactly(s: System, m: Move, name: string)
    requires KeyInv(s) && BalancedFor(s.accounts, name) && Allowed(s, m)
    ensures BalancedFor(Next(s, m).accounts, name) <==> CreditsUnchanged(s, m, name)
  {
    if WritesBack(s, m, name) {
      BalancedWrite(s, m, name);
    } else {
      LeftAlone(s, m, name);
    }
  }

  lemma BalancedWrite(s: System, m: Move, name: string)
    requires KeyInv(s) && BalancedFor(s.accounts, name) && Allowed(s, m) && WritesBack(s, m, name)
    ensures BalancedFor(Next(s, m).accounts, name) <==> CreditsUnchanged(s, m, name)
  {
    WrittenBack(s, m, name);
    BalancedAfter(s.accounts, Next(s, m).accounts, name, Read(s, m), Delta(s, m));
  }

  lemma BalancedAfter(a: Accounts, b: Accounts, name: string, read: u64, d: int)
    requires BalancedFor(a, name) && WroteBack(a, b, name, read, d)
    ensures BalancedFor(b, name) <==> a.profiles[name].credits == read
  {
    CreditsShift(read, Balance(a.events, name), d);
  }

  lemma CreditsShift(credits: u64, balance: int, d: int)
    ensures (credits + d) % U64 == (balance + d) % U64 <==> credits == balance % U64
  {
    ModShift(credits, balance, d);
    U64Remainder(credits);
  }

  lemma U64Remainder(x: u64)
    ensures x % U64 == x
  {
  }

  lemma {:induction false} RunKeepsKeys(trace: seq<System>, moves: seq<Move>, n: nat)
    requires Run(trace, moves) && n <= |moves|
    ensures KeyInv(trace[n])
  {
    if n > 0 {
      RunKeepsKeys(trace, moves, n - 1);
      KeyStep(trace[n - 1], moves[n - 1]);
      assert trace[n - 1 + 1] == Next(trace[n - 1], moves[n - 1]);
    }
  }

  ghost predicate BalancedThrough(trace: seq<System>, n: nat, name: string)
    requires n < |trace|
  {
    forall i :: 0 <= i <= n ==> BalancedFor(trace[i].accounts, name)
  }

  ghost predicate UnchangedThrough(trace: seq<System>, moves: seq<Move>, n: nat, name: string)
    requires Run(trace, moves) && n <= |moves|
  {
    forall i :: 0 <= i < n ==> CreditsUnchanged(trace[i], moves[i], name)
  }

  lemma BalancedThroughSnoc(trace: seq<System>, n: nat, name: string)
    requires 0 < n < |trace|
    ensures BalancedThrough(trace, n, name) <==>
            BalancedThrough(trace, n - 1, name) && BalancedFor(trace[n].accounts, name)
  {
  }

  lemma UnchangedThroughSnoc(trace: seq<System>, moves: seq<Move>, n: nat, name: string)
    requires Run(trace, moves) && 0 < n <= |moves|
    ensures UnchangedThrough(trace, moves, n, name) <==>
            UnchangedThrough(trace, moves, n - 1, name) && CreditsUnchanged(trace[n - 1], moves[n - 1], name)
  {
  }

  /** A run keeps a prover's ledger exact in all its states if and only if every copy of its profile
      that is written back was read with the credits still stored.  What happens to the profiles of
      other provers does not matter. */
  lemma {:induction false} LedgerExactly(trace: seq<System>, moves: seq<Move>, n: nat, name: string)
    requires Run(trace, moves) && n <= |moves|
    ensures BalancedThrough(trace, n, name) <==> UnchangedThrough(trace, moves, n, name)
  {
    if n > 0 {
      LedgerExactly(trace, moves, n - 1, name);
      RunKeepsKeys(trace, moves, n - 1);
      assert trace[n - 1 + 1] == Next(trace[n - 1], moves[n - 1]);
      BalancedThroughSnoc(trace, n, name);
      UnchangedThroughSnoc(trace, moves, n, name);
      if BalancedThrough(trace, n - 1, name) {
        BalancedStepExactly(trace[n - 1], moves[n - 1], name);
      }
    }
  }

  /** All provers together. */
  lemma WholeLedgerExactly(trace: seq<System>, moves: seq<Move>, n: nat)
    requires Run(trace, moves) && n <= |moves|
    ensures (forall i :: 0 <= i <= n ==> Balanced(trace[i].accounts)) <==>
            (forall name :: UnchangedThrough(trace, moves, n, name))
  {
    forall name ensures BalancedThrough(trace, n, name) <==> UnchangedThrough(trace, moves, n, name) {
      LedgerExactly(trace, moves, n, name);
    }
    if forall i :: 0 <= i <= n ==> Balanced(trace[i].accounts) {
      assert forall name :: BalancedThrough(trace, n, name);
    } else if forall name :: BalancedThrough(trace, n, name) {
      forall i | 0 <= i <= n ensures Balanced(trace[i].accounts) {
        forall name ensures BalancedFor(trace[i].accounts, name) {
          assert BalancedThrough(trace, n, name);
        }
      }
    }
  }

  // ----- when the credits are the balance itself ------------------------------------------------

  /** The stored credits of `name` are its balance over the integers. */
  ghost predicate TrueFor(a: Accounts, name: string) {
    name in a.profiles ==> a.profiles[name].credits == Balance(a.events, name)
  }

  /** The write does not wrap around: a slash finds at least the credits it takes, and a reward leaves
      at most 2^64 - 1. */
  predicate Covered(s: System, m: Move, name: string)
    requires Allowed(s, m)
  {
    WritesBack(s, m, name) ==> 0 <= Read(s, m) + Delta(s, m) < U64
  }

  lemma TrueStepExactly(s: System, m: Move, name: string)
    requires KeyInv(s) && TrueFor(s.accounts, name) && Allowed(s, m)
    ensures TrueFor(Next(s, m).accounts, name) <==> CreditsUnchanged(s, m, name) && Covered(s, m, name)
  {
    if WritesBack(s, m, name) {
      TrueWrite(s, m, name);
    } else {
      LeftAlone(s, m, name);
    }
  }

  lemma TrueWrite(s: System, m: Move, name: string)
    requires KeyInv(s) && TrueFor(s.accounts, name) && Allowed(s, m) && WritesBack(s, m, name)
    ensures TrueFor(Next(s, m).accounts, name) <==> CreditsUnchanged(s, m, name) && Covered(s, m, name)
  {
    WrittenBack(s, m, name);
    TrueAfter(s.accounts, Next(s, m).accounts, name, Read(s, m), Delta(s, m));
  }

  lemma TrueAfter(a: Accounts, b: Accounts, name: string, read: u64, d: int)
    requires TrueFor(a, name) && WroteBack(a, b, name, read, d)
    ensures TrueFor(b, name) <==> a.profiles[name].credits == read && 0 <= read + d < U64
  {
    WrapsExactly(read, a.profiles[name].credits, d);
  }

  lemma WrapsExactly(x: u64, y: u64, d: int)
    ensures (x + d) % U64 == y + d <==> x == y && 0 <= x + d < U64
  {
    if x == y && 0 <= x + d < U64 {
      U64Remainder(x + d);
    }
    if (x + d) % U64 == y + d {
      U64Remainder(y + d);
      CreditsShift(x, y, d);
      U64Remainder(y);
    }
  }

  ghost predicate TrueThrough(trace: seq<System>, n: nat, name: string)
    requires n < |trace|
  {
    forall i :: 0 <= i <= n ==> TrueFor(trace[i].accounts, name)
  }

  ghost predicate CleanThrough(trace: seq<System>, moves: seq<Move>, n: nat, name: string)
    requires Run(trace, moves) && n <= |moves|
  {
    forall i :: 0 <= i < n ==>
                  CreditsUnchanged(trace[i], moves[i], name) && Covered(trace[i], moves[i], name)
  }

  lemma TrueThroughSnoc(trace: seq<System>, n: nat, name: string)
    requires 0 < n < |trace|
    ensures TrueThrough(trace, n, name) <==> TrueThrough(trace, n - 1, name) && TrueFor(trace[n].accounts, name)
  {
  }

  lemma CleanThroughSnoc(trace: seq<System>, moves: seq<Move>, n: nat, name: string)
    requires Run(trace, moves) && 0 < n <= |moves|
    ensures CleanThrough(trace, moves, n, name) <==>
            CleanThrough(trace, moves, n - 1, name) &&
            CreditsUnchanged(trace[n - 1], moves[n - 1], name) && Covered(trace[n - 1], moves[n - 1], name)
  {
  }

  /** In a run a prover's credits are, in all states, the integer sum of its rewards and slashes since
      its last registration if and only if every write of its profile finds the credits that were read
      and none of them wraps around. */
  lemma {:induction false} CreditsAreBalance(trace: seq<System>, moves: seq<Move>, n: nat, name: string)
    requires Run(trace, moves) && n <= |moves|
    ensures TrueThrough(trace, n, name) <==> CleanThrough(trace, moves, n, name)
  {
    if n > 0 {
      CreditsAreBalance(trace, moves, n - 1, name);
      RunKeepsKeys(trace, moves, n - 1);
      assert trace[n - 1 + 1] == Next(trace[n - 1], moves[n - 1]);
      TrueThroughSnoc(trace, n, name);
      CleanThroughSnoc(trace, moves, n, name);
      if TrueThrough(trace, n - 1, name) {
        TrueStepExactly(trace[n - 1], moves[n - 1], name);
      }
    }
  }

  /** A slash in a run that has kept the prover's ledger exact: the balance falls by CREDIT_SLASH; the
      stored credits do if and only if there are that many, and otherwise become almost 2^64. */
  lemma SlashExactly(trace: seq<System>, moves: seq<Move>, n: nat)
    requires Run(trace, moves) && n < |moves| && moves[n] == AccountMove(ProofRejectWrite)
    requires UnchangedThrough(trace, moves, n + 1, trace[n].accounts.proofTask.base.proverName)
    ensures var a, b, name := trace[n].accounts, trace[n + 1].accounts, trace[n].accounts.proofTask.base.proverName;
            && name in a.profiles && name in b.profiles
            && Balance(b.events, name) == Balance(a.events, name) - CREDIT_SLASH
            && b.profiles[name].credits == Balance(b.events, name) % U64
            && (b.profiles[name].credits == a.profiles[name].credits - CREDIT_SLASH <==>
                a.profiles[name].credits >= CREDIT_SLASH)
            && (a.profiles[name].credits < CREDIT_SLASH ==>
                  b.profiles[name].credits == U64 - CREDIT_SLASH + a.profiles[name].credits)
  {
    var s, m, name := trace[n], moves[n], trace[n].accounts.proofTask.base.proverName;
    LedgerExactly(trace, moves, n + 1, name);
    RunKeepsKeys(trace, moves, n);
    assert CreditsUnchanged(s, m, name) && WritesBack(s, m, name);
    WrittenBack(s, m, name);
    assert BalancedFor(trace[n + 1].accounts, name);
    SlashWraps(s.accounts.profiles[name].credits);
  }

  lemma SlashWraps(x: u64)
    ensures WrapSub(x, CREDIT_SLASH) == if x >= CREDIT_SLASH then x - CREDIT_SLASH else U64 - CREDIT_SLASH + x
  {
  }

  // ----- runs without interference -------------------------------------------------------------

  /** The move writes `name`'s profile while another writer holds a copy of it. */
  ghost predicate Disturbs(s: System, m: Move, name: string)
    requires Allowed(s, m)
  {
    Touched(s, m) == Some(name) &&
    exists w :: Base(s, w).Some? && Base(s, w).value.proverName == name && WriterOf(m) != Some(w)
  }

  ghost predicate UndisturbedThrough(trace: seq<System>, moves: seq<Move>, n: nat, name: string)
    requires Run(trace, moves) && n <= |moves|
  {
    forall i :: 0 <= i < n ==> !Disturbs(trace[i], moves[i], name)
  }

  /** Every copy of `name`'s profile held is the profile still stored. */
  ghost predicate CopiesAreCurrent(s: System, name: string) {
    forall w :: Base(s, w).Some? && Base(s, w).value.proverName == name ==>
                  Lookup(s.accounts.profiles, name) == Base(s, w)
  }

  lemma CopiesStep(s: System, m: Move, name: string)
    requires KeyInv(s) && CopiesAreCurrent(s, name) && Allowed(s, m) && !Disturbs(s, m, name)
    ensures CopiesAreCurrent(Next(s, m), name)
  {
    ProfilesAfter(s, m);
    var t := Next(s, m);
    forall w | Base(t, w).Some? && Base(t, w).value.proverName == name
      ensures Lookup(t.accounts.profiles, name) == Base(t, w)
    {
      BaseAfter(s, m, w);
      assert HoldsFairly(s, m, w);
      if WriterOf(m).Some? {
        DeltaIsRight(s, m, "");
      }
    }
  }

  /** A write of `name`'s profile acts on the profile stored at that moment: read and write are one
      step. */
  ghost predicate WritesAtomically(s: System, m: Move, name: string)
    requires Allowed(s, m)
  {
    WritesBack(s, m, name) ==>
      && name in s.accounts.profiles
      && Next(s, m).accounts.profiles ==
         s.accounts.profiles[name := Change(s, m, s.accounts.profiles[name])]
  }

  lemma AtomicStep(s: System, m: Move, name: string)
    requires KeyInv(s) && CopiesAreCurrent(s, name) && Allowed(s, m)
    ensures WritesAtomically(s, m, name) && CreditsUnchanged(s, m, name)
  {
    ProfilesAfter(s, m);
    if WritesBack(s, m, name) {
      DeltaIsRight(s, m, "");
      assert Base(s, WriterOf(m).value).Some?;
    }
  }

  lemma {:induction false} UndisturbedKeepsCopies(trace: seq<System>, moves: seq<Move>, n: nat, name: string)
    requires Run(trace, moves) && n <= |moves| && UndisturbedThrough(trace, moves, n, name)
    ensures CopiesAreCurrent(trace[n], name)
  {
    if n > 0 {
      UndisturbedKeepsCopies(trace, moves, n - 1, name);
      RunKeepsKeys(trace, moves, n - 1);
      CopiesStep(trace[n - 1], moves[n - 1], name);
      assert trace[n - 1 + 1] == Next(trace[n - 1], moves[n - 1]);
    }
  }

  /** If in a run nobody writes a prover's profile between another's read and write of it, every write
      of that profile is atomic and the prover's ledger is exact throughout, whatever happens to the
      profiles of other provers. */
  lemma UndisturbedRunIsAtomic(trace: seq<System>, moves: seq<Move>, n: nat, name: string)
    requires Run(trace, moves) && n <= |moves| && UndisturbedThrough(trace, moves, n, name)
    ensures forall i :: 0 <= i < n ==> WritesAtomically(trace[i], moves[i], name)
    ensures BalancedThrough(trace, n, name)
  {
    forall i | 0 <= i < n
      ensures WritesAtomically(trace[i], moves[i], name) && CreditsUnchanged(trace[i], moves[i], name)
    {
      UndisturbedKeepsCopies(trace, moves, i, name);
      RunKeepsKeys(trace, moves, i);
      AtomicStep(trace[i], moves[i], name);
    }
    assert UnchangedThrough(trace, moves, n, name);
    LedgerExactly(trace, moves, n, name);
  }
}
