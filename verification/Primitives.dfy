/** The shared vocabulary of the prover network: bids, contests, proofs and prover profiles.

    Every value here is cloned, serialised and sent between tasks by the program, so each is a
    datatype.  The program's integers are 64-bit and unsigned; the release build wraps around. */
module Primitives {

  const U64: nat := 0x1_0000_0000_0000_0000
  const U32: nat := 0x1_0000_0000

  type u64 = x: int | 0 <= x < 0x1_0000_0000_0000_0000

  const CONTEST_DURATION: nat := 10000
  const PROOF_DURATION: nat := 10000
  const CREDIT_SLASH: nat := 1000
  const CONTEST_REWARD: u64 := 1500

  /** Every channel between tasks holds at most this many messages. */
  const CAPACITY: nat := 100

  datatype Option<+T> = None | Some(value: T)

  /** The release build's `a + b` on u64. */
  function WrapAdd(a: u64, b: u64): u64 {
    (a + b) % U64
  }

  /** The release build's `a - b` on u64. */
  function WrapSub(a: u64, b: u64): u64 {
    (a - b) % U64
  }

  datatype BidStatus = BidPending | BidAccepted | BidRejected

  datatype BidRequest = BidRequest(
    bidAmount: u64, proverAddress: string, proverName: string, bidStatus: BidStatus)

  datatype ContestStatus = Live | Ended | NotStarted

  datatype Contest = Contest(
    contestId: nat, startTime: u64, endTime: u64, bids: seq<BidRequest>,
    winner: Option<BidRequest>, reward: u64, status: ContestStatus)
  {
    predicate IsLive() {
      status == Live
    }
  }

  predicate HasBidder(bids: seq<BidRequest>, address: string) {
    exists i :: 0 <= i < |bids| && bids[i].proverAddress == address
  }

  /** The contest the executor replaces the current one with; the two clock readings are inputs. */
  function FreshContest(id: nat, now0: u64, now1: u64): Contest {
    Contest(id, now0, WrapAdd(now1, CONTEST_DURATION), [], None, CONTEST_REWARD, Live)
  }

  /** `Contest::default()`, the contest the executor is created with. */
  const DEFAULT_CONTEST: Contest := Contest(0, 0, 0, [], None, 0, NotStarted)

  datatype ProofStatus = Accepted | Rejected | Pending

  /** A submitted proof.  `sane` is the verdict of the signature check on it and `valid` the verdict
      of the proof system; both are fixed properties of the submitted bytes. */
  datatype ProofData = ProofData(
    timestamp: u64, proverAddress: string, proverName: string, status: ProofStatus,
    sane: bool, valid: bool)

  /** Outside the proving window, told in numbers: a contest is live, or the timestamp is past the
      contest's end time plus 10000, a sum that wraps around. */
  predicate OutsideWindow(p: ProofData, c: Contest) {
    c.status == Live || p.timestamp > (c.endTime + 10000) % 0x1_0000_0000_0000_0000
  }

  datatype Team = Blue | Pink | Green | Orange | Purple

  datatype ProverProfile = ProverProfile(
    proverAddress: string, proverName: string, credits: u64, team: Team,
    bids: seq<BidRequest>, proofs: seq<ProofData>)

  /** `ProverProfile::new`. */
  function NewProfile(name: string, team: Team, address: string): ProverProfile {
    ProverProfile(address, name, 0, team, [], [])
  }

  function Lookup(profiles: map<string, ProverProfile>, name: string): Option<ProverProfile> {
    if name in profiles then Some(profiles[name]) else None
  }
}
