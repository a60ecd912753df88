/** The executor that owns the current contest, as the program writes it: objects updated in place.

    Each method is tied to a function on `Contest` values, which is what the protocol is stated over. */
module Execution {
  import opened Primitives
  import opened Powers
  import opened BidderSort
  import opened WinnerSelection

  class MutableContest {
    var contestId: nat
    var startTime: u64
    var endTime: u64
    var bids: seq<BidRequest>
    var winner: Option<BidRequest>
    var reward: u64
    var status: ContestStatus

    /** The value `clone` returns. */
    function View(): Contest
      reads this
    {
      Contest(contestId, startTime, endTime, bids, winner, reward, status)
    }

    constructor (c: Contest)
      ensures View() == c
    {
      contestId, startTime, endTime := c.contestId, c.startTime, c.endTime;
      bids, winner, reward, status := c.bids, c.winner, c.reward, c.status;
    }

    method EndContest()
      modifies this`status
      ensures View() == old(View()).(status := Ended)
    {
      status := Ended;
    }

    /** Selects a winner and records it; a panic or an empty contest leaves the object unchanged. */
    method GetWinner(r: nat, second: nat) returns (outcome: Selection)
      requires bids != [] ==> r < |bids| && second < |bids|
      modifies this`winner
      ensures outcome == Select(old(bids), r, second)
      ensures winner == if outcome.Won? then Some(outcome.bid) else old(winner)
    {
      if bids == [] {
        return NoBids;
      }
      if r >= U32 {
        return Panicked;
      }
      var total := SumOfPowers(bids, r);
      if total == 0 {
        winner := Some(bids[second]);
        return Won(bids[second]);
      }
      var bidders := PushShares(bids, r, total);
      bidders := StableSort(bidders);
      assert bidders == SortedShares(bids, r, total);
      if |bidders| == 1 {
        var only := FindNamed(bids, bidders[0].name);
        winner := Some(bids[only]);
        return Won(bids[only]);
      }
      var range: nat := bidders[|bidders| - 1].share - bidders[0].share;
      if r == 0 {
        return Panicked;
      }
      var index := range % r;
      index := index % |bidders|;
      assert index == WinnerIndex(bidders, r);
      var k := FindNamed(bids, bidders[index].name);
      winner := Some(bids[k]);
      return Won(bids[k]);
    }
  }

  method SumOfPowers(bids: seq<BidRequest>, r: nat) returns (total: u64)
    ensures total == Total(bids, r) % U64
    ensures total == WrappedTotal(bids, r)
  {
    total := 0;
    for i := 0 to |bids|
      invariant total == WrappedTotal(bids[..i], r)
    {
      assert bids[..i + 1][..i] == bids[..i];
      total := WrapAdd(total, PowU64(bids[i].bidAmount, r));
    }
    assert bids[..|bids|] == bids;
    WrappedTotalIsModular(bids, r);
  }

  method PushShares(bids: seq<BidRequest>, r: nat, total: u64) returns (bidders: seq<Bidder>)
    requires total > 0
    ensures bidders == Shares(bids, r, total)
  {
    bidders := [];
    for i := 0 to |bids|
      invariant |bidders| == i
      invariant forall j :: 0 <= j < i ==> bidders[j] == Bidder(bids[j].proverName, Share(bids[j], r, total))
    {
      bidders := bidders + [Bidder(bids[i].proverName, Share(bids[i], r, total))];
    }
  }

  method FindNamed(bids: seq<BidRequest>, name: string) returns (k: nat)
    requires HasName(bids, name)
    ensures k == FirstNamed(bids, name)
  {
    k := 0;
    while bids[k].proverName != name
      invariant k < |bids|
      invariant forall j :: 0 <= j < k ==> bids[j].proverName != name
      decreases |bids| - k
    {
      k := k + 1;
    }
  }

  class VerifierExecutor {
    var currentContest: MutableContest

    ghost function View(): Contest
      reads this, currentContest
    {
      currentContest.View()
    }

    constructor ()
      ensures fresh(currentContest) && View() == DEFAULT_CONTEST == Contest(0, 0, 0, [], None, 0, NotStarted)
    {
      currentContest := new MutableContest(DEFAULT_CONTEST);
    }

    method Snapshot() returns (c: Contest)
      ensures c == View()
    {
      c := currentContest.View();
    }

    method StartContest(nextId: nat, now0: u64, now1: u64)
      modifies this`currentContest
      ensures fresh(currentContest) && View() == FreshContest(nextId, now0, now1)
      ensures View().contestId == nextId && View().startTime == now0
      ensures View().endTime == (now1 + 10000) % 0x1_0000_0000_0000_0000
      ensures View().bids == [] && View().winner == None && View().reward == 1500 && View().status == Live
    {
      var newContest := Contest(nextId, now0, (now1 + CONTEST_DURATION) % U64, [], None, CONTEST_REWARD, Live);
      currentContest := new MutableContest(newContest);
    }

    method EndContest()
      modifies currentContest`status
      ensures View() == old(View()).(status := Ended)
    {
      currentContest.EndContest();
    }

    /** Appends the bid unless its address has already bid; says whether it did. */
    method AddBid(bid: BidRequest) returns (added: bool)
      modifies currentContest`bids
      ensures added == !HasBidder(old(View()).bids, bid.proverAddress)
      ensures added <==> forall i :: 0 <= i < |old(View()).bids| ==> old(View()).bids[i].proverAddress != bid.proverAddress
      ensures View() == if added then old(View()).(bids := old(View()).bids + [bid]) else old(View())
    {
      var i := 0;
      while i < |currentContest.bids| && currentContest.bids[i].proverAddress != bid.proverAddress
        invariant i <= |currentContest.bids|
        invariant forall j :: 0 <= j < i ==> currentContest.bids[j].proverAddress != bid.proverAddress
      {
        i := i + 1;
      }
      if i < |currentContest.bids| {
        return false;
      }
      currentContest.bids := currentContest.bids + [bid];
      return true;
    }

    method GetWinner(r: nat, second: nat) returns (outcome: Selection)
      requires View().bids != [] ==> r < |View().bids| && second < |View().bids|
      modifies currentContest`winner
      ensures outcome == Select(old(View()).bids, r, second)
      ensures View() == if outcome.Won? then old(View()).(winner := Some(outcome.bid)) else old(View())
    {
      outcome := currentContest.GetWinner(r, second);
    }
  }
}
