/** How a contest's winner is selected.

    `Select` follows the program step by step, with its 64-bit arithmetic; `SelectClosed` says in a
    few words who that is.  The two random draws are parameters. */
module WinnerSelection {
  import opened Primitives
  import opened Powers
  import opened BidderSort

  // ----- the selection ----------------------------------------------------------------------

  /** A bid's integer share of the total. */
  function Share(b: BidRequest, r: nat, total: u64): nat
    requires total > 0
  {
    PowU64(b.bidAmount, r) / total
  }

  function Shares(bids: seq<BidRequest>, r: nat, total: u64): (s: seq<Bidder>)
    requires total > 0
    ensures |s| == |bids|
    ensures forall i :: 0 <= i < |bids| ==> s[i] == Bidder(bids[i].proverName, Share(bids[i], r, total))
  {
    if bids == [] then []
    else
      var b := bids[|bids| - 1];
      Shares(bids[..|bids| - 1], r, total) + [Bidder(b.proverName, Share(b, r, total))]
  }

  datatype Selection = NoBids | Won(bid: BidRequest) | Panicked

  predicate HasName(bids: seq<BidRequest>, name: string) {
    exists i :: 0 <= i < |bids| && bids[i].proverName == name
  }

  /** `bids.iter().find(|b| b.prover_name == name)`, as an index. */
  function FirstNamed(bids: seq<BidRequest>, name: string): (k: nat)
    requires HasName(bids, name)
    ensures k < |bids| && bids[k].proverName == name
    ensures forall j :: 0 <= j < k ==> bids[j].proverName != name
  {
    if bids[0].proverName == name then 0
    else
      assert HasName(bids[1..], name) by {
        var i :| 0 <= i < |bids| && bids[i].proverName == name;
        assert bids[1..][i - 1].proverName == name;
      }
      1 + FirstNamed(bids[1..], name)
  }

  /** The bidders vector after sorting.  Every name in it is the name of some bid, so the later
      lookup by name succeeds. */
  function SortedShares(bids: seq<BidRequest>, r: nat, total: u64): (s: seq<Bidder>)
    requires total > 0
    ensures Sorted(s) && |s| == |bids|
    ensures forall k :: 0 <= k < |s| ==> HasName(bids, s[k].name)
  {
    var shares := Shares(bids, r, total);
    StableSortSorts(shares);
    SortedNamesAreBids(bids, shares);
    StableSort(shares)
  }

  lemma SortedNamesAreBids(bids: seq<BidRequest>, shares: seq<Bidder>)
    requires |shares| == |bids|
    requires forall i :: 0 <= i < |bids| ==> shares[i].name == bids[i].proverName
    ensures |StableSort(shares)| == |bids|
    ensures forall k :: 0 <= k < |bids| ==> HasName(bids, StableSort(shares)[k].name)
  {
    StableSortSorts(shares);
    StableSortPermutes(shares);
    forall k | 0 <= k < |bids| ensures HasName(bids, StableSort(shares)[k].name) {
      var x := StableSort(shares)[k];
      assert x in multiset(StableSort(shares));
      assert x in shares;
      var i :| 0 <= i < |shares| && shares[i] == x;
      assert bids[i].proverName == x.name;
    }
  }

  /** The position the draw picks in the sorted vector; the range never underflows. */
  function WinnerIndex(sorted: seq<Bidder>, r: nat): (k: nat)
    requires Sorted(sorted) && sorted != [] && r >= 1
    ensures k < |sorted|
  {
    var range: nat := sorted[|sorted| - 1].share - sorted[0].share;
    (range % r) % |sorted|
  }

  /** `Contest::get_winner`: `r` and `second` are the two draws from 0..n.
      A panic is a failed conversion of the draw to 32 bits, or the remainder by a zero draw. */
  function Select(bids: seq<BidRequest>, r: nat, second: nat): Selection
    requires bids != [] ==> r < |bids| && second < |bids|
  {
    if bids == [] then NoBids
    else if r >= U32 then Panicked
    else
      var total := WrappedTotal(bids, r);
      if total == 0 then Won(bids[second]) else SelectByShare(bids, r, total)
  }

  /** The selection when the total is not zero. */
  function SelectByShare(bids: seq<BidRequest>, r: nat, total: u64): Selection
    requires bids != [] && total > 0
  {
    var sorted := SortedShares(bids, r, total);
    if |bids| == 1 then Won(bids[FirstNamed(bids, sorted[0].name)])
    else if r == 0 then Panicked
    else Won(bids[FirstNamed(bids, sorted[WinnerIndex(sorted, r)].name)])
  }

  lemma NoBidsExactly(bids: seq<BidRequest>, r: nat, second: nat)
    requires bids != [] ==> r < |bids| && second < |bids|
    ensures Select(bids, r, second) == NoBids <==> bids == []
  {
  }

  /** Whatever the arithmetic wraps to, a selected winner is one of the bids, and there is always
      an outcome other than a panic unless the draw is zero (with two or more bids) or too wide. */
  lemma SelectionSafe(bids: seq<BidRequest>, r: nat, second: nat)
    requires bids != [] ==> r < |bids| && second < |bids|
    requires |bids| < U64
    ensures Select(bids, r, second) == NoBids <==> bids == []
    ensures Select(bids, r, second) == Panicked <==> (r >= U32 && bids != []) || (|bids| >= 2 && r == 0)
    ensures Select(bids, r, second).Won? ==> Select(bids, r, second).bid in bids
  {
    if bids != [] && r == 0 {
      TotalAtZero(bids);
      WrappedTotalIsModular(bids, 0);
    }
  }

  lemma {:induction false} TotalAtZero(bids: seq<BidRequest>)
    ensures Total(bids, 0) == |bids|
  {
    if bids == [] {
    } else {
      TotalAtZero(bids[..|bids| - 1]);
    }
  }

  // ----- the closed form --------------------------------------------------------------------

  function ZeroBids(bids: seq<BidRequest>): seq<BidRequest> {
    if bids == [] then []
    else ZeroBids(bids[..|bids| - 1]) + (if bids[|bids| - 1].bidAmount == 0 then [bids[|bids| - 1]] else [])
  }

  lemma {:induction false} ZeroBidsMembers(bids: seq<BidRequest>)
    ensures |ZeroBids(bids)| <= |bids|
    ensures forall b :: b in ZeroBids(bids) <==> b in bids && b.bidAmount == 0
    ensures |ZeroBids(bids)| == |bids| <==> (forall b :: b in bids ==> b.bidAmount == 0)
    ensures |ZeroBids(bids)| == |bids| ==> ZeroBids(bids) == bids
  {
    if bids == [] {
    } else {
      var front, last := bids[..|bids| - 1], bids[|bids| - 1];
      ZeroBidsMembers(front);
      assert bids == front + [last];
      if last.bidAmount != 0 {
        assert last in bids;
      }
    }
  }

  /** Who wins, when no 64-bit operation overflows. */
  function SelectClosed(bids: seq<BidRequest>, r: nat, second: nat): Selection
    requires bids != [] ==> r < |bids| && second < |bids|
  {
    var n, zeros := |bids|, ZeroBids(bids);
    ZeroBidsMembers(bids);
    if n == 0 then NoBids
    else if r >= U32 then Panicked
    else if n == 1 then Won(bids[0])
    else if r == 0 then Panicked
    else if |zeros| == n then Won(bids[second])
    else if |zeros| == n - 1 then
      var z := if r == 1 then zeros[0] else zeros[1];
      assert z in bids;
      Won(bids[FirstNamed(bids, z.proverName)])
    else Won(bids[0])
  }

  /** Without overflow the selection is its closed form, for every draw. */
  lemma SelectIsClosed(bids: seq<BidRequest>, r: nat, second: nat)
    requires bids != [] ==> r < |bids| && second < |bids|
    requires Total(bids, r) < U64
    ensures Select(bids, r, second) == SelectClosed(bids, r, second)
  {
    ZeroBidsMembers(bids);
    var z := |ZeroBids(bids)|;
    if bids == [] || r >= U32 {
    } else if |bids| == 1 {
      SelectSingle(bids, r, second);
    } else if r == 0 {
      TotalAtZero(bids);
      SelectionSafe(bids, r, second);
    } else if z == |bids| {
      SelectAllZero(bids, r, second);
    } else if z == |bids| - 1 {
      SelectOneNonzero(bids, r, second);
    } else {
      SelectManyNonzero(bids, r, second);
    }
  }

  lemma SelectSingle(bids: seq<BidRequest>, r: nat, second: nat)
    requires |bids| == 1 && r == second == 0
    ensures Select(bids, r, second) == Won(bids[0])
  {
  }

  lemma SelectAllZero(bids: seq<BidRequest>, r: nat, second: nat)
    requires 1 <= r < |bids| && r < U32 && second < |bids|
    requires forall b :: b in bids ==> b.bidAmount == 0
    ensures Select(bids, r, second) == Won(bids[second])
  {
    AllZeroTotal(bids, r);
    WrappedTotalIsModular(bids, r);
  }

  lemma {:induction false} AllZeroTotal(bids: seq<BidRequest>, r: nat)
    requires r >= 1 && forall b :: b in bids ==> b.bidAmount == 0
    ensures Total(bids, r) == 0
  {
    if bids == [] {
    } else {
      AllZeroTotal(bids[..|bids| - 1], r);
      assert bids[|bids| - 1] in bids;
    }
  }

  lemma {:induction false} SomeNonzero(bids: seq<BidRequest>) returns (m: nat)
    requires |ZeroBids(bids)| < |bids|
    ensures m < |bids| && bids[m].bidAmount != 0
    ensures |ZeroBids(bids)| == |bids| - 1 ==>
              forall i :: 0 <= i < |bids| && i != m ==> bids[i].bidAmount == 0
  {
    var front := bids[..|bids| - 1];
    ZeroBidsMembers(front);
    if bids[|bids| - 1].bidAmount != 0 {
      m := |bids| - 1;
      assert |ZeroBids(front)| == |front| ==> forall i :: 0 <= i < |front| ==> front[i] in front;
    } else {
      m := SomeNonzero(front);
    }
  }

  lemma {:induction false} TwoNonzero(bids: seq<BidRequest>) returns (i: nat, j: nat)
    requires |ZeroBids(bids)| + 2 <= |bids|
    ensures i < j < |bids| && bids[i].bidAmount != 0 && bids[j].bidAmount != 0
  {
    var front := bids[..|bids| - 1];
    if bids[|bids| - 1].bidAmount == 0 {
      i, j := TwoNonzero(front);
    } else {
      i := SomeNonzero(front);
      j := |bids| - 1;
    }
  }

  /** Select's last branch, once the sorted vector and the position in it are known. */
  lemma SelectAt(bids: seq<BidRequest>, r: nat, second: nat, total: u64, k: nat, first: nat)
    requires 1 <= r < |bids| && r < U32 && second < |bids|
    requires total == WrappedTotal(bids, r) && total > 0
    requires k == WinnerIndex(SortedShares(bids, r, total), r)
    requires first == FirstNamed(bids, SortedShares(bids, r, total)[k].name)
    ensures Select(bids, r, second) == Won(bids[first])
  {
  }

  /** With two nonzero bids every share truncates to zero, so the sort changes nothing. */
  lemma SelectManyNonzero(bids: seq<BidRequest>, r: nat, second: nat)
    requires 1 <= r < |bids| && r < U32 && second < |bids|
    requires Total(bids, r) < U64 && |ZeroBids(bids)| + 2 <= |bids|
    ensures Select(bids, r, second) == Won(bids[0])
  {
    var total := Total(bids, r);
    WrappedTotalIsModular(bids, r);
    SmallRemainder(total);
    ManyNonzeroShares(bids, r);
    var shares := Shares(bids, r, total);
    StableSortUnique(shares, shares);
    FlatIndex(shares, r);
    SelectAt(bids, r, second, total, 0, 0);
  }

  lemma SmallRemainder(x: nat)
    requires x < U64
    ensures x % U64 == x
  {
  }

  lemma FlatIndex(sorted: seq<Bidder>, r: nat)
    requires sorted != [] && r >= 1 && forall k :: 0 <= k < |sorted| ==> sorted[k].share == 0
    ensures WinnerIndex(sorted, r) == 0
  {
  }

  lemma SmallQuotient(x: nat, total: nat)
    requires x < total
    ensures x / total == 0
  {
  }

  lemma ManyNonzeroShares(bids: seq<BidRequest>, r: nat)
    requires r >= 1 && Total(bids, r) < U64 && |ZeroBids(bids)| + 2 <= |bids|
    ensures Total(bids, r) > 0
    ensures forall k :: 0 <= k < |bids| ==> Shares(bids, r, Total(bids, r))[k].share == 0
  {
    var i, j := TwoNonzero(bids);
    PowPositive(bids[i].bidAmount, r);
    PowPositive(bids[j].bidAmount, r);
    TotalBoundsMembers(bids, r, i);
    forall k | 0 <= k < |bids| ensures Share(bids[k], r, Total(bids, r)) == 0 {
      var other := if k == i then j else i;
      TotalBoundsPairs(bids, r, if k < other then k else other, if k < other then other else k);
      SmallShare(bids[k], r, Total(bids, r));
    }
  }

  lemma SmallShare(b: BidRequest, r: nat, total: u64)
    requires Pow(b.bidAmount, r) < total
    ensures Share(b, r, total) == 0
  {
    SmallRemainder(Pow(b.bidAmount, r));
    SmallQuotient(Pow(b.bidAmount, r), total);
  }

  lemma {:induction false} SoleTotal(bids: seq<BidRequest>, r: nat, m: nat)
    requires r >= 1 && m < |bids|
    requires forall i :: 0 <= i < |bids| && i != m ==> bids[i].bidAmount == 0
    ensures Total(bids, r) == Pow(bids[m].bidAmount, r)
  {
    var front := bids[..|bids| - 1];
    if m == |bids| - 1 {
      forall b | b in front ensures b.bidAmount == 0 {
        var i :| 0 <= i < |front| && front[i] == b;
      }
      AllZeroTotal(front, r);
    } else {
      SoleTotal(front, r, m);
    }
  }

  lemma {:induction false} ZeroSharesAreZeroBids(bids: seq<BidRequest>, shares: seq<Bidder>)
    requires |shares| == |bids|
    requires forall i :: 0 <= i < |bids| ==>
               shares[i].name == bids[i].proverName && (shares[i].share == 0 <==> bids[i].bidAmount == 0)
    ensures |WithShare(shares, 0)| == |ZeroBids(bids)|
    ensures forall i :: 0 <= i < |ZeroBids(bids)| ==>
              WithShare(shares, 0)[i] == Bidder(ZeroBids(bids)[i].proverName, 0)
  {
    if bids == [] {
    } else {
      ZeroSharesAreZeroBids(bids[..|bids| - 1], shares[..|bids| - 1]);
    }
  }

  /** With one nonzero bid its share is 1 and every other share is 0: the sort moves it to the end,
      the range is 1, and the draw picks among the zero bids. */
  lemma SelectOneNonzero(bids: seq<BidRequest>, r: nat, second: nat)
    requires 1 <= r < |bids| && r < U32 && second < |bids|
    requires Total(bids, r) < U64 && |ZeroBids(bids)| == |bids| - 1
    ensures Select(bids, r, second) == SelectClosed(bids, r, second)
  {
    var total := Total(bids, r);
    WrappedTotalIsModular(bids, r);
    SmallRemainder(total);
    var m := SomeNonzero(bids);
    SoleTotal(bids, r, m);
    PowPositive(bids[m].bidAmount, r);
    OneNonzeroShares(bids, r, m);
    var shares := Shares(bids, r, total);
    OneNonzeroSort(bids, shares);
    StableSortSorts(shares);
    UnitIndex(StableSort(shares), r);
    var k := if r == 1 then 0 else 1;
    SelectAt(bids, r, second, total, k, FirstNamed(bids, SortedShares(bids, r, total)[k].name));
  }

  lemma UnitIndex(sorted: seq<Bidder>, r: nat)
    requires Sorted(sorted) && |sorted| > r >= 1
    requires sorted[0].share == 0 && sorted[|sorted| - 1].share == 1
    ensures WinnerIndex(sorted, r) == if r == 1 then 0 else 1
  {
    var range := sorted[|sorted| - 1].share - sorted[0].share;
    assert range == 1;
    if r == 1 {
      ZeroRemainder(|sorted|);
    } else {
      UnitRemainder(r);
      UnitRemainder(|sorted|);
    }
  }

  lemma UnitRemainder(n: nat)
    requires n > 1
    ensures 1 % n == 1
  {
  }

  lemma ZeroRemainder(n: nat)
    requires n >= 1
    ensures 0 % n == 0
  {
  }

  lemma OneNonzeroSort(bids: seq<BidRequest>, shares: seq<Bidder>)
    requires |shares| == |bids| >= 2 && |ZeroBids(bids)| == |bids| - 1
    requires forall i :: 0 <= i < |bids| ==>
               shares[i].name == bids[i].proverName &&
               shares[i].share == if bids[i].bidAmount == 0 then 0 else 1
    ensures |StableSort(shares)| == |bids| && StableSort(shares)[|bids| - 1].share == 1
    ensures forall i :: 0 <= i < |bids| - 1 ==>
              StableSort(shares)[i] == Bidder(ZeroBids(bids)[i].proverName, 0)
  {
    SortOfZeroesAndOnes(shares);
    ZeroSharesAreZeroBids(bids, shares);
    StableSortSorts(shares);
    WithShareMembers(shares, 1);
    assert StableSort(shares)[|bids| - 1] == WithShare(shares, 1)[0];
    assert WithShare(shares, 1)[0] in WithShare(shares, 1);
  }

  lemma OneNonzeroShares(bids: seq<BidRequest>, r: nat, m: nat)
    requires r >= 1 && m < |bids| && 0 < Total(bids, r) < U64
    requires Total(bids, r) == Pow(bids[m].bidAmount, r) && bids[m].bidAmount != 0
    requires forall i :: 0 <= i < |bids| && i != m ==> bids[i].bidAmount == 0
    ensures forall i :: 0 <= i < |bids| ==>
              Shares(bids, r, Total(bids, r))[i].share == if bids[i].bidAmount == 0 then 0 else 1
  {
    var total := Total(bids, r);
    forall i | 0 <= i < |bids|
      ensures Share(bids[i], r, total) == if bids[i].bidAmount == 0 then 0 else 1
    {
      if i == m {
        SmallRemainder(total);
        SelfQuotient(total);
      } else {
        PowZero(r);
        SmallShare(bids[i], r, total);
      }
    }
  }

  lemma SelfQuotient(x: nat)
    requires x > 0
    ensures x / x == 1
  {
  }

  /** A single nonzero bid never wins when prover names differ: the winner's own amount is zero. */
  lemma SoleBidderLoses(bids: seq<BidRequest>, m: nat, r: nat, second: nat)
    requires m < |bids| && 1 <= r < |bids| && r < U32 && second < |bids|
    requires Total(bids, r) < U64
    requires bids[m].bidAmount != 0
    requires forall i :: 0 <= i < |bids| && i != m ==> bids[i].bidAmount == 0
    requires forall i, j :: 0 <= i < j < |bids| ==> bids[i].proverName != bids[j].proverName
    ensures Select(bids, r, second).Won? && Select(bids, r, second).bid.bidAmount == 0
  {
    SelectIsClosed(bids, r, second);
    CountZeroBids(bids, m);
    ZeroBidsMembers(bids);
    var z := ZeroBids(bids)[if r == 1 then 0 else 1];
    assert z in bids && z.bidAmount == 0;
    var i :| 0 <= i < |bids| && bids[i] == z;
  }

  lemma {:induction false} CountZeroBids(bids: seq<BidRequest>, m: nat)
    requires m < |bids| && bids[m].bidAmount != 0
    requires forall i :: 0 <= i < |bids| && i != m ==> bids[i].bidAmount == 0
    ensures |ZeroBids(bids)| == |bids| - 1
  {
    var front := bids[..|bids| - 1];
    if m == |bids| - 1 {
      ZeroBidsMembers(front);
      forall b | b in front ensures b.bidAmount == 0 {
        var i :| 0 <= i < |front| && front[i] == b;
      }
    } else {
      CountZeroBids(front, m);
    }
  }

  /** With n bids of at most B each and n * B^(n-1) below 2^64, no draw overflows. */
  lemma SelectUnderBound(bids: seq<BidRequest>, bound: nat, r: nat, second: nat)
    requires bids != [] && r < |bids| && second < |bids| && bound >= 1
    requires forall b :: b in bids ==> b.bidAmount <= bound
    requires |bids| * Pow(bound, |bids| - 1) < U64
    ensures Select(bids, r, second) == SelectClosed(bids, r, second)
  {
    OverflowBound(bids, bound, r);
    DrawFitsExactly(bids, r);
    SelectIsClosed(bids, r, second);
  }

  /** Beyond the bound the selection is another one: squares of 2^32 wrap to zero, and bids that the
      closed form gives to the first bidder are drawn at random. */
  lemma OverflowDrawsAtRandom(bids: seq<BidRequest>, second: nat)
    requires |bids| >= 3 && second < |bids|
    requires forall b :: b in bids ==> b.bidAmount == U32
    ensures Select(bids, 2, second) == Won(bids[second])
    ensures SelectClosed(bids, 2, second) == Won(bids[0])
  {
    SquaresVanish(bids);
    NoZeroBids(bids);
  }

  lemma {:induction false} SquaresVanish(bids: seq<BidRequest>)
    requires forall b :: b in bids ==> b.bidAmount == U32
    ensures WrappedTotal(bids, 2) == 0
  {
    if bids == [] {
    } else {
      SquaresVanish(bids[..|bids| - 1]);
      assert bids[|bids| - 1] in bids;
      assert Pow(U32, 2) == U32 * (U32 * 1);
      assert PowU64(U32, 2) == 0;
    }
  }

  lemma {:induction false} NoZeroBids(bids: seq<BidRequest>)
    requires forall b :: b in bids ==> b.bidAmount != 0
    ensures ZeroBids(bids) == []
  {
    if bids == [] {
    } else {
      NoZeroBids(bids[..|bids| - 1]);
      assert bids[|bids| - 1] in bids;
    }
  }
}
