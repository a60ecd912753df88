/** Who wins whatever the arithmetic wraps to, told by positions in the bid list alone: the draw picks
    the bid that a given number of bids precede by share and, among equal shares, by position. */
module Ranking {
  import opened Primitives
  import opened Powers
  import opened BidderSort
  import opened WinnerSelection

  // ----- the rank of a position -----------------------------------------------------------------

  /** Position i goes before position j: a smaller share, or the same share and an earlier bid. */
  predicate Precedes(shares: seq<Bidder>, i: nat, j: nat)
    requires i < |shares| && j < |shares|
  {
    shares[i].share < shares[j].share || (shares[i].share == shares[j].share && i < j)
  }

  /** How many of the first n positions go before position j. */
  function RankAmong(shares: seq<Bidder>, j: nat, n: nat): nat
    requires j < |shares| && n <= |shares|
  {
    if n == 0 then 0 else RankAmong(shares, j, n - 1) + (if Precedes(shares, n - 1, j) then 1 else 0)
  }

  /** How many bidders have at most that share. */
  function AtMost(s: seq<Bidder>, share: nat): (c: nat)
    ensures c <= |s|
  {
    if s == [] then 0 else AtMost(s[..|s| - 1], share) + (if s[|s| - 1].share <= share then 1 else 0)
  }

  lemma AtMostSnoc(s: seq<Bidder>, x: Bidder, share: nat)
    ensures AtMost(s + [x], share) == AtMost(s, share) + (if x.share <= share then 1 else 0)
  {
    assert (s + [x])[..|s|] == s;
  }

  lemma {:induction false} AtMostInserted(s: seq<Bidder>, x: Bidder, share: nat)
    ensures AtMost(Insert(s, x), share) == AtMost(s, share) + (if x.share <= share then 1 else 0)
  {
    if s == [] || s[|s| - 1].share <= x.share {
      AtMostSnoc(s, x, share);
    } else {
      AtMostInserted(s[..|s| - 1], x, share);
      AtMostSnoc(Insert(s[..|s| - 1], x), s[|s| - 1], share);
    }
  }

  lemma {:induction false} AtMostSorted(s: seq<Bidder>, share: nat)
    ensures AtMost(StableSort(s), share) == AtMost(s, share)
  {
    if s == [] {
    } else {
      AtMostSorted(s[..|s| - 1], share);
      AtMostInserted(StableSort(s[..|s| - 1]), s[|s| - 1], share);
    }
  }

  /** In a sorted vector those are the first ones. */
  lemma {:induction false} AtMostSplits(s: seq<Bidder>, share: nat)
    requires Sorted(s)
    ensures forall i :: 0 <= i < |s| ==> (s[i].share <= share <==> i < AtMost(s, share))
  {
    if s == [] {
    } else {
      AtMostSplits(s[..|s| - 1], share);
    }
  }

  /** Inserting keeps what is before the insertion point and moves the rest up by one. */
  lemma {:induction false} InsertedAt(s: seq<Bidder>, x: Bidder, i: nat)
    requires Sorted(s) && i <= |s|
    ensures |Insert(s, x)| == |s| + 1
    ensures var c := AtMost(s, x.share);
            Insert(s, x)[i] == if i < c then s[i] else if i == c then x else s[i - 1]
  {
    InsertPermutes(s, x);
    AtMostSplits(s, x.share);
    if s == [] || s[|s| - 1].share <= x.share {
      assert AtMost(s, x.share) == |s|;
    } else {
      var front := s[..|s| - 1];
      InsertPermutes(front, x);
      if i < |s| {
        InsertedAt(front, x, i);
      }
    }
  }

  /** The last position goes behind everything of at most its share. */
  lemma {:induction false} RankOfLast(shares: seq<Bidder>, n: nat)
    requires n < |shares|
    ensures RankAmong(shares, |shares| - 1, n) == AtMost(shares[..n], shares[|shares| - 1].share)
  {
    if n > 0 {
      RankOfLast(shares, n - 1);
      assert shares[..n][..n - 1] == shares[..n - 1];
    }
  }

  lemma {:induction false} RankInFront(shares: seq<Bidder>, j: nat, n: nat)
    requires j < |shares| - 1 && n < |shares|
    ensures RankAmong(shares, j, n) == RankAmong(shares[..|shares| - 1], j, n)
  {
    if n > 0 {
      RankInFront(shares, j, n - 1);
    }
  }

  lemma RankTotal(shares: seq<Bidder>, j: nat)
    requires j < |shares|
    ensures RankAmong(shares, j, |shares|) ==
            RankAmong(shares, j, |shares| - 1) + (if Precedes(shares, |shares| - 1, j) then 1 else 0)
  {
  }

  /** `sorted` holds the bidders but the last, in order. */
  ghost predicate SortedFront(sorted: seq<Bidder>, shares: seq<Bidder>) {
    && shares != [] && Sorted(sorted) && |sorted| == |shares| - 1
    && AtMost(sorted, shares[|shares| - 1].share) == AtMost(shares[..|shares| - 1], shares[|shares| - 1].share)
  }

  /** The last bidder is inserted at its rank, */
  lemma {:induction false} LastAtRank(sorted: seq<Bidder>, shares: seq<Bidder>)
    requires SortedFront(sorted, shares)
    ensures var p := RankAmong(shares, |shares| - 1, |shares|);
            p < |shares| == |Insert(sorted, shares[|shares| - 1])| &&
            Insert(sorted, shares[|shares| - 1])[p] == shares[|shares| - 1]
  {
    RankTotal(shares, |shares| - 1);
    RankOfLast(shares, |shares| - 1);
    InsertedAt(sorted, shares[|shares| - 1], AtMost(sorted, shares[|shares| - 1].share));
  }

  /** and moves those of a larger share, which are the ones it does not go behind, up by one. */
  lemma {:induction false} RankMovesUp(sorted: seq<Bidder>, shares: seq<Bidder>, j: nat, p: nat)
    requires SortedFront(sorted, shares) && j < |shares| - 1 && p < |sorted| && sorted[p] == shares[j]
    requires p == RankAmong(shares[..|shares| - 1], j, |shares| - 1)
    ensures RankAmong(shares, j, |shares|) ==
            if p < AtMost(shares[..|shares| - 1], shares[|shares| - 1].share) then p else p + 1
  {
    RankTotal(shares, j);
    RankInFront(shares, j, |shares| - 1);
    AtMostSplits(sorted, shares[|shares| - 1].share);
  }

  lemma {:induction false} OtherAtRank(sorted: seq<Bidder>, shares: seq<Bidder>, j: nat, p: nat)
    requires SortedFront(sorted, shares) && j < |shares| - 1 && p < |sorted| && sorted[p] == shares[j]
    requires p == RankAmong(shares[..|shares| - 1], j, |shares| - 1)
    ensures var q := RankAmong(shares, j, |shares|);
            q < |shares| == |Insert(sorted, shares[|shares| - 1])| &&
            Insert(sorted, shares[|shares| - 1])[q] == shares[j]
  {
    RankMovesUp(sorted, shares, j, p);
    InsertedAt(sorted, shares[|shares| - 1], RankAmong(shares, j, |shares|));
  }

  lemma FrontIsSorted(shares: seq<Bidder>)
    requires shares != []
    ensures SortedFront(StableSort(shares[..|shares| - 1]), shares)
  {
    StableSortSorts(shares[..|shares| - 1]);
    AtMostSorted(shares[..|shares| - 1], shares[|shares| - 1].share);
  }

  /** The stable sort puts every position at its rank. */
  lemma {:induction false} SortedByRank(shares: seq<Bidder>, j: nat)
    requires j < |shares|
    ensures RankAmong(shares, j, |shares|) < |shares| == |StableSort(shares)|
    ensures StableSort(shares)[RankAmong(shares, j, |shares|)] == shares[j]
  {
    var front := shares[..|shares| - 1];
    FrontIsSorted(shares);
    if j == |shares| - 1 {
      LastAtRank(StableSort(front), shares);
    } else {
      SortedByRank(front, j);
      OtherAtRank(StableSort(front), shares, j, RankAmong(front, j, |front|));
    }
  }

  /** Every rank is some position's. */
  lemma {:induction false} RankIsTaken(shares: seq<Bidder>, p: nat) returns (j: nat)
    requires p < |shares|
    ensures j < |shares| && RankAmong(shares, j, |shares|) == p
  {
    var front := shares[..|shares| - 1];
    var c := AtMost(front, shares[|shares| - 1].share);
    if p == c {
      j := |shares| - 1;
      RankTotal(shares, j);
      RankOfLast(shares, j);
    } else {
      var q := if p < c then p else p - 1;
      j := RankIsTaken(front, q);
      SortedByRank(front, j);
      FrontIsSorted(shares);
      RankMovesUp(StableSort(front), shares, j, q);
    }
  }

  // ----- the winner ----------------------------------------------------------------------------

  /** A bid's part of the total, in 64-bit arithmetic. */
  function Part(bids: seq<BidRequest>, r: nat, total: nat, i: nat): nat
    requires i < |bids| && total > 0
  {
    var power: nat := Pow(bids[i].bidAmount, r) % U64;
    power / total
  }

  /** How many of the first n bids have a smaller part than bid j, or the same part and come earlier. */
  function Ahead(bids: seq<BidRequest>, r: nat, total: nat, j: nat, n: nat): nat
    requires j < |bids| && n <= |bids| && total > 0
  {
    if n == 0 then 0
    else
      var x, y := Part(bids, r, total, n - 1), Part(bids, r, total, j);
      Ahead(bids, r, total, j, n - 1) + (if x < y || (x == y && n - 1 < j) then 1 else 0)
  }

  /** Bid k is the first of the prover of bid j, and bid j has ahead of it as many bids as the range of
      the parts, from bid lo's to bid hi's, leaves modulo the draw. */
  ghost predicate Wins(bids: seq<BidRequest>, r: nat, total: nat, k: nat, j: nat, lo: nat, hi: nat)
    requires r >= 1 && total > 0
  {
    && k < |bids| && j < |bids| && lo < |bids| && hi < |bids|
    && (forall i :: 0 <= i < |bids| ==>
          Part(bids, r, total, lo) <= Part(bids, r, total, i) <= Part(bids, r, total, hi))
    && Ahead(bids, r, total, j, |bids|) == (Part(bids, r, total, hi) - Part(bids, r, total, lo)) % r
    && bids[k].proverName == bids[j].proverName
    && (forall i :: 0 <= i < k ==> bids[i].proverName != bids[j].proverName)
  }

  lemma {:induction false} AheadIsRank(bids: seq<BidRequest>, r: nat, total: u64, j: nat, n: nat)
    requires j < |bids| && n <= |bids| && total > 0
    ensures Ahead(bids, r, total, j, n) == RankAmong(Shares(bids, r, total), j, n)
  {
    if n > 0 {
      AheadIsRank(bids, r, total, j, n - 1);
    }
  }

  /** The smallest and the largest share are the ends of the sorted vector. */
  lemma SortedEnds(shares: seq<Bidder>, lo: nat, hi: nat)
    requires lo < |shares| && hi < |shares|
    requires forall i :: 0 <= i < |shares| ==> shares[lo].share <= shares[i].share <= shares[hi].share
    ensures |StableSort(shares)| == |shares|
    ensures StableSort(shares)[0].share == shares[lo].share
    ensures StableSort(shares)[|shares| - 1].share == shares[hi].share
  {
    StableSortSorts(shares);
    SortedByRank(shares, lo);
    SortedByRank(shares, hi);
    var first := RankIsTaken(shares, 0);
    var last := RankIsTaken(shares, |shares| - 1);
    SortedByRank(shares, first);
    SortedByRank(shares, last);
  }

  lemma Range(shares: seq<Bidder>) returns (lo: nat, hi: nat)
    requires shares != []
    ensures lo < |shares| && hi < |shares|
    ensures forall i :: 0 <= i < |shares| ==> shares[lo].share <= shares[i].share <= shares[hi].share
  {
    StableSortSorts(shares);
    lo := RankIsTaken(shares, 0);
    hi := RankIsTaken(shares, |shares| - 1);
    SortedByRank(shares, lo);
    SortedByRank(shares, hi);
    forall i | 0 <= i < |shares| ensures shares[lo].share <= shares[i].share <= shares[hi].share {
      SortedByRank(shares, i);
    }
  }

  lemma RemainderBelow(x: nat, r: nat, n: nat)
    requires 1 <= r < n
    ensures (x % r) % n == x % r < n
  {
    SmallModulus(x % r, n);
  }

  lemma SmallModulus(x: nat, n: nat)
    requires x < n
    ensures x % n == x
  {
  }

  /** The position drawn holds the bidder of the bid that many bids are ahead of. */
  lemma DrawnPosition(bids: seq<BidRequest>, r: nat, total: u64, k: nat, j: nat, lo: nat, hi: nat)
    requires 1 <= r < |bids| && total > 0 && Wins(bids, r, total, k, j, lo, hi)
    ensures var sorted := SortedShares(bids, r, total);
            sorted[WinnerIndex(sorted, r)].name == bids[j].proverName
  {
    var shares := Shares(bids, r, total);
    PartIsShare(bids, r, total, lo);
    PartIsShare(bids, r, total, hi);
    forall i | 0 <= i < |bids| ensures shares[lo].share <= shares[i].share <= shares[hi].share {
      PartIsShare(bids, r, total, i);
    }
    AheadIsRank(bids, r, total, j, |bids|);
    var range: nat := shares[hi].share - shares[lo].share;
    DrawnBidder(shares, SortedShares(bids, r, total), r, j, lo, hi, range);
  }

  lemma DrawnBidder(shares: seq<Bidder>, sorted: seq<Bidder>, r: nat, j: nat, lo: nat, hi: nat, range: nat)
    requires 1 <= r < |shares| && j < |shares| && lo < |shares| && hi < |shares|
    requires sorted == StableSort(shares) && Sorted(sorted) && |sorted| == |shares|
    requires forall i :: 0 <= i < |shares| ==> shares[lo].share <= shares[i].share <= shares[hi].share
    requires range == shares[hi].share - shares[lo].share
    requires RankAmong(shares, j, |shares|) == range % r
    ensures sorted[WinnerIndex(sorted, r)] == shares[j]
  {
    SortedEnds(shares, lo, hi);
    IndexOfRange(sorted, r, range);
    SortedByRank(shares, j);
  }

  lemma PartIsShare(bids: seq<BidRequest>, r: nat, total: u64, i: nat)
    requires i < |bids| && total > 0
    ensures Part(bids, r, total, i) == Shares(bids, r, total)[i].share
  {
  }

  lemma IndexOfRange(sorted: seq<Bidder>, r: nat, range: nat)
    requires 1 <= r < |sorted| && Sorted(sorted)
    requires range == sorted[|sorted| - 1].share - sorted[0].share
    ensures WinnerIndex(sorted, r) == range % r
  {
    RemainderBelow(range, r, |sorted|);
  }

  /** A bid that wins by rank is the one selected. */
  lemma WinsIsSelected(bids: seq<BidRequest>, r: nat, second: nat, k: nat, j: nat, lo: nat, hi: nat)
    requires 1 <= r < |bids| && r < U32 && second < |bids| && WrappedTotal(bids, r) > 0
    requires Wins(bids, r, WrappedTotal(bids, r), k, j, lo, hi)
    ensures Select(bids, r, second) == Won(bids[k])
  {
    var total := WrappedTotal(bids, r);
    DrawnPosition(bids, r, total, k, j, lo, hi);
    SelectAt(bids, r, second, total, WinnerIndex(SortedShares(bids, r, total), r), k);
  }

  lemma SomeoneWins(bids: seq<BidRequest>, r: nat, total: u64) returns (k: nat, j: nat, lo: nat, hi: nat)
    requires 1 <= r < |bids| && total > 0
    ensures Wins(bids, r, total, k, j, lo, hi)
  {
    var shares := Shares(bids, r, total);
    lo, hi := Range(shares);
    var x: nat := Part(bids, r, total, hi) - Part(bids, r, total, lo);
    RemainderBelow(x, r, |bids|);
    j := RankIsTaken(shares, x % r);
    AheadIsRank(bids, r, total, j, |bids|);
    k := FirstNamed(bids, bids[j].proverName);
  }

  /** On two or more bids and a nonzero draw, whatever overflows: if the 64-bit total is zero the second
      draw decides, and otherwise some bid wins by rank, and any that does is the one selected. */
  lemma SelectExactly(bids: seq<BidRequest>, r: nat, second: nat, total: nat)
    requires 1 <= r < |bids| && r < 0x1_0000_0000 && second < |bids|
    requires total == Total(bids, r) % 0x1_0000_0000_0000_0000
    ensures total == 0 ==> Select(bids, r, second) == Won(bids[second])
    ensures total > 0 ==> exists k: nat, j: nat, lo: nat, hi: nat :: Wins(bids, r, total, k, j, lo, hi)
    ensures total > 0 ==>
              forall k: nat, j: nat, lo: nat, hi: nat ::
                Wins(bids, r, total, k, j, lo, hi) ==> Select(bids, r, second) == Won(bids[k])
  {
    WrappedTotalIsModular(bids, r);
    assert total == WrappedTotal(bids, r);
    if total > 0 {
      var k, j, lo, hi := SomeoneWins(bids, r, total);
      forall k: nat, j: nat, lo: nat, hi: nat | Wins(bids, r, total, k, j, lo, hi)
        ensures Select(bids, r, second) == Won(bids[k])
      {
        WinsIsSelected(bids, r, second, k, j, lo, hi);
      }
    }
  }

  /** The other draws and lists. */
  lemma SelectOtherwise(bids: seq<BidRequest>, r: nat, second: nat)
    requires r < |bids| && second < |bids| < 0x1_0000_0000_0000_0000
    ensures r >= 0x1_0000_0000 ==> Select(bids, r, second) == Panicked
    ensures |bids| == 1 ==> Select(bids, r, second) == Won(bids[0])
    ensures |bids| >= 2 && r == 0 ==> Select(bids, r, second) == Panicked
  {
    SelectionSafe(bids, r, second);
  }
}
