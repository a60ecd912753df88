/** The vector of bidders and its stable sort by share. */
module BidderSort {

  datatype Bidder = Bidder(name: string, share: nat)

  predicate Sorted(s: seq<Bidder>) {
    forall i, j :: 0 <= i < j < |s| ==> s[i].share <= s[j].share
  }

  function Insert(s: seq<Bidder>, x: Bidder): seq<Bidder> {
    if s == [] || s[|s| - 1].share <= x.share then s + [x]
    else Insert(s[..|s| - 1], x) + [s[|s| - 1]]
  }

  /** `sort_by_key` on the share: the library call is stable. */
  function StableSort(s: seq<Bidder>): seq<Bidder> {
    if s == [] then [] else Insert(StableSort(s[..|s| - 1]), s[|s| - 1])
  }

  /** What `x` adds to the bidders of share `k`. */
  function Own(x: Bidder, k: nat): seq<Bidder> {
    if x.share == k then [x] else []
  }

  /** The bidders of one share, in order. */
  function WithShare(s: seq<Bidder>, k: nat): seq<Bidder> {
    if s == [] then []
    else WithShare(s[..|s| - 1], k) + Own(s[|s| - 1], k)
  }

  lemma {:induction false} WithShareMembers(s: seq<Bidder>, k: nat)
    ensures forall x :: x in WithShare(s, k) <==> x in s && x.share == k
  {
    if s == [] {
    } else {
      WithShareMembers(s[..|s| - 1], k);
      assert s == s[..|s| - 1] + [s[|s| - 1]];
    }
  }

  lemma {:induction false} InsertPermutes(s: seq<Bidder>, x: Bidder)
    ensures |Insert(s, x)| == |s| + 1
    ensures multiset(Insert(s, x)) == multiset(s) + multiset{x}
  {
    if s == [] || s[|s| - 1].share <= x.share {
    } else {
      InsertPermutes(s[..|s| - 1], x);
      assert s == s[..|s| - 1] + [s[|s| - 1]];
    }
  }

  lemma {:induction false} InsertSorts(s: seq<Bidder>, x: Bidder)
    requires Sorted(s)
    ensures Sorted(Insert(s, x))
  {
    if s == [] || s[|s| - 1].share <= x.share {
    } else {
      var front, last := s[..|s| - 1], s[|s| - 1];
      InsertSorts(front, x);
      InsertPermutes(front, x);
      var t := Insert(front, x);
      forall i | 0 <= i < |t| ensures t[i].share <= last.share {
        assert t[i] in multiset(t);
        assert t[i] in front || t[i] == x;
      }
    }
  }

  lemma WithShareSnoc(s: seq<Bidder>, x: Bidder, k: nat)
    ensures WithShare(s + [x], k) == WithShare(s, k) + Own(x, k)
  {
    assert (s + [x])[..|s|] == s;
  }

  lemma {:induction false} InsertStable(s: seq<Bidder>, x: Bidder, k: nat)
    ensures WithShare(Insert(s, x), k) == WithShare(s, k) + Own(x, k)
  {
    if s == [] || s[|s| - 1].share <= x.share {
      WithShareSnoc(s, x, k);
    } else {
      InsertStable(s[..|s| - 1], x, k);
      WithShareSnoc(Insert(s[..|s| - 1], x), s[|s| - 1], k);
      OwnsCommute(WithShare(s[..|s| - 1], k), x, s[|s| - 1], k);
    }
  }

  lemma OwnsCommute(f: seq<Bidder>, x: Bidder, y: Bidder, k: nat)
    requires x.share != y.share
    ensures (f + Own(x, k)) + Own(y, k) == (f + Own(y, k)) + Own(x, k)
  {
    if x.share == k {
      assert Own(y, k) == [];
    } else {
      assert Own(x, k) == [];
    }
  }

  lemma {:induction false} StableSortSorts(s: seq<Bidder>)
    ensures Sorted(StableSort(s)) && |StableSort(s)| == |s|
  {
    if s == [] {
    } else {
      var t := StableSort(s[..|s| - 1]);
      StableSortSorts(s[..|s| - 1]);
      InsertPermutes(t, s[|s| - 1]);
      InsertSorts(t, s[|s| - 1]);
    }
  }

  lemma {:induction false} StableSortPermutes(s: seq<Bidder>)
    ensures multiset(StableSort(s)) == multiset(s)
  {
    if s == [] {
    } else {
      StableSortPermutes(s[..|s| - 1]);
      InsertPermutes(StableSort(s[..|s| - 1]), s[|s| - 1]);
      assert s == s[..|s| - 1] + [s[|s| - 1]];
    }
  }

  /** Bidders with equal shares keep their order. */
  lemma {:induction false} StableSortKeepsOrder(s: seq<Bidder>, k: nat)
    ensures WithShare(StableSort(s), k) == WithShare(s, k)
  {
    if s == [] {
    } else {
      var front, last := s[..|s| - 1], s[|s| - 1];
      StableSortKeepsOrder(front, k);
      var t := StableSort(front);
      InsertStable(t, last, k);
    }
  }

  /** There is only one such sequence, whatever algorithm computes it. */
  lemma {:induction false} StableSortUnique(s: seq<Bidder>, t: seq<Bidder>)
    requires Sorted(t)
    requires forall k: nat :: WithShare(t, k) == WithShare(s, k)
    ensures t == StableSort(s)
  {
    forall k: nat ensures WithShare(t, k) == WithShare(StableSort(s), k) {
      StableSortKeepsOrder(s, k);
    }
    StableSortSorts(s);
    SortedWithEqualShares(t, StableSort(s));
  }

  lemma {:induction false} SortedWithEqualShares(t: seq<Bidder>, u: seq<Bidder>)
    requires Sorted(t) && Sorted(u)
    requires forall k: nat :: WithShare(t, k) == WithShare(u, k)
    ensures t == u
  {
    if u != [] {
      LastIsCommon(u, t);
    }
    if t != [] {
      LastIsCommon(t, u);
      var x, y := t[|t| - 1], u[|u| - 1];
      assert x.share == y.share;
      assert x == WithShare(t, x.share)[|WithShare(t, x.share)| - 1];
      assert y == WithShare(u, x.share)[|WithShare(u, x.share)| - 1];
      var t', u' := t[..|t| - 1], u[..|u| - 1];
      forall k: nat ensures WithShare(t', k) == WithShare(u', k) {
        assert WithShare(t, k) == WithShare(u, k);
        DropLastShare(t, k);
        DropLastShare(u, k);
      }
      SortedWithEqualShares(t', u');
      assert t == t' + [x] && u == u' + [y];
    }
  }

  /** The largest bidder of one is in the other, so its share is not above the other's largest. */
  lemma LastIsCommon(t: seq<Bidder>, u: seq<Bidder>)
    requires t != [] && Sorted(t) && Sorted(u)
    requires forall k: nat :: WithShare(t, k) == WithShare(u, k)
    ensures u != [] && t[|t| - 1].share <= u[|u| - 1].share
  {
    var x := t[|t| - 1];
    WithShareMembers(t, x.share);
    WithShareMembers(u, x.share);
    assert x in WithShare(u, x.share);
    assert x in u;
  }

  lemma DropLastShare(s: seq<Bidder>, k: nat)
    requires s != []
    ensures WithShare(s[..|s| - 1], k) ==
            if s[|s| - 1].share == k then WithShare(s, k)[..|WithShare(s, k)| - 1] else WithShare(s, k)
  {
    if s[|s| - 1].share == k {
      var w := WithShare(s[..|s| - 1], k);
      assert (w + [s[|s| - 1]])[..|w|] == w;
    }
  }

  // ----- vectors of zero and one shares ------------------------------------------------------

  lemma {:induction false} WithShareConcat(s: seq<Bidder>, t: seq<Bidder>, k: nat)
    ensures WithShare(s + t, k) == WithShare(s, k) + WithShare(t, k)
  {
    if t == [] {
      assert s + t == s;
    } else {
      WithShareConcat(s, t[..|t| - 1], k);
      assert (s + t)[..|s + t| - 1] == s + t[..|t| - 1];
    }
  }

  lemma {:induction false} WithShareTwice(s: seq<Bidder>, j: nat, k: nat)
    ensures WithShare(WithShare(s, j), k) == if j == k then WithShare(s, k) else []
  {
    if s == [] {
    } else {
      WithShareTwice(s[..|s| - 1], j, k);
      var x := s[|s| - 1];
      var tail := if x.share == j then [x] else [];
      WithShareConcat(WithShare(s[..|s| - 1], j), tail, k);
      assert WithShare(s, j) == WithShare(s[..|s| - 1], j) + tail;
      assert tail[..0] == [] && WithShare(tail, k) == if x.share == j == k then [x] else [];
    }
  }

  lemma {:induction false} NoOtherShares(s: seq<Bidder>, k: nat)
    requires k > 1 && forall x :: x in s ==> x.share <= 1
    ensures WithShare(s, k) == []
  {
    if s == [] {
    } else {
      NoOtherShares(s[..|s| - 1], k);
      assert s[|s| - 1] in s;
    }
  }

  lemma SortOfZeroesAndOnes(s: seq<Bidder>)
    requires forall x :: x in s ==> x.share <= 1
    ensures StableSort(s) == WithShare(s, 0) + WithShare(s, 1)
  {
    var t := WithShare(s, 0) + WithShare(s, 1);
    WithShareMembers(s, 0);
    WithShareMembers(s, 1);
    forall i, j | 0 <= i < j < |t| ensures t[i].share <= t[j].share {
      assert t[i] in WithShare(s, 0) || t[i] in WithShare(s, 1);
      assert i < |WithShare(s, 0)| ==> t[i] in WithShare(s, 0);
      assert j >= |WithShare(s, 0)| ==> t[j] in WithShare(s, 1);
      assert j < |WithShare(s, 0)| ==> t[j] in WithShare(s, 0);
    }
    forall k: nat ensures WithShare(t, k) == WithShare(s, k) {
      WithShareConcat(WithShare(s, 0), WithShare(s, 1), k);
      WithShareTwice(s, 0, k);
      WithShareTwice(s, 1, k);
      if k > 1 {
        NoOtherShares(s, k);
      }
    }
    StableSortUnique(s, t);
  }
}
