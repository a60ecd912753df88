/** Powers of bid amounts and their sums, over the integers and in 64 bits. */
module Powers {
  import opened Primitives

  function Pow(b: nat, e: nat): nat {
    if e == 0 then 1 else b * Pow(b, e - 1)
  }

  /** u64's `pow` in the release build. */
  function PowU64(b: u64, e: nat): u64 {
    Pow(b, e) % U64
  }

  /** The sum of the amounts raised to the draw, over the integers. */
  function Total(bids: seq<BidRequest>, r: nat): nat {
    if bids == [] then 0
    else Total(bids[..|bids| - 1], r) + Pow(bids[|bids| - 1].bidAmount, r)
  }

  /** The same sum as the machine accumulates it, wrapping at every step. */
  function WrappedTotal(bids: seq<BidRequest>, r: nat): u64 {
    if bids == [] then 0
    else WrapAdd(WrappedTotal(bids[..|bids| - 1], r), PowU64(bids[|bids| - 1].bidAmount, r))
  }

  lemma {:induction false} WrappedTotalIsModular(bids: seq<BidRequest>, r: nat)
    ensures WrappedTotal(bids, r) == Total(bids, r) % U64
  {
    if bids == [] {
    } else {
      WrappedTotalIsModular(bids[..|bids| - 1], r);
      ModAdd(Total(bids[..|bids| - 1], r), Pow(bids[|bids| - 1].bidAmount, r));
    }
  }

  lemma ModAdd(a: nat, b: nat)
    ensures (a % U64 + b % U64) % U64 == (a + b) % U64
  {
    var x, y := a % U64 + b % U64, a + b;
    var q := a / U64 + b / U64;
    assert y == q * U64 + x;
    assert y / U64 == q + x / U64;
  }

  lemma {:induction false} PowPositive(b: nat, e: nat)
    requires b >= 1
    ensures Pow(b, e) >= 1
  {
    if e == 0 {
    } else {
      PowPositive(b, e - 1);
      assert b * Pow(b, e - 1) >= Pow(b, e - 1) by {
        MulGrows(b, Pow(b, e - 1));
      }
    }
  }

  lemma MulGrows(a: nat, b: nat)
    requires a >= 1
    ensures a * b >= b
  {
    assert a * b == (a - 1) * b + b;
  }

  lemma PowZero(e: nat)
    requires e >= 1
    ensures Pow(0, e) == 0
  {
  }

  lemma {:induction false} PowMonotone(a: nat, b: nat, d: nat, e: nat)
    requires a <= b && 1 <= b && d <= e
    ensures Pow(a, d) <= Pow(b, e)
    decreases e
  {
    if d == 0 {
      PowPositive(b, e);
    } else {
      PowMonotone(a, b, d - 1, e - 1);
      assert a * Pow(a, d - 1) <= b * Pow(b, e - 1) by {
        MulMonotone(a, Pow(a, d - 1), b, Pow(b, e - 1));
      }
    }
  }

  lemma MulMonotone(a: nat, x: nat, b: nat, y: nat)
    requires a <= b && x <= y
    ensures a * x <= b * y
  {
    assert a * x <= a * y by {
      assert a * y == a * x + a * (y - x);
    }
    assert a * y <= b * y by {
      assert b * y == a * y + (b - a) * y;
    }
  }

  lemma {:induction false} TotalBoundsPrefix(bids: seq<BidRequest>, r: nat, k: nat)
    requires k <= |bids|
    ensures Total(bids[..k], r) <= Total(bids, r)
  {
    if k == |bids| {
      assert bids[..k] == bids;
    } else {
      TotalBoundsPrefix(bids[..|bids| - 1], r, k);
      assert bids[..|bids| - 1][..k] == bids[..k];
    }
  }

  lemma {:induction false} TotalBoundsMembers(bids: seq<BidRequest>, r: nat, i: nat)
    requires i < |bids|
    ensures Pow(bids[i].bidAmount, r) <= Total(bids, r)
  {
    if i < |bids| - 1 {
      TotalBoundsMembers(bids[..|bids| - 1], r, i);
    }
  }

  lemma {:induction false} TotalBoundsPairs(bids: seq<BidRequest>, r: nat, i: nat, j: nat)
    requires i < j < |bids|
    ensures Pow(bids[i].bidAmount, r) + Pow(bids[j].bidAmount, r) <= Total(bids, r)
  {
    var front := bids[..|bids| - 1];
    if j < |bids| - 1 {
      TotalBoundsPairs(front, r, i, j);
    } else {
      TotalBoundsMembers(front, r, i);
    }
  }

  lemma {:induction false} TotalAtMost(bids: seq<BidRequest>, bound: nat, r: nat, e: nat)
    requires bound >= 1 && r <= e
    requires forall b :: b in bids ==> b.bidAmount <= bound
    ensures Total(bids, r) <= |bids| * Pow(bound, e)
  {
    if bids == [] {
    } else {
      var front := bids[..|bids| - 1];
      TotalAtMost(front, bound, r, e);
      PowMonotone(bids[|bids| - 1].bidAmount, bound, r, e);
      assert |bids| * Pow(bound, e) == |front| * Pow(bound, e) + Pow(bound, e);
    }
  }

  lemma {:induction false} PowGrows(b: nat, d: nat, e: nat)
    requires 1 <= d <= e
    ensures Pow(b, d) <= Pow(b, e)
  {
    if b == 0 {
      PowZero(d);
    } else {
      PowMonotone(b, b, d, e);
    }
  }

  lemma {:induction false} TotalGrows(bids: seq<BidRequest>, d: nat, e: nat)
    requires 1 <= d <= e
    ensures Total(bids, d) <= Total(bids, e)
  {
    if bids == [] {
    } else {
      TotalGrows(bids[..|bids| - 1], d, e);
      PowGrows(bids[|bids| - 1].bidAmount, d, e);
    }
  }

  /** Draw `r` overflows neither in a power nor in a partial sum. */
  ghost predicate DrawFits(bids: seq<BidRequest>, r: nat) {
    && (forall i :: 0 <= i < |bids| ==> Pow(bids[i].bidAmount, r) < U64)
    && (forall k :: 0 <= k <= |bids| ==> Total(bids[..k], r) < U64)
  }

  lemma DrawFitsExactly(bids: seq<BidRequest>, r: nat)
    ensures DrawFits(bids, r) <==> Total(bids, r) < U64
  {
    assert bids[..|bids|] == bids;
    if Total(bids, r) < U64 {
      forall i | 0 <= i < |bids| ensures Pow(bids[i].bidAmount, r) < U64 {
        TotalBoundsMembers(bids, r, i);
      }
      forall k | 0 <= k <= |bids| ensures Total(bids[..k], r) < U64 {
        TotalBoundsPrefix(bids, r, k);
      }
    }
  }

  /** If every amount is at most B and n * B^(n-1) fits in 64 bits, then no draw makes any power or
      any partial sum overflow. */
  lemma OverflowBound(bids: seq<BidRequest>, bound: nat, r: nat)
    requires |bids| >= 1 && bound >= 1 && r < |bids|
    requires forall b :: b in bids ==> b.bidAmount <= bound
    requires |bids| * Pow(bound, |bids| - 1) < U64
    ensures DrawFits(bids, r)
  {
    TotalAtMost(bids, bound, r, |bids| - 1);
    DrawFitsExactly(bids, r);
  }

  /** The exact bound: no nonzero draw overflows if and only if the largest draw's total fits in 64
      bits, which can be computed before drawing. */
  lemma OverflowExactly(bids: seq<BidRequest>)
    requires |bids| >= 2
    ensures (forall r: nat :: 1 <= r < |bids| ==> DrawFits(bids, r)) <==> Total(bids, |bids| - 1) < U64
  {
    DrawFitsExactly(bids, |bids| - 1);
    forall r: nat | 1 <= r < |bids| ensures Total(bids, |bids| - 1) < U64 ==> DrawFits(bids, r) {
      TotalGrows(bids, r, |bids| - 1);
      DrawFitsExactly(bids, r);
    }
  }
}
