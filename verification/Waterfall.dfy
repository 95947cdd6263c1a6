/** The payout waterfall of backend/src/yield/waterfall-engine.service.ts: a total is paid down a list
    of tiers in order, each up to its cap. */
module Waterfall {
  import opened Outcomes
  import opened Sorting

  datatype Recipient = Investors | Creator | Platform | Reserve

  /** A tier without a cap takes whatever is left. */
  datatype Tier = Tier(order: int, recipient: Recipient, cap: Option<int>)

  datatype Error = NegativeTotal

  datatype Calculation = Calculation(allocations: map<Recipient, int>, unallocated: int)

  // ----- Order of payment

  /** The language's library sorts stably by tier order. */
  function Order(t: Tier): int {
    t.order
  }

  // ----- What each tier is paid

  /** What one tier takes out of what is left. */
  function Budget(t: Tier, left: int): int {
    match t.cap
    case None => left
    case Some(cap) => if cap <= 0 then 0 else if left < cap then left else cap
  }

  function Payments(tiers: seq<Tier>, total: int): (paid: seq<int>)
    ensures |paid| == |tiers|
  {
    if tiers == [] then []
    else
      var paid := Budget(tiers[0], total);
      [paid] + Payments(tiers[1..], total - paid)
  }

  function Left(tiers: seq<Tier>, total: int): int {
    if tiers == [] then total else Left(tiers[1..], total - Budget(tiers[0], total))
  }

  /** What one recipient gets over all its tiers. */
  function Share(tiers: seq<Tier>, paid: seq<int>, r: Recipient): int
    requires |paid| == |tiers|
  {
    if tiers == [] then 0
    else (if tiers[0].recipient == r then paid[0] else 0) + Share(tiers[1..], paid[1..], r)
  }

  ghost predicate Pays(c: Calculation, tiers: seq<Tier>, total: int) {
    && c.unallocated == Left(tiers, total)
    && (forall r: Recipient :: r in c.allocations)
    && (forall r: Recipient :: r in c.allocations ==> c.allocations[r] == Share(tiers, Payments(tiers, total), r))
  }

  method CalculatePayout(total: int, tiers: seq<Tier>) returns (r: Result<Calculation, Error>)
    ensures total < 0 ==> r == Err(NegativeTotal)
    ensures total >= 0 ==> r.Ok? && Pays(r.value, Sorted(tiers, Order), total)
  {
    if total < 0 {
      return Err(NegativeTotal);
    }
    var sorted := Sorted(tiers, Order);
    var allocations := map[Investors := 0, Creator := 0, Platform := 0, Reserve := 0];
    forall r: Recipient
      ensures r in allocations
    {
      assert r.Investors? || r.Creator? || r.Platform? || r.Reserve?;
    }
    var left := total;
    for i := 0 to |sorted|
      invariant 0 <= left
      invariant forall r: Recipient :: r in allocations
      invariant Left(sorted, total) == Left(sorted[i..], left)
      invariant forall r: Recipient :: r in allocations ==>
        Share(sorted, Payments(sorted, total), r) == allocations[r] + Share(sorted[i..], Payments(sorted[i..], left), r)
    {
      var tier := sorted[i];
      if left == 0 {
        NothingLeft(sorted[i..]);
        return Ok(Calculation(allocations, left));
      }
      TierStep(sorted, i, left);
      if tier.cap.Some? && tier.cap.value <= 0 {
        continue;
      }
      var budget := if tier.cap.None? then left else if left < tier.cap.value then left else tier.cap.value;
      allocations := allocations[tier.recipient := allocations[tier.recipient] + budget];
      left := left - budget;
    }
    return Ok(Calculation(allocations, left));
  }

  lemma TierStep(tiers: seq<Tier>, i: nat, left: int)
    requires i < |tiers|
    ensures var paid := Budget(tiers[i], left);
      && Left(tiers[i..], left) == Left(tiers[i + 1..], left - paid)
      && forall r :: Share(tiers[i..], Payments(tiers[i..], left), r)
           == (if tiers[i].recipient == r then paid else 0)
              + Share(tiers[i + 1..], Payments(tiers[i + 1..], left - paid), r)
  {
    var paid := Budget(tiers[i], left);
    assert tiers[i..][1..] == tiers[i + 1..];
    assert Payments(tiers[i..], left)[1..] == Payments(tiers[i + 1..], left - paid);
  }

  /** Once nothing is left, no later tier is paid. */
  lemma {:induction false} NothingLeft(tiers: seq<Tier>)
    ensures Left(tiers, 0) == 0
    ensures forall r :: Share(tiers, Payments(tiers, 0), r) == 0
    ensures forall i :: 0 <= i < |tiers| ==> Payments(tiers, 0)[i] == 0
  {
    if tiers != [] {
      NothingLeft(tiers[1..]);
      assert Payments(tiers, 0)[1..] == Payments(tiers[1..], 0);
    }
  }
}

/** The laws of the waterfall. */
module WaterfallProofs {
  import opened Outcomes
  import opened Sums
  import opened Sorting
  import opened Waterfall

  // ----- Conservation

  function TotalShares(tiers: seq<Tier>, paid: seq<int>): int
    requires |paid| == |tiers|
  {
    Share(tiers, paid, Investors) + Share(tiers, paid, Creator) + Share(tiers, paid, Platform)
      + Share(tiers, paid, Reserve)
  }

  /** The four allocations and what is left over add up to the total. */
  lemma {:induction false} NothingIsLost(tiers: seq<Tier>, total: int)
    ensures TotalShares(tiers, Payments(tiers, total)) + Left(tiers, total) == total
  {
    if tiers != [] {
      var paid := Budget(tiers[0], total);
      NothingIsLost(tiers[1..], total - paid);
      assert Payments(tiers, total)[1..] == Payments(tiers[1..], total - paid);
    }
  }

  /** Every calculation accounts for the whole total. */
  lemma CalculationConserves(tiers: seq<Tier>, total: int, c: Calculation)
    requires Pays(c, Sorted(tiers, Order), total)
    ensures forall r: Recipient :: r in c.allocations
    ensures c.allocations[Investors] + c.allocations[Creator] + c.allocations[Platform] + c.allocations[Reserve]
      + c.unallocated == total
  {
    NothingIsLost(Sorted(tiers, Order), total);
  }

  lemma {:induction false} PaymentsWithinBounds(tiers: seq<Tier>, total: nat)
    ensures 0 <= Left(tiers, total) <= total
    ensures forall i :: 0 <= i < |tiers| ==>
      && 0 <= Payments(tiers, total)[i]
      && (tiers[i].cap.Some? ==> Payments(tiers, total)[i] <= if tiers[i].cap.value <= 0 then 0 else tiers[i].cap.value)
  {
    if tiers != [] {
      PaymentsWithinBounds(tiers[1..], total - Budget(tiers[0], total));
    }
  }

  // ----- Priority

  /** Nothing more fits into this tier. */
  predicate Full(t: Tier, paid: int) {
    t.cap.Some? && paid == if t.cap.value <= 0 then 0 else t.cap.value
  }

  /** A tier is paid only when every earlier one is full, and something is left over only when every
      tier is full. */
  ghost predicate InTurn(tiers: seq<Tier>, paid: seq<int>, left: int)
    requires |paid| == |tiers|
  {
    && (forall i, j :: 0 <= i < j < |tiers| && paid[j] > 0 ==> Full(tiers[i], paid[i]))
    && (left > 0 ==> forall i :: 0 <= i < |tiers| ==> Full(tiers[i], paid[i]))
  }

  lemma {:induction false} EarlierTiersFirst(tiers: seq<Tier>, total: nat)
    ensures InTurn(tiers, Payments(tiers, total), Left(tiers, total))
  {
    if tiers != [] {
      var first := Budget(tiers[0], total);
      var rest := tiers[1..];
      EarlierTiersFirst(rest, total - first);
      if total == first {
        NothingLeft(rest);
      }
      var paid := Payments(tiers, total);
      forall i, j | 0 <= i < j < |tiers| && paid[j] > 0
        ensures Full(tiers[i], paid[i])
      {
        assert tiers[j] == rest[j - 1] && paid[j] == Payments(rest, total - first)[j - 1];
        if i > 0 {
          assert tiers[i] == rest[i - 1];
        }
      }
    }
  }

  /** What was paid to one recipient, by the places of its tiers. */
  function PaidTo(tiers: seq<Tier>, paid: seq<int>, r: Recipient): map<nat, int>
    requires |paid| == |tiers|
  {
    map i: nat | i < |tiers| && tiers[i].recipient == r :: paid[i]
  }

  lemma {:induction false} ShareLast(tiers: seq<Tier>, paid: seq<int>, r: Recipient)
    requires |paid| == |tiers| && tiers != []
    ensures var n := |tiers| - 1;
      Share(tiers, paid, r) == Share(tiers[..n], paid[..n], r) + if tiers[n].recipient == r then paid[n] else 0
  {
    var n := |tiers| - 1;
    if n > 0 {
      ShareLast(tiers[1..], paid[1..], r);
      assert tiers[1..][..n - 1] == tiers[..n][1..] && paid[1..][..n - 1] == paid[..n][1..];
    }
  }

  lemma {:induction false} ShareIsSum(tiers: seq<Tier>, paid: seq<int>, r: Recipient)
    requires |paid| == |tiers|
    ensures Share(tiers, paid, r) == Sum(PaidTo(tiers, paid, r))
    decreases |tiers|
  {
    if tiers != [] {
      var n: nat := |tiers| - 1;
      var before, after := PaidTo(tiers[..n], paid[..n], r), PaidTo(tiers, paid, r);
      ShareLast(tiers, paid, r);
      ShareIsSum(tiers[..n], paid[..n], r);
      if tiers[n].recipient == r {
        assert n !in before;
        SumUpdate(before, n, paid[n]);
        assert after == before[n := paid[n]];
      } else {
        assert after == before;
      }
    }
  }

  /** A payout in the tiers' own terms: some order of them by their field, equal ones in either order, in
      which none is paid unless all before it are full and nothing is left over unless all are; every
      recipient gets the sum of what its tiers are paid. */
  ghost predicate PaysInOrder(c: Calculation, tiers: seq<Tier>, s: seq<Tier>, paid: seq<int>) {
    && multiset(s) == multiset(tiers) && |paid| == |s|
    && (forall i, j :: 0 <= i < j < |s| ==> s[i].order <= s[j].order)
    && InTurn(s, paid, c.unallocated)
    && (forall i, j :: 0 <= i < |s| && 0 <= j < |s| && s[i].order < s[j].order && paid[j] > 0 ==> Full(s[i], paid[i]))
    && (forall i :: 0 <= i < |s| ==>
          0 <= paid[i] && (s[i].cap.Some? ==> paid[i] <= if s[i].cap.value <= 0 then 0 else s[i].cap.value))
    && forall r: Recipient :: r in c.allocations && c.allocations[r] == Sum(PaidTo(s, paid, r))
  }

  /** A tier is paid only when every tier of a smaller order is full. */
  lemma PayoutFollowsOrder(tiers: seq<Tier>, total: nat, c: Calculation) returns (s: seq<Tier>, paid: seq<int>)
    requires Pays(c, Sorted(tiers, Order), total)
    ensures PaysInOrder(c, tiers, s, paid)
    ensures 0 <= c.unallocated <= total
  {
    s := Sorted(tiers, Order);
    paid := Payments(s, total);
    SortedIsASort(tiers, Order);
    EarlierTiersFirst(s, total);
    PaymentsWithinBounds(s, total);
    assert forall i, j :: 0 <= i < j < |s| ==> Order(s[i]) <= Order(s[j]);
    forall r: Recipient
      ensures r in c.allocations && c.allocations[r] == Sum(PaidTo(s, paid, r))
    {
      ShareIsSum(s, paid, r);
    }
  }

  // ----- Monotonicity

  lemma {:induction false} ShareMonotone(tiers: seq<Tier>, paid: seq<int>, more: seq<int>, r: Recipient)
    requires |paid| == |more| == |tiers|
    requires forall i :: 0 <= i < |tiers| ==> paid[i] <= more[i]
    ensures Share(tiers, paid, r) <= Share(tiers, more, r)
  {
    if tiers != [] {
      ShareMonotone(tiers[1..], paid[1..], more[1..], r);
    }
  }

  /** A larger payout leaves no tier, and so no recipient, with less. */
  lemma {:induction false} MorePaysMore(tiers: seq<Tier>, total: nat, larger: nat, r: Recipient)
    requires total <= larger
    ensures forall i :: 0 <= i < |tiers| ==> Payments(tiers, total)[i] <= Payments(tiers, larger)[i]
    ensures Share(tiers, Payments(tiers, total), r) <= Share(tiers, Payments(tiers, larger), r)
    ensures Left(tiers, total) <= Left(tiers, larger)
  {
    if tiers != [] {
      MorePaysMore(tiers[1..], total - Budget(tiers[0], total), larger - Budget(tiers[0], larger), r);
      ShareMonotone(tiers, Payments(tiers, total), Payments(tiers, larger), r);
    }
  }

  // ----- Composition

  /** The tiers with what was paid taken off their caps. */
  function Remaining(tiers: seq<Tier>, paid: seq<int>): (r: seq<Tier>)
    requires |paid| == |tiers|
    ensures |r| == |tiers|
  {
    seq(|tiers|, i requires 0 <= i < |tiers| =>
      match tiers[i].cap
      case None => tiers[i]
      case Some(cap) => tiers[i].(cap := Some(cap - paid[i])))
  }

  lemma {:induction false} ShareAdds(tiers: seq<Tier>, rest: seq<Tier>, first: seq<int>, second: seq<int>,
                                     both: seq<int>, r: Recipient)
    requires |first| == |second| == |both| == |tiers| == |rest|
    requires forall i :: 0 <= i < |tiers| ==> both[i] == first[i] + second[i] && rest[i].recipient == tiers[i].recipient
    ensures Share(tiers, both, r) == Share(tiers, first, r) + Share(rest, second, r)
  {
    if tiers != [] {
      ShareAdds(tiers[1..], rest[1..], first[1..], second[1..], both[1..], r);
    }
  }

  /** Tier by tier, paying x and then y against the caps left over pays x + y at once. */
  lemma {:induction false} PaymentsCompose(tiers: seq<Tier>, x: nat, y: nat)
    ensures var rest := Remaining(tiers, Payments(tiers, x));
      && (forall i :: 0 <= i < |tiers| ==>
            Payments(tiers, x + y)[i] == Payments(tiers, x)[i] + Payments(rest, y)[i])
      && Left(tiers, x + y) == Left(tiers, x) + Left(rest, y)
  {
    if tiers != [] {
      var rest := Remaining(tiers, Payments(tiers, x));
      var px := Budget(tiers[0], x);
      var py := Budget(rest[0], y);
      assert Budget(tiers[0], x + y) == px + py;
      PaymentsCompose(tiers[1..], x - px, y - py);
      assert Payments(tiers, x)[1..] == Payments(tiers[1..], x - px);
      assert rest[1..] == Remaining(tiers[1..], Payments(tiers[1..], x - px));
    }
  }

  /** Two payouts, the second against the caps the first one left over, give every recipient and the
      remainder exactly what one payout of the sum would. */
  lemma PayoutsCompose(tiers: seq<Tier>, x: nat, y: nat, first: Calculation, second: Calculation, both: Calculation)
    requires Pays(first, Sorted(tiers, Order), x) && Pays(both, Sorted(tiers, Order), x + y)
    requires Pays(second, Sorted(Remaining(Sorted(tiers, Order), Payments(Sorted(tiers, Order), x)), Order), y)
    ensures both.unallocated == first.unallocated + second.unallocated
    ensures forall r: Recipient ::
      && r in both.allocations && r in first.allocations && r in second.allocations
      && both.allocations[r] == first.allocations[r] + second.allocations[r]
  {
    var s := Sorted(tiers, Order);
    var rest := Remaining(s, Payments(s, x));
    SortedIsASort(tiers, Order);
    SortedOfAscending(rest, Order);
    PaymentsCompose(s, x, y);
    forall r: Recipient
      ensures Share(s, Payments(s, x + y), r) == Share(s, Payments(s, x), r) + Share(rest, Payments(rest, y), r)
    {
      ShareAdds(s, rest, Payments(s, x), Payments(rest, y), Payments(s, x + y), r);
    }
  }
}
