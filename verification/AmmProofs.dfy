/** What the pool promises its liquidity providers and its traders, over every call and every run. */
module AmmProofs {
  import opened Outcomes
  import opened Machine
  import opened Products
  import opened SquareRoot
  import opened AmmPool

  ghost predicate Empty(p: Reserves) {
    p == Reserves(0, 0, 0)
  }

  ghost predicate Backed(p: Reserves) {
    p.a > 0 && p.b > 0 && p.liquidity > 0 && p.liquidity * p.liquidity <= p.a * p.b
  }

  ghost predicate Valid(p: Reserves) {
    Empty(p) || Backed(p)
  }

  /** Neither reserve per share of liquidity went down from p to q. */
  ghost predicate NotDiluted(p: Reserves, q: Reserves) {
    p.a * q.liquidity <= q.a * p.liquidity && p.b * q.liquidity <= q.b * p.liquidity
  }

  /** The product of the reserves per squared share did not go down from p to q. */
  ghost predicate Growth(p: Reserves, q: Reserves) {
    (p.a * p.b) * (q.liquidity * q.liquidity) <= (q.a * q.b) * (p.liquidity * p.liquidity)
  }

  // ----- Adding liquidity

  /** What a deposit into a trading pool moves of the second token: its offer, but no more than
      matches the offer of the first at the present price. */
  function Pledged(p: Reserves, offerA: int, offerB: int): int
    requires p.a != 0
  {
    var optimalB := Quot(offerA * p.b, p.a);
    if offerB < optimalB then offerB else optimalB
  }

  function Shares(p: Reserves, amountA: int, amountB: int): int
    requires p.a != 0 && p.b != 0
  {
    var shareA, shareB := Quot(amountA * p.liquidity, p.a), Quot(amountB * p.liquidity, p.b);
    if shareA < shareB then shareA else shareB
  }

  /** Everything a deposit into a trading pool moves follows from what it moves of the second token. */
  lemma AddMoves(p: Reserves, offerA: int, offerB: int, minLiquidity: int)
    requires Backed(p) && AddLiquidity(p, offerA, offerB, minLiquidity).Ok?
    ensures var t := Pledged(p, offerA, offerB);
      var amountA := Quot(t * p.a, p.b);
      AddLiquidity(p, offerA, offerB, minLiquidity).value
        == Reserves(p.a + amountA, p.b + t, p.liquidity + Shares(p, amountA, t))
  {
    var t := Pledged(p, offerA, offerB);
    assert Taken(p, offerA, offerB) == Ok((Quot(t * p.a, p.b), t));
    assert Minted(p, Quot(t * p.a, p.b), t) == Ok(Shares(p, Quot(t * p.a, p.b), t));
  }

  lemma QuotFloor(x: int, y: int, z: int)
    requires x >= 0 && y >= 0 && z > 0
    ensures 0 <= Quot(x * y, z) == x * y / z && Quot(x * y, z) * z <= x * y
  {
    MulMono(0, x, 0, y);
    FloorBounds(x * y, z);
  }

  lemma SharesTerms(p: Reserves, amountA: int, amountB: int)
    requires p.a > 0 && p.b > 0 && p.liquidity > 0 && amountA >= 0 && amountB >= 0
    ensures var m := Shares(p, amountA, amountB);
      && 0 <= m
      && m * p.a <= amountA * p.liquidity
      && m * p.b <= amountB * p.liquidity
  {
    QuotFloor(amountA, p.liquidity, p.a);
    QuotFloor(amountB, p.liquidity, p.b);
    var m := Shares(p, amountA, amountB);
    MulMono(m, Quot(amountA * p.liquidity, p.a), p.a, p.a);
    MulMono(m, Quot(amountB * p.liquidity, p.b), p.b, p.b);
  }

  /** What a deposit into a trading pool takes and mints when it does not pay out. */
  lemma AddTerms(p: Reserves, offerA: int, offerB: int, minLiquidity: int)
    requires Backed(p) && Pledged(p, offerA, offerB) >= 0
    requires AddLiquidity(p, offerA, offerB, minLiquidity).Ok?
    ensures var q := AddLiquidity(p, offerA, offerB, minLiquidity).value;
      && p.a <= q.a && p.b <= q.b && p.liquidity <= q.liquidity
      && (q.liquidity - p.liquidity) * p.a <= (q.a - p.a) * p.liquidity
      && (q.liquidity - p.liquidity) * p.b <= (q.b - p.b) * p.liquidity
  {
    var t := Pledged(p, offerA, offerB);
    AddMoves(p, offerA, offerB, minLiquidity);
    QuotFloor(t, p.a, p.b);
    SharesTerms(p, Quot(t * p.a, p.b), t);
  }

  lemma MulDivFloor(x: int, y: int, z: int)
    requires x >= 0 && y >= 0 && z > 0 && MulDiv(x, y, z).Ok?
    ensures var q := MulDiv(x, y, z).value; 0 <= q == x * y / z && q * z <= x * y
  {
    assert 0 <= x * y;
    FloorBounds(x * y, z);
  }

  /** A deposit never takes more of the second token than was offered, and no more of the first
      exactly when the two amounts it compares agree on it. With an offer that is not negative they
      always do. */
  lemma TakesAtMostOfferIff(p: Reserves, offerA: int, offerB: int, minLiquidity: int)
    requires Backed(p) && AddLiquidity(p, offerA, offerB, minLiquidity).Ok?
    ensures var q := AddLiquidity(p, offerA, offerB, minLiquidity).value;
      && q.b - p.b <= offerB
      && (q.a - p.a <= offerA <==> Pledged(p, offerA, offerB) * p.a <= offerA * p.b)
      && (0 <= offerA ==> q.a - p.a <= offerA)
  {
    var t := Pledged(p, offerA, offerB);
    AddMoves(p, offerA, offerB, minLiquidity);
    if t < 0 {
      QuotAtMostIff(-t, p.a, p.b, offerA);
      if offerA >= 0 {
        MulMono(0, -t, 0, p.a);
        MulMono(0, offerA, 0, p.b);
      }
    } else if offerA >= 0 {
      MatchesOffer(p, offerA, t);
    } else {
      NothingPledged(p, offerA, t);
    }
  }

  /** Truncation moves a negative quotient up to a bound exactly when the exact one is below it. */
  lemma QuotAtMostIff(u: int, x: int, d: int, bound: int)
    requires 0 < u && 0 < x && 0 < d
    ensures Quot(-u * x, d) <= bound <==> -u * x <= bound * d
  {
    MulMono(1, u, 1, x);
    NegatedQuotient(u * x, d);
    assert -u * x == -(u * x);
    var n := -bound;
    assert bound * d == -(n * d);
    FloorAtLeastIff(u * x, d, n);
  }

  lemma FloorAtLeastIff(n: int, d: int, q: int)
    requires 0 < d
    ensures q <= n / d <==> q * d <= n
  {
    if q * d <= n {
      FloorGreatest(n, d, q);
    } else {
      FloorBounds(n, d);
      StrictCancel(d, n / d, q);
    }
  }

  lemma MatchesOffer(p: Reserves, offerA: int, t: int)
    requires p.a > 0 && p.b > 0 && offerA >= 0 && 0 <= t <= Quot(offerA * p.b, p.a)
    ensures Quot(t * p.a, p.b) <= offerA && t * p.a <= offerA * p.b
  {
    QuotFloor(offerA, p.b, p.a);
    QuotFloor(t, p.a, p.b);
    MulMono(t, Quot(offerA * p.b, p.a), p.a, p.a);
    Cancel(p.b, Quot(t * p.a, p.b), offerA);
  }

  lemma NothingPledged(p: Reserves, offerA: int, t: int)
    requires p.a > 0 && p.b > 0 && offerA < 0 && 0 <= t <= Quot(offerA * p.b, p.a)
    ensures t == 0 && offerA * p.b < 0 && t * p.a == 0 && Quot(t * p.a, p.b) == 0
  {
    MulMono(1, -offerA, 1, p.b);
    assert offerA * p.b == -(-offerA * p.b);
    NegatedQuotient(-offerA * p.b, p.a);
  }

  // ----- Deposits that pay out

  /** What a deposit of -u of the second token pays out of the first, and the shares it burns. */
  lemma PaidByDeposit(p: Reserves, u: int)
    requires p.a > 0 && p.b > 0 && p.liquidity > 0 && u > 0
    ensures Quot(-u * p.a, p.b) == -(u * p.a / p.b)
    ensures Shares(p, Quot(-u * p.a, p.b), -u) == -(u * p.liquidity / p.b)
    ensures 0 <= u * p.a / p.b && 0 <= u * p.liquidity / p.b
  {
    var v := u * p.a / p.b;
    NegatedProductFloor(u, p.a, p.b);
    NegatedProductFloor(u, p.liquidity, p.b);
    NegatedProductFloor(v, p.liquidity, p.a);
    BurnsNoMore(p.a, p.b, p.liquidity, u);
  }

  lemma NegatedProductFloor(x: int, y: int, d: int)
    requires 0 <= x && 0 < y && 0 < d
    ensures Quot(-x * y, d) == -(x * y / d) && 0 <= x * y / d
  {
    MulMono(0, x, 0, y);
    assert -x * y == -(x * y);
    NegatedQuotient(x * y, d);
  }

  /** The first token never calls for burning more shares than the second. */
  lemma BurnsNoMore(a: int, b: int, l: int, u: int)
    requires 0 < a && 0 < b && 0 < l && 0 < u
    ensures (u * a / b) * l / a <= u * l / b
  {
    var v := u * a / b;
    var x := v * l / a;
    FloorBounds(u * a, b);
    FloorBounds(v * l, a);
    // x * a <= v * l and v * b <= u * a, so x * b <= u * l.
    MulDiff(b, x * a, v * l);
    MulDiff(l, v * b, u * a);
    assert b * (v * l) == l * (v * b);
    assert l * (u * a) == a * (u * l) && b * (x * a) == a * (x * b);
    Cancel(a, x * b, u * l);
    FloorGreatest(u * l, b, x);
  }

  /** A payout of u, with v of the first token, for w shares dilutes nobody exactly when the shares
      come out even. */
  lemma PayoutDilutesIff(a: int, b: int, l: int, u: int)
    requires 0 < a && 0 < b && 0 < l && 0 < u
    ensures var v, w := u * a / b, u * l / b;
      && (b * (l - w) <= (b - u) * l <==> (u * l) % b == 0)
      && (a * (l - w) <= (a - v) * l <==> v * l <= a * w)
      && ((u * l) % b == 0 ==> v * l <= a * w)
      && b * w <= u * l
  {
    var v, w := u * a / b, u * l / b;
    assert u * l == b * w + (u * l) % b;
    SharesLeft(b, u, l, w);
    SharesLeft(a, v, l, w);
    if (u * l) % b == 0 {
      FloorBounds(u * a, b);
      EvenShares(a, b, l, u, v, w);
    }
  }

  lemma EvenShares(a: int, b: int, l: int, u: int, v: int, w: int)
    requires 0 < b && 0 < l && v * b <= u * a && u * l == b * w
    ensures v * l <= a * w
  {
    MulDiff(l, v * b, u * a);
    assert l * (v * b) == b * (v * l);
    assert l * (u * a) == a * (u * l);
    assert a * (b * w) == b * (a * w);
    Cancel(b, v * l, a * w);
  }

  lemma SharesLeft(r: int, x: int, l: int, w: int)
    ensures r * (l - w) <= (r - x) * l <==> x * l <= r * w
  {
    assert r * (l - w) == r * l - r * w;
    assert (r - x) * l == r * l - x * l;
  }

  lemma PositivePledge(p: Reserves, offerA: int, offerB: int)
    requires p.a > 0 && p.b > 0 && offerA >= 0 && offerB >= 0
    ensures Pledged(p, offerA, offerB) >= 0
  {
    QuotFloor(offerA, p.b, p.a);
  }

  /** A deposit into a trading pool dilutes nobody exactly when it does not pay out, or the shares
      it burns for what it pays out come out even. The code checks no sign. */
  lemma AddNotDilutedIff(p: Reserves, offerA: int, offerB: int, minLiquidity: int)
    requires Backed(p) && AddLiquidity(p, offerA, offerB, minLiquidity).Ok?
    ensures var t := Pledged(p, offerA, offerB);
      NotDiluted(p, AddLiquidity(p, offerA, offerB, minLiquidity).value) <==>
      t >= 0 || (-t * p.liquidity) % p.b == 0
  {
    var t := Pledged(p, offerA, offerB);
    if t >= 0 {
      AddTerms(p, offerA, offerB, minLiquidity);
      var q := AddLiquidity(p, offerA, offerB, minLiquidity).value;
      ShareGrows(p.a, q.a, p.liquidity, q.liquidity);
      ShareGrows(p.b, q.b, p.liquidity, q.liquidity);
    } else {
      AddMoves(p, offerA, offerB, minLiquidity);
      PaidByDeposit(p, -t);
      PayoutDilutesIff(p.a, p.b, p.liquidity, -t);
    }
  }

  /** The deposits into a trading pool that are fair to the other providers. */
  predicate AddFair(p: Reserves, offerA: int, offerB: int)
    requires p.a != 0 && p.b != 0
  {
    var t := Pledged(p, offerA, offerB);
    t >= 0 || (-p.b <= t && (-t * p.liquidity) % p.b == 0)
  }

  /** A deposit into a trading pool keeps it sound and dilutes nobody exactly when it is fair. */
  lemma AddFairIff(p: Reserves, offerA: int, offerB: int, minLiquidity: int)
    requires Backed(p) && AddLiquidity(p, offerA, offerB, minLiquidity).Ok?
    ensures var q := AddLiquidity(p, offerA, offerB, minLiquidity).value;
      Valid(q) && NotDiluted(p, q) <==> AddFair(p, offerA, offerB)
  {
    var t := Pledged(p, offerA, offerB);
    var q := AddLiquidity(p, offerA, offerB, minLiquidity).value;
    AddNotDilutedIff(p, offerA, offerB, minLiquidity);
    AddMoves(p, offerA, offerB, minLiquidity);
    if t >= 0 {
      AddTerms(p, offerA, offerB, minLiquidity);
      NotDilutedKeepsBacking(p, q);
    } else {
      PaidByDeposit(p, -t);
      PartPaid(p.a, p.b, p.liquidity, -t);
      if -p.b < t && NotDiluted(p, q) {
        NotDilutedKeepsBacking(p, q);
      }
    }
  }

  /** Paying out part of the second token pays out part of the first and burns part of the shares;
      paying out all of it leaves nothing. */
  lemma PartPaid(a: int, b: int, l: int, u: int)
    requires 0 < a && 0 < b && 0 < l && 0 < u
    ensures u < b ==> u * a / b < a && u * l / b < l
    ensures u == b ==> u * a / b == a && u * l / b == l
    ensures u > b ==> u * a / b >= a && u * l / b >= l
  {
    PartPaidOf(a, b, u);
    PartPaidOf(l, b, u);
  }

  lemma PartPaidOf(x: int, b: int, u: int)
    requires 0 < x && 0 < b && 0 < u
    ensures u < b ==> u * x / b < x
    ensures u >= b ==> u * x / b >= x
    ensures u == b ==> u * x / b == x
  {
    if u < b {
      MulDiff(x, u, b - 1);
      assert x * u == u * x && x * (b - 1) == x * b - x;
      BelowFloor(u * x, b, x);
    } else {
      MulDiff(x, b, u);
      assert x * u == u * x;
      FloorGreatest(u * x, b, x);
      if u == b {
        FloorBounds(u * x, b);
        PaidAll(x, b, u * x / b);
      }
    }
  }

  lemma BelowFloor(n: int, d: int, q: int)
    requires 0 < d && n < q * d
    ensures n / d < q
  {
    FloorBounds(n, d);
    StrictCancel(d, n / d, q);
  }

  /** Minting in proportion or less leaves the reserve per share where it was or higher. */
  lemma ShareGrows(r0: int, r1: int, l0: int, l1: int)
    requires (l1 - l0) * r0 <= (r1 - r0) * l0
    ensures r0 * l1 <= r1 * l0
  {
    assert (l1 - l0) * r0 == l1 * r0 - l0 * r0;
    assert (r1 - r0) * l0 == r1 * l0 - r0 * l0;
  }

  lemma NotDilutedIsGrowth(p: Reserves, q: Reserves)
    requires p.a >= 0 && p.b >= 0 && q.liquidity >= 0 && NotDiluted(p, q)
    ensures Growth(p, q)
  {
    assert 0 <= p.a * q.liquidity && 0 <= p.b * q.liquidity;
    MulMono(p.a * q.liquidity, q.a * p.liquidity, p.b * q.liquidity, q.b * p.liquidity);
    Regroup(p.a, q.liquidity, p.b, q.liquidity);
    Regroup(q.a, p.liquidity, q.b, p.liquidity);
  }

  lemma Regroup(x: int, s: int, y: int, t: int)
    ensures (x * s) * (y * t) == (x * y) * (s * t)
  {
  }

  lemma GrowthKeepsBacking(p: Reserves, q: Reserves)
    requires Backed(p) && Growth(p, q) && q.a > 0 && q.b > 0 && q.liquidity > 0
    ensures Backed(q)
  {
    var k, k1, l, l1 := p.a * p.b, q.a * q.b, p.liquidity * p.liquidity, q.liquidity * q.liquidity;
    assert 0 < k && 0 < k1;
    MulMono(k1, k1, l, k);
    Cancel(k, l1, k1);
  }

  lemma NotDilutedKeepsBacking(p: Reserves, q: Reserves)
    requires Backed(p) && NotDiluted(p, q) && q.a > 0 && q.b > 0 && q.liquidity > 0
    ensures Backed(q)
  {
    NotDilutedIsGrowth(p, q);
    GrowthKeepsBacking(p, q);
  }

  /** The first deposit leaves a sound pool exactly when both offers are positive, or the offer of
      the first token is zero and the second is not negative (nothing then moves). The code checks
      neither: a one-sided first offer leaves a pool that no later deposit can use. */
  lemma FirstDepositSoundIff(p: Reserves, offerA: int, offerB: int, minLiquidity: int)
    requires Empty(p) && AddLiquidity(p, offerA, offerB, minLiquidity).Ok?
    ensures Valid(AddLiquidity(p, offerA, offerB, minLiquidity).value)
      <==> (offerA > 0 && offerB > 0) || (offerA == 0 && offerB >= 0)
  {
    FirstDepositTerms(p, offerA, offerB, minLiquidity);
    FirstPoolSoundIff(offerA, if offerB < offerA then offerB else offerA);
  }

  lemma FirstPoolSoundIff(a: int, b: int)
    requires b <= a && FitsI64(a * b)
    ensures Valid(Reserves(a, b, Root(AsU64(a * b)))) <==> (a > 0 && b > 0) || (a == 0 && b == 0)
  {
    if a > 0 && b > 0 {
      MulMono(1, a, 1, b);
      PositiveRoot(a * b);
    }
  }

  lemma FirstDepositTerms(p: Reserves, offerA: int, offerB: int, minLiquidity: int)
    requires Empty(p) && AddLiquidity(p, offerA, offerB, minLiquidity).Ok?
    ensures var amountB := if offerB < offerA then offerB else offerA;
      && FitsI64(offerA * amountB)
      && AddLiquidity(p, offerA, offerB, minLiquidity).value == Reserves(offerA, amountB, Root(AsU64(offerA * amountB)))
  {
    var amountB := if offerB < offerA then offerB else offerA;
    assert Taken(p, offerA, offerB) == Ok((offerA, amountB));
  }

  lemma PositiveRoot(n: nat)
    requires 1 <= n
    ensures 0 < Root(n) && Root(n) * Root(n) <= n
  {
    SquareOrder(1, Root(n) + 1);
  }

  /** A one-sided first deposit leaves a pool on which every later call fails. */
  lemma OneSidedPoolIsStuck(a: int, offerA: int, offerB: int, burned: int, min: int, fee: nat, inIsA: bool)
    requires a > 0
    ensures var p := Reserves(a, 0, 0);
      && AddLiquidity(p, offerA, offerB, min).Err?
      && RemoveLiquidity(p, burned, min, min).Err?
      && Swap(p, fee, inIsA, offerA, min).Err?
  {
    var p := Reserves(a, 0, 0);
    var amountB := if offerB < offerA then offerB else offerA;
    assert MulDiv(amountB, a, 0).Err?;
  }

  /** An unfair deposit: offering -1 of each token to a pool of 3 and 3 with 2 shares pays out a third
      of both reserves for no shares at all. */
  lemma NegativeOfferDilutes()
    ensures var p := Reserves(3, 3, 2);
      && Backed(p) && !AddFair(p, -1, -1)
      && AddLiquidity(p, -1, -1, 0) == Ok(Reserves(2, 2, 2))
      && !NotDiluted(p, Reserves(2, 2, 2))
  {
    var p := Reserves(3, 3, 2);
    assert MulDiv(-1, 3, 3) == Ok(-1);
    assert MulDiv(-1, 2, 3) == Ok(0);
  }

  // ----- Removing liquidity

  /** The withdrawals that are fair to the other providers: they burn, or they mint (the code accepts
      a negative amount) shares for which both reserves divide evenly. */
  predicate RemoveFair(p: Reserves, burned: int)
    requires p.liquidity != 0
  {
    burned >= 0 || ((-burned * p.a) % p.liquidity == 0 && (-burned * p.b) % p.liquidity == 0)
  }

  /** A withdrawal dilutes nobody exactly when it is fair. It then empties the pool by burning all
      shares, and leaves it sound otherwise. */
  lemma RemoveFairIff(p: Reserves, burned: int, minA: int, minB: int)
    requires Backed(p) && RemoveLiquidity(p, burned, minA, minB).Ok?
    ensures var q := RemoveLiquidity(p, burned, minA, minB).value;
      && (NotDiluted(p, q) <==> RemoveFair(p, burned))
      && (burned == p.liquidity ==> Empty(q))
      && (burned < p.liquidity && RemoveFair(p, burned) ==> Backed(q))
  {
    var q := RemoveLiquidity(p, burned, minA, minB).value;
    WithdrawnShare(burned, p.a, p.liquidity);
    WithdrawnShare(burned, p.b, p.liquidity);
    if burned < p.liquidity && RemoveFair(p, burned) {
      NotDilutedKeepsBacking(p, q);
    }
  }

  /** An unfair withdrawal: burning -1 shares of a pool of 3 and 3 with 2 shares mints one share for
      one token of each, less than half of what a share stands for. */
  lemma NegativeRemovalDilutes()
    ensures var p := Reserves(3, 3, 2);
      && Backed(p) && !RemoveFair(p, -1)
      && RemoveLiquidity(p, -1, -1, -1) == Ok(Reserves(4, 4, 3))
      && !NotDiluted(p, Reserves(4, 4, 3))
  {
    assert MulDiv(-1, 3, 2) == Ok(-1);
  }

  lemma WithdrawnShare(burned: int, reserve: int, liquidity: int)
    requires reserve > 0 && liquidity > 0
    ensures var out := Quot(burned * reserve, liquidity);
      && (reserve * (liquidity - burned) <= (reserve - out) * liquidity
          <==> burned >= 0 || (-burned * reserve) % liquidity == 0)
      && (burned < liquidity ==> out < reserve)
      && (burned == liquidity ==> out == reserve)
  {
    var out := Quot(burned * reserve, liquidity);
    KeptShare(burned, reserve, liquidity, out);
    if burned >= 0 {
      PaidOut(burned, reserve, liquidity);
    } else {
      PaidIn(-burned, reserve, liquidity);
    }
  }

  lemma KeptShare(burned: int, reserve: int, liquidity: int, out: int)
    ensures reserve * (liquidity - burned) <= (reserve - out) * liquidity <==> out * liquidity <= burned * reserve
  {
    assert reserve * (liquidity - burned) == reserve * liquidity - burned * reserve;
    assert (reserve - out) * liquidity == reserve * liquidity - out * liquidity;
  }

  lemma PaidOut(burned: int, reserve: int, liquidity: int)
    requires reserve > 0 && liquidity > 0 && burned >= 0
    ensures var out := Quot(burned * reserve, liquidity);
      && 0 <= out && out * liquidity <= burned * reserve
      && (burned < liquidity ==> out < reserve)
      && (burned == liquidity ==> out == reserve)
  {
    var product := burned * reserve;
    MulMono(0, burned, 0, reserve);
    FloorBounds(product, liquidity);
    var out := product / liquidity;
    if burned < liquidity {
      PaidLess(burned, reserve, liquidity, out);
    } else if burned == liquidity {
      PaidAll(reserve, liquidity, out);
    }
  }

  lemma PaidLess(burned: int, reserve: int, liquidity: int, out: int)
    requires reserve > 0 && 0 <= burned < liquidity && out * liquidity <= burned * reserve
    ensures out < reserve
  {
    MulDiff(reserve, burned, liquidity - 1);
    StrictCancel(liquidity, out, reserve);
  }

  lemma PaidAll(reserve: int, liquidity: int, out: int)
    requires liquidity > 0 && out * liquidity <= liquidity * reserve < (out + 1) * liquidity
    ensures out == reserve
  {
    StrictCancel(liquidity, reserve, out + 1);
    Cancel(liquidity, out, reserve);
  }

  lemma PaidIn(minted: int, reserve: int, liquidity: int)
    requires reserve > 0 && liquidity > 0 && minted > 0
    ensures var out := Quot(-minted * reserve, liquidity);
      && out <= 0
      && (out * liquidity <= -minted * reserve <==> (minted * reserve) % liquidity == 0)
  {
    var n := minted * reserve;
    MulMono(1, minted, 1, reserve);
    assert -minted * reserve == -n;
    assert n == liquidity * (n / liquidity) + n % liquidity;
    assert -(n / liquidity) * liquidity == -(liquidity * (n / liquidity));
  }

  // ----- Adding and removing again

  /** Whoever adds and at once burns the shares just minted leaves no less in the pool than there was:
      on an empty pool, by a deposit that does not pay out, or by one whose payout costs shares that
      come out even (with a payout of more than there is, at least as many as it should). */
  predicate NothingToGain(p: Reserves, offerA: int, offerB: int)
    requires p.a != 0 && p.b != 0
  {
    var t := Pledged(p, offerA, offerB);
    || t >= 0
    || (if -p.b < t then (-t * p.liquidity) % p.b == 0
        else p.a * (-t * p.liquidity / p.b) <= -t * p.a / p.b * p.liquidity)
  }

  /** Adding and then burning the shares just minted takes nothing out of the pool exactly when the
      deposit was made to an empty pool or had nothing to gain. */
  lemma AddThenRemoveIff(p: Reserves, offerA: int, offerB: int, minLiquidity: int, minA: int, minB: int)
    requires Valid(p) && AddLiquidity(p, offerA, offerB, minLiquidity).Ok?
    requires var q := AddLiquidity(p, offerA, offerB, minLiquidity).value;
      RemoveLiquidity(q, q.liquidity - p.liquidity, minA, minB).Ok?
    ensures var q := AddLiquidity(p, offerA, offerB, minLiquidity).value;
      var r := RemoveLiquidity(q, q.liquidity - p.liquidity, minA, minB).value;
      && r.liquidity == p.liquidity
      && (p.a <= r.a && p.b <= r.b <==> Empty(p) || NothingToGain(p, offerA, offerB))
  {
    var q := AddLiquidity(p, offerA, offerB, minLiquidity).value;
    if Empty(p) {
      AllBack(q.a, q.liquidity);
      AllBack(q.b, q.liquidity);
    } else if Pledged(p, offerA, offerB) >= 0 {
      AddTerms(p, offerA, offerB, minLiquidity);
      MintedBack(p.a, q.a, p.liquidity, q.liquidity);
      MintedBack(p.b, q.b, p.liquidity, q.liquidity);
    } else {
      PayoutAndBack(p, offerA, offerB, minLiquidity);
    }
  }

  lemma AllBack(reserve: int, liquidity: int)
    requires liquidity > 0
    ensures Quot(liquidity * reserve, liquidity) == reserve
  {
    var r := if reserve < 0 then -reserve else reserve;
    MulMono(0, liquidity, 0, r);
    FloorBounds(liquidity * r, liquidity);
    PaidAll(r, liquidity, liquidity * r / liquidity);
    if reserve < 0 {
      assert liquidity * reserve == -(liquidity * r);
      NegatedQuotient(liquidity * r, liquidity);
    }
  }

  /** Burning the (negative) shares of a deposit that paid out. */
  lemma PayoutAndBack(p: Reserves, offerA: int, offerB: int, minLiquidity: int)
    requires Backed(p) && AddLiquidity(p, offerA, offerB, minLiquidity).Ok? && Pledged(p, offerA, offerB) < 0
    requires AddLiquidity(p, offerA, offerB, minLiquidity).value.liquidity != 0
    ensures var q := AddLiquidity(p, offerA, offerB, minLiquidity).value;
      var burned := q.liquidity - p.liquidity;
      NothingToGain(p, offerA, offerB) <==>
      p.a <= q.a - Quot(burned * q.a, q.liquidity) && p.b <= q.b - Quot(burned * q.b, q.liquidity)
  {
    var u := -Pledged(p, offerA, offerB);
    var v, w := u * p.a / p.b, u * p.liquidity / p.b;
    AddMoves(p, offerA, offerB, minLiquidity);
    PaidByDeposit(p, u);
    PartPaid(p.a, p.b, p.liquidity, u);
    PayoutDilutesIff(p.a, p.b, p.liquidity, u);
    SharesLeft(p.b, u, p.liquidity, w);
    if u < p.b {
      PayoutRestored(p.a, v, p.liquidity, w);
      PayoutRestored(p.b, u, p.liquidity, w);
    } else {
      OverpaidRestored(p.a, v, p.liquidity, w);
      OverpaidRestored(p.b, u, p.liquidity, w);
    }
  }

  /** Of a reserve r, x went out for w of l shares, and comes back for those shares. */
  lemma PayoutRestored(r: int, x: int, l: int, w: int)
    requires 0 <= x < r && 0 <= w < l
    ensures r <= r - x - Quot(-w * (r - x), l - w) <==> x * l <= r * w
  {
    NegatedProductFloor(w, r - x, l - w);
    FloorAtLeastIff(w * (r - x), l - w, x);
    Restored(r, x, l, w);
  }

  lemma Restored(r: int, x: int, l: int, w: int)
    ensures x * (l - w) <= w * (r - x) <==> x * l <= r * w
  {
    assert x * (l - w) == x * l - x * w;
    assert w * (r - x) == r * w - x * w;
  }

  /** The same when at least all of the reserve and more than all of the shares went. */
  lemma OverpaidRestored(r: int, x: int, l: int, w: int)
    requires 0 < r <= x && 0 < l < w
    ensures r <= r - x - Quot(-w * (r - x), l - w) <==> r * w <= x * l
  {
    var n, d := w * (x - r), w - l;
    MulMono(0, w, 0, x - r);
    assert -w * (r - x) == n;
    NegativeDivisor(n, d);
    FloorAtLeastIff(n, d, x);
    Restored(r, x, l, w);
    assert x * (w - l) == -(x * (l - w)) && w * (x - r) == -(w * (r - x));
  }

  lemma NegativeDivisor(n: int, d: int)
    requires 0 <= n && 0 < d
    ensures Quot(n, -d) == -(n / d)
  {
  }

  lemma MintedBack(r0: int, r1: int, l0: int, l1: int)
    requires 0 <= r0 <= r1 && 0 <= l0 <= l1 && 0 < l1
    requires (l1 - l0) * r0 <= (r1 - r0) * l0
    ensures 0 <= Quot((l1 - l0) * r1, l1) <= r1 - r0
  {
    var minted := l1 - l0;
    assert 0 <= minted * r1;
    assert minted * r1 == minted * r0 + minted * (r1 - r0);
    assert (r1 - r0) * l1 == (r1 - r0) * l0 + (r1 - r0) * minted;
    FloorBounds(minted * r1, l1);
    StrictCancel(l1, minted * r1 / l1, r1 - r0 + 1);
  }

  // ----- Swaps

  function ReserveIn(p: Reserves, inIsA: bool): int {
    if inIsA then p.a else p.b
  }

  function ReserveOut(p: Reserves, inIsA: bool): int {
    if inIsA then p.b else p.a
  }

  function Net(fee: nat, amountIn: nat): nat
    requires fee <= BASIS_POINTS
  {
    amountIn * (BASIS_POINTS - fee) / BASIS_POINTS
  }

  /** The amount a non-negative swap pays out. */
  function Quote(reserveIn: nat, reserveOut: nat, fee: nat, amountIn: nat): (out: nat)
    requires 0 < reserveIn && fee <= BASIS_POINTS
  {
    FloorBounds(reserveOut * Net(fee, amountIn), reserveIn + Net(fee, amountIn));
    reserveOut * Net(fee, amountIn) / (reserveIn + Net(fee, amountIn))
  }

  /** A swap of a non-negative amount on positive reserves moves exactly the quoted amount. */
  lemma SwapPaysQuote(p: Reserves, fee: nat, inIsA: bool, amountIn: nat, minOut: int)
    requires p.a > 0 && p.b > 0 && Swap(p, fee, inIsA, amountIn, minOut).Ok?
    ensures fee <= BASIS_POINTS
    ensures Swap(p, fee, inIsA, amountIn, minOut).value ==
      if inIsA then Reserves(p.a + amountIn, p.b - Quote(p.a, p.b, fee, amountIn), p.liquidity)
      else Reserves(p.a - Quote(p.b, p.a, fee, amountIn), p.b + amountIn, p.liquidity)
  {
    var s, r := ReserveIn(p, inIsA), ReserveOut(p, inIsA);
    assert AmountOut(s, r, fee, amountIn).Ok?;
    AmountOutIsQuote(s, r, fee, amountIn);
  }

  lemma AmountOutIsQuote(reserveIn: nat, reserveOut: nat, fee: nat, amountIn: nat)
    requires 0 < reserveIn && 0 < reserveOut && AmountOut(reserveIn, reserveOut, fee, amountIn).Ok?
    ensures fee <= BASIS_POINTS
    ensures AmountOut(reserveIn, reserveOut, fee, amountIn).value == Quote(reserveIn, reserveOut, fee, amountIn)
  {
    MulDivFloor(amountIn, BASIS_POINTS - fee, BASIS_POINTS);
    MulMono(0, reserveOut, 0, Net(fee, amountIn));
  }

  lemma NetBounds(fee: nat, amountIn: nat)
    requires fee <= BASIS_POINTS
    ensures Net(fee, amountIn) <= amountIn
  {
    FloorBounds(amountIn * (BASIS_POINTS - fee), BASIS_POINTS);
    StrictCancel(BASIS_POINTS, Net(fee, amountIn), amountIn + 1);
  }

  /** The floor and the fee both work for the pool: what is paid stays strictly below the reserve,
      and even against the net input the product does not fall. */
  lemma QuoteBounds(reserveIn: nat, reserveOut: nat, fee: nat, amountIn: nat)
    requires 0 < reserveIn && fee <= BASIS_POINTS
    ensures var out, net := Quote(reserveIn, reserveOut, fee, amountIn), Net(fee, amountIn);
      && out * (reserveIn + net) <= reserveOut * net
      && (0 < reserveOut ==> out < reserveOut)
      && out <= reserveOut
      && reserveIn * reserveOut <= (reserveIn + net) * (reserveOut - out)
      && net <= amountIn
      && reserveIn * reserveOut <= (reserveIn + amountIn) * (reserveOut - out)
  {
    var out, net := Quote(reserveIn, reserveOut, fee, amountIn), Net(fee, amountIn);
    NetBounds(fee, amountIn);
    FloorBounds(reserveOut * net, reserveIn + net);
    PaidBelowReserve(reserveIn, reserveOut, net, out);
    MulMono(reserveIn + net, reserveIn + amountIn, reserveOut - out, reserveOut - out);
  }

  lemma PaidBelowReserve(s: nat, r: nat, net: nat, out: nat)
    requires 0 < s && out * (s + net) <= r * net
    ensures (0 < r ==> out < r) && out <= r
    ensures s * r <= (s + net) * (r - out)
  {
    assert r * (s + net) == r * s + r * net;
    assert (s + net) * (r - out) == r * (s + net) - out * (s + net);
    if 0 < r {
      assert 0 < r * s;
      StrictCancel(s + net, out, r);
    } else {
      StrictCancel(s + net, out, 1);
    }
  }

  lemma SwapRaisesProduct(p: Reserves, fee: nat, inIsA: bool, amountIn: nat, minOut: int)
    requires p.a > 0 && p.b > 0 && Swap(p, fee, inIsA, amountIn, minOut).Ok?
    ensures var q := Swap(p, fee, inIsA, amountIn, minOut).value;
      q.a > 0 && q.b > 0 && q.liquidity == p.liquidity && p.a * p.b <= q.a * q.b
  {
    SwapPaysQuote(p, fee, inIsA, amountIn, minOut);
    if inIsA {
      QuoteBounds(p.a, p.b, fee, amountIn);
    } else {
      QuoteBounds(p.b, p.a, fee, amountIn);
    }
  }

  /** A swap of a non-negative amount keeps the pool sound and never lowers the product. */
  lemma SwapKeepsProduct(p: Reserves, fee: nat, inIsA: bool, amountIn: nat, minOut: int)
    requires Valid(p) && Swap(p, fee, inIsA, amountIn, minOut).Ok?
    ensures var q := Swap(p, fee, inIsA, amountIn, minOut).value;
      && Backed(p) && Backed(q) && q.liquidity == p.liquidity
      && p.a * p.b <= q.a * q.b
      && Growth(p, q)
  {
    var q := Swap(p, fee, inIsA, amountIn, minOut).value;
    assert Backed(p);
    SwapRaisesProduct(p, fee, inIsA, amountIn, minOut);
    SameSharesGrowth(p, q);
    GrowthKeepsBacking(p, q);
  }

  lemma SameSharesGrowth(p: Reserves, q: Reserves)
    requires 0 < p.a && 0 < p.b && p.a * p.b <= q.a * q.b && q.liquidity == p.liquidity
    ensures Growth(p, q)
  {
    var l := p.liquidity * p.liquidity;
    assert 0 <= l;
    assert 0 <= p.a * p.b;
    MulMono(p.a * p.b, q.a * q.b, l, l);
  }

  /** The order-splitting law: two swaps never pay more than one of their sum. */
  lemma SplitTwo(reserveIn: nat, reserveOut: nat, fee: nat, x: nat, y: nat)
    requires 0 < reserveIn && fee <= BASIS_POINTS
    ensures var first := Quote(reserveIn, reserveOut, fee, x);
      && first <= reserveOut
      && first + Quote(reserveIn + x, reserveOut - first, fee, y) <= Quote(reserveIn, reserveOut, fee, x + y)
  {
    var u, v, w := Net(fee, x), Net(fee, y), Net(fee, x + y);
    NetSuperadditive(fee, x, y);
    QuoteBounds(reserveIn, reserveOut, fee, x);
    var o1 := Quote(reserveIn, reserveOut, fee, x);
    QuoteBounds(reserveIn + x, reserveOut - o1, fee, y);
    var o2 := Quote(reserveIn + x, reserveOut - o1, fee, y);
    SplitPaid(reserveIn, reserveOut, x, u, v, o1, o2);
    MoreInMoreOut(reserveIn, reserveOut, u + v, w, o1 + o2);
    FloorGreatest(reserveOut * w, reserveIn + w, o1 + o2);
  }

  lemma NetSuperadditive(fee: nat, x: nat, y: nat)
    requires fee <= BASIS_POINTS
    ensures Net(fee, x) + Net(fee, y) <= Net(fee, x + y)
  {
    var k := BASIS_POINTS - fee;
    FloorBounds(x * k, BASIS_POINTS);
    FloorBounds(y * k, BASIS_POINTS);
    assert (x + y) * k == x * k + y * k;
    FloorGreatest((x + y) * k, BASIS_POINTS, Net(fee, x) + Net(fee, y));
  }

  lemma SplitPaid(s: nat, r: nat, x: nat, u: nat, v: nat, o1: nat, o2: nat)
    requires 0 < s && u <= x && o1 <= r
    requires o1 * (s + u) <= r * u
    requires o2 * (s + x + v) <= (r - o1) * v
    ensures (o1 + o2) * (s + u + v) <= r * (u + v)
  {
    MulMono(o2, o2, s + u + v, s + x + v);
    assert (o1 + o2) * (s + u + v) == o1 * (s + u) + o1 * v + o2 * (s + u + v);
    assert (r - o1) * v == r * v - o1 * v;
    assert r * (u + v) == r * u + r * v;
  }

  /** An output affordable at net input m stays affordable at any larger one. */
  lemma MoreInMoreOut(s: nat, r: nat, m: nat, w: nat, out: nat)
    requires 0 < s && m <= w && out * (s + m) <= r * m
    ensures out * (s + w) <= r * w
  {
    PaidBelowReserve(s, r, m, out);
    assert out * (s + w) == out * (s + m) + out * (w - m);
    assert r * w == r * m + r * (w - m);
    MulMono(out, r, w - m, w - m);
  }

  /** What a series of swaps in one direction pays in all. */
  function PaidFor(reserveIn: nat, reserveOut: nat, fee: nat, pieces: seq<nat>): (paid: nat)
    requires 0 < reserveIn && fee <= BASIS_POINTS
    decreases |pieces|
  {
    if pieces == [] then 0
    else
      QuoteBounds(reserveIn, reserveOut, fee, pieces[0]);
      var out := Quote(reserveIn, reserveOut, fee, pieces[0]);
      out + PaidFor(reserveIn + pieces[0], reserveOut - out, fee, pieces[1..])
  }

  function Total(pieces: seq<nat>): nat {
    if pieces == [] then 0 else pieces[0] + Total(pieces[1..])
  }

  /** However an order is cut into pieces, the pieces never pay more than the whole order at once. */
  lemma {:induction false} SplittingNeverPays(reserveIn: nat, reserveOut: nat, fee: nat, pieces: seq<nat>)
    requires 0 < reserveIn && fee <= BASIS_POINTS
    ensures PaidFor(reserveIn, reserveOut, fee, pieces) <= Quote(reserveIn, reserveOut, fee, Total(pieces))
    decreases |pieces|
  {
    if pieces != [] {
      QuoteBounds(reserveIn, reserveOut, fee, pieces[0]);
      var out := Quote(reserveIn, reserveOut, fee, pieces[0]);
      SplittingNeverPays(reserveIn + pieces[0], reserveOut - out, fee, pieces[1..]);
      SplitTwo(reserveIn, reserveOut, fee, pieces[0], Total(pieces[1..]));
    }
  }

  /** With a negative piece, which the code accepts, an order that adds up to nothing pays out 74. */
  lemma NegativePieceGains()
    ensures var p := Reserves(10, 1000, 100);
      && Backed(p)
      && Swap(p, 30, true, -5, -1000) == Ok(Reserves(5, 1666, 100))
      && Swap(Reserves(5, 1666, 100), 30, true, 5, 0) == Ok(Reserves(10, 926, 100))
      && Swap(p, 30, true, 0, 0) == Ok(p)
  {
    assert MulDiv(-5, 9970, 10000) == Ok(-4) && MulDiv(5, 9970, 10000) == Ok(4);
    assert AmountOut(10, 1000, 30, -5) == Ok(-666) && AmountOut(5, 1666, 30, 5) == Ok(740);
    assert AmountOut(10, 1000, 30, 0) == Ok(0);
  }

  /** Swapping an amount and then swapping all the proceeds back returns at most that amount. */
  lemma ThereAndBack(p: Reserves, fee: nat, inIsA: bool, amountIn: nat, minOut: int, minBack: int)
    requires Valid(p) && Swap(p, fee, inIsA, amountIn, minOut).Ok?
    requires var q := Swap(p, fee, inIsA, amountIn, minOut).value;
      var proceeds := if inIsA then p.b - q.b else p.a - q.a;
      Swap(q, fee, !inIsA, proceeds, minBack).Ok?
    ensures var q := Swap(p, fee, inIsA, amountIn, minOut).value;
      var proceeds := if inIsA then p.b - q.b else p.a - q.a;
      var r := Swap(q, fee, !inIsA, proceeds, minBack).value;
      && 0 <= proceeds
      && (if inIsA then q.a - r.a <= amountIn && r.b == p.b && p.a <= r.a
          else q.b - r.b <= amountIn && r.a == p.a && p.b <= r.b)
  {
    var q := Swap(p, fee, inIsA, amountIn, minOut).value;
    SwapKeepsProduct(p, fee, inIsA, amountIn, minOut);
    SwapPaysQuote(p, fee, inIsA, amountIn, minOut);
    if inIsA {
      BackAtMost(p.a, p.b, fee, amountIn);
      SwapPaysQuote(q, fee, false, p.b - q.b, minBack);
    } else {
      BackAtMost(p.b, p.a, fee, amountIn);
      SwapPaysQuote(q, fee, true, p.a - q.a, minBack);
    }
  }

  lemma BackAtMost(s: nat, r: nat, fee: nat, x: nat)
    requires 0 < s && 0 < r && fee <= BASIS_POINTS
    ensures var out := Quote(s, r, fee, x);
      out < r && Quote(r - out, s + x, fee, out) <= x
  {
    QuoteBounds(s, r, fee, x);
    var out, net := Quote(s, r, fee, x), Net(fee, x);
    QuoteBounds(r - out, s + x, fee, out);
    var back, net' := Quote(r - out, s + x, fee, out), Net(fee, out);
    MoreInMoreOut(r - out, s + x, net', out, back);
    // So back * r <= (s + x) * out, while out * (s + x) <= r * x.
    MoreInMoreOut(s, r, net, x, out);
    assert back * r <= (s + x) * out == out * (s + x) <= r * x;
    Cancel(r, back, x);
  }

  // ----- What the code does with a negative swap

  /** The swaps that are fair to the liquidity providers: the amount is not negative, or the pool
      charges no fee and paying the negative amount out leaves a reserve that divides the cross
      product. The code does not check the sign. */
  predicate SwapFair(p: Reserves, fee: nat, inIsA: bool, amountIn: int) {
    var s, r := ReserveIn(p, inIsA), ReserveOut(p, inIsA);
    amountIn >= 0 || (fee == 0 && 0 < s + amountIn && (r * -amountIn) % (s + amountIn) == 0)
  }

  lemma SwapSoundIff(p: Reserves, fee: nat, inIsA: bool, amountIn: int, minOut: int)
    requires Backed(p) && Swap(p, fee, inIsA, amountIn, minOut).Ok?
    ensures var q := Swap(p, fee, inIsA, amountIn, minOut).value;
      q.a > 0 && q.b > 0 && p.a * p.b <= q.a * q.b <==> SwapFair(p, fee, inIsA, amountIn)
  {
    if amountIn >= 0 {
      SwapRaisesProduct(p, fee, inIsA, amountIn, minOut);
    } else if ReserveIn(p, inIsA) + amountIn > 0 {
      NegativeSwapSoundIff(p, fee, inIsA, -amountIn, minOut);
    } else {
      NegativeSwapDrains(p, fee, inIsA, amountIn, minOut);
    }
  }

  /** A swap keeps the pool sound and its product per share exactly when it is fair. */
  lemma SwapFairIff(p: Reserves, fee: nat, inIsA: bool, amountIn: int, minOut: int)
    requires Backed(p) && Swap(p, fee, inIsA, amountIn, minOut).Ok?
    ensures var q := Swap(p, fee, inIsA, amountIn, minOut).value;
      && q.liquidity == p.liquidity
      && (Valid(q) && Growth(p, q) <==> SwapFair(p, fee, inIsA, amountIn))
  {
    var q := Swap(p, fee, inIsA, amountIn, minOut).value;
    assert q.liquidity == p.liquidity;
    SwapSoundIff(p, fee, inIsA, amountIn, minOut);
    if SwapFair(p, fee, inIsA, amountIn) {
      SameSharesGrowth(p, q);
      GrowthKeepsBacking(p, q);
    } else if Valid(q) && Growth(p, q) {
      MulMono(1, p.liquidity, 1, p.liquidity);
      Cancel(p.liquidity * p.liquidity, p.a * p.b, q.a * q.b);
    }
  }

  /** An unfair swap: -1 on a pool of 3 and 3 pays one token out, takes none in and counts as a swap. */
  lemma NegativeSwapLowersProduct()
    ensures var p := Reserves(3, 3, 3);
      && Backed(p) && !SwapFair(p, 30, true, -1)
      && Swap(p, 30, true, -1, 0) == Ok(Reserves(2, 3, 3))
      && !Growth(p, Reserves(2, 3, 3))
  {
    assert MulDiv(-1, 9970, 10000) == Ok(0);
    assert AmountOut(3, 3, 30, -1) == Ok(0);
  }

  lemma NegativeSwapSoundIff(p: Reserves, fee: nat, inIsA: bool, x: int, minOut: int)
    requires 0 < x < ReserveIn(p, inIsA) && 0 < ReserveOut(p, inIsA) && Swap(p, fee, inIsA, -x, minOut).Ok?
    ensures var q := Swap(p, fee, inIsA, -x, minOut).value;
      var s, r := ReserveIn(p, inIsA), ReserveOut(p, inIsA);
      && q.a > 0 && q.b > 0
      && (p.a * p.b <= q.a * q.b <==> fee == 0 && (r * x) % (s - x) == 0)
  {
    NegativeSwapPays(p, fee, inIsA, x, minOut);
    NegativeSwapProduct(ReserveIn(p, inIsA), ReserveOut(p, inIsA), fee, x);
    ProductOfReserves(p, inIsA);
  }

  lemma ProductOfReserves(p: Reserves, inIsA: bool)
    ensures p.a * p.b == ReserveIn(p, inIsA) * ReserveOut(p, inIsA)
  {
  }

  lemma NegativeSwapDrains(p: Reserves, fee: nat, inIsA: bool, amountIn: int, minOut: int)
    requires ReserveIn(p, inIsA) + amountIn <= 0 && Swap(p, fee, inIsA, amountIn, minOut).Ok?
    ensures ReserveIn(Swap(p, fee, inIsA, amountIn, minOut).value, inIsA) <= 0
  {
  }

  lemma NegativeSwapPays(p: Reserves, fee: nat, inIsA: bool, x: int, minOut: int)
    requires 0 < x < ReserveIn(p, inIsA) && 0 < ReserveOut(p, inIsA) && Swap(p, fee, inIsA, -x, minOut).Ok?
    ensures fee <= BASIS_POINTS && Net(fee, x) <= x
    ensures var q := Swap(p, fee, inIsA, -x, minOut).value;
      var s, r := ReserveIn(p, inIsA), ReserveOut(p, inIsA);
      && ReserveIn(q, inIsA) == s - x
      && ReserveOut(q, inIsA) == r + r * Net(fee, x) / (s - Net(fee, x))
      && q.liquidity == p.liquidity
      && q.a * q.b == (s - x) * (r + r * Net(fee, x) / (s - Net(fee, x)))
      && q.a > 0 && q.b > 0
  {
    assert AmountOut(ReserveIn(p, inIsA), ReserveOut(p, inIsA), fee, -x).Ok?;
    NegativeAmountOut(ReserveIn(p, inIsA), ReserveOut(p, inIsA), fee, x);
    ProductOfReserves(Swap(p, fee, inIsA, -x, minOut).value, inIsA);
  }

  lemma NegativeAmountOut(s: int, r: int, fee: nat, x: int)
    requires 0 < x < s && 0 < r && AmountOut(s, r, fee, -x).Ok?
    ensures fee <= BASIS_POINTS && Net(fee, x) <= x
    ensures AmountOut(s, r, fee, -x).value == -(r * Net(fee, x) / (s - Net(fee, x))) <= 0
  {
    NegativeNet(fee, x);
    var m: int := Net(fee, x);
    assert MulDiv(-x, BASIS_POINTS - fee, BASIS_POINTS) == Ok(-m);
    NegatedProduct(r, m);
    NegatedQuotient(r * m, s - m);
  }

  lemma NegatedQuotient(n: int, d: int)
    requires 0 <= n && 0 < d
    ensures Quot(-n, d) == -(n / d) <= 0
  {
    FloorBounds(n, d);
  }

  lemma NegatedProduct(r: int, m: int)
    requires 0 < r && 0 <= m
    ensures r * -m == -(r * m) && 0 <= r * m
  {
  }

  lemma NegativeNet(fee: nat, x: int)
    requires fee <= BASIS_POINTS && 0 < x
    ensures Net(fee, x) <= x && (Net(fee, x) == x <==> fee == 0)
    ensures Quot(-x * (BASIS_POINTS - fee), BASIS_POINTS) == 0 - Net(fee, x)
  {
    var k := BASIS_POINTS - fee;
    NetBounds(fee, x);
    assert -x * k == -(x * k) && 0 <= x * k;
    if fee > 0 {
      assert x * k == x * BASIS_POINTS - x * fee && 0 < x * fee;
      FloorBounds(x * k, BASIS_POINTS);
      StrictCancel(BASIS_POINTS, Net(fee, x), x);
    }
  }

  lemma NegativeSwapProduct(s: int, r: int, fee: nat, x: int)
    requires 0 < x < s && 0 < r && fee <= BASIS_POINTS
    ensures var m := Net(fee, x);
      && m <= x
      && (s * r <= (s - x) * (r + r * m / (s - m)) <==> fee == 0 && (r * x) % (s - x) == 0)
  {
    NegativeNet(fee, x);
    var m := Net(fee, x);
    assert 0 <= r * m;
    FloorBounds(r * m, s - m);
    var g := r * m / (s - m);
    NegativeSwapTerms(s, r, x, m, g);
    if fee > 0 {
      MulDiff(r + g, 1, x - m);
    } else {
      assert r * x == (s - x) * g + (r * x) % (s - x);
    }
  }

  lemma NegativeSwapTerms(s: int, r: int, x: int, m: int, g: int)
    ensures (s - x) * (r + g) == s * r - r * m + g * (s - m) - (r + g) * (x - m)
  {
    assert (s - x) * (r + g) == (s - m) * (r + g) - (r + g) * (x - m);
    assert (s - m) * (r + g) == s * r - r * m + g * (s - m);
  }

  // ----- Every run

  datatype Call =
    | Add(offerA: int, offerB: int, minLiquidity: int)
    | Remove(burned: int, minA: int, minB: int)
    | Trade(inIsA: bool, amountIn: int, minOut: int)

  ghost function Apply(p: Reserves, fee: nat, call: Call): Result<Reserves, Error> {
    match call
    case Add(offerA, offerB, minLiquidity) => AddLiquidity(p, offerA, offerB, minLiquidity)
    case Remove(burned, minA, minB) => RemoveLiquidity(p, burned, minA, minB)
    case Trade(inIsA, amountIn, minOut) => Swap(p, fee, inIsA, amountIn, minOut)
  }

  /** The calls that are fair to the liquidity providers, told from the call and the pool before it. */
  predicate Fair(p: Reserves, fee: nat, call: Call) {
    match call
    case Add(offerA, offerB, _) =>
      if p.a != 0 && p.b != 0 then AddFair(p, offerA, offerB)
      else (offerA > 0 && offerB > 0) || (offerA == 0 && offerB >= 0)
    case Remove(burned, _, _) => p.liquidity != 0 && RemoveFair(p, burned)
    case Trade(inIsA, amountIn, _) => SwapFair(p, fee, inIsA, amountIn)
  }

  /** With amounts of the sign that users mean, every call is fair. */
  predicate Sane(call: Call) {
    match call
    case Add(offerA, offerB, _) => offerA > 0 && offerB > 0
    case Remove(burned, _, _) => burned >= 0
    case Trade(_, amountIn, _) => amountIn >= 0
  }

  /** What a call must keep: a sound pool, and for those who hold shares of it their part of the
      reserves, or in a swap of the product. */
  ghost predicate Kept(p: Reserves, q: Reserves, call: Call) {
    && Valid(q)
    && if call.Trade? then q.liquidity == p.liquidity && Growth(p, q) else NotDiluted(p, q)
  }

  /** The pool after a list of calls; a call that fails changes nothing. */
  ghost function After(p: Reserves, fee: nat, calls: seq<Call>): Reserves
    decreases |calls|
  {
    if calls == [] then p
    else
      var before := After(p, fee, calls[..|calls| - 1]);
      var q := Apply(before, fee, calls[|calls| - 1]);
      if q.Ok? then q.value else before
  }

  /** A call that succeeds keeps the pool sound and its shares undiluted exactly when it is fair. */
  lemma CallFairIff(p: Reserves, fee: nat, call: Call)
    requires Valid(p) && Apply(p, fee, call).Ok?
    ensures Kept(p, Apply(p, fee, call).value, call) <==> Fair(p, fee, call)
  {
    match call
    case Add(offerA, offerB, minLiquidity) =>
      if Empty(p) {
        FirstDepositSoundIff(p, offerA, offerB, minLiquidity);
      } else {
        AddFairIff(p, offerA, offerB, minLiquidity);
      }
    case Remove(burned, minA, minB) =>
      RemoveFairIff(p, burned, minA, minB);
    case Trade(inIsA, amountIn, minOut) =>
      SwapFairIff(p, fee, inIsA, amountIn, minOut);
  }

  lemma SaneIsFair(p: Reserves, fee: nat, call: Call)
    requires Valid(p) && Sane(call) && Apply(p, fee, call).Ok?
    ensures Fair(p, fee, call)
  {
    if call.Add? && Backed(p) {
      PositivePledge(p, call.offerA, call.offerB);
    }
  }

  /** Every call of the run that succeeds is fair where it is made. */
  ghost predicate FairRun(p: Reserves, fee: nat, calls: seq<Call>)
    decreases |calls|
  {
    calls == [] ||
    var n := |calls| - 1;
    var before := After(p, fee, calls[..n]);
    FairRun(p, fee, calls[..n]) && (Apply(before, fee, calls[n]).Ok? ==> Fair(before, fee, calls[n]))
  }

  /** Every call of the run that succeeds keeps what it must. */
  ghost predicate SoundRun(p: Reserves, fee: nat, calls: seq<Call>)
    decreases |calls|
  {
    calls == [] ||
    var n := |calls| - 1;
    var before := After(p, fee, calls[..n]);
    var q := Apply(before, fee, calls[n]);
    SoundRun(p, fee, calls[..n]) && (q.Ok? ==> Kept(before, q.value, calls[n]))
  }

  /** A run is sound at every step exactly when all its calls are fair, and then ends in a pool that
      is empty or has positive reserves, positive liquidity L and L * L at most the product of the
      reserves. No sign is assumed of any amount. */
  lemma {:induction false} RunSoundIff(p: Reserves, fee: nat, calls: seq<Call>)
    requires Valid(p)
    ensures SoundRun(p, fee, calls) <==> FairRun(p, fee, calls)
    ensures FairRun(p, fee, calls) ==> Valid(After(p, fee, calls))
    decreases |calls|
  {
    if calls != [] {
      var n := |calls| - 1;
      RunSoundIff(p, fee, calls[..n]);
      var before := After(p, fee, calls[..n]);
      if FairRun(p, fee, calls[..n]) && Apply(before, fee, calls[n]).Ok? {
        CallFairIff(before, fee, calls[n]);
      }
    }
  }

  /** With amounts of the right sign every reachable pool is sound. */
  lemma {:induction false} ReachablePoolsAreValid(p: Reserves, fee: nat, calls: seq<Call>)
    requires Valid(p) && forall call :: call in calls ==> Sane(call)
    ensures FairRun(p, fee, calls) && Valid(After(p, fee, calls))
    decreases |calls|
  {
    RunSoundIff(p, fee, calls);
    if calls != [] {
      var n := |calls| - 1;
      ReachablePoolsAreValid(p, fee, calls[..n]);
      var before := After(p, fee, calls[..n]);
      if Apply(before, fee, calls[n]).Ok? {
        SaneIsFair(before, fee, calls[n]);
      }
    }
  }

  lemma KeptIsGrowth(p: Reserves, q: Reserves, call: Call)
    requires Backed(p) && Kept(p, q, call)
    ensures Growth(p, q)
  {
    if !call.Trade? {
      NotDilutedIsGrowth(p, q);
    }
  }

  /** Over any run of fair calls during which the pool is never emptied, the product of the reserves
      per squared share of liquidity does not fall: whatever the traders and the other providers
      do, a share is never worth less. */
  lemma {:induction false} SharesNeverLoseValue(p: Reserves, fee: nat, calls: seq<Call>)
    requires Backed(p) && FairRun(p, fee, calls)
    requires forall n: nat :: n <= |calls| ==> !Empty(After(p, fee, calls[..n]))
    ensures Growth(p, After(p, fee, calls))
    decreases |calls|
  {
    if calls != [] {
      var n := |calls| - 1;
      forall k: nat | k <= n
        ensures !Empty(After(p, fee, calls[..n][..k]))
      {
        assert calls[..n][..k] == calls[..k];
      }
      SharesNeverLoseValue(p, fee, calls[..n]);
      RunSoundIff(p, fee, calls[..n]);
      RunSoundIff(p, fee, calls);
      var before := After(p, fee, calls[..n]);
      assert calls[..|calls|] == calls;
      if Apply(before, fee, calls[n]).Ok? {
        CallFairIff(before, fee, calls[n]);
        KeptIsGrowth(before, After(p, fee, calls), calls[n]);
        GrowthTransitive(p, before, After(p, fee, calls));
      }
    }
  }

  lemma GrowthTransitive(p: Reserves, q: Reserves, r: Reserves)
    requires Backed(p) && Backed(q) && Backed(r) && Growth(p, q) && Growth(q, r)
    ensures Growth(p, r)
  {
    var kp, kq, kr := p.a * p.b, q.a * q.b, r.a * r.b;
    var lp, lq, lr := p.liquidity * p.liquidity, q.liquidity * q.liquidity, r.liquidity * r.liquidity;
    assert 0 < lp && 0 < lq && 0 < lr && 0 < kp && 0 < kq && 0 < kr;
    CrossTransitive(kp, lp, kq, lq, kr, lr);
  }

  lemma CrossTransitive(kp: int, lp: int, kq: int, lq: int, kr: int, lr: int)
    requires 0 < lp && 0 < lq && 0 < lr
    requires kp * lq <= kq * lp && kq * lr <= kr * lq
    ensures kp * lr <= kr * lp
  {
    MulDiff(lr, kp * lq, kq * lp);
    MulDiff(lp, kq * lr, kr * lq);
    assert lr * (kp * lq) == lq * (kp * lr);
    assert lr * (kq * lp) == lp * (kq * lr);
    assert lp * (kr * lq) == lq * (kr * lp);
    Cancel(lq, kp * lr, kr * lp);
  }
}
