/** When each call on the pool succeeds and what it moves, told without the functions that compute it. */
module AmmEffects {
  import opened Outcomes
  import opened Machine
  import opened Products
  import opened SquareRoot
  import opened AmmPool
  import opened AmmProofs

  /** q is the floor of n / d. */
  predicate IsFloor(q: int, n: int, d: int) {
    q * d <= n < (q + 1) * d
  }

  ghost predicate Stored(p: Reserves) {
    && 0 < p.a && 0 < p.b && 0 < p.liquidity
    && FitsI64(p.a) && FitsI64(p.b) && FitsI64(p.liquidity)
  }

  /** A proportion of amounts that are not negative fails exactly when its product overflows. */
  lemma MulDivExactly(x: int, y: int, z: int)
    requires 0 <= x && 0 <= y && 0 < z
    ensures 0 <= x * y && 0 <= x * y / z <= x * y && IsFloor(x * y / z, x * y, z)
    ensures MulDiv(x, y, z) == if FitsI64(x * y) then Ok(x * y / z) else Err(Panic)
  {
    MulMono(0, x, 0, y);
    FloorBounds(x * y, z);
    var q := x * y / z;
    MulMono(q, q, 1, z);
  }

  // ----- Swaps

  /** Whatever its sign, a successful swap takes in its amount and pays at least the caller's minimum out
      of the other reserve. */
  lemma SwapPaysMinimum(p: Reserves, fee: nat, inIsA: bool, amountIn: int, minOut: int)
    requires Swap(p, fee, inIsA, amountIn, minOut).Ok?
    ensures p.a != 0 && p.b != 0 && fee <= 10_000
    ensures var q := Swap(p, fee, inIsA, amountIn, minOut).value;
      && ReserveIn(q, inIsA) - ReserveIn(p, inIsA) == amountIn
      && minOut <= ReserveOut(p, inIsA) - ReserveOut(q, inIsA)
      && q.liquidity == p.liquidity
  {
  }

  /** The input less the fee, in parts of ten thousand and rounded down, buys the part of the other
      reserve that keeps the product, rounded down. The swap succeeds exactly when nothing overflows and
      that part is at least the caller's minimum. */
  lemma SwapExactly(p: Reserves, fee: nat, inIsA: bool, amountIn: nat, minOut: int) returns (net: nat, out: nat)
    requires Stored(p) && fee <= 10_000
    ensures IsFloor(net, amountIn * (10_000 - fee), 10_000)
    ensures var s, r := ReserveIn(p, inIsA), ReserveOut(p, inIsA);
      && IsFloor(out, r * net, s + net)
      && (Swap(p, fee, inIsA, amountIn, minOut).Ok? <==>
            && FitsI64(amountIn * (10_000 - fee)) && FitsI64(r * net)
            && FitsI64(s + net) && FitsI64(s + amountIn) && minOut <= out)
    ensures Swap(p, fee, inIsA, amountIn, minOut).Ok? ==>
      var q := Swap(p, fee, inIsA, amountIn, minOut).value;
      && ReserveIn(q, inIsA) == ReserveIn(p, inIsA) + amountIn
      && ReserveOut(q, inIsA) == ReserveOut(p, inIsA) - out
      && q.liquidity == p.liquidity
  {
    var s, r := ReserveIn(p, inIsA), ReserveOut(p, inIsA);
    net, out := AmountOutExactly(s, r, fee, amountIn);
  }

  lemma AmountOutExactly(s: int, r: int, fee: nat, amountIn: nat) returns (net: nat, out: nat)
    requires 0 < s && 0 < r && FitsI64(r) && fee <= 10_000
    ensures IsFloor(net, amountIn * (10_000 - fee), 10_000) && net <= amountIn
    ensures IsFloor(out, r * net, s + net) && out < r
    ensures AmountOut(s, r, fee, amountIn) ==
      if FitsI64(amountIn * (10_000 - fee)) && FitsI64(r * net) && FitsI64(s + net) then Ok(out) else Err(Panic)
  {
    MulDivExactly(amountIn, 10_000 - fee, 10_000);
    net := amountIn * (10_000 - fee) / 10_000;
    NetBounds(fee, amountIn);
    MulMono(0, r, 0, net);
    FloorBounds(r * net, s + net);
    out := r * net / (s + net);
    PaidBelowReserve(s, r, net, out);
  }

  // ----- Deposits

  /** Whatever the signs, a successful deposit mints at least the caller's minimum. */
  lemma AddMintsMinimum(p: Reserves, offerA: int, offerB: int, minLiquidity: int)
    requires AddLiquidity(p, offerA, offerB, minLiquidity).Ok?
    ensures minLiquidity <= AddLiquidity(p, offerA, offerB, minLiquidity).value.liquidity - p.liquidity
  {
  }

  /** What a deposit takes of the two offers: of the second token what matches the first offer at the
      present price, rounded down, or the whole offer if that is less; of the first what matches this. */
  predicate Matched(p: Reserves, offerA: int, offerB: int, amountA: int, amountB: int) {
    && IsFloor(amountA, amountB * p.a, p.b)
    && amountB <= offerB && amountB * p.a <= offerA * p.b
    && (amountB == offerB || offerA * p.b < (amountB + 1) * p.a)
  }

  /** The most shares that neither amount pays too little for. */
  predicate FairShares(p: Reserves, amountA: int, amountB: int, minted: int) {
    && minted * p.a <= amountA * p.liquidity && minted * p.b <= amountB * p.liquidity
    && (amountA * p.liquidity < (minted + 1) * p.a || amountB * p.liquidity < (minted + 1) * p.b)
  }

  /** A deposit into a trading pool succeeds exactly when nothing overflows and the shares reach the
      caller's minimum, and then moves just that. */
  lemma AddExactly(p: Reserves, offerA: nat, offerB: nat, minLiquidity: int)
    returns (amountA: nat, amountB: nat, minted: nat)
    requires Stored(p)
    ensures Matched(p, offerA, offerB, amountA, amountB) && FairShares(p, amountA, amountB, minted)
    ensures AddLiquidity(p, offerA, offerB, minLiquidity).Ok? <==>
      && FitsI64(offerA * p.b) && FitsI64(amountB * p.a)
      && FitsI64(amountA * p.liquidity) && FitsI64(amountB * p.liquidity)
      && FitsI64(p.a + amountA) && FitsI64(p.b + amountB) && FitsI64(p.liquidity + minted)
      && minLiquidity <= minted
    ensures AddLiquidity(p, offerA, offerB, minLiquidity).Ok? ==>
      AddLiquidity(p, offerA, offerB, minLiquidity).value
        == Reserves(p.a + amountA, p.b + amountB, p.liquidity + minted)
  {
    amountA, amountB := TakenExactly(p, offerA, offerB);
    minted := MintedExactly(p, amountA, amountB);
  }

  lemma TakenExactly(p: Reserves, offerA: nat, offerB: nat) returns (amountA: nat, amountB: nat)
    requires Stored(p)
    ensures Matched(p, offerA, offerB, amountA, amountB)
    ensures Taken(p, offerA, offerB) ==
      if FitsI64(offerA * p.b) && FitsI64(amountB * p.a) then Ok((amountA, amountB)) else Err(Panic)
  {
    MulDivExactly(offerA, p.b, p.a);
    var optimal := offerA * p.b / p.a;
    amountB := if offerB < optimal then offerB else optimal;
    MulMono(amountB, optimal, p.a, p.a);
    MulDivExactly(amountB, p.a, p.b);
    amountA := amountB * p.a / p.b;
  }

  lemma MintedExactly(p: Reserves, amountA: nat, amountB: nat) returns (minted: nat)
    requires Stored(p)
    ensures FairShares(p, amountA, amountB, minted)
    ensures Minted(p, amountA, amountB) ==
      if FitsI64(amountA * p.liquidity) && FitsI64(amountB * p.liquidity) then Ok(minted) else Err(Panic)
  {
    MulDivExactly(amountA, p.liquidity, p.a);
    MulDivExactly(amountB, p.liquidity, p.b);
    var shareA, shareB := amountA * p.liquidity / p.a, amountB * p.liquidity / p.b;
    minted := if shareA < shareB then shareA else shareB;
    MulMono(minted, shareA, p.a, p.a);
    MulMono(minted, shareB, p.b, p.b);
  }

  /** The first deposit takes the whole first offer, and of the second no more than as many units, and
      mints the root of the product. */
  lemma FirstAddExactly(offerA: nat, offerB: nat, minLiquidity: int) returns (amountB: nat, minted: nat)
    requires FitsI64(offerA)
    ensures amountB <= offerA && amountB <= offerB && (amountB == offerA || amountB == offerB)
    ensures minted * minted <= offerA * amountB < (minted + 1) * (minted + 1)
    ensures AddLiquidity(Reserves(0, 0, 0), offerA, offerB, minLiquidity) ==
      if !FitsI64(offerA * amountB) then Err(Panic)
      else if minted < minLiquidity then Err(InsufficientFunds)
      else Ok(Reserves(offerA, amountB, minted))
  {
    amountB := if offerB < offerA then offerB else offerA;
    MulMono(0, offerA, 0, amountB);
    minted := Root(offerA * amountB);
    MulMono(minted, minted, 0, minted);
    RootBelow(offerA * amountB);
    assert Taken(Reserves(0, 0, 0), offerA, offerB) == Ok((offerA, amountB));
  }

  lemma RootBelow(n: nat)
    ensures Root(n) <= n
  {
    if n < Root(n) {
      MulMono(1, Root(n), Root(n), Root(n));
    }
  }

  // ----- Withdrawals

  /** Whatever its sign, a successful withdrawal burns what it says, no more than there is, and pays at
      least the caller's minimum of either token. */
  lemma RemovePaysMinimum(p: Reserves, burned: int, minA: int, minB: int)
    requires RemoveLiquidity(p, burned, minA, minB).Ok?
    ensures var q := RemoveLiquidity(p, burned, minA, minB).value;
      && burned == p.liquidity - q.liquidity && burned <= p.liquidity
      && minA <= p.a - q.a && minB <= p.b - q.b
  {
  }

  /** Burning shares pays that part of both reserves, rounded down, and succeeds exactly when there are as
      many shares, nothing overflows and both amounts reach the caller's minimum. */
  lemma RemoveExactly(p: Reserves, burned: nat, minA: int, minB: int) returns (amountA: nat, amountB: nat)
    requires Stored(p)
    ensures IsFloor(amountA, burned * p.a, p.liquidity) && IsFloor(amountB, burned * p.b, p.liquidity)
    ensures RemoveLiquidity(p, burned, minA, minB).Ok? <==>
      && burned <= p.liquidity && FitsI64(burned * p.a) && FitsI64(burned * p.b)
      && minA <= amountA && minB <= amountB
    ensures RemoveLiquidity(p, burned, minA, minB).Ok? ==>
      RemoveLiquidity(p, burned, minA, minB).value == Reserves(p.a - amountA, p.b - amountB, p.liquidity - burned)
  {
    MulDivExactly(burned, p.a, p.liquidity);
    MulDivExactly(burned, p.b, p.liquidity);
    amountA, amountB := burned * p.a / p.liquidity, burned * p.b / p.liquidity;
  }
}
