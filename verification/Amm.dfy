/** The constant-product pool of contracts/amm-liquidity-pools/src/lib.rs: proportional deposits and
    withdrawals, swaps with a fee, and the integer square root that prices the first deposit. */
module SquareRoot {

  /** The largest integer whose square does not exceed n, found by counting up. */
  ghost function Root(n: nat): (r: nat)
    ensures r * r <= n < (r + 1) * (r + 1)
  {
    if n == 0 then 0
    else
      var r := Root(n - 1);
      if (r + 1) * (r + 1) <= n then r + 1 else r
  }

  lemma SquareOrder(a: nat, b: nat)
    ensures a * a < b * b <==> a < b
  {
    if a < b {
      assert a * a <= a * b < b * b;
    } else {
      assert b * b <= a * b <= a * a;
    }
  }

  lemma MeanSquare(x: int, q: int)
    ensures 4 * (x * q) <= (x + q) * (x + q)
  {
    var d := x - q;
    assert 0 <= d * d;
    assert d * d == x * x - 2 * (x * q) + q * q;
    assert (x + q) * (x + q) == x * x + 2 * (x * q) + q * q;
  }

  /** One Newton step from any positive x stays at or above the root: the mean of x and n / x + 1
      squares to more than n. */
  lemma NewtonStaysAbove(n: nat, x: nat)
    requires x > 0
    ensures (x + n / x) / 2 >= Root(n)
  {
    BelowNextMultiple(n, x);
    MeanAboveRoot(n, x, n / x + 1);
  }

  lemma BelowNextMultiple(n: nat, x: nat)
    requires x > 0
    ensures n < x * (n / x + 1)
  {
    assert n == x * (n / x) + n % x;
  }

  lemma MeanAboveRoot(n: nat, x: nat, q: nat)
    requires n < x * q
    ensures 2 * Root(n) < x + q
  {
    MeanAbove(Root(n), x, q);
  }

  lemma MeanAbove(r: nat, x: nat, q: nat)
    requires r * r < x * q
    ensures 2 * r < x + q
  {
    MeanSquare(x, q);
    assert (2 * r) * (2 * r) == 4 * (r * r);
    SquareOrder(2 * r, x + q);
  }

  /** When a step no longer goes down, x squares to at most n. */
  lemma NewtonStops(n: nat, x: nat)
    requires x > 0 && (x + n / x) / 2 >= x
    ensures x * x <= n
  {
    var q := n / x;
    assert x <= q;
    assert x * x <= x * q;
    assert n == x * q + n % x;
  }

  /** The Newton iteration: it terminates and returns the floor of the square root. */
  method Sqrt(n: nat) returns (r: nat)
    ensures r == Root(n)
    ensures r * r <= n < (r + 1) * (r + 1)
  {
    if n == 0 {
      return 0;
    }
    var x := n;
    var y := (x + 1) / 2;
    assert n / x == 1;
    NewtonStaysAbove(n, x);
    while y < x
      invariant 0 < x && Root(n) <= x
      invariant y == (x + n / x) / 2 && Root(n) <= y
      decreases x
    {
      assert 0 < Root(n);
      NewtonStaysAbove(n, y);
      x := y;
      y := (x + n / x) / 2;
    }
    NewtonStops(n, x);
    SquareOrder(x, Root(n) + 1);
    return x;
  }
}

/** Facts about products and floor division that the pool's proofs share. */
module Products {

  lemma MulMono(a: int, b: int, c: int, d: int)
    requires 0 <= a <= b && 0 <= c <= d
    ensures a * c <= b * d
  {
    assert a * c <= b * c;
    assert b * c <= b * d;
  }

  lemma Cancel(k: int, x: int, y: int)
    requires 0 < k && k * x <= k * y
    ensures x <= y
  {
    if y + 1 <= x {
      MulDiff(k, y + 1, x);
    }
  }

  lemma MulDiff(k: int, x: int, y: int)
    requires 0 < k && x <= y
    ensures k * x <= k * y
    ensures k * (x - 1) == k * x - k
  {
  }

  lemma FloorBounds(n: int, d: int)
    requires 0 < d
    ensures (n / d) * d <= n < (n / d + 1) * d
    ensures n >= 0 ==> n / d >= 0
  {
    assert n == d * (n / d) + n % d;
    assert (n / d + 1) * d == (n / d) * d + d;
  }

  /** An integer q with q * d <= n is at most the floor of n / d. */
  lemma FloorGreatest(n: int, d: int, q: int)
    requires 0 < d && q * d <= n
    ensures q <= n / d
  {
    FloorBounds(n, d);
    StrictCancel(d, q, n / d + 1);
  }

  lemma StrictCancel(k: int, x: int, y: int)
    requires 0 < k && x * k < y * k
    ensures x < y
  {
    if y <= x {
      MulDiff(k, y, x);
    }
  }
}

module AmmPool {
  import opened Outcomes
  import opened Machine
  import opened Products
  import opened SquareRoot

  /** Panic stands for an overflow or a division by zero. */
  datatype Error = DeadlinePassed | InsufficientFunds | Panic

  datatype Reserves = Reserves(a: int, b: int, liquidity: int)

  const BASIS_POINTS := 10000

  function Checked(x: int): Result<int, Error> {
    if FitsI64(x) then Ok(x) else Err(Panic)
  }

  /** x * y / z in checked 64-bit arithmetic. */
  function MulDiv(x: int, y: int, z: int): Result<int, Error> {
    var product :- Checked(x * y);
    if z == 0 then Err(Panic) else Checked(Quot(product, z))
  }

  /** The cast of a 64-bit integer to an unsigned one. */
  function AsU64(x: int): (n: nat)
    requires FitsI64(x)
  {
    if x < 0 then x + U64_SIZE else x
  }

  // ----- The three calls, as functions on the stored pool

  ghost function Minted(p: Reserves, amountA: int, amountB: int): Result<int, Error> {
    if p.liquidity == 0 then
      var product :- Checked(amountA * amountB);
      Ok(Root(AsU64(product)))
    else
      var shareA :- MulDiv(amountA, p.liquidity, p.a);
      var shareB :- MulDiv(amountB, p.liquidity, p.b);
      Ok(if shareA < shareB then shareA else shareB)
  }

  /** The amounts taken out of an offer: the part of it that matches the current price. */
  function Taken(p: Reserves, offerA: int, offerB: int): Result<(int, int), Error> {
    var optimalB :- if p.a == 0 || p.b == 0 then Ok(offerA) else MulDiv(offerA, p.b, p.a);
    var amountB := if offerB < optimalB then offerB else optimalB;
    var amountA :- if p.a == 0 then Ok(offerA) else MulDiv(amountB, p.a, p.b);
    Ok((amountA, amountB))
  }

  ghost function AddLiquidity(p: Reserves, offerA: int, offerB: int, minLiquidity: int)
    : Result<Reserves, Error>
  {
    var taken :- Taken(p, offerA, offerB);
    var minted :- Minted(p, taken.0, taken.1);
    if minted < minLiquidity then Err(InsufficientFunds)
    else
      var a :- Checked(p.a + taken.0);
      var b :- Checked(p.b + taken.1);
      var liquidity :- Checked(p.liquidity + minted);
      Ok(Reserves(a, b, liquidity))
  }

  function RemoveLiquidity(p: Reserves, burned: int, minA: int, minB: int): Result<Reserves, Error> {
    if p.liquidity == 0 || burned > p.liquidity then Err(InsufficientFunds)
    else
      var amountA :- MulDiv(burned, p.a, p.liquidity);
      var amountB :- MulDiv(burned, p.b, p.liquidity);
      if amountA < minA || amountB < minB then Err(InsufficientFunds)
      else
        var a :- Checked(p.a - amountA);
        var b :- Checked(p.b - amountB);
        var liquidity :- Checked(p.liquidity - burned);
        Ok(Reserves(a, b, liquidity))
  }

  function AmountOut(reserveIn: int, reserveOut: int, fee: nat, amountIn: int): Result<int, Error> {
    if reserveIn == 0 || reserveOut == 0 then Err(InsufficientFunds)
    else if fee > BASIS_POINTS then Err(Panic)
    else
      var net :- MulDiv(amountIn, BASIS_POINTS - fee, BASIS_POINTS);
      var numerator :- Checked(reserveOut * net);
      var denominator :- Checked(reserveIn + net);
      if denominator == 0 then Err(Panic) else Checked(Quot(numerator, denominator))
  }

  function Swap(p: Reserves, fee: nat, inIsA: bool, amountIn: int, minOut: int): Result<Reserves, Error> {
    var reserveIn := if inIsA then p.a else p.b;
    var reserveOut := if inIsA then p.b else p.a;
    var amountOut :- AmountOut(reserveIn, reserveOut, fee, amountIn);
    if amountOut < minOut then Err(InsufficientFunds)
    else
      var newIn :- Checked(reserveIn + amountIn);
      var newOut :- Checked(reserveOut - amountOut);
      Ok(if inIsA then Reserves(newIn, newOut, p.liquidity) else Reserves(newOut, newIn, p.liquidity))
  }

  // ----- The pool as the contract stores it

  class Pool {
    const feeRate: nat
    var reserveA: int
    var reserveB: int
    var totalLiquidity: int

    constructor (feeRate: nat)
      ensures this.feeRate == feeRate && Stored() == Reserves(0, 0, 0)
    {
      this.feeRate := feeRate;
      reserveA, reserveB, totalLiquidity := 0, 0, 0;
    }

    function Stored(): Reserves
      reads this
    {
      Reserves(reserveA, reserveB, totalLiquidity)
    }

    /** What a call leaves behind: the specified state and the amount its caller is told, or the
        state before the call. */
    twostate predicate Became(spec: Result<Reserves, Error>)
      reads this
    {
      Stored() == if spec.Ok? then spec.value else old(Stored())
    }

    method MintFor(amountA: int, amountB: int) returns (r: Result<int, Error>)
      ensures r == Minted(Stored(), amountA, amountB)
    {
      if totalLiquidity == 0 {
        var product :- Checked(amountA * amountB);
        var root := Sqrt(AsU64(product));
        return Ok(root);
      }
      var shareA :- MulDiv(amountA, totalLiquidity, reserveA);
      var shareB :- MulDiv(amountB, totalLiquidity, reserveB);
      return Ok(if shareA < shareB then shareA else shareB);
    }

    method Add(offerA: int, offerB: int, minLiquidity: int, now: nat, deadline: nat)
      returns (r: Result<int, Error>)
      modifies this
      ensures now > deadline ==> r == Err(DeadlinePassed) && Stored() == old(Stored())
      ensures now <= deadline ==>
        var spec := AddLiquidity(old(Stored()), offerA, offerB, minLiquidity);
        && Became(spec)
        && r == if spec.Ok? then Ok(totalLiquidity - old(totalLiquidity)) else Err(spec.error)
    {
      if now > deadline {
        return Err(DeadlinePassed);
      }
      var taken :- Taken(Stored(), offerA, offerB);
      var minted :- MintFor(taken.0, taken.1);
      if minted < minLiquidity {
        return Err(InsufficientFunds);
      }
      var a :- Checked(reserveA + taken.0);
      var b :- Checked(reserveB + taken.1);
      var liquidity :- Checked(totalLiquidity + minted);
      reserveA, reserveB, totalLiquidity := a, b, liquidity;
      return Ok(minted);
    }

    method Remove(burned: int, minA: int, minB: int, now: nat, deadline: nat)
      returns (r: Result<(int, int), Error>)
      modifies this
      ensures now > deadline ==> r == Err(DeadlinePassed) && Stored() == old(Stored())
      ensures now <= deadline ==>
        var spec := RemoveLiquidity(old(Stored()), burned, minA, minB);
        && Became(spec)
        && r == if spec.Ok? then Ok((old(reserveA) - reserveA, old(reserveB) - reserveB)) else Err(spec.error)
    {
      if now > deadline {
        return Err(DeadlinePassed);
      }
      if totalLiquidity == 0 || burned > totalLiquidity {
        return Err(InsufficientFunds);
      }
      var amountA :- MulDiv(burned, reserveA, totalLiquidity);
      var amountB :- MulDiv(burned, reserveB, totalLiquidity);
      if amountA < minA || amountB < minB {
        return Err(InsufficientFunds);
      }
      var a :- Checked(reserveA - amountA);
      var b :- Checked(reserveB - amountB);
      var liquidity :- Checked(totalLiquidity - burned);
      reserveA, reserveB, totalLiquidity := a, b, liquidity;
      return Ok((amountA, amountB));
    }

    method Trade(inIsA: bool, amountIn: int, minOut: int, now: nat, deadline: nat)
      returns (r: Result<int, Error>)
      modifies this
      ensures now > deadline ==> r == Err(DeadlinePassed) && Stored() == old(Stored())
      ensures now <= deadline ==>
        var spec := Swap(old(Stored()), feeRate, inIsA, amountIn, minOut);
        && Became(spec)
        && (r.Ok? <==> spec.Ok?)
        && (spec.Err? ==> r.error == spec.error)
        && (spec.Ok? ==> r.value == if inIsA then old(reserveB) - reserveB else old(reserveA) - reserveA)
    {
      if now > deadline {
        return Err(DeadlinePassed);
      }
      var reserveIn := if inIsA then reserveA else reserveB;
      var reserveOut := if inIsA then reserveB else reserveA;
      var amountOut :- AmountOut(reserveIn, reserveOut, feeRate, amountIn);
      if amountOut < minOut {
        return Err(InsufficientFunds);
      }
      var newIn :- Checked(reserveIn + amountIn);
      var newOut :- Checked(reserveOut - amountOut);
      if inIsA {
        reserveA, reserveB := newIn, newOut;
      } else {
        reserveB, reserveA := newIn, newOut;
      }
      return Ok(amountOut);
    }
  }
}
