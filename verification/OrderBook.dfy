/** The limit-order book of contracts/limit-orders/src/lib.rs: the two price-ordered sides of one
    pool's book, and the market order that eats into one of them. */
module OrderBook {
  import opened Outcomes
  import opened Machine

  datatype Error = DeadlinePassed | InvalidInput | NotFound | InsufficientFunds | Overflow

  datatype Status = Active | PartiallyFilled | Filled | Cancelled

  datatype Order = Order(id: nat, price: int, wanted: int, filled: int, status: Status)

  /** Bids are kept from the highest price down, asks from the lowest price up. */
  datatype Side = Bids | Asks

  type Orders = seq<Order>

  // ----- Orders and their order

  predicate Live(o: Order) {
    o.status == Active || o.status == PartiallyFilled
  }

  function Open(o: Order): int {
    o.wanted - o.filled
  }

  /** What a resting order must satisfy: it is live, for a positive price, and not yet filled. */
  predicate Resting(o: Order) {
    Live(o) && 0 < o.price && 0 <= o.filled < o.wanted
  }

  predicate Better(side: Side, x: int, y: int) {
    match side
    case Bids => x > y
    case Asks => x < y
  }

  ghost predicate Ordered(side: Side, orders: Orders) {
    forall i, j :: 0 <= i < j < |orders| ==> !Better(side, orders[j].price, orders[i].price)
  }

  ghost predicate Distinct(orders: Orders) {
    forall i, j :: 0 <= i < j < |orders| ==> orders[i].id != orders[j].id
  }

  ghost predicate Sound(side: Side, orders: Orders) {
    Ordered(side, orders) && Distinct(orders) && AllResting(orders)
  }

  ghost predicate AllResting(orders: Orders) {
    forall i :: 0 <= i < |orders| ==> Resting(orders[i])
  }

  function TotalOpen(orders: Orders): int {
    if orders == [] then 0 else Open(orders[0]) + TotalOpen(orders[1..])
  }

  // ----- Placing

  /** The first resting order that the new price beats, or the length of the side. */
  function FirstBeaten(side: Side, orders: Orders, price: int): (n: nat)
    ensures n <= |orders|
    ensures forall i :: 0 <= i < n ==> !Better(side, price, orders[i].price)
    ensures n < |orders| ==> Better(side, price, orders[n].price)
  {
    if orders == [] || Better(side, price, orders[0].price) then 0
    else 1 + FirstBeaten(side, orders[1..], price)
  }

  /** The side after a placement. The code writes the new order over the first one it beats. */
  function Placed(side: Side, orders: Orders, o: Order): Orders {
    var n := FirstBeaten(side, orders, o.price);
    if n < |orders| then orders[n := o] else orders + [o]
  }

  // ----- Cancelling

  function Without(orders: Orders, id: nat): Orders {
    if orders == [] then []
    else (if orders[0].id == id then [] else [orders[0]]) + Without(orders[1..], id)
  }

  // ----- Matching

  function Min(x: int, y: int): int {
    if x < y then x else y
  }

  /** How much of one order a market order with the given remainder takes. */
  function FillOf(o: Order, remaining: int): int {
    if remaining > 0 && Live(o) && Open(o) > 0 then Min(remaining, Open(o)) else 0
  }

  /** What is left of one order in the book. */
  function Kept(o: Order, fill: int): Orders {
    if fill <= 0 then [o]
    else if o.filled + fill < o.wanted then [o.(filled := o.filled + fill, status := PartiallyFilled)]
    else []
  }

  function Matched(orders: Orders, remaining: int): Orders {
    if orders == [] then []
    else
      var fill := FillOf(orders[0], remaining);
      Kept(orders[0], fill) + Matched(orders[1..], remaining - fill)
  }

  function FilledBy(orders: Orders, remaining: int): int {
    if orders == [] then 0
    else
      var fill := FillOf(orders[0], remaining);
      fill + FilledBy(orders[1..], remaining - fill)
  }

  /** The three matching functions, one order further along a side. */
  lemma MatchStep(orders: Orders, i: nat, remaining: int, kept: Orders)
    requires i < |orders|
    ensures var fill := FillOf(orders[i], remaining);
      && kept + Matched(orders[i..], remaining)
         == (kept + Kept(orders[i], fill)) + Matched(orders[i + 1..], remaining - fill)
      && FilledBy(orders[i..], remaining) == fill + FilledBy(orders[i + 1..], remaining - fill)
      && TradesFit(orders[i..], remaining)
         == (FitsI64(fill * orders[i].price) && TradesFit(orders[i + 1..], remaining - fill))
  {
    assert orders[i..][1..] == orders[i + 1..];
  }

  /** Every trade computes amount * price in 64 bits. */
  predicate TradesFit(orders: Orders, remaining: int) {
    orders != [] ==>
      var fill := FillOf(orders[0], remaining);
      FitsI64(fill * orders[0].price) && TradesFit(orders[1..], remaining - fill)
  }

  // ----- The book as the contract stores it

  datatype Stored = Stored(bids: Orders, asks: Orders, nextId: nat)

  function Book(b: Stored, side: Side): Orders {
    if side == Bids then b.bids else b.asks
  }

  function Place(b: Stored, side: Side, price: int, amount: int, late: bool): Result<Stored, Error> {
    if late then Err(DeadlinePassed)
    else if amount <= 0 || price <= 0 then Err(InvalidInput)
    else
      var o := Order(b.nextId, price, amount, 0, Active);
      match side
      case Bids => Ok(b.(bids := Placed(Bids, b.bids, o), nextId := b.nextId + 1))
      case Asks => Ok(b.(asks := Placed(Asks, b.asks, o), nextId := b.nextId + 1))
  }

  ghost predicate Holds(orders: Orders, id: nat) {
    exists i :: 0 <= i < |orders| && orders[i].id == id
  }

  /** Every order of that id can still be cancelled. */
  ghost predicate Cancellable(orders: Orders, id: nat) {
    forall i :: 0 <= i < |orders| && orders[i].id == id ==> Live(orders[i])
  }

  ghost function Cancel(b: Stored, id: nat): Result<Stored, Error> {
    if !Cancellable(b.bids, id) || !Cancellable(b.asks, id) then Err(InvalidInput)
    else if !Holds(b.bids, id) && !Holds(b.asks, id) then Err(NotFound)
    else Ok(b.(bids := Without(b.bids, id), asks := Without(b.asks, id)))
  }

  /** A market order to buy eats asks, one to sell eats bids. */
  function Execute(b: Stored, eaten: Side, amount: int, minOut: int, late: bool): Result<Stored, Error> {
    var orders := if eaten == Bids then b.bids else b.asks;
    if late then Err(DeadlinePassed)
    else if !TradesFit(orders, amount) then Err(Overflow)
    else if FilledBy(orders, amount) < minOut then Err(InsufficientFunds)
    else if eaten == Bids then Ok(b.(bids := Matched(orders, amount)))
    else Ok(b.(asks := Matched(orders, amount)))
  }

  ghost predicate Valid(b: Stored) {
    && Sound(Bids, b.bids) && Sound(Asks, b.asks)
    && (forall o :: o in b.bids || o in b.asks ==> o.id < b.nextId)
    && (forall i, j :: 0 <= i < |b.bids| && 0 <= j < |b.asks| ==> b.bids[i].id != b.asks[j].id)
  }

  // ----- The loops over one side

  /** The scan for the slot of a new order. */
  method Inserted(side: Side, orders: Orders, o: Order) returns (r: Orders)
    ensures r == Placed(side, orders, o)
  {
    var i := 0;
    while i < |orders|
      invariant i <= |orders|
      invariant FirstBeaten(side, orders, o.price) == i + FirstBeaten(side, orders[i..], o.price)
    {
      if Better(side, o.price, orders[i].price) {
        return orders[i := o];
      }
      assert orders[i..][1..] == orders[i + 1..];
      i := i + 1;
    }
    return orders + [o];
  }

  /** The loop that leaves one order out; an order that is no longer live stops it. */
  method Removed(orders: Orders, id: nat) returns (r: Result<(Orders, bool), Error>)
    ensures !Cancellable(orders, id) ==> r == Err(InvalidInput) && Holds(orders, id)
    ensures Cancellable(orders, id) ==> r == Ok((Without(orders, id), Holds(orders, id)))
  {
    var kept, found := [], false;
    for i := 0 to |orders|
      invariant Without(orders, id) == kept + Without(orders[i..], id)
      invariant found == exists k :: 0 <= k < i && orders[k].id == id
      invariant forall k :: 0 <= k < i && orders[k].id == id ==> Live(orders[k])
    {
      assert orders[i..][1..] == orders[i + 1..];
      if orders[i].id == id {
        if orders[i].status != Active && orders[i].status != PartiallyFilled {
          return Err(InvalidInput);
        }
        found := true;
      } else {
        kept := kept + [orders[i]];
      }
    }
    assert kept + [] == kept;
    return Ok((kept, found));
  }

  /** The matching loop over one side. */
  method Eat(orders: Orders, amount: int) returns (r: Result<(Orders, int), Error>)
    ensures TradesFit(orders, amount) ==> r == Ok((Matched(orders, amount), FilledBy(orders, amount)))
    ensures !TradesFit(orders, amount) ==> r == Err(Overflow)
  {
    var kept, total, remaining := [], 0, amount;
    for i := 0 to |orders|
      invariant remaining == amount - total
      invariant Matched(orders, amount) == kept + Matched(orders[i..], remaining)
      invariant FilledBy(orders, amount) == total + FilledBy(orders[i..], remaining)
      invariant TradesFit(orders, amount) == TradesFit(orders[i..], remaining)
    {
      MatchStep(orders, i, remaining, kept);
      var fill := FillOf(orders[i], remaining);
      if fill > 0 {
        if !FitsI64(fill * orders[i].price) {
          return Err(Overflow);
        }
        total, remaining := total + fill, remaining - fill;
      }
      kept := kept + Kept(orders[i], fill);
    }
    assert kept + [] == kept;
    return Ok((kept, total));
  }
}

/** What the book promises: price order under every call, exact fills, and the best total price. */
module OrderBookProofs {
  import opened Outcomes
  import opened Machine
  import opened OrderBook

  // ----- Placing

  /** Overwriting the first order that the new price beats, or appending, keeps the price order. */
  lemma PlacedIsSound(side: Side, orders: Orders, o: Order)
    requires Sound(side, orders) && Resting(o) && !Holds(orders, o.id)
    ensures Sound(side, Placed(side, orders, o))
  {
  }

  /** A placement loses no resting order exactly when its price beats none of them; otherwise the
      best-priced order that it beats is overwritten and leaves the book. */
  lemma PlaceKeepsEveryOrderIff(side: Side, orders: Orders, o: Order)
    requires Sound(side, orders) && !Holds(orders, o.id)
    ensures (forall x :: x in orders ==> x in Placed(side, orders, o))
      <==> (forall i :: 0 <= i < |orders| ==> !Better(side, o.price, orders[i].price))
    ensures var n := FirstBeaten(side, orders, o.price);
      n < |orders| ==>
        && orders[n] !in Placed(side, orders, o)
        && (forall i :: 0 <= i < |orders| && i != n ==> orders[i] in Placed(side, orders, o))
        && (forall i :: 0 <= i < |orders| && Better(side, o.price, orders[i].price)
              ==> !Better(side, orders[i].price, orders[n].price))
  {
    var n := FirstBeaten(side, orders, o.price);
    var placed := Placed(side, orders, o);
    forall i | 0 <= i < |orders| && i != n
      ensures orders[i] in placed
    {
      assert placed[i] == orders[i];
    }
    if n < |orders| {
      forall i | 0 <= i < |placed|
        ensures placed[i] != orders[n]
      {
        assert placed[i].id != orders[n].id;
      }
      assert orders[n] in orders;
    }
  }

  // ----- Cancelling

  /** A cancellation takes out exactly the orders of that id and leaves the rest in their order. */
  lemma {:induction false} WithoutIsExact(orders: Orders, id: nat, x: Order)
    ensures x in Without(orders, id) <==> x in orders && x.id != id
  {
    if orders != [] {
      WithoutIsExact(orders[1..], id, x);
    }
  }

  lemma {:induction false} WithoutIsSound(side: Side, orders: Orders, id: nat)
    requires Sound(side, orders)
    ensures Sound(side, Without(orders, id))
  {
    if orders != [] {
      WithoutIsSound(side, orders[1..], id);
      var rest := Without(orders[1..], id);
      forall i | 0 <= i < |rest|
        ensures !Better(side, rest[i].price, orders[0].price) && rest[i].id != orders[0].id
      {
        WithoutIsExact(orders[1..], id, rest[i]);
        var k :| 0 <= k < |orders[1..]| && orders[1..][k] == rest[i];
        assert orders[k + 1] == rest[i];
      }
      PrependSound(side, orders[0], rest);
    }
  }

  /** A sound side stays sound when an order no worse than all of them goes in front. */
  lemma PrependSound(side: Side, o: Order, rest: Orders)
    requires Sound(side, rest) && Resting(o)
    requires forall i :: 0 <= i < |rest| ==> !Better(side, rest[i].price, o.price) && rest[i].id != o.id
    ensures Sound(side, [o] + rest)
  {
  }

  // ----- Matching

  lemma FillBounds(o: Order, remaining: int)
    requires Resting(o)
    ensures FillOf(o, remaining) == if remaining <= 0 then 0 else Min(remaining, Open(o))
    ensures 0 <= FillOf(o, remaining) <= Open(o)
  {
  }

  /** A market order fills exactly the lesser of what is asked and what is open, and open quantity
      plus fills is conserved. */
  lemma {:induction false} FillsExactly(orders: Orders, remaining: int)
    requires AllResting(orders)
    ensures FilledBy(orders, remaining) == if remaining <= 0 then 0 else Min(remaining, TotalOpen(orders))
    ensures TotalOpen(Matched(orders, remaining)) + FilledBy(orders, remaining) == TotalOpen(orders)
    ensures 0 <= TotalOpen(orders)
  {
    if orders != [] {
      var fill := FillOf(orders[0], remaining);
      assert Resting(orders[0]);
      FillsExactly(orders[1..], remaining - fill);
      OpenAppend(Kept(orders[0], fill), Matched(orders[1..], remaining - fill));
    }
  }

  lemma {:induction false} OpenAppend(x: Orders, y: Orders)
    ensures TotalOpen(x + y) == TotalOpen(x) + TotalOpen(y)
  {
    if x == [] {
      assert x + y == y;
    } else {
      assert (x + y)[1..] == x[1..] + y;
      OpenAppend(x[1..], y);
    }
  }

  /** Nothing is matched once the remainder is spent. */
  lemma {:induction false} SpentMatchesNothing(orders: Orders, remaining: int)
    requires remaining <= 0
    ensures Matched(orders, remaining) == orders && FilledBy(orders, remaining) == 0
    ensures TradesFit(orders, remaining)
  {
    if orders != [] {
      SpentMatchesNothing(orders[1..], remaining);
    }
  }

  /** What a market order leaves: the first n orders gone, at most one more of them reduced, and
      every later order as it was. */
  ghost predicate AtePrefix(orders: Orders, kept: Orders, filled: int, n: nat, part: int) {
    && n <= |orders|
    && filled == TotalOpen(orders[..n]) + part
    && (if part == 0 then kept == orders[n..]
        else
          && n < |orders| && 0 < part < Open(orders[n])
          && kept == [orders[n].(filled := orders[n].filled + part, status := PartiallyFilled)] + orders[n + 1..])
  }

  /** None of the trades with such a prefix overflows. */
  ghost predicate PrefixFits(orders: Orders, n: nat, part: int)
    requires n <= |orders| && (part != 0 ==> n < |orders|)
  {
    && (forall i :: 0 <= i < n ==> FitsI64((orders[i].wanted - orders[i].filled) * orders[i].price))
    && (part != 0 ==> FitsI64(part * orders[n].price))
  }

  lemma PrefixFitsFurther(orders: Orders, n: nat, part: int)
    requires n < |orders| && (part != 0 ==> n + 1 < |orders|)
    ensures PrefixFits(orders, n + 1, part)
      <==> FitsI64(Open(orders[0]) * orders[0].price) && PrefixFits(orders[1..], n, part)
  {
    if PrefixFits(orders, n + 1, part) {
      forall i | 0 <= i < n
        ensures FitsI64((orders[1..][i].wanted - orders[1..][i].filled) * orders[1..][i].price)
      {
        assert orders[1..][i] == orders[i + 1];
      }
    }
  }

  lemma {:induction false} EatsAPrefix(orders: Orders, remaining: int) returns (n: nat, part: int)
    requires AllResting(orders)
    ensures AtePrefix(orders, Matched(orders, remaining), FilledBy(orders, remaining), n, part)
    ensures TradesFit(orders, remaining) <==> PrefixFits(orders, n, part)
  {
    if remaining <= 0 {
      SpentMatchesNothing(orders, remaining);
    }
    if orders == [] || remaining <= 0 {
      n, part := 0, 0;
      assert orders[..0] == [] && orders[0..] == orders;
    } else if remaining < Open(orders[0]) {
      n, part := 0, remaining;
      assert Resting(orders[0]);
      SpentMatchesNothing(orders[1..], 0);
      assert orders[..0] == [];
    } else {
      assert Resting(orders[0]);
      var fill := Open(orders[0]);
      assert FillOf(orders[0], remaining) == fill;
      n, part := EatsAPrefix(orders[1..], remaining - fill);
      PrefixGrows(orders, n);
      PrefixFitsFurther(orders, n, part);
      assert Kept(orders[0], fill) == [];
      n := n + 1;
    }
  }

  lemma PrefixGrows(orders: Orders, n: nat)
    requires n < |orders|
    ensures TotalOpen(orders[..n + 1]) == Open(orders[0]) + TotalOpen(orders[1..][..n])
    ensures orders[1..][n..] == orders[n + 1..]
    ensures n + 1 < |orders| ==> orders[1..][n + 1..] == orders[n + 2..]
  {
    assert orders[1..][..n] == orders[..n + 1][1..];
  }

  /** A match leaves a sound side sound. */
  lemma MatchedIsSound(side: Side, orders: Orders, remaining: int)
    requires Sound(side, orders)
    ensures Sound(side, Matched(orders, remaining))
    ensures forall x :: x in Matched(orders, remaining) ==> Holds(orders, x.id)
  {
    var n, part := EatsAPrefix(orders, remaining);
    var kept := Matched(orders, remaining);
    forall i | 0 <= i < |kept|
      ensures kept[i].id == orders[i + n].id && kept[i].price == orders[i + n].price && Resting(kept[i])
    {
      assert Resting(orders[i + n]);
    }
  }

  // ----- The total price

  /** A way of taking quantity from a side: so much of each order, never more than is open. */
  ghost predicate Feasible(orders: Orders, take: seq<int>) {
    |take| == |orders| && forall i :: 0 <= i < |orders| ==> 0 <= take[i] <= Open(orders[i])
  }

  function Quantity(take: seq<int>): int {
    if take == [] then 0 else take[0] + Quantity(take[1..])
  }

  /** The sum of amount times price. */
  function TotalPrice(orders: Orders, take: seq<int>): int
    requires |take| == |orders|
  {
    if orders == [] then 0 else take[0] * orders[0].price + TotalPrice(orders[1..], take[1..])
  }

  /** What the matching loop takes from each order. */
  function Greedy(orders: Orders, remaining: int): (take: seq<int>)
    ensures |take| == |orders|
  {
    if orders == [] then []
    else
      var fill := FillOf(orders[0], remaining);
      [fill] + Greedy(orders[1..], remaining - fill)
  }

  lemma {:induction false} GreedyIsFeasible(orders: Orders, remaining: int)
    requires AllResting(orders)
    ensures Feasible(orders, Greedy(orders, remaining))
    ensures Quantity(Greedy(orders, remaining)) == FilledBy(orders, remaining)
  {
    if orders != [] {
      var fill := FillOf(orders[0], remaining);
      FillBounds(orders[0], remaining);
      GreedyIsFeasible(orders[1..], remaining - fill);
      FirstFeasible(orders, fill, Greedy(orders[1..], remaining - fill));
    }
  }

  lemma FirstFeasible(orders: Orders, first: int, rest: seq<int>)
    requires orders != [] && 0 <= first <= Open(orders[0]) && Feasible(orders[1..], rest)
    ensures Feasible(orders, [first] + rest) && Quantity([first] + rest) == first + Quantity(rest)
  {
    assert ([first] + rest)[1..] == rest;
    forall i | 1 <= i < |orders|
      ensures 0 <= ([first] + rest)[i] <= Open(orders[i])
    {
      assert orders[1..][i - 1] == orders[i];
    }
  }

  /** The cost of a total to the taker: what a buyer pays, or what a seller fails to receive. */
  function Cost(side: Side, price: int): int {
    match side
    case Asks => price
    case Bids => -price
  }

  function GreedyCost(side: Side, orders: Orders, q: int): int {
    Cost(side, TotalPrice(orders, Greedy(orders, q)))
  }

  /** Asking the book for e more costs at least e times the best price on it. */
  lemma {:induction false} MarginalPrice(side: Side, orders: Orders, q: int, e: int, best: int)
    requires Sound(side, orders) && 0 <= q && 0 <= e && q + e <= TotalOpen(orders)
    requires forall i :: 0 <= i < |orders| ==> best <= Cost(side, orders[i].price)
    ensures GreedyCost(side, orders, q) + e * best <= GreedyCost(side, orders, q + e)
  {
    if orders != [] {
      var f0, f1 := FillOf(orders[0], q), FillOf(orders[0], q + e);
      FillBounds(orders[0], q);
      FillBounds(orders[0], q + e);
      FillsExactly(orders[1..], 0);
      MarginalPrice(side, orders[1..], q - f0, e - (f1 - f0), best);
      CostOfFirst(side, orders, q);
      CostOfFirst(side, orders, q + e);
      Exchange(f0, f1, e, best, Cost(side, orders[0].price),
               GreedyCost(side, orders[1..], q - f0), GreedyCost(side, orders[1..], q + e - f1));
    }
  }

  /** Filling f1 instead of f0 at a price no better than best, and the rest of e elsewhere. */
  lemma Exchange(f0: int, f1: int, e: int, best: int, price: int, rest0: int, rest1: int)
    requires f0 <= f1 && best <= price && rest0 + (e - (f1 - f0)) * best <= rest1
    ensures f0 * price + rest0 + e * best <= f1 * price + rest1
  {
    assert (f1 - f0) * best <= (f1 - f0) * price;
    assert f1 * price == f0 * price + (f1 - f0) * price;
    assert e * best == (f1 - f0) * best + (e - (f1 - f0)) * best;
  }

  lemma CostOfFirst(side: Side, orders: Orders, q: int)
    requires orders != []
    ensures var fill := FillOf(orders[0], q);
      GreedyCost(side, orders, q)
        == fill * Cost(side, orders[0].price) + GreedyCost(side, orders[1..], q - fill)
  {
    var fill := FillOf(orders[0], q);
    assert Greedy(orders, q)[1..] == Greedy(orders[1..], q - fill);
    CostIsLinear(side, fill, orders[0].price);
  }

  lemma CostIsLinear(side: Side, amount: int, price: int)
    ensures Cost(side, amount * price) == amount * Cost(side, price)
    ensures forall rest :: Cost(side, amount * price + rest) == Cost(side, amount * price) + Cost(side, rest)
  {
    assert amount * -price == -(amount * price);
  }

  /** Price priority is optimal: of all ways to take the same quantity from the side, the one the
      loop takes has the lowest total for a buyer and the highest total for a seller. */
  lemma {:induction false} GreedyIsOptimal(side: Side, orders: Orders, take: seq<int>)
    requires Sound(side, orders) && Feasible(orders, take)
    ensures 0 <= Quantity(take) <= TotalOpen(orders)
    ensures GreedyCost(side, orders, Quantity(take)) <= Cost(side, TotalPrice(orders, take))
  {
    if orders != [] {
      RestFeasible(orders, take);
      TailIsSound(side, orders);
      GreedyIsOptimal(side, orders[1..], take[1..]);
      FillTheBestFirst(side, orders, Quantity(take), take[0]);
      CostIsLinear(side, take[0], orders[0].price);
    }
  }

  /** Taking less of the best order than the loop does and the rest greedily costs no less. */
  lemma FillTheBestFirst(side: Side, orders: Orders, q: int, taken: int)
    requires Sound(side, orders) && orders != []
    requires 0 <= taken <= Open(orders[0]) && 0 <= q - taken <= TotalOpen(orders[1..])
    ensures GreedyCost(side, orders, q)
      <= taken * Cost(side, orders[0].price) + GreedyCost(side, orders[1..], q - taken)
  {
    var price, fill := Cost(side, orders[0].price), FillOf(orders[0], q);
    TailIsSound(side, orders);
    FillBounds(orders[0], q);
    FillsExactly(orders[1..], 0);
    MarginalPrice(side, orders[1..], q - fill, fill - taken, price);
    CostOfFirst(side, orders, q);
    MoreOfTheFirst(fill, taken, price, GreedyCost(side, orders[1..], q - fill),
                   GreedyCost(side, orders[1..], q - taken));
  }

  lemma TailIsSound(side: Side, orders: Orders)
    requires Sound(side, orders) && orders != []
    ensures Sound(side, orders[1..])
    ensures forall i :: 0 <= i < |orders[1..]| ==>
      Cost(side, orders[0].price) <= Cost(side, orders[1..][i].price)
  {
  }

  lemma RestFeasible(orders: Orders, take: seq<int>)
    requires orders != [] && Feasible(orders, take)
    ensures Feasible(orders[1..], take[1..]) && 0 <= take[0] <= Open(orders[0])
  {
  }

  lemma MoreOfTheFirst(fill: int, taken: int, price: int, rest0: int, rest1: int)
    requires rest0 + (fill - taken) * price <= rest1
    ensures fill * price + rest0 <= taken * price + rest1
  {
    assert fill * price == taken * price + (fill - taken) * price;
  }

  // ----- The market order as a whole

  /** The book side after taking so much of each order. */
  function AfterTaking(orders: Orders, take: seq<int>): Orders
    requires |take| == |orders|
  {
    if orders == [] then [] else Kept(orders[0], take[0]) + AfterTaking(orders[1..], take[1..])
  }

  lemma {:induction false} MatchedTakesGreedily(orders: Orders, remaining: int)
    ensures Matched(orders, remaining) == AfterTaking(orders, Greedy(orders, remaining))
  {
    if orders != [] {
      var fill := FillOf(orders[0], remaining);
      MatchedTakesGreedily(orders[1..], remaining - fill);
      assert Greedy(orders, remaining)[1..] == Greedy(orders[1..], remaining - fill);
    }
  }

  /** Asking for more than is open takes what is open. */
  lemma {:induction false} GreedyUpToOpen(orders: Orders, amount: int)
    requires AllResting(orders) && TotalOpen(orders) <= amount
    ensures Greedy(orders, amount) == Greedy(orders, TotalOpen(orders))
  {
    if orders != [] {
      FillBounds(orders[0], amount);
      FillsExactly(orders[1..], 0);
      GreedyUpToOpen(orders[1..], amount - Open(orders[0]));
      assert FillOf(orders[0], TotalOpen(orders)) == Open(orders[0]) == FillOf(orders[0], amount);
    }
  }

  /** A market order that goes through fills min(amount, total open), eats a prefix of its side
      with at most one partial fill, leaves the other side alone, and no other way of taking that
      quantity has a better total price for the taker. */
  lemma MarketOrderIsExactAndBest(b: Stored, eaten: Side, amount: nat, minOut: int, take: seq<int>)
    returns (n: nat, part: int)
    requires Valid(b) && Execute(b, eaten, amount, minOut, false).Ok?
    ensures var after, orders := Execute(b, eaten, amount, minOut, false).value, Book(b, eaten);
      var filled := FilledBy(orders, amount);
      && filled == Min(amount, TotalOpen(orders)) >= minOut
      && TotalOpen(Book(after, eaten)) == TotalOpen(orders) - filled
      && AtePrefix(orders, Book(after, eaten), filled, n, part)
      && (if eaten == Bids then after.asks == b.asks else after.bids == b.bids)
      && (Feasible(orders, take) && Quantity(take) == filled ==>
            GreedyCost(eaten, orders, amount) <= Cost(eaten, TotalPrice(orders, take)))
  {
    var orders := Book(b, eaten);
    FillsExactly(orders, amount);
    n, part := EatsAPrefix(orders, amount);
    if TotalOpen(orders) <= amount {
      GreedyUpToOpen(orders, amount);
    }
    if Feasible(orders, take) {
      GreedyIsOptimal(eaten, orders, take);
    }
  }

  // ----- Totals rounded trade by trade

  /** Prices are scaled by this number. */
  const PRICE_SCALE := 1_000_000

  /** The sum of amount times price over the scale, rounded down trade by trade as the contract does. */
  function FlooredTotal(orders: Orders, take: seq<int>): int
    requires |take| == |orders|
  {
    if orders == [] then 0 else take[0] * orders[0].price / PRICE_SCALE + FlooredTotal(orders[1..], take[1..])
  }

  lemma {:induction false} FlooredBounds(orders: Orders, take: seq<int>)
    requires |take| == |orders|
    ensures 0 <= TotalPrice(orders, take) - FlooredTotal(orders, take) * PRICE_SCALE <= |orders| * (PRICE_SCALE - 1)
    decreases |orders|
  {
    if orders != [] {
      FlooredBounds(orders[1..], take[1..]);
      var n := take[0] * orders[0].price;
      assert n == n / PRICE_SCALE * PRICE_SCALE + n % PRICE_SCALE;
    }
  }

  /** Even with every trade rounded down, what the loop takes is within one unit per order of any other
      way of taking the same quantity: it costs a buyer at most that much more and brings a seller
      at most that much less. */
  lemma FlooredGreedyIsBest(side: Side, orders: Orders, take: seq<int>)
    requires Sound(side, orders) && Feasible(orders, take)
    ensures Cost(side, FlooredTotal(orders, Greedy(orders, Quantity(take))))
      <= Cost(side, FlooredTotal(orders, take)) + |orders|
  {
    GreedyIsOptimal(side, orders, take);
    FlooredBounds(orders, take);
    FlooredBounds(orders, Greedy(orders, Quantity(take)));
  }

  // ----- The three calls on one book

  lemma PlaceKeepsValid(b: Stored, side: Side, price: int, amount: int, late: bool)
    requires Valid(b) && Place(b, side, price, amount, late).Ok?
    ensures Valid(Place(b, side, price, amount, late).value)
  {
    var o := Order(b.nextId, price, amount, 0, Active);
    forall i | 0 <= i < |Book(b, side)|
      ensures Book(b, side)[i].id < o.id
    {
      assert Book(b, side)[i] in Book(b, side);
    }
    PlacedIsSound(side, Book(b, side), o);
    forall x | x in Placed(side, Book(b, side), o)
      ensures x == o || x in Book(b, side)
    {
    }
  }

  lemma CancelKeepsValid(b: Stored, id: nat)
    requires Valid(b) && Cancel(b, id).Ok?
    ensures Valid(Cancel(b, id).value)
    ensures !Holds(Without(b.bids, id), id) && !Holds(Without(b.asks, id), id)
  {
    WithoutIsSound(Bids, b.bids, id);
    WithoutIsSound(Asks, b.asks, id);
    forall x: Order
      ensures x in Without(b.bids, id) <==> x in b.bids && x.id != id
      ensures x in Without(b.asks, id) <==> x in b.asks && x.id != id
    {
      WithoutIsExact(b.bids, id, x);
      WithoutIsExact(b.asks, id, x);
    }
    forall i, j | 0 <= i < |Without(b.bids, id)| && 0 <= j < |Without(b.asks, id)|
      ensures Without(b.bids, id)[i].id != Without(b.asks, id)[j].id
    {
      assert Without(b.bids, id)[i] in b.bids && Without(b.asks, id)[j] in b.asks;
    }
  }

  lemma ExecuteKeepsValid(b: Stored, eaten: Side, amount: int, minOut: int, late: bool)
    requires Valid(b) && Execute(b, eaten, amount, minOut, late).Ok?
    ensures Valid(Execute(b, eaten, amount, minOut, late).value)
  {
    var orders := Book(b, eaten);
    MatchedIsSound(eaten, orders, amount);
    var kept := Matched(orders, amount);
    forall i | 0 <= i < |kept|
      ensures exists k :: 0 <= k < |orders| && orders[k].id == kept[i].id
    {
      assert kept[i] in kept;
    }
    forall x | x in kept
      ensures x.id < b.nextId
    {
      var k :| 0 <= k < |orders| && orders[k].id == x.id;
      assert orders[k] in orders;
    }
  }
}
