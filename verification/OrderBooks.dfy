/** The books of all pools in one storage, as the limit-order contract keeps them. */
module OrderBooks {
  import opened Outcomes
  import opened OrderBook

  datatype Sides = Sides(bids: Orders, asks: Orders)

  datatype Books = Books(books: map<nat, Sides>, nextId: nat)

  /** The book of one pool; a pool without one has an empty book. */
  function At(b: Books, pool: nat): Stored {
    if pool in b.books then Stored(b.books[pool].bids, b.books[pool].asks, b.nextId) else Stored([], [], b.nextId)
  }

  function With(b: Books, pool: nat, s: Stored): Books {
    Books(b.books[pool := Sides(s.bids, s.asks)], s.nextId)
  }

  function PlaceIn(b: Books, pool: nat, side: Side, price: int, amount: int, late: bool): Result<Books, Error> {
    var s :- Place(At(b, pool), side, price, amount, late);
    Ok(With(b, pool, s))
  }

  ghost predicate HoldsIn(b: Books, pool: nat, id: nat) {
    pool in b.books && (Holds(b.books[pool].bids, id) || Holds(b.books[pool].asks, id))
  }

  /** The first pool, by number, whose book holds the order. */
  ghost predicate FirstWith(b: Books, pool: nat, id: nat) {
    HoldsIn(b, pool, id) && forall other: nat :: HoldsIn(b, other, id) ==> pool <= other
  }

  ghost function CancelIn(b: Books, id: nat): Result<Books, Error> {
    if pool: nat :| FirstWith(b, pool, id) then
      var s :- Cancel(At(b, pool), id);
      Ok(With(b, pool, s))
    else Err(NotFound)
  }

  function ExecuteIn(b: Books, pool: nat, eaten: Side, amount: int, minOut: int, late: bool): Result<Books, Error> {
    if late then Err(DeadlinePassed)
    else if pool !in b.books then Err(NotFound)
    else
      var s :- Execute(At(b, pool), eaten, amount, minOut, late);
      Ok(With(b, pool, s))
  }

  lemma LeastOf(pools: set<nat>) returns (first: nat)
    requires pools != {}
    ensures first in pools && forall other :: other in pools ==> first <= other
  {
    first :| first in pools;
    if pools != {first} {
      var least := LeastOf(pools - {first});
      assert forall other :: other in pools ==> other == first || other in pools - {first};
      if least < first {
        first := least;
      }
    }
  }

  lemma FirstIsChosen(b: Books, pool: nat, id: nat)
    requires FirstWith(b, pool, id)
    ensures var s := Cancel(At(b, pool), id);
      CancelIn(b, id) == if s.Ok? then Ok(With(b, pool, s.value)) else Err(s.error)
  {
    forall other: nat | FirstWith(b, other, id)
      ensures other == pool
    {
    }
  }

  class LimitOrders {
    var orderBooks: map<nat, Sides>
    var nextOrderId: nat

    constructor ()
      ensures Stored() == Books(map[], 0)
    {
      orderBooks, nextOrderId := map[], 0;
    }

    function Stored(): Books
      reads this
    {
      Books(orderBooks, nextOrderId)
    }

    method PlaceOrder(pool: nat, side: Side, price: int, amount: int, now: nat, deadline: nat)
      returns (r: Result<nat, Error>)
      modifies this
      ensures Ends(old(Stored()), PlaceIn(old(Stored()), pool, side, price, amount, now > deadline > 0), r, Stored())
      ensures r.Ok? ==> r.value == old(nextOrderId)
    {
      if now > deadline && deadline > 0 {
        return Err(DeadlinePassed);
      }
      if amount <= 0 || price <= 0 {
        return Err(InvalidInput);
      }
      var book := if pool in orderBooks then orderBooks[pool] else Sides([], []);
      var id := nextOrderId;
      nextOrderId := id + 1;
      var o := Order(id, price, amount, 0, Active);
      match side {
        case Bids =>
          var bids := Inserted(Bids, book.bids, o);
          book := book.(bids := bids);
        case Asks =>
          var asks := Inserted(Asks, book.asks, o);
          book := book.(asks := asks);
      }
      orderBooks := orderBooks[pool := book];
      return Ok(id);
    }

    /** The books are searched in the order of their pools, up to the first that holds the order. */
    method CancelOrder(id: nat) returns (r: Result<(), Error>)
      modifies this`orderBooks
      ensures Ends(old(Stored()), CancelIn(old(Stored()), id), r, Stored())
    {
      var left := orderBooks.Keys;
      while left != {}
        invariant left <= orderBooks.Keys && Stored() == old(Stored())
        invariant forall pool: nat :: HoldsIn(Stored(), pool, id) ==> pool in left
        decreases |left|
      {
        ghost var first := LeastOf(left);
        var pool :| pool in left && forall other :: other in left ==> pool <= other;
        if HoldsIn(Stored(), pool, id) {
          FirstIsChosen(Stored(), pool, id);
        }
        var book := orderBooks[pool];
        var bids :- Removed(book.bids, id);
        var asks :- Removed(book.asks, id);
        if bids.1 || asks.1 {
          orderBooks := orderBooks[pool := Sides(bids.0, asks.0)];
          return Ok(());
        }
        left := left - {pool};
      }
      return Err(NotFound);
    }

    method ExecuteMarketOrder(pool: nat, eaten: Side, amount: int, minOut: int, now: nat, deadline: nat)
      returns (r: Result<int, Error>)
      modifies this`orderBooks
      ensures Ends(old(Stored()), ExecuteIn(old(Stored()), pool, eaten, amount, minOut, now > deadline > 0), r,
                   Stored())
      ensures r.Ok? ==> r.value == FilledBy(Book(At(old(Stored()), pool), eaten), amount)
    {
      if now > deadline && deadline > 0 {
        return Err(DeadlinePassed);
      }
      if pool !in orderBooks {
        return Err(NotFound);
      }
      var book := orderBooks[pool];
      var eating := if eaten == Bids then book.bids else book.asks;
      var matching :- Eat(eating, amount);
      var (kept, total) := matching;
      if total < minOut {
        return Err(InsufficientFunds);
      }
      match eaten {
        case Bids =>
          orderBooks := orderBooks[pool := book.(bids := kept)];
        case Asks =>
          orderBooks := orderBooks[pool := book.(asks := kept)];
      }
      return Ok(total);
    }
  }

  // ----- Every run

  datatype Call =
    | PlaceCall(pool: nat, side: Side, price: int, amount: int, late: bool)
    | CancelCall(id: nat)
    | ExecuteCall(pool: nat, eaten: Side, amount: int, minOut: int, late: bool)

  ghost function Apply(b: Books, call: Call): Result<Books, Error> {
    match call
    case PlaceCall(pool, side, price, amount, late) => PlaceIn(b, pool, side, price, amount, late)
    case CancelCall(id) => CancelIn(b, id)
    case ExecuteCall(pool, eaten, amount, minOut, late) => ExecuteIn(b, pool, eaten, amount, minOut, late)
  }

  /** The books after a list of calls; a call that fails changes nothing. */
  ghost function After(calls: seq<Call>): Books
    decreases |calls|
  {
    if calls == [] then Books(map[], 0)
    else
      var before := After(calls[..|calls| - 1]);
      var next := Apply(before, calls[|calls| - 1]);
      if next.Ok? then next.value else before
  }
}

/** What every run of the contract keeps, over all pools. */
module OrderBooksProofs {
  import opened Outcomes
  import opened OrderBook
  import opened OrderBookProofs
  import opened OrderBooks

  /** An order is in the book of one pool only. */
  ghost predicate Apart(b: Books) {
    forall p: nat, q: nat, id: nat :: HoldsIn(b, p, id) && HoldsIn(b, q, id) ==> p == q
  }

  ghost predicate AllValid(b: Books) {
    && (forall pool: nat {:trigger At(b, pool)} :: pool in b.books ==> Valid(At(b, pool)))
    && Apart(b)
  }

  ghost predicate HeldAt(s: Stored, id: nat) {
    Holds(s.bids, id) || Holds(s.asks, id)
  }

  /** A book is stored that holds only orders that it held before, or new ones. */
  lemma BookStored(b: Books, pool: nat, s: Stored)
    requires AllValid(b) && Valid(s) && b.nextId <= s.nextId
    requires forall id: nat :: HeldAt(s, id) ==> HeldAt(At(b, pool), id) || b.nextId <= id
    ensures AllValid(With(b, pool, s))
  {
    var e := With(b, pool, s);
    forall other: nat | other in e.books
      ensures Valid(At(e, other))
    {
      if other == pool {
        assert At(e, pool) == s;
      } else {
        LaterId(At(b, other), s.nextId);
      }
    }
    forall p: nat, id: nat | HoldsIn(e, p, id)
      ensures if p == pool then HeldAt(s, id) else HoldsIn(b, p, id) && id < b.nextId
    {
      if p != pool {
        IdsBelow(At(b, p), id);
      }
    }
    forall p: nat, q: nat, id: nat | HoldsIn(e, p, id) && HoldsIn(e, q, id)
      ensures p == q
    {
      if p != q && pool in b.books && HeldAt(At(b, pool), id) {
        assert HoldsIn(b, pool, id);
      }
    }
  }

  lemma LaterId(s: Stored, nextId: nat)
    requires Valid(s) && s.nextId <= nextId
    ensures Valid(s.(nextId := nextId))
  {
  }

  lemma IdsBelow(s: Stored, id: nat)
    requires Valid(s) && HeldAt(s, id)
    ensures id < s.nextId
  {
    if Holds(s.bids, id) {
      var i :| 0 <= i < |s.bids| && s.bids[i].id == id;
      assert s.bids[i] in s.bids;
    } else {
      var i :| 0 <= i < |s.asks| && s.asks[i].id == id;
      assert s.asks[i] in s.asks;
    }
  }

  lemma EmptyBook(nextId: nat)
    ensures Valid(Stored([], [], nextId))
  {
  }

  lemma PlaceAddsOne(s: Stored, side: Side, price: int, amount: int, late: bool)
    requires Place(s, side, price, amount, late).Ok?
    ensures var t := Place(s, side, price, amount, late).value;
      && t.nextId == s.nextId + 1
      && forall id: nat :: HeldAt(t, id) ==> HeldAt(s, id) || id == s.nextId
  {
    var t := Place(s, side, price, amount, late).value;
    var before, after := Book(s, side), Book(t, side);
    forall id: nat | Holds(after, id)
      ensures Holds(before, id) || id == s.nextId
    {
      var i :| 0 <= i < |after| && after[i].id == id;
      assert (i < |before| && after[i] == before[i]) || after[i].id == s.nextId;
    }
  }

  lemma PlaceInKeepsValid(b: Books, pool: nat, side: Side, price: int, amount: int, late: bool)
    requires AllValid(b) && PlaceIn(b, pool, side, price, amount, late).Ok?
    ensures AllValid(PlaceIn(b, pool, side, price, amount, late).value)
  {
    var s := At(b, pool);
    if pool !in b.books {
      EmptyBook(b.nextId);
    }
    assert Valid(s);
    PlaceKeepsValid(s, side, price, amount, late);
    PlaceAddsOne(s, side, price, amount, late);
    BookStored(b, pool, Place(s, side, price, amount, late).value);
  }

  lemma CancelKeepsHeld(s: Stored, id: nat)
    requires Cancel(s, id).Ok?
    ensures var t := Cancel(s, id).value;
      && t.nextId == s.nextId && !HeldAt(t, id)
      && forall other: nat :: HeldAt(t, other) ==> HeldAt(s, other)
  {
    SomeLeft(s.bids, id);
    SomeLeft(s.asks, id);
  }

  lemma SomeLeft(orders: Orders, id: nat)
    ensures !Holds(Without(orders, id), id)
    ensures forall other: nat :: Holds(Without(orders, id), other) ==> Holds(orders, other)
  {
    var kept := Without(orders, id);
    forall i | 0 <= i < |kept|
      ensures kept[i].id != id && Holds(orders, kept[i].id)
    {
      WithoutIsExact(orders, id, kept[i]);
      assert kept[i] in orders;
    }
  }

  /** A cancelled order is in no book any more, and every other order is where it was. */
  lemma CancelInIsExact(b: Books, id: nat)
    requires AllValid(b) && CancelIn(b, id).Ok?
    ensures var e := CancelIn(b, id).value;
      && AllValid(e) && e.books.Keys == b.books.Keys && e.nextId == b.nextId
      && (forall pool: nat, x: Order :: pool in b.books ==>
            && (x in e.books[pool].bids <==> x in b.books[pool].bids && x.id != id)
            && (x in e.books[pool].asks <==> x in b.books[pool].asks && x.id != id))
      && (forall pool: nat :: !HoldsIn(e, pool, id))
      && (forall pool: nat :: pool in b.books && !HoldsIn(b, pool, id) ==> e.books[pool] == b.books[pool])
  {
    var pool: nat :| FirstWith(b, pool, id) && CancelIn(b, id) == Ok(With(b, pool, Cancel(At(b, pool), id).value));
    assert Valid(At(b, pool));
    CancelKeepsValid(At(b, pool), id);
    CancelKeepsHeld(At(b, pool), id);
    BookStored(b, pool, Cancel(At(b, pool), id).value);
    assert HoldsIn(b, pool, id);
    forall other: nat
      ensures !HoldsIn(CancelIn(b, id).value, other, id)
    {
      assert other != pool ==> !HoldsIn(b, other, id);
    }
    forall p: nat, x: Order | p in b.books
      ensures var e := CancelIn(b, id).value;
        && (x in e.books[p].bids <==> x in b.books[p].bids && x.id != id)
        && (x in e.books[p].asks <==> x in b.books[p].asks && x.id != id)
    {
      WithoutIsExact(b.books[p].bids, id, x);
      WithoutIsExact(b.books[p].asks, id, x);
      assert p != pool ==> !HoldsIn(b, p, id);
    }
  }

  /** An order can be cancelled exactly when some book holds it. */
  lemma CancelSucceedsIff(b: Books, id: nat)
    requires AllValid(b)
    ensures CancelIn(b, id).Ok? <==> exists pool: nat :: HoldsIn(b, pool, id)
  {
    if held: nat :| HoldsIn(b, held, id) {
      var holders := set p | p in b.books && HoldsIn(b, p, id);
      assert held in holders;
      var pool := LeastOf(holders);
      assert FirstWith(b, pool, id);
      assert Valid(At(b, held));
      forall q: nat | FirstWith(b, q, id)
        ensures q == held && Cancel(At(b, q), id).Ok?
      {
        assert HoldsIn(b, q, id);
        AllCancellable(At(b, held), id);
      }
    }
  }

  lemma AllCancellable(s: Stored, id: nat)
    requires Valid(s)
    ensures Cancellable(s.bids, id) && Cancellable(s.asks, id)
  {
  }

  lemma ExecuteKeepsHeld(s: Stored, eaten: Side, amount: int, minOut: int)
    requires Valid(s) && Execute(s, eaten, amount, minOut, false).Ok?
    ensures var t := Execute(s, eaten, amount, minOut, false).value;
      t.nextId == s.nextId && forall id: nat :: HeldAt(t, id) ==> HeldAt(s, id)
  {
    var before, after := Book(s, eaten), Matched(Book(s, eaten), amount);
    MatchedIsSound(eaten, before, amount);
    forall id: nat | Holds(after, id)
      ensures Holds(before, id)
    {
      var i :| 0 <= i < |after| && after[i].id == id;
      assert after[i] in after;
    }
  }

  lemma ExecuteInKeepsValid(b: Books, pool: nat, eaten: Side, amount: int, minOut: int, late: bool)
    requires AllValid(b) && ExecuteIn(b, pool, eaten, amount, minOut, late).Ok?
    ensures AllValid(ExecuteIn(b, pool, eaten, amount, minOut, late).value)
  {
    var s := At(b, pool);
    assert Valid(s);
    ExecuteKeepsValid(s, eaten, amount, minOut, false);
    ExecuteKeepsHeld(s, eaten, amount, minOut);
    BookStored(b, pool, Execute(s, eaten, amount, minOut, false).value);
  }

  /** In every reachable storage, in the book of every pool, both sides are in price order, every
      order is live with a positive price and 0 <= filled < wanted, and no id occurs twice, not
      even in the books of different pools. */
  lemma {:induction false} ReachableBooksAreValid(calls: seq<Call>)
    ensures AllValid(After(calls))
    decreases |calls|
  {
    if calls != [] {
      var n := |calls| - 1;
      ReachableBooksAreValid(calls[..n]);
      var before := After(calls[..n]);
      if Apply(before, calls[n]).Ok? {
        match calls[n]
        case PlaceCall(pool, side, price, amount, late) => PlaceInKeepsValid(before, pool, side, price, amount, late);
        case CancelCall(id) => CancelInIsExact(before, id);
        case ExecuteCall(pool, eaten, amount, minOut, late) =>
          ExecuteInKeepsValid(before, pool, eaten, amount, minOut, late);
      }
    }
  }

  // ----- A lost order

  /** A run from the empty storage in which a higher bid takes the place of a lower one, which is gone. */
  lemma HigherBidErasesLower()
    ensures var calls := [PlaceCall(0, Bids, 10, 5, false), PlaceCall(0, Bids, 11, 1, false)];
      After(calls) == Books(map[0 := Sides([Order(1, 11, 1, 0, Active)], [])], 2)
  {
    var low, high := PlaceCall(0, Bids, 10, 5, false), PlaceCall(0, Bids, 11, 1, false);
    var calls := [low, high];
    assert calls[..1] == [low] && [low][..0] == [];
    var first, second := Order(0, 10, 5, 0, Active), Order(1, 11, 1, 0, Active);
    assert Placed(Bids, [], first) == [first] && Placed(Bids, [first], second) == [second];
    var none, some := Books(map[], 0), Books(map[0 := Sides([first], [])], 1);
    assert Place(At(none, 0), Bids, 10, 5, false) == Ok(Stored([first], [], 1));
    assert PlaceIn(none, 0, Bids, 10, 5, false) == Ok(some);
    assert At(some, 0) == Stored([first], [], 1);
    assert Place(At(some, 0), Bids, 11, 1, false) == Ok(Stored([second], [], 2));
    assert With(some, 0, Stored([second], [], 2)).books == map[0 := Sides([second], [])];
    assert PlaceIn(some, 0, Bids, 11, 1, false) == Ok(Books(map[0 := Sides([second], [])], 2));
    assert After([]) == none;
    assert After([low]) == Apply(After([]), low).value;
    assert After(calls) == Apply(After([low]), high).value;
  }
}

/** When placing and executing succeed and all that they change. */
module OrderEffects {
  import opened Outcomes
  import opened Machine
  import opened OrderBook
  import opened OrderBookProofs
  import opened OrderBooks
  import opened OrderBooksProofs

  /** The orders on one side of a pool's book. */
  function OrdersOf(b: Books, pool: nat, side: Side): Orders {
    if pool !in b.books then [] else if side == Bids then b.books[pool].bids else b.books[pool].asks
  }

  /** Only one side of one book changed. */
  ghost predicate OnlySide(b: Books, e: Books, pool: nat, side: Side) {
    && pool in e.books && e.books.Keys == b.books.Keys + {pool}
    && forall p: nat, other: Side :: p != pool || other != side ==> OrdersOf(e, p, other) == OrdersOf(b, p, other)
  }

  /** In time and with a positive price and amount an order is always taken. It gets the next number and
      is stored, unfilled and active, behind all that its price does not beat and in the place of the first
      that it beats; nothing else changes. */
  lemma PlaceExactly(b: Books, pool: nat, side: Side, price: int, amount: int, late: bool) returns (n: nat)
    ensures PlaceIn(b, pool, side, price, amount, late).Ok? <==> !late && 0 < price && 0 < amount
    ensures PlaceIn(b, pool, side, price, amount, late).Ok? ==>
      var e, orders := PlaceIn(b, pool, side, price, amount, late).value, OrdersOf(b, pool, side);
      && e.nextId == b.nextId + 1 && OnlySide(b, e, pool, side)
      && n <= |orders|
      && (forall i :: 0 <= i < n ==> if side == Bids then price <= orders[i].price else orders[i].price <= price)
      && (n < |orders| ==> if side == Bids then orders[n].price < price else price < orders[n].price)
      && OrdersOf(e, pool, side) == orders[..n] + [Order(b.nextId, price, amount, 0, Active)]
           + if n < |orders| then orders[n + 1..] else []
  {
    n := FirstBeaten(side, OrdersOf(b, pool, side), price);
  }

  /** How far an amount goes on a side: it takes all of the first n orders and so much of the next. */
  ghost predicate Reaches(orders: Orders, amount: int, n: nat, part: int) {
    && n <= |orders| && 0 <= part && (part != 0 ==> n < |orders| && part < orders[n].wanted - orders[n].filled)
    && TotalOpen(orders[..n]) + part == if amount <= 0 then 0 else Min(amount, TotalOpen(orders))
  }

  lemma MarketOrderReaches(b: Books, pool: nat, eaten: Side, amount: int) returns (n: nat, part: int)
    requires AllValid(b)
    ensures var orders := OrdersOf(b, pool, eaten);
      && Reaches(orders, amount, n, part) && FilledBy(orders, amount) == TotalOpen(orders[..n]) + part
      && AtePrefix(orders, Matched(orders, amount), FilledBy(orders, amount), n, part)
      && (TradesFit(orders, amount) <==> PrefixFits(orders, n, part))
  {
    var orders := OrdersOf(b, pool, eaten);
    if pool in b.books {
      assert Valid(At(b, pool));
    }
    n, part := EatsAPrefix(orders, amount);
    FillsExactly(orders, amount);
  }

  /** A market order goes through exactly when it is in time, the pool has a book, no trade overflows and
      what is open reaches the caller's minimum. It then takes whole orders from the front and at most part
      of the next, and leaves everything else. */
  lemma ExecuteExactly(b: Books, pool: nat, eaten: Side, amount: int, minOut: int, late: bool)
    returns (n: nat, part: int)
    requires AllValid(b)
    ensures var orders := OrdersOf(b, pool, eaten);
      && Reaches(orders, amount, n, part)
      && (ExecuteIn(b, pool, eaten, amount, minOut, late).Ok? <==>
            !late && pool in b.books && PrefixFits(orders, n, part) && minOut <= TotalOpen(orders[..n]) + part)
    ensures ExecuteIn(b, pool, eaten, amount, minOut, late).Ok? ==>
      var e, orders := ExecuteIn(b, pool, eaten, amount, minOut, late).value, OrdersOf(b, pool, eaten);
      && e.nextId == b.nextId && OnlySide(b, e, pool, eaten)
      && OrdersOf(e, pool, eaten) ==
        if part == 0 then orders[n..]
        else [orders[n].(filled := orders[n].filled + part, status := PartiallyFilled)] + orders[n + 1..]
  {
    n, part := MarketOrderReaches(b, pool, eaten, amount);
  }
}
