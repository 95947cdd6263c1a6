/** The insurance pool of contracts/insurance-pool/src/lib.rs: premiums, coverage, payouts and the
    reserves that back them. */
module InsurancePool {
  import opened Outcomes
  import opened Machine

  type Address = nat
  type ProjectId = nat
  type Key = (ProjectId, Address)

  datatype Error =
    | InvalidInput | ProjectNotConfigured | CoverageExceedsCapacity | CoverageLimitExceeded
    | NoCoverage | AlreadyClaimed | ProjectNotEligibleForClaim | PoolUnderfunded | Overflow

  const MIN_PREMIUM_RATE := 10
  const BASIS_POINTS := 10000

  datatype Config = Config(premiumRate: nat, coverageRate: nat, maxPerInvestor: int, maxTotal: int,
                           totalCoverage: int, active: bool, failed: bool)

  datatype Position = Position(covered: int, premiumPaid: int, claimed: bool)

  /** The stored state. `held` is what the token contract reports as this contract's balance, counting
      only the transfers made here. */
  datatype Pool = Pool(total: int, locked: int, configs: map<ProjectId, Config>,
                       positions: map<Key, Position>, held: int)

  function Checked(x: int): Result<int, Error> {
    if FitsI128(x) then Ok(x) else Err(InvalidInput)
  }

  function Fund(p: Pool, amount: int): Result<Pool, Error> {
    if amount <= 0 then Err(InvalidInput)
    else if !FitsI128(p.total + amount) then Err(Overflow)
    else Ok(p.(total := p.total + amount, held := p.held + amount))
  }

  /** The premium rate is an unsigned 32-bit number that must also be positive as a signed one. */
  predicate RatesAllowed(premiumRate: nat, coverageRate: nat) {
    MIN_PREMIUM_RATE <= premiumRate < 0x8000_0000 && 0 < coverageRate <= BASIS_POINTS
  }

  function Configure(p: Pool, id: ProjectId, premiumRate: nat, coverageRate: nat,
                     maxPerInvestor: int, maxTotal: int, active: bool): Result<Pool, Error>
  {
    if !RatesAllowed(premiumRate, coverageRate) || maxTotal <= 0 then Err(InvalidInput)
    else
      var covered := if id in p.configs then p.configs[id].totalCoverage else 0;
      var failed := if id in p.configs then p.configs[id].failed else false;
      if covered > maxTotal then Err(CoverageLimitExceeded)
      else
        var config := Config(premiumRate, coverageRate, maxPerInvestor, maxTotal, covered, active, failed);
        Ok(p.(configs := p.configs[id := config]))
  }

  function PositionOf(p: Pool, key: Key): Position {
    if key in p.positions then p.positions[key] else Position(0, 0, false)
  }

  function Premium(c: Config, amount: int): Result<int, Error>
  {
    var product :- Checked(amount * c.premiumRate);
    var premium := Quot(product, BASIS_POINTS);
    if premium <= 0 then Err(InvalidInput) else Ok(premium)
  }

  function Purchase(p: Pool, id: ProjectId, investor: Address, amount: int): Result<Pool, Error> {
    if amount <= 0 then Err(InvalidInput)
    else if id !in p.configs || !p.configs[id].active || p.configs[id].failed then Err(ProjectNotConfigured)
    else
      var c, pos := p.configs[id], PositionOf(p, (id, investor));
      if pos.claimed then Err(AlreadyClaimed)
      else
        var covered :- Checked(pos.covered + amount);
        if c.maxPerInvestor > 0 && covered > c.maxPerInvestor then Err(CoverageLimitExceeded)
        else
          var totalCoverage :- Checked(c.totalCoverage + amount);
          if totalCoverage > c.maxTotal then Err(CoverageLimitExceeded)
          else
            var premium :- Premium(c, amount);
            var total :- Checked(p.total + premium);
            var locked :- Checked(p.locked + amount);
            if locked > total then Err(CoverageExceedsCapacity)
            else
              var premiumPaid :- Checked(pos.premiumPaid + premium);
              Ok(Pool(total, locked,
                      p.configs[id := c.(totalCoverage := totalCoverage)],
                      p.positions[(id, investor) := Position(covered, premiumPaid, false)],
                      p.held + premium))
  }

  function MarkFailed(p: Pool, id: ProjectId): Result<Pool, Error> {
    if id !in p.configs then Err(ProjectNotConfigured)
    else if p.configs[id].failed then Ok(p)
    else Ok(p.(configs := p.configs[id := p.configs[id].(failed := true, active := false)]))
  }

  /** What a claim on one position pays, before the reserves are looked at. */
  function Payout(p: Pool, key: Key): Result<int, Error> {
    if key.0 !in p.configs then Err(ProjectNotConfigured)
    else if !p.configs[key.0].failed then Err(ProjectNotEligibleForClaim)
    else if key !in p.positions || p.positions[key].covered <= 0 then Err(NoCoverage)
    else if p.positions[key].claimed then Err(AlreadyClaimed)
    else
      var product :- Checked(p.positions[key].covered * p.configs[key.0].coverageRate);
      var payout := Quot(product, BASIS_POINTS);
      if payout <= 0 then Err(InvalidInput) else Ok(payout)
  }

  function Claim(p: Pool, id: ProjectId, investor: Address): Result<Pool, Error> {
    var key := (id, investor);
    var payout :- Payout(p, key);
    if payout > p.total then Err(PoolUnderfunded)
    else
      var pos := p.positions[key];
      var locked :- Checked(p.locked - pos.covered);
      Ok(p.(total := p.total - payout, locked := locked,
            positions := p.positions[key := pos.(claimed := true)],
            held := p.held - payout))
  }
}

/** Solvency: what is locked is what is still owed, and the reserves always cover it. */
module InsuranceProofs {
  import opened Outcomes
  import opened Machine
  import opened Sums
  import opened InsurancePool

  function Unclaimed(positions: map<Key, Position>): map<Key, int> {
    map key | key in positions :: if positions[key].claimed then 0 else positions[key].covered
  }

  /** The coverage ever bought on one project, claimed or not. */
  function CoverOn(positions: map<Key, Position>, id: ProjectId): map<Key, int> {
    map key | key in positions :: if key.0 == id then positions[key].covered else 0
  }

  ghost predicate Sane(p: Pool) {
    && (forall key :: key in p.positions ==> key.0 in p.configs && 0 < p.positions[key].covered)
    && (forall id :: id in p.configs ==> 0 < p.configs[id].coverageRate <= BASIS_POINTS)
  }

  ghost predicate Solvent(p: Pool) {
    && p.locked == Sum(Unclaimed(p.positions))
    && 0 <= p.locked <= p.total == p.held
    && FitsI128(p.total)
  }

  ghost predicate WithinLimits(p: Pool) {
    forall id {:trigger CoverOn(p.positions, id)} :: id in p.configs ==>
      && p.configs[id].totalCoverage == Sum(CoverOn(p.positions, id))
      && 0 <= p.configs[id].totalCoverage <= p.configs[id].maxTotal
  }

  ghost predicate Valid(p: Pool) {
    Sane(p) && Solvent(p) && WithinLimits(p)
  }

  /** What a purchase moves. */
  ghost predicate Bought(p: Pool, q: Pool, key: Key, amount: int, premium: int) {
    && key.0 in p.configs && key in q.positions
    && 0 < amount && 0 < premium && !PositionOf(p, key).claimed
    && q.total == p.total + premium && q.held == p.held + premium && FitsI128(q.total)
    && q.locked == p.locked + amount <= q.total
    && q.positions == p.positions[key := q.positions[key]]
    && q.positions[key].covered == PositionOf(p, key).covered + amount && !q.positions[key].claimed
    && var c := p.configs[key.0];
      && c.totalCoverage + amount <= c.maxTotal
      && q.configs == p.configs[key.0 := c.(totalCoverage := c.totalCoverage + amount)]
  }

  lemma PurchaseBuys(p: Pool, id: ProjectId, investor: Address, amount: int) returns (premium: int)
    requires Purchase(p, id, investor, amount).Ok?
    ensures Bought(p, Purchase(p, id, investor, amount).value, (id, investor), amount, premium)
  {
    premium := Premium(p.configs[id], amount).value;
  }

  lemma BoughtKeepsSolvent(p: Pool, q: Pool, key: Key, amount: int, premium: int)
    requires Sane(p) && Solvent(p) && Bought(p, q, key, amount, premium)
    ensures Sane(q) && Solvent(q)
  {
    var covered := q.positions[key].covered;
    SumUpdate(Unclaimed(p.positions), key, covered);
    assert Unclaimed(q.positions) == Unclaimed(p.positions)[key := covered];
  }

  lemma BoughtKeepsLimits(p: Pool, q: Pool, key: Key, amount: int, premium: int)
    requires WithinLimits(p) && Bought(p, q, key, amount, premium)
    ensures WithinLimits(q)
  {
    forall id | id in q.configs
      ensures q.configs[id].totalCoverage == Sum(CoverOn(q.positions, id))
      ensures 0 <= q.configs[id].totalCoverage <= q.configs[id].maxTotal
    {
      var cover := if id == key.0 then q.positions[key].covered else 0;
      SumUpdate(CoverOn(p.positions, id), key, cover);
      assert CoverOn(q.positions, id) == CoverOn(p.positions, id)[key := cover];
    }
  }

  lemma PurchaseKeepsValid(p: Pool, id: ProjectId, investor: Address, amount: int)
    requires Valid(p) && Purchase(p, id, investor, amount).Ok?
    ensures Valid(Purchase(p, id, investor, amount).value)
  {
    var premium := PurchaseBuys(p, id, investor, amount);
    var q := Purchase(p, id, investor, amount).value;
    BoughtKeepsSolvent(p, q, (id, investor), amount, premium);
    BoughtKeepsLimits(p, q, (id, investor), amount, premium);
  }

  /** A new configuration keeps the coverage already sold, so the limits still hold whatever the
      new rates are. */
  lemma ConfigureKeepsValid(p: Pool, id: ProjectId, premiumRate: nat, coverageRate: nat,
                            maxPerInvestor: int, maxTotal: int, active: bool)
    requires Valid(p) && Configure(p, id, premiumRate, coverageRate, maxPerInvestor, maxTotal, active).Ok?
    ensures Valid(Configure(p, id, premiumRate, coverageRate, maxPerInvestor, maxTotal, active).value)
  {
    if id !in p.configs {
      NoCoverYet(p.positions, id);
    }
    var q := Configure(p, id, premiumRate, coverageRate, maxPerInvestor, maxTotal, active).value;
    forall other | other in q.configs
      ensures q.configs[other].totalCoverage == Sum(CoverOn(q.positions, other))
      ensures 0 <= q.configs[other].totalCoverage <= q.configs[other].maxTotal
    {
      assert CoverOn(q.positions, other) == CoverOn(p.positions, other);
    }
  }

  lemma {:induction false} NoCoverYet(positions: map<Key, Position>, id: ProjectId)
    requires forall key :: key in positions ==> key.0 != id
    ensures Sum(CoverOn(positions, id)) == 0
  {
    ZeroSum(CoverOn(positions, id));
  }

  lemma {:induction false} ZeroSum<K>(m: map<K, int>)
    requires forall k :: k in m ==> m[k] == 0
    ensures Sum(m) == 0
    decreases |m|
  {
    if m != map[] {
      var k :| k in m;
      SumSplit(m, k);
      ZeroSum(m - {k});
    }
  }

  /** One unclaimed position is covered by what is locked. */
  lemma LockedCovers(p: Pool, key: Key)
    requires Sane(p) && Solvent(p) && key in p.positions && !p.positions[key].claimed
    ensures 0 < p.positions[key].covered <= p.locked <= p.total
  {
    EntryAtMostSum(Unclaimed(p.positions), key);
  }

  /** Who is owed a payout: an unclaimed position on a failed project, of a size at which the rate pays
      at least one unit. */
  predicate Entitled(p: Pool, key: Key) {
    && key in p.positions && key.0 in p.configs
    && p.configs[key.0].failed && !p.positions[key].claimed
    && 10_000 <= p.positions[key].covered * p.configs[key.0].coverageRate
    && FitsI128(p.positions[key].covered * p.configs[key.0].coverageRate)
  }

  /** What is owed: the covered part, in parts of ten thousand and rounded down. */
  function Owed(p: Pool, key: Key): int
    requires key in p.positions && key.0 in p.configs
  {
    p.positions[key].covered * p.configs[key.0].coverageRate / 10_000
  }

  lemma PayoutExactly(p: Pool, key: Key)
    ensures Payout(p, key).Ok? <==> Entitled(p, key)
    ensures Entitled(p, key) ==> 0 < Payout(p, key).value == Owed(p, key)
    ensures Entitled(p, key) ==>
      Owed(p, key) * 10_000 <= p.positions[key].covered * p.configs[key.0].coverageRate < (Owed(p, key) + 1) * 10_000
  {
    if key in p.positions && key.0 in p.configs {
      ProductSign(p.positions[key].covered, p.configs[key.0].coverageRate);
    }
  }

  lemma ProductSign(x: int, y: nat)
    ensures x <= 0 ==> x * y <= 0
    ensures 0 < x ==> 0 <= x * y
  {
  }

  /** An entitled payout is within the position's cover, which the reserves hold. */
  lemma EntitledIsCovered(p: Pool, key: Key)
    requires Valid(p) && Entitled(p, key)
    ensures 0 < Owed(p, key) <= p.positions[key].covered <= p.locked <= p.total
    ensures FitsI128(p.locked - p.positions[key].covered)
  {
    LockedCovers(p, key);
    PayoutAtMostCover(p.positions[key].covered, p.configs[key.0].coverageRate);
  }

  lemma PayoutAtMostCover(covered: int, rate: nat)
    requires 0 < covered && rate <= BASIS_POINTS
    ensures 0 <= covered * rate / 10_000 <= covered
  {
    assert 0 <= covered * rate <= covered * BASIS_POINTS;
  }

  /** In a valid pool a claim succeeds exactly when the position is entitled to a payout: reserves
      never run out and the locked total never goes below zero, whatever the rate was set to. */
  lemma ClaimSucceedsIff(p: Pool, id: ProjectId, investor: Address)
    requires Valid(p)
    ensures Claim(p, id, investor).Ok? <==> Entitled(p, (id, investor))
  {
    PayoutExactly(p, (id, investor));
    if Entitled(p, (id, investor)) {
      EntitledIsCovered(p, (id, investor));
    }
  }

  /** What a claim moves. */
  ghost predicate Paid(p: Pool, q: Pool, key: Key, payout: int) {
    && key in p.positions && !p.positions[key].claimed
    && payout <= p.positions[key].covered
    && q == p.(total := p.total - payout, locked := p.locked - p.positions[key].covered,
               positions := p.positions[key := p.positions[key].(claimed := true)],
               held := p.held - payout)
  }

  /** A claim pays exactly what is owed. */
  lemma ClaimPays(p: Pool, id: ProjectId, investor: Address)
    requires Valid(p) && Claim(p, id, investor).Ok?
    ensures Entitled(p, (id, investor)) && 0 < Owed(p, (id, investor)) <= p.total
    ensures Paid(p, Claim(p, id, investor).value, (id, investor), Owed(p, (id, investor)))
  {
    PayoutExactly(p, (id, investor));
    EntitledIsCovered(p, (id, investor));
  }

  lemma PaidKeepsSolvent(p: Pool, q: Pool, key: Key, payout: int)
    requires Sane(p) && Solvent(p) && Paid(p, q, key, payout) && 0 < payout <= p.total
    ensures Sane(q) && Solvent(q)
  {
    LockedCovers(p, key);
    SumUpdate(Unclaimed(p.positions), key, 0);
    assert Unclaimed(q.positions) == Unclaimed(p.positions)[key := 0];
    SumNonNegative(Unclaimed(q.positions));
  }

  lemma PaidKeepsLimits(p: Pool, q: Pool, key: Key, payout: int)
    requires WithinLimits(p) && Paid(p, q, key, payout)
    ensures WithinLimits(q)
  {
    forall id: ProjectId
      ensures CoverOn(q.positions, id) == CoverOn(p.positions, id)
    {
    }
  }

  lemma ClaimKeepsValid(p: Pool, id: ProjectId, investor: Address)
    requires Valid(p) && Claim(p, id, investor).Ok?
    ensures Valid(Claim(p, id, investor).value)
  {
    ClaimPays(p, id, investor);
    PaidKeepsSolvent(p, Claim(p, id, investor).value, (id, investor), Owed(p, (id, investor)));
    PaidKeepsLimits(p, Claim(p, id, investor).value, (id, investor), Owed(p, (id, investor)));
  }

  // ----- Every run

  datatype Call =
    | FundCall(amount: int)
    | ConfigureCall(id: ProjectId, premiumRate: nat, coverageRate: nat, maxPerInvestor: int, maxTotal: int,
                    active: bool)
    | PurchaseCall(id: ProjectId, investor: Address, amount: int)
    | MarkFailedCall(id: ProjectId)
    | ClaimCall(id: ProjectId, investor: Address)

  function Apply(p: Pool, call: Call): Result<Pool, Error> {
    match call
    case FundCall(amount) => Fund(p, amount)
    case ConfigureCall(id, premiumRate, coverageRate, maxPerInvestor, maxTotal, active) =>
      Configure(p, id, premiumRate, coverageRate, maxPerInvestor, maxTotal, active)
    case PurchaseCall(id, investor, amount) => Purchase(p, id, investor, amount)
    case MarkFailedCall(id) => MarkFailed(p, id)
    case ClaimCall(id, investor) => Claim(p, id, investor)
  }

  /** The pool after a list of calls; a call that fails changes nothing. */
  function After(calls: seq<Call>): Pool
    decreases |calls|
  {
    if calls == [] then Pool(0, 0, map[], map[], 0)
    else
      var before := After(calls[..|calls| - 1]);
      var next := Apply(before, calls[|calls| - 1]);
      if next.Ok? then next.value else before
  }

  /** In every reachable pool the locked reserves are the sum of the unclaimed cover, they are
      between zero and the reserves, the reserves are the tokens held, and every project's total is
      the sum of its positions and within its maximum. */
  lemma {:induction false} ReachablePoolsAreValid(calls: seq<Call>)
    ensures Valid(After(calls))
    decreases |calls|
  {
    if calls == [] {
      assert Unclaimed(map[]) == map[];
    } else {
      var n := |calls| - 1;
      ReachablePoolsAreValid(calls[..n]);
      var before := After(calls[..n]);
      if Apply(before, calls[n]).Ok? {
        CallKeepsValid(before, calls[n]);
      }
    }
  }

  lemma CallKeepsValid(p: Pool, call: Call)
    requires Valid(p) && Apply(p, call).Ok?
    ensures Valid(Apply(p, call).value)
  {
    match call
    case FundCall(_) =>
    case ConfigureCall(id, premiumRate, coverageRate, maxPerInvestor, maxTotal, active) =>
      ConfigureKeepsValid(p, id, premiumRate, coverageRate, maxPerInvestor, maxTotal, active);
    case PurchaseCall(id, investor, amount) => PurchaseKeepsValid(p, id, investor, amount);
    case MarkFailedCall(_) =>
    case ClaimCall(id, investor) => ClaimKeepsValid(p, id, investor);
  }

  // ----- Everybody is paid

  /** The pool after claims on a list of positions, as long as they go through. */
  function ClaimAll(p: Pool, keys: seq<Key>): Result<Pool, Error>
    decreases |keys|
  {
    if keys == [] then Ok(p)
    else
      var q :- Claim(p, keys[0].0, keys[0].1);
      ClaimAll(q, keys[1..])
  }

  function OwedTo(p: Pool, keys: seq<Key>): int {
    if keys == [] then 0
    else (if Entitled(p, keys[0]) then Owed(p, keys[0]) else 0) + OwedTo(p, keys[1..])
  }

  /** Whatever positions are entitled to a payout, and in whatever order their owners come, every
      one of them is paid in full. */
  lemma {:induction false} EveryEntitledClaimIsPaid(p: Pool, keys: seq<Key>)
    requires Valid(p)
    requires forall i :: 0 <= i < |keys| ==> Entitled(p, keys[i])
    requires forall i, j :: 0 <= i < j < |keys| ==> keys[i] != keys[j]
    ensures ClaimAll(p, keys).Ok?
    ensures ClaimAll(p, keys).value.held == p.held - OwedTo(p, keys) >= 0
    decreases |keys|
  {
    if keys != [] {
      var first := keys[0];
      ClaimSucceedsIff(p, first.0, first.1);
      ClaimPays(p, first.0, first.1);
      ClaimKeepsValid(p, first.0, first.1);
      var q := Claim(p, first.0, first.1).value;
      OwedUnaffected(p, q, first, keys[1..]);
      EveryEntitledClaimIsPaid(q, keys[1..]);
    }
  }

  lemma {:induction false} OwedUnaffected(p: Pool, q: Pool, claimed: Key, keys: seq<Key>)
    requires q.configs == p.configs && claimed in p.positions
    requires q.positions == p.positions[claimed := p.positions[claimed].(claimed := true)]
    requires forall i :: 0 <= i < |keys| ==> keys[i] != claimed
    ensures forall i :: 0 <= i < |keys| ==> (Entitled(q, keys[i]) <==> Entitled(p, keys[i]))
    ensures OwedTo(q, keys) == OwedTo(p, keys)
  {
    if keys != [] {
      OwedUnaffected(p, q, claimed, keys[1..]);
    }
  }

  // ----- When each call succeeds and what it moves

  lemma FundExactly(p: Pool, amount: int)
    ensures var r := Fund(p, amount);
      && (r.Ok? <==> 0 < amount && FitsI128(p.total + amount))
      && (r.Ok? ==> r.value.total - p.total == amount && r.value.held - p.held == amount
                    && r.value == p.(total := r.value.total, held := r.value.held))
  {
  }

  /** A configuration needs a premium rate of at least ten, a coverage rate of at most ten thousand and a
      maximum no smaller than what is already covered, and keeps that total and the mark of failure. */
  lemma ConfigureExactly(p: Pool, id: ProjectId, premiumRate: nat, coverageRate: nat, maxPerInvestor: int,
                         maxTotal: int, active: bool)
    requires Valid(p)
    ensures var r := Configure(p, id, premiumRate, coverageRate, maxPerInvestor, maxTotal, active);
      && (r.Ok? <==>
            && 10 <= premiumRate < 0x8000_0000 && 1 <= coverageRate <= 10_000 && 0 < maxTotal
            && (id in p.configs ==> p.configs[id].totalCoverage <= maxTotal))
      && (r.Ok? ==>
            && id in r.value.configs && r.value == p.(configs := p.configs[id := r.value.configs[id]])
            && var c := r.value.configs[id];
              && c.premiumRate == premiumRate && c.coverageRate == coverageRate
              && c.maxPerInvestor == maxPerInvestor && c.maxTotal == maxTotal && c.active == active
              && c.totalCoverage == Sum(CoverOn(p.positions, id))
              && (c.failed <==> id in p.configs && p.configs[id].failed))
  {
    if id !in p.configs {
      NoCoverYet(p.positions, id);
    }
  }

  /** A failed project stays marked and can no longer be bought cover on. */
  lemma MarkFailedExactly(p: Pool, id: ProjectId, investor: Address, amount: int)
    ensures var r := MarkFailed(p, id);
      && (r.Ok? <==> id in p.configs)
      && (r.Ok? ==>
            && id in r.value.configs && r.value.configs[id].failed
            && r.value == p.(configs := p.configs[id := r.value.configs[id]])
            && r.value.configs[id] == p.configs[id].(failed := true, active := r.value.configs[id].active)
            && (!p.configs[id].failed ==> !r.value.configs[id].active)
            && Purchase(r.value, id, investor, amount).Err?)
  {
    if id in p.configs && p.configs[id].failed {
      assert p.configs[id := p.configs[id]] == p.configs;
    }
  }

  /** The premium is the rate's part of the amount, in parts of ten thousand and rounded down. A purchase
      succeeds exactly when the project is open, the limits of the investor and the project hold, the
      premium is not zero and the reserves with it back what is locked; it moves just that. */
  lemma PurchaseExactly(p: Pool, id: ProjectId, investor: Address, amount: int) returns (premium: int)
    requires Valid(p)
    ensures id in p.configs ==>
      premium * 10_000 <= amount * p.configs[id].premiumRate < (premium + 1) * 10_000
    ensures Purchase(p, id, investor, amount).Ok? <==>
      && id in p.configs
      && var c, pos := p.configs[id], PositionOf(p, (id, investor));
        && 0 < amount && c.active && !c.failed && !pos.claimed
        && FitsI128(pos.covered + amount) && (0 < c.maxPerInvestor ==> pos.covered + amount <= c.maxPerInvestor)
        && FitsI128(c.totalCoverage + amount) && c.totalCoverage + amount <= c.maxTotal
        && FitsI128(amount * c.premiumRate) && 0 < premium && FitsI128(p.total + premium)
        && p.locked + amount <= p.total + premium && FitsI128(pos.premiumPaid + premium)
    ensures Purchase(p, id, investor, amount).Ok? ==>
      var q, pos, c := Purchase(p, id, investor, amount).value, PositionOf(p, (id, investor)), p.configs[id];
      q == Pool(p.total + premium, p.locked + amount,
                p.configs[id := c.(totalCoverage := c.totalCoverage + amount)],
                p.positions[(id, investor) := Position(pos.covered + amount, pos.premiumPaid + premium, false)],
                p.held + premium)
  {
    premium := 0;
    if id in p.configs {
      var rate := p.configs[id].premiumRate;
      ProductSign(amount, rate);
      premium := amount * rate / 10_000;
      if 0 < amount {
        PremiumExactly(p.configs[id], amount);
      }
    }
  }

  lemma PremiumExactly(c: Config, amount: int)
    requires 0 < amount
    ensures var premium := amount * c.premiumRate / 10_000;
      Premium(c, amount) == if FitsI128(amount * c.premiumRate) && 0 < premium then Ok(premium) else Err(InvalidInput)
  {
    ProductSign(amount, c.premiumRate);
  }
}

/** The contract as it runs, over its stored fields. */
module InsuranceContract {
  import opened Outcomes
  import opened Machine
  import opened InsurancePool
  import opened InsuranceProofs
  import P = InsuranceProofs

  /** What an entitled claim leaves, without any further check. */
  lemma ClaimLeaves(p: Pool, id: ProjectId, investor: Address)
    requires P.Valid(p) && Payout(p, (id, investor)).Ok?
    ensures (id, investor) in p.positions
    ensures var pos, payout := p.positions[(id, investor)], Payout(p, (id, investor)).value;
      var q := Pool(p.total - payout, p.locked - pos.covered, p.configs,
                    p.positions[(id, investor) := pos.(claimed := true)], p.held - payout);
      Claim(p, id, investor) == Ok(q) && P.Valid(q)
  {
    PayoutExactly(p, (id, investor));
    EntitledIsCovered(p, (id, investor));
    ClaimSucceedsIff(p, id, investor);
    ClaimKeepsValid(p, id, investor);
  }

  class Contract {
    var totalReserves: int
    var lockedReserves: int
    var configs: map<ProjectId, Config>
    var positions: map<Key, Position>
    /** The contract's own token balance. */
    var held: int

    constructor ()
      ensures Valid() && Stored() == Pool(0, 0, map[], map[], 0)
    {
      totalReserves, lockedReserves, configs, positions, held := 0, 0, map[], map[], 0;
      new;
      ReachablePoolsAreValid([]);
    }

    function Stored(): Pool
      reads this
    {
      Pool(totalReserves, lockedReserves, configs, positions, held)
    }

    ghost predicate Valid()
      reads this
    {
      P.Valid(Stored())
    }

    method FundPool(amount: int) returns (r: Result<(), Error>)
      requires Valid()
      modifies this
      ensures Valid()
      ensures Ends(old(Stored()), Fund(old(Stored()), amount), r, Stored())
    {
      if amount <= 0 {
        return Err(InvalidInput);
      }
      if !FitsI128(totalReserves + amount) {
        return Err(Overflow);
      }
      CallKeepsValid(Stored(), FundCall(amount));
      held := held + amount;
      totalReserves := totalReserves + amount;
      return Ok(());
    }

    method ConfigureProject(id: ProjectId, premiumRate: nat, coverageRate: nat, maxPerInvestor: int,
                            maxTotal: int, active: bool)
      returns (r: Result<(), Error>)
      requires Valid()
      modifies this
      ensures Valid()
      ensures Ends(old(Stored()),
                   Configure(old(Stored()), id, premiumRate, coverageRate, maxPerInvestor, maxTotal, active), r,
                   Stored())
    {
      if !RatesAllowed(premiumRate, coverageRate) || maxTotal <= 0 {
        return Err(InvalidInput);
      }
      var covered, failed := 0, false;
      if id in configs {
        covered, failed := configs[id].totalCoverage, configs[id].failed;
      }
      if covered > maxTotal {
        return Err(CoverageLimitExceeded);
      }
      ConfigureKeepsValid(Stored(), id, premiumRate, coverageRate, maxPerInvestor, maxTotal, active);
      configs := configs[id := Config(premiumRate, coverageRate, maxPerInvestor, maxTotal, covered, active, failed)];
      return Ok(());
    }

    method PurchaseCoverage(id: ProjectId, investor: Address, amount: int) returns (r: Result<(), Error>)
      requires Valid()
      modifies this
      ensures Valid()
      ensures Ends(old(Stored()), Purchase(old(Stored()), id, investor, amount), r, Stored())
    {
      var p := Stored();
      var q :- Buy(p, id, investor, amount);
      PurchaseKeepsValid(p, id, investor, amount);
      totalReserves, lockedReserves, configs, positions, held := q.total, q.locked, q.configs, q.positions, q.held;
      return Ok(());
    }

    /** The checks of a purchase and the records it leaves. */
    static method Buy(p: Pool, id: ProjectId, investor: Address, amount: int) returns (r: Result<Pool, Error>)
      ensures r == Purchase(p, id, investor, amount)
    {
      if amount <= 0 {
        return Err(InvalidInput);
      }
      if id !in p.configs || !p.configs[id].active || p.configs[id].failed {
        return Err(ProjectNotConfigured);
      }
      var c, pos := p.configs[id], PositionOf(p, (id, investor));
      if pos.claimed {
        return Err(AlreadyClaimed);
      }
      var covered :- Checked(pos.covered + amount);
      if c.maxPerInvestor > 0 && covered > c.maxPerInvestor {
        return Err(CoverageLimitExceeded);
      }
      var totalCoverage :- Checked(c.totalCoverage + amount);
      if totalCoverage > c.maxTotal {
        return Err(CoverageLimitExceeded);
      }
      var premium :- Premium(c, amount);
      var projectedReserves :- Checked(p.total + premium);
      var projectedLocked :- Checked(p.locked + amount);
      if projectedLocked > projectedReserves {
        return Err(CoverageExceedsCapacity);
      }
      var premiumPaid :- Checked(pos.premiumPaid + premium);
      return Ok(Pool(projectedReserves, projectedLocked,
                     p.configs[id := c.(totalCoverage := totalCoverage)],
                     p.positions[(id, investor) := pos.(covered := covered, premiumPaid := premiumPaid)],
                     p.held + premium));
    }

    method MarkProjectFailed(id: ProjectId) returns (r: Result<(), Error>)
      requires Valid()
      modifies this
      ensures Valid()
      ensures Ends(old(Stored()), MarkFailed(old(Stored()), id), r, Stored())
    {
      if id !in configs {
        return Err(ProjectNotConfigured);
      }
      CallKeepsValid(Stored(), MarkFailedCall(id));
      var c := configs[id];
      if !c.failed {
        configs := configs[id := c.(failed := true, active := false)];
      }
      return Ok(());
    }

    method ClaimPayout(id: ProjectId, investor: Address) returns (r: Result<int, Error>)
      requires Valid()
      modifies this
      ensures Valid()
      ensures Ends(old(Stored()), Claim(old(Stored()), id, investor), r, Stored())
      ensures r == Payout(old(Stored()), (id, investor))
      ensures r.Ok? ==> r.value == old(held) - held
    {
      var key := (id, investor);
      var payout :- PayoutOf(id, investor);
      // The reserves hold an entitled payout, and the locked ones hold the cover.
      ClaimLeaves(Stored(), id, investor);
      var pos := positions[key];
      totalReserves, lockedReserves := totalReserves - payout, lockedReserves - pos.covered;
      held := held - payout;
      positions := positions[key := pos.(claimed := true)];
      return Ok(payout);
    }

    /** The checks of a claim, in order. */
    method PayoutOf(id: ProjectId, investor: Address) returns (r: Result<int, Error>)
      ensures r == Payout(Stored(), (id, investor))
    {
      if id !in configs {
        return Err(ProjectNotConfigured);
      }
      if !configs[id].failed {
        return Err(ProjectNotEligibleForClaim);
      }
      if (id, investor) !in positions || positions[(id, investor)].covered <= 0 {
        return Err(NoCoverage);
      }
      var pos := positions[(id, investor)];
      if pos.claimed {
        return Err(AlreadyClaimed);
      }
      var product :- Checked(pos.covered * configs[id].coverageRate);
      var payout := Quot(product, BASIS_POINTS);
      if payout <= 0 {
        return Err(InvalidInput);
      }
      return Ok(payout);
    }
  }
}
