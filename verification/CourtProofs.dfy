/** What one tally does to the jurors' records and to the money: each panel member is settled once,
    and value only moves. */
module SettlementProofs {
  import opened Sums
  import opened EscrowTypes
  import opened Tally
  import opened Court

  function Stakes(jurors: Jurors): map<Address, int> {
    map j | j in jurors :: jurors[j].stake
  }

  ghost predicate Solvent(jurors: Jurors) {
    forall j :: j in jurors ==> 0 <= jurors[j].stake
  }

  ghost predicate Registered(panel: seq<Address>, jurors: Jurors) {
    forall j :: j in panel ==> j in jurors
  }

  lemma PanelParts(panel: seq<Address>, jurors: Jurors)
    requires panel != [] && Distinct(panel) && Registered(panel, jurors)
    ensures var front, last := panel[..|panel| - 1], panel[|panel| - 1];
      && panel == front + [last]
      && Distinct(front) && Registered(front, jurors) && last !in front && last in jurors
      && forall j :: j in panel <==> j in front || j == last
  {
    var front, last := panel[..|panel| - 1], panel[|panel| - 1];
    assert panel == front + [last];
    assert last in panel;
  }

  lemma RecordReplaced(jurors: Jurors, j: Address, record: Juror)
    requires j in jurors
    ensures Sum(Stakes(jurors[j := record])) == Sum(Stakes(jurors)) - jurors[j].stake + record.stake
  {
    SumUpdate(Stakes(jurors), j, record.stake);
    assert Stakes(jurors[j := record]) == Stakes(jurors)[j := record.stake];
  }

  // ----- Summoning a panel

  /** Exactly the panel members get one more active dispute. */
  lemma {:induction false} SummonAddsOne(jurors: Jurors, panel: seq<Address>)
    requires Distinct(panel) && Registered(panel, jurors)
    ensures Summon(jurors, panel).Keys == jurors.Keys
    ensures forall j :: j in jurors ==>
      Summon(jurors, panel)[j] == jurors[j].(active := jurors[j].active + if j in panel then 1 else 0)
    decreases |panel|
  {
    if panel != [] {
      PanelParts(panel, jurors);
      SummonAddsOne(jurors, panel[..|panel| - 1]);
    }
  }

  lemma SummonKeepsStakes(jurors: Jurors, panel: seq<Address>)
    requires Distinct(panel) && Registered(panel, jurors)
    ensures Stakes(Summon(jurors, panel)) == Stakes(jurors)
  {
    SummonAddsOne(jurors, panel);
  }

  // ----- Settling a panel

  lemma {:induction false} SettleKeepsKeys(b: Books, ballots: Ballots, d: nat, panel: seq<Address>, outcome: Resolution)
    ensures Settle(b, ballots, d, panel, outcome).jurors.Keys == b.jurors.Keys
    decreases |panel|
  {
    if panel != [] {
      SettleKeepsKeys(b, ballots, d, panel[..|panel| - 1], outcome);
    }
  }

  /** Each panel member is either counted with the majority or slashed, exactly once, and nobody
      else is touched. */
  lemma {:induction false} SettlesEachOnce(b: Books, ballots: Ballots, d: nat, panel: seq<Address>, outcome: Resolution)
    requires Distinct(panel) && Registered(panel, b.jurors)
    ensures var after := Settle(b, ballots, d, panel, outcome).jurors;
      && after.Keys == b.jurors.Keys
      && forall j :: j in b.jurors ==>
        after[j] == if j in panel then Settled(b.jurors[j], InMajority(ballots, d, j, outcome)) else b.jurors[j]
    decreases |panel|
  {
    if panel != [] {
      PanelParts(panel, b.jurors);
      SettlesEachOnce(b, ballots, d, panel[..|panel| - 1], outcome);
    }
  }

  lemma {:induction false} MajorityMembers(ballots: Ballots, d: nat, panel: seq<Address>, outcome: Resolution)
    ensures forall j :: j in Majority(ballots, d, panel, outcome) <==> j in panel && InMajority(ballots, d, j, outcome)
    ensures Distinct(panel) ==> Distinct(Majority(ballots, d, panel, outcome))
    decreases |panel|
  {
    if panel != [] {
      var front := panel[..|panel| - 1];
      assert panel == front + [panel[|panel| - 1]];
      MajorityMembers(ballots, d, front, outcome);
    }
  }

  lemma {:induction false} RewardAddsOne(jurors: Jurors, majority: seq<Address>, each: int)
    requires Distinct(majority) && Registered(majority, jurors)
    ensures var after := AddToStakes(jurors, majority, each);
      && after.Keys == jurors.Keys
      && forall j :: j in jurors ==>
        after[j] == jurors[j].(stake := jurors[j].stake + if j in majority then each else 0)
    decreases |majority|
  {
    if majority != [] {
      PanelParts(majority, jurors);
      RewardAddsOne(jurors, majority[..|majority| - 1], each);
    }
  }

  /** Slashing moves stake into the pool and nothing else. */
  lemma {:induction false} SettleConserves(b: Books, ballots: Ballots, d: nat, panel: seq<Address>, outcome: Resolution)
    requires Solvent(b.jurors)
    ensures var after := Settle(b, ballots, d, panel, outcome);
      && Sum(Stakes(after.jurors)) + after.pool == Sum(Stakes(b.jurors)) + b.pool
      && Solvent(after.jurors) && b.pool <= after.pool
    decreases |panel|
  {
    if panel != [] {
      var front, j := panel[..|panel| - 1], panel[|panel| - 1];
      SettleConserves(b, ballots, d, front, outcome);
      var m := Settle(b, ballots, d, front, outcome);
      if j in m.jurors {
        RecordReplaced(m.jurors, j, Settled(m.jurors[j], InMajority(ballots, d, j, outcome)));
      }
    }
  }

  /** n shares of the same size. */
  function Shares(n: nat, each: nat): nat {
    if n == 0 then 0 else Shares(n - 1, each) + each
  }

  lemma {:induction false} SharesOfPool(pool: nat, n: nat)
    requires 0 < n
    ensures Shares(n, pool / n) + pool % n == pool
    ensures 0 <= pool % n < n
  {
    SharesIsProduct(n, pool / n);
    assert pool == n * (pool / n) + pool % n;
  }

  lemma {:induction false} SharesIsProduct(n: nat, each: nat)
    ensures Shares(n, each) == n * each
  {
    if n > 0 {
      SharesIsProduct(n - 1, each);
      assert n * each == (n - 1) * each + each;
    }
  }

  lemma {:induction false} StakesAdded(jurors: Jurors, majority: seq<Address>, each: nat)
    requires Registered(majority, jurors) && Solvent(jurors)
    ensures var after := AddToStakes(jurors, majority, each);
      && after.Keys == jurors.Keys
      && Sum(Stakes(after)) == Sum(Stakes(jurors)) + Shares(|majority|, each)
      && Solvent(after)
    decreases |majority|
  {
    if majority != [] {
      var front, j := majority[..|majority| - 1], majority[|majority| - 1];
      assert j in majority;
      assert Registered(front, jurors);
      StakesAdded(jurors, front, each);
      StakeRaised(AddToStakes(jurors, front, each), j, each);
    }
  }

  lemma StakeRaised(jurors: Jurors, j: Address, each: nat)
    requires j in jurors && Solvent(jurors)
    ensures var after := jurors[j := jurors[j].(stake := jurors[j].stake + each)];
      Sum(Stakes(after)) == Sum(Stakes(jurors)) + each && Solvent(after)
  {
    RecordReplaced(jurors, j, jurors[j].(stake := jurors[j].stake + each));
  }

  /** Rewards move the pool into stakes; the remainder of the division stays in the pool. */
  lemma RewardConserves(b: Books, majority: seq<Address>)
    requires Registered(majority, b.jurors) && Solvent(b.jurors) && 0 <= b.pool
    ensures var after := Reward(b, majority);
      && Sum(Stakes(after.jurors)) + after.pool == Sum(Stakes(b.jurors)) + b.pool
      && Solvent(after.jurors) && 0 <= after.pool
      && (majority != [] ==> after.pool < |majority|)
  {
    if majority != [] && b.pool > 0 {
      StakesAdded(b.jurors, majority, b.pool / |majority|);
      SharesOfPool(b.pool, |majority|);
    }
  }

  /** A tally as a whole neither creates nor loses value. */
  lemma TallyConserves(b: Books, ballots: Ballots, d: nat, panel: seq<Address>, outcome: Resolution)
    requires Registered(panel, b.jurors) && Solvent(b.jurors) && 0 <= b.pool
    ensures var after := SettleAndReward(b, ballots, d, panel, outcome);
      && Sum(Stakes(after.jurors)) + after.pool == Sum(Stakes(b.jurors)) + b.pool
      && Solvent(after.jurors) && 0 <= after.pool
  {
    SettleConserves(b, ballots, d, panel, outcome);
    SettleKeepsKeys(b, ballots, d, panel, outcome);
    MajorityMembers(ballots, d, panel, outcome);
    RewardConserves(Settle(b, ballots, d, panel, outcome), Majority(ballots, d, panel, outcome));
  }

  /** The juror revealed a vote for the outcome. */
  predicate VotedFor(ballots: Ballots, d: nat, j: Address, outcome: Resolution) {
    (d, j) in ballots && ballots[(d, j)].revealed && ballots[(d, j)].vote == outcome
  }

  /** What a juror outside the majority loses: a tenth of the minimum stake, or all that is left. */
  function Fine(stake: int): int {
    if 10 * stake < MIN_JUROR_STAKE then stake else MIN_JUROR_STAKE / 10
  }

  /** What the panel members outside the majority lose together. */
  function Fines(jurors: Jurors, ballots: Ballots, d: nat, panel: seq<Address>, outcome: Resolution): int
    requires forall j :: j in panel ==> j in jurors
  {
    if panel == [] then 0
    else
      var front, j := panel[..|panel| - 1], panel[|panel| - 1];
      Fines(jurors, ballots, d, front, outcome)
        + if VotedFor(ballots, d, j, outcome) then 0 else Fine(jurors[j].stake)
  }

  /** How many panel members voted for the outcome. */
  function Winners(ballots: Ballots, d: nat, panel: seq<Address>, outcome: Resolution): nat {
    if panel == [] then 0
    else
      Winners(ballots, d, panel[..|panel| - 1], outcome)
        + if VotedFor(ballots, d, panel[|panel| - 1], outcome) then 1 else 0
  }

  lemma {:induction false} PoolTakesFines(b: Books, ballots: Ballots, d: nat, panel: seq<Address>, outcome: Resolution)
    requires Distinct(panel) && Registered(panel, b.jurors)
    ensures Settle(b, ballots, d, panel, outcome).pool == b.pool + Fines(b.jurors, ballots, d, panel, outcome)
    ensures |Majority(ballots, d, panel, outcome)| == Winners(ballots, d, panel, outcome)
    decreases |panel|
  {
    if panel != [] {
      PanelParts(panel, b.jurors);
      var front := panel[..|panel| - 1];
      PoolTakesFines(b, ballots, d, front, outcome);
      SettlesEachOnce(b, ballots, d, front, outcome);
    }
  }

  /** What each juror gets out of a tally, in the fields of the records: who voted for the outcome one
      successful vote and an equal share of the pool, the rest of the panel one missed vote and the
      fine; for everybody on the panel one active dispute less. */
  lemma TallyRecords(b: Books, ballots: Ballots, d: nat, panel: seq<Address>, outcome: Resolution)
    returns (share: nat)
    requires Distinct(panel) && Registered(panel, b.jurors) && Solvent(b.jurors) && 0 <= b.pool
    ensures var after := SettleAndReward(b, ballots, d, panel, outcome).jurors;
      && after.Keys == b.jurors.Keys
      && forall j :: j in b.jurors ==>
        after[j] ==
          if j !in panel then b.jurors[j]
          else if VotedFor(ballots, d, j, outcome) then
            Juror(b.jurors[j].stake + share, b.jurors[j].active - 1, b.jurors[j].successful + 1, b.jurors[j].missed)
          else
            Juror(b.jurors[j].stake - Fine(b.jurors[j].stake), b.jurors[j].active - 1, b.jurors[j].successful,
                  b.jurors[j].missed + 1)
    ensures SharedOut(b.pool + Fines(b.jurors, ballots, d, panel, outcome), Winners(ballots, d, panel, outcome), share,
                      SettleAndReward(b, ballots, d, panel, outcome).pool)
  {
    SettlesEachOnce(b, ballots, d, panel, outcome);
    SettleConserves(b, ballots, d, panel, outcome);
    MajorityMembers(ballots, d, panel, outcome);
    PoolTakesFines(b, ballots, d, panel, outcome);
    share := RewardShares(Settle(b, ballots, d, panel, outcome), Majority(ballots, d, panel, outcome));
  }

  lemma RewardShares(b: Books, majority: seq<Address>) returns (share: nat)
    requires Distinct(majority) && Registered(majority, b.jurors) && 0 <= b.pool
    ensures SharedOut(b.pool, |majority|, share, Reward(b, majority).pool)
    ensures var after := Reward(b, majority).jurors;
      && after.Keys == b.jurors.Keys
      && forall j :: j in b.jurors ==>
        after[j] == b.jurors[j].(stake := b.jurors[j].stake + if j in majority then share else 0)
  {
    share := if majority == [] then 0 else b.pool / |majority|;
    RewardAddsOne(b.jurors, majority, share);
    if majority != [] {
      SharesOfPool(b.pool, |majority|);
      SharesIsProduct(|majority|, share);
    }
  }

  /** A pool is shared out in equal parts as far as it goes; without winners it stays. */
  ghost predicate SharedOut(pool: int, winners: nat, share: nat, left: int) {
    if winners == 0 then share == 0 && left == pool
    else left == pool - winners * share && 0 <= left < winners
  }
}

/** What every call of the court keeps. */
module CourtProofs {
  import opened Machine
  import opened Outcomes
  import opened Sums
  import opened EscrowTypes
  import opened Jury
  import opened Tally
  import opened Court
  import opened SettlementProofs

  type Disputes = map<nat, Dispute>
  type Panels = map<nat, seq<Address>>

  // ----- The invariant, part by part

  /** The list of active jurors is exactly the registered ones, without repeats. */
  ghost predicate RosterOk(c: Court) {
    Distinct(c.roster) && forall j :: j in c.roster <==> j in c.jurors
  }

  predicate InSession(disputes: Disputes, d: nat) {
    d in disputes && disputes[d].status == Voting
  }

  /** Every dispute under vote has a panel of registered jurors without repeats. */
  ghost predicate PanelsOk(c: Court) {
    forall d: nat {:trigger InSession(c.disputes, d)} :: InSession(c.disputes, d) ==>
      d in c.panels && Distinct(c.panels[d]) && Registered(c.panels[d], c.jurors)
  }

  /** The disputes under vote whose panel a juror is on. */
  ghost function Load(disputes: Disputes, panels: Panels, j: Address): set<nat> {
    set d | d in disputes && InSession(disputes, d) && d in panels && j in panels[d]
  }

  /** Every juror's counter of active disputes is right. */
  ghost predicate LoadOk(c: Court) {
    forall j {:trigger Load(c.disputes, c.panels, j)} :: j in c.jurors ==>
      c.jurors[j].active == |Load(c.disputes, c.panels, j)|
  }

  /** Stakes and fee pool together are what was taken in and not paid out, and neither is negative. */
  ghost predicate MoneyOk(c: Court) {
    && Solvent(c.jurors) && 0 <= c.feePool
    && Sum(Stakes(c.jurors)) + c.feePool == Sum(c.held)
  }

  /** A dispute between two calls: no panel before the first selection, one ever after, an outcome
      once it is resolved. */
  ghost predicate DisputeOk(c: Court, d: nat)
    requires d in c.disputes
  {
    var dispute := c.disputes[d];
    && dispute.appealCount <= MAX_APPEALS
    && match dispute.status
       case Pending => d !in c.panels && dispute.appealCount == 0
       case Voting => d in c.panels
       case Resolved => d in c.panels && dispute.resolution != NoRes
       case FinalResolved => d in c.panels && dispute.resolution != NoRes
       case JurySelection => false
       case Appealed => false
  }

  ghost predicate DisputesOk(c: Court) {
    && (forall d :: d in c.disputes ==> d < c.nextId && DisputeOk(c, d))
    && (forall d :: d in c.panels ==> d in c.disputes)
  }

  /** Ballots belong to disputes that have had a panel, and a revealed one names an option. In the
      first round they are all from the present panel. */
  ghost predicate BallotsOk(c: Court) {
    forall d: nat, j {:trigger (d, j) in c.ballots} :: (d, j) in c.ballots ==>
      && d in c.disputes && d in c.panels
      && (c.ballots[(d, j)].revealed ==> c.ballots[(d, j)].vote != NoRes)
      && (c.disputes[d].appealCount == 0 ==> j in c.panels[d])
  }

  ghost predicate CourtOk(c: Court) {
    RosterOk(c) && PanelsOk(c) && LoadOk(c) && MoneyOk(c) && DisputesOk(c) && BallotsOk(c)
  }

  lemma NobodyYet(c: Court)
    requires c == EMPTY_COURT
    ensures RosterOk(c) && MoneyOk(c)
  {
  }

  lemma NoDisputesYet(c: Court)
    requires c == EMPTY_COURT
    ensures PanelsOk(c) && LoadOk(c)
    ensures DisputesOk(c) && BallotsOk(c)
  {
  }

  lemma EmptyCourtIsOk(c: Court)
    requires c == EMPTY_COURT
    ensures CourtOk(c)
  {
    NobodyYet(c);
    NoDisputesYet(c);
  }

  // ----- What the invariant says about jurors

  /** A member of a panel under vote is registered, counts that dispute as active and cannot leave
      the register; so a tally never misses a juror and never takes a counter below zero. */
  lemma PanelMembersStay(c: Court, d: nat, j: Address)
    requires CourtOk(c) && InSession(c.disputes, d) && d in c.panels && j in c.panels[d]
    ensures j in c.jurors && c.jurors[j].active > 0
    ensures Deregister(c, j) == Err(JurorAct)
  {
    assert d in Load(c.disputes, c.panels, j);
  }

  /** A registered juror can leave exactly when on no panel under vote, and then takes the whole
      stake along. */
  lemma DeregisterSucceedsIff(c: Court, j: Address)
    requires CourtOk(c)
    ensures Deregister(c, j).Ok? <==>
      && j in c.jurors && c.token.Some?
      && forall d: nat :: InSession(c.disputes, d) && d in c.panels ==> j !in c.panels[d]
    ensures Deregister(c, j).Ok? ==>
      Deregister(c, j).value.held == Booked(c.held, c.token.value, 0 - c.jurors[j].stake) && 0 <= c.jurors[j].stake
  {
    if j in c.jurors {
      var load := Load(c.disputes, c.panels, j);
      if load != {} {
        var d :| d in load;
        assert InSession(c.disputes, d);
      }
      forall d: nat | InSession(c.disputes, d) && d in c.panels && j in c.panels[d]
        ensures d in load
      {
      }
    }
  }

  // ----- Registering and leaving

  lemma SameDisputes(c: Court, e: Court)
    requires DisputesOk(c) && BallotsOk(c)
    requires e.disputes == c.disputes && e.panels == c.panels && e.ballots == c.ballots && e.nextId == c.nextId
    ensures DisputesOk(e) && BallotsOk(e)
  {
    forall d | d in e.disputes
      ensures DisputeOk(e, d)
    {
      assert DisputeOk(c, d);
    }
  }

  lemma RegisterKeepsOk(c: Court, j: Address, stake: int)
    requires CourtOk(c) && Register(c, j, stake).Ok?
    ensures CourtOk(Register(c, j, stake).value)
  {
    var e := Register(c, j, stake).value;
    StakeAdded(c, j, stake);
    NewcomerIsFree(c, j);
    SameDisputes(c, e);
  }

  lemma BookedAdds(held: Ledger, token: Address, amount: int)
    ensures Sum(Booked(held, token, amount)) == Sum(held) + amount
  {
    SumUpdate(held, token, Balance(held, token) + amount);
  }

  lemma StakeAdded(c: Court, j: Address, stake: int)
    requires MoneyOk(c) && Register(c, j, stake).Ok?
    ensures MoneyOk(Register(c, j, stake).value)
  {
    SumUpdate(Stakes(c.jurors), j, stake);
    assert Stakes(Register(c, j, stake).value.jurors) == Stakes(c.jurors)[j := stake];
    BookedAdds(c.held, c.token.value, stake);
  }

  lemma NewcomerIsFree(c: Court, j: Address)
    requires PanelsOk(c) && j !in c.jurors
    ensures Load(c.disputes, c.panels, j) == {}
  {
    forall d: nat | InSession(c.disputes, d)
      ensures d in c.panels && j !in c.panels[d]
    {
    }
  }

  lemma {:induction false} WithoutIsExact(roster: seq<Address>, j: Address)
    requires Distinct(roster)
    ensures Distinct(Without(roster, j))
    ensures forall a :: a in Without(roster, j) <==> a in roster && a != j
  {
    if roster != [] {
      var first, rest := roster[0], roster[1..];
      assert roster == [first] + rest;
      WithoutIsExact(rest, j);
      var kept := Without(rest, j);
      forall i | 0 <= i < |kept|
        ensures kept[i] != first
      {
        assert kept[i] in kept;
      }
    }
  }

  lemma DeregisterMoney(c: Court, j: Address)
    requires MoneyOk(c) && Deregister(c, j).Ok?
    ensures MoneyOk(Deregister(c, j).value)
  {
    var e := Deregister(c, j).value;
    SumSplit(Stakes(c.jurors), j);
    assert Stakes(e.jurors) == Stakes(c.jurors) - {j};
    BookedAdds(c.held, c.token.value, 0 - c.jurors[j].stake);
  }

  lemma DeregisterKeepsOk(c: Court, j: Address)
    requires CourtOk(c) && Deregister(c, j).Ok?
    ensures CourtOk(Deregister(c, j).value)
  {
    var e := Deregister(c, j).value;
    WithoutIsExact(c.roster, j);
    DeregisterMoney(c, j);
    DeregisterSucceedsIff(c, j);
    SameDisputes(c, e);
  }

  lemma ConfigureKeepsOk(c: Court, token: Address)
    requires CourtOk(c)
    ensures CourtOk(ConfigureToken(c, token))
  {
    var e := ConfigureToken(c, token);
    SameSessions(c, e);
    SameDisputes(c, e);
  }

  // ----- Which tokens the stakes are in

  /** Everything held is in the configured token. */
  ghost predicate OneToken(c: Court) {
    forall t :: t in c.held && Some(t) != c.token ==> c.held[t] == 0
  }

  /** Then the balance of that token is exactly the stakes and the fee pool, and pays any juror out. */
  lemma OneTokenCovers(c: Court, j: Address)
    requires MoneyOk(c) && OneToken(c) && c.token.Some?
    ensures Balance(c.held, c.token.value) == Sum(Stakes(c.jurors)) + c.feePool
    ensures j in c.jurors ==> c.jurors[j].stake <= Balance(c.held, c.token.value)
  {
    OnlyEntry(c.held, c.token.value);
    if j in c.jurors {
      EntryAtMostSum(Stakes(c.jurors), j);
    }
  }

  lemma {:induction false} OnlyEntry(held: Ledger, token: Address)
    requires forall t :: t in held && t != token ==> held[t] == 0
    ensures Sum(held) == Balance(held, token)
    decreases |held|
  {
    if held != map[] {
      var t :| t in held;
      SumSplit(held, t);
      OnlyEntry(held - {t}, token);
    }
  }

  /** Configuring a token keeps everything in one token exactly when it is the same token again or
      no stake and no fee is held. */
  lemma ConfigureKeepsOneTokenIff(c: Court, token: Address)
    requires MoneyOk(c) && OneToken(c)
    ensures OneToken(ConfigureToken(c, token)) <==> c.token == Some(token) || Sum(Stakes(c.jurors)) + c.feePool == 0
  {
    if c.token.Some? {
      OnlyEntry(c.held, c.token.value);
    } else {
      OnlyEntry(c.held, token);
      assert Balance(c.held, token) == 0;
    }
  }

  // ----- Opening a dispute and seating a panel

  /** Changes that leave the same disputes under vote with the same panels. */
  lemma SameSessions(c: Court, e: Court)
    requires PanelsOk(c) && LoadOk(c)
    requires e.jurors == c.jurors && e.panels == c.panels
    requires forall d: nat :: InSession(e.disputes, d) <==> InSession(c.disputes, d)
    ensures PanelsOk(e) && LoadOk(e)
  {
    forall d: nat | InSession(e.disputes, d)
      ensures d in e.panels && Distinct(e.panels[d]) && Registered(e.panels[d], e.jurors)
    {
      assert InSession(c.disputes, d);
    }
    forall j | j in e.jurors
      ensures e.jurors[j].active == |Load(e.disputes, e.panels, j)|
    {
      assert Load(e.disputes, e.panels, j) == Load(c.disputes, c.panels, j);
    }
  }

  lemma OpenKeepsOk(c: Court, projectId: nat, milestoneId: nat, initiator: Address, now: nat)
    requires CourtOk(c)
    ensures CourtOk(Open(c, projectId, milestoneId, initiator, now))
  {
    var e := Open(c, projectId, milestoneId, initiator, now);
    assert c.nextId !in c.disputes && c.nextId !in c.panels;
    SameSessions(c, e);
    forall d | d in e.disputes
      ensures d < e.nextId && DisputeOk(e, d)
    {
      if d in c.disputes {
        assert DisputeOk(c, d);
      }
    }
  }

  /** What seating a panel changes. */
  ghost predicate Seated(c: Court, e: Court, d: nat, panel: seq<Address>, now: nat) {
    && d in c.disputes && c.disputes[d].status != Voting
    && Distinct(panel) && Registered(panel, c.jurors)
    && e == c.(jurors := Summon(c.jurors, panel), panels := c.panels[d := panel],
               disputes := c.disputes[d := c.disputes[d].(status := Voting, createdAt := now)])
  }

  /** Who may be on the panel of a dispute: registered jurors other than the creator, the initiator and,
      in an appeal, the members of the panel before. */
  predicate MaySit(c: Court, d: nat, creator: Address, j: Address)
    requires d in c.disputes
  {
    && j in c.jurors && j != creator && j != c.disputes[d].initiator
    && (c.disputes[d].appealCount > 0 && d in c.panels ==> j !in c.panels[d])
  }

  function Candidates(c: Court, d: nat, creator: Address): set<Address>
    requires d in c.disputes
  {
    set j | j in c.jurors && MaySit(c, d, creator, j)
  }

  lemma CandidatesAreNotBarred(c: Court, d: nat, creator: Address)
    requires d in c.disputes
    ensures Candidates(c, d, creator) == c.jurors.Keys - Barred(c, d, creator)
    ensures forall j :: j in c.jurors ==> (j in Barred(c, d, creator) <==> !MaySit(c, d, creator, j))
  {
  }

  /** Seven in the first round, thirteen in an appeal. */
  function Seats(status: DisputeStatus): nat {
    if status == Appealed then 13 else 7
  }

  /** The jury that is seated: as many as the round asks for, distinct registered jurors, none of
      them the creator, the initiator or a member of the panel appealed against. */
  lemma SeatIsImpartial(c: Court, d: nat, creator: Address, draws: seq<nat>, now: nat)
    requires RosterOk(c) && d in c.disputes && Seat(c, d, creator, draws, now).Ok?
    ensures var e := Seat(c, d, creator, draws, now).value;
      && d in e.panels
      && var panel := e.panels[d];
        && Seated(c, e, d, panel, now)
        && |panel| == Seats(c.disputes[d].status) && Distinct(panel)
        && (forall j :: j in panel ==>
              && j in c.jurors && j !in Barred(c, d, creator)
              && j != creator && j != c.disputes[d].initiator
              && (c.disputes[d].appealCount > 0 && d in c.panels ==> j !in c.panels[d]))
  {
    DrawFillsIff(c.roster, Barred(c, d, creator), JurySize(c.disputes[d].status), draws);
    CandidatesAreNotBarred(c, d, creator);
  }

  /** A selection that is due succeeds exactly when enough registered jurors may sit, whatever the
      random numbers are. */
  lemma SeatSucceedsIff(c: Court, d: nat, creator: Address, draws: seq<nat>, now: nat)
    requires RosterOk(c) && d in c.disputes
    ensures Seat(c, d, creator, draws, now).Ok? <==>
      && (c.disputes[d].status == Pending || c.disputes[d].status == Appealed)
      && |Candidates(c, d, creator)| >= Seats(c.disputes[d].status)
  {
    var size, barred := JurySize(c.disputes[d].status), Barred(c, d, creator);
    DrawFillsIff(c.roster, barred, size, draws);
    EnoughOnRoster(c, barred);
    CandidatesAreNotBarred(c, d, creator);
  }

  lemma EnoughOnRoster(c: Court, barred: set<Address>)
    requires RosterOk(c)
    ensures Eligible(c.roster, barred) == c.jurors.Keys - barred
    ensures |c.jurors.Keys - barred| <= |c.roster|
  {
    var all := Members(c.roster);
    assert all == c.jurors.Keys;
    DistinctSize(c.roster);
    SubsetSize(all - barred, all);
  }

  lemma SeatedLoad(c: Court, e: Court, d: nat, panel: seq<Address>, now: nat, j: Address)
    requires Seated(c, e, d, panel, now)
    ensures |Load(e.disputes, e.panels, j)| == |Load(c.disputes, c.panels, j)| + if j in panel then 1 else 0
  {
    var before, after := Load(c.disputes, c.panels, j), Load(e.disputes, e.panels, j);
    assert d !in before;
    forall x: nat | x != d
      ensures x in after <==> x in before
    {
      assert InSession(e.disputes, x) <==> InSession(c.disputes, x);
    }
    assert d in after <==> j in panel;
    assert after == if j in panel then before + {d} else before;
  }

  lemma SeatedJurors(c: Court, e: Court, d: nat, panel: seq<Address>, now: nat)
    requires RosterOk(c) && PanelsOk(c) && LoadOk(c) && MoneyOk(c) && Seated(c, e, d, panel, now)
    ensures RosterOk(e) && PanelsOk(e) && LoadOk(e) && MoneyOk(e)
  {
    SummonAddsOne(c.jurors, panel);
    SummonKeepsStakes(c.jurors, panel);
    forall j | j in e.jurors
      ensures e.jurors[j].active == |Load(e.disputes, e.panels, j)|
    {
      SeatedLoad(c, e, d, panel, now, j);
      assert c.jurors[j].active == |Load(c.disputes, c.panels, j)|;
    }
    forall x: nat | InSession(e.disputes, x)
      ensures x in e.panels && Distinct(e.panels[x]) && Registered(e.panels[x], e.jurors)
    {
      if x != d {
        assert InSession(c.disputes, x);
      }
    }
  }

  lemma SeatedDisputes(c: Court, e: Court, d: nat, panel: seq<Address>, now: nat)
    requires DisputesOk(c) && Seated(c, e, d, panel, now)
    ensures DisputesOk(e)
  {
    forall x | x in e.disputes
      ensures x < e.nextId && DisputeOk(e, x)
    {
      assert DisputeOk(c, x);
    }
  }

  /** Selecting the first panel. (A later one follows an appeal at once, see AppealKeepsOk.) */
  lemma SeatKeepsOk(c: Court, d: nat, creator: Address, draws: seq<nat>, now: nat)
    requires CourtOk(c) && d in c.disputes && Seat(c, d, creator, draws, now).Ok?
    ensures CourtOk(Seat(c, d, creator, draws, now).value)
  {
    var e := Seat(c, d, creator, draws, now).value;
    SeatIsImpartial(c, d, creator, draws, now);
    SeatedJurors(c, e, d, e.panels[d], now);
    SeatedDisputes(c, e, d, e.panels[d], now);
    assert DisputeOk(c, d);
  }

  // ----- Votes

  lemma CommitKeepsOk(c: Court, d: nat, j: Address, hash: Hash, now: nat)
    requires CourtOk(c) && Commit(c, d, j, hash, now).Ok?
    ensures CourtOk(Commit(c, d, j, hash, now).value)
  {
    var e := Commit(c, d, j, hash, now).value;
    SameSessions(c, e);
    BallotCast(c, e, d, j);
  }

  lemma RevealKeepsOk(c: Court, sha: seq<Byte> -> Hash, d: nat, j: Address, vote: Resolution, payload: U32,
                      salt: seq<Byte>, now: nat)
    requires CourtOk(c) && Reveal(c, sha, d, j, vote, payload, salt, now).Ok?
    ensures CourtOk(Reveal(c, sha, d, j, vote, payload, salt, now).value)
  {
    var e := Reveal(c, sha, d, j, vote, payload, salt, now).value;
    SameSessions(c, e);
    BallotCast(c, e, d, j);
  }

  lemma BallotCast(c: Court, e: Court, d: nat, j: Address)
    requires DisputesOk(c) && BallotsOk(c) && d in c.disputes && d in c.panels
    requires (d, j) in e.ballots && e == c.(ballots := c.ballots[(d, j) := e.ballots[(d, j)]])
    requires e.ballots[(d, j)].revealed ==> e.ballots[(d, j)].vote != NoRes
    requires c.disputes[d].appealCount == 0 ==> j in c.panels[d]
    ensures DisputesOk(e) && BallotsOk(e)
  {
    forall x | x in e.disputes
      ensures x < e.nextId && DisputeOk(e, x)
    {
      assert DisputeOk(c, x);
    }
    forall x: nat, k | (x, k) in e.ballots
      ensures x in e.disputes && x in e.panels
      ensures e.ballots[(x, k)].revealed ==> e.ballots[(x, k)].vote != NoRes
      ensures e.disputes[x].appealCount == 0 ==> k in e.panels[x]
    {
      if (x, k) != (d, j) {
        assert (x, k) in c.ballots;
      }
    }
  }

  // ----- The tally

  /** What a tally changes, in terms of what each juror gets. */
  ghost predicate Tallied(c: Court, e: Court, d: nat, outcome: Resolution, now: nat) {
    && InSession(c.disputes, d) && d in c.panels && outcome != NoRes
    && var b := SettleAndReward(Books(c.jurors, c.feePool), c.ballots, d, c.panels[d], outcome);
    && e.jurors == b.jurors && e.feePool == b.pool
    && e.roster == c.roster && e.panels == c.panels && e.ballots == c.ballots && e.nextId == c.nextId
    && e.held == c.held && e.token == c.token
    && d in e.disputes && e.disputes[d].status == Resolved && e.disputes[d].resolution == outcome
    && e.disputes[d].appealCount == c.disputes[d].appealCount && e.disputes[d].createdAt == now
    && e.disputes == c.disputes[d := e.disputes[d]]
  }

  lemma TallyIsTallied(c: Court, d: nat, now: nat)
    requires TallyVotes(c, d, now).Ok?
    ensures Tallied(c, TallyVotes(c, d, now).value, d, Outcome(Leader(Revealed(c.ballots, d, c.panels[d]))), now)
  {
  }

  lemma TalliedLoad(c: Court, e: Court, d: nat, outcome: Resolution, now: nat, j: Address)
    requires Tallied(c, e, d, outcome, now)
    ensures |Load(e.disputes, e.panels, j)| == |Load(c.disputes, c.panels, j)| - if j in c.panels[d] then 1 else 0
  {
    var before, after := Load(c.disputes, c.panels, j), Load(e.disputes, e.panels, j);
    assert d !in after;
    forall x: nat | x != d
      ensures x in after <==> x in before
    {
      assert InSession(e.disputes, x) <==> InSession(c.disputes, x);
    }
    assert d in before <==> j in c.panels[d];
    assert before == if j in c.panels[d] then after + {d} else after;
  }

  lemma TalliedJurors(c: Court, e: Court, d: nat, outcome: Resolution, now: nat)
    requires RosterOk(c) && PanelsOk(c) && LoadOk(c) && MoneyOk(c) && Tallied(c, e, d, outcome, now)
    ensures RosterOk(e) && PanelsOk(e) && LoadOk(e) && MoneyOk(e)
  {
    var b, panel := Books(c.jurors, c.feePool), c.panels[d];
    TallyConserves(b, c.ballots, d, panel, outcome);
    var share := TallyRecords(b, c.ballots, d, panel, outcome);
    forall j | j in e.jurors
      ensures e.jurors[j].active == |Load(e.disputes, e.panels, j)|
    {
      TalliedLoad(c, e, d, outcome, now, j);
      assert c.jurors[j].active == |Load(c.disputes, c.panels, j)|;
    }
    forall x: nat | InSession(e.disputes, x)
      ensures x in e.panels && Distinct(e.panels[x]) && Registered(e.panels[x], e.jurors)
    {
      assert InSession(c.disputes, x);
    }
  }

  lemma TallyKeepsOk(c: Court, d: nat, now: nat)
    requires CourtOk(c) && TallyVotes(c, d, now).Ok?
    ensures CourtOk(TallyVotes(c, d, now).value)
  {
    var e := TallyVotes(c, d, now).value;
    var outcome := Outcome(Leader(Revealed(c.ballots, d, c.panels[d])));
    TallyIsTallied(c, d, now);
    TalliedJurors(c, e, d, outcome, now);
    DisputeMoved(c, e, d);
  }

  /** Only the record of dispute d changes, to one that is in order. */
  lemma DisputeMoved(c: Court, e: Court, d: nat)
    requires DisputesOk(c) && BallotsOk(c) && d in c.disputes && d in e.disputes
    requires e.panels == c.panels && e.ballots == c.ballots && e.nextId == c.nextId
    requires e.disputes == c.disputes[d := e.disputes[d]]
    requires DisputeOk(e, d) && c.disputes[d].appealCount <= e.disputes[d].appealCount
    ensures DisputesOk(e) && BallotsOk(e)
  {
    forall x | x in e.disputes
      ensures x < e.nextId && DisputeOk(e, x)
    {
      assert DisputeOk(c, x);
    }
    forall x: nat, k | (x, k) in e.ballots
      ensures x in e.disputes && x in e.panels
      ensures e.ballots[(x, k)].revealed ==> e.ballots[(x, k)].vote != NoRes
      ensures e.disputes[x].appealCount == 0 ==> k in e.panels[x]
    {
      assert (x, k) in c.ballots;
    }
  }

  /** Which outcome a tally writes down: an option that no other outnumbers on the panel, or the
      refund when nobody revealed. */
  lemma TallyPicksPlurality(c: Court, d: nat, now: nat)
    requires CourtOk(c) && TallyVotes(c, d, now).Ok?
    ensures var votes := Revealed(c.ballots, d, c.panels[d]);
      var outcome := TallyVotes(c, d, now).value.disputes[d].resolution;
      && outcome != NoRes
      && (forall v :: v != NoRes ==> Count(votes, v) <= Count(votes, outcome))
      && (votes == [] ==> outcome == RefBackers)
  {
    var votes := Revealed(c.ballots, d, c.panels[d]);
    LeaderIsAhead(votes);
    RevealedNameOptions(c, d, c.panels[d]);
  }

  lemma {:induction false} RevealedNameOptions(c: Court, d: nat, panel: seq<Address>)
    requires BallotsOk(c)
    ensures Count(Revealed(c.ballots, d, panel), NoRes) == 0
    decreases |panel|
  {
    if panel != [] {
      var n := |panel| - 1;
      var front := Revealed(c.ballots, d, panel[..n]);
      RevealedNameOptions(c, d, panel[..n]);
      if HasRevealed(c.ballots, d, panel[n]) {
        assert (d, panel[n]) in c.ballots;
        var all := front + [c.ballots[(d, panel[n])]];
        assert all[..|all| - 1] == front;
      } else {
        assert front + [] == front;
      }
    }
  }

  // ----- Appeals and enforcement

  /** An appeal as a whole: the fee, and a new panel at once. */
  function AppealAndSeat(c: Court, d: nat, creator: Address, draws: seq<nat>, now: nat): Result<Court, Error> {
    var appealed :- Appeal(c, d, now);
    Seat(appealed, d, creator, draws, now)
  }

  lemma AppealMoney(c: Court, d: nat, now: nat)
    requires RosterOk(c) && PanelsOk(c) && LoadOk(c) && MoneyOk(c) && Appeal(c, d, now).Ok?
    ensures var a := Appeal(c, d, now).value; RosterOk(a) && PanelsOk(a) && LoadOk(a) && MoneyOk(a)
  {
    SameSessions(c, Appeal(c, d, now).value);
    BookedAdds(c.held, c.token.value, APPEAL_FEE);
  }

  lemma AppealKeepsOk(c: Court, d: nat, creator: Address, draws: seq<nat>, now: nat)
    requires CourtOk(c) && AppealAndSeat(c, d, creator, draws, now).Ok?
    ensures CourtOk(AppealAndSeat(c, d, creator, draws, now).value)
  {
    var a := Appeal(c, d, now).value;
    var e := AppealAndSeat(c, d, creator, draws, now).value;
    AppealMoney(c, d, now);
    SeatIsImpartial(a, d, creator, draws, now);
    SeatedJurors(a, e, d, e.panels[d], now);
    assert DisputeOk(c, d);
    AppealedDisputes(c, e, d);
  }

  lemma AppealedDisputes(c: Court, e: Court, d: nat)
    requires DisputesOk(c) && BallotsOk(c) && d in c.disputes && d in c.panels
    requires d in e.disputes && d in e.panels && e.ballots == c.ballots && e.nextId == c.nextId
    requires e.disputes == c.disputes[d := e.disputes[d]] && e.panels == c.panels[d := e.panels[d]]
    requires DisputeOk(e, d) && 0 < e.disputes[d].appealCount
    ensures DisputesOk(e) && BallotsOk(e)
  {
    forall x | x in e.disputes
      ensures x < e.nextId && DisputeOk(e, x)
    {
      assert DisputeOk(c, x);
    }
    forall x: nat, k | (x, k) in e.ballots
      ensures x in e.disputes && x in e.panels
      ensures e.ballots[(x, k)].revealed ==> e.ballots[(x, k)].vote != NoRes
      ensures e.disputes[x].appealCount == 0 ==> k in e.panels[x]
    {
      assert (x, k) in c.ballots;
    }
  }

  lemma FinalizeKeepsOk(c: Court, d: nat, now: nat)
    requires CourtOk(c) && Finalize(c, d, now).Ok?
    ensures CourtOk(Finalize(c, d, now).value)
  {
    var e := Finalize(c, d, now).value;
    SameSessions(c, e);
    assert DisputeOk(c, d);
    DisputeMoved(c, e, d);
  }

  // ----- Which ballots a new panel starts with

  /** Nobody on the panel has a ballot stored for the dispute. */
  ghost predicate Fresh(c: Court, d: nat, panel: seq<Address>) {
    forall j :: j in panel ==> (d, j) !in c.ballots
  }

  /** Ballots are kept under dispute and juror only, and a new panel excludes no more than the panel
      before it. On the first appeal that is enough: nobody seated has voted on the dispute. */
  lemma FirstAppealIsFresh(c: Court, d: nat, creator: Address, draws: seq<nat>, now: nat)
    requires CourtOk(c) && AppealAndSeat(c, d, creator, draws, now).Ok? && c.disputes[d].appealCount == 0
    ensures var e := AppealAndSeat(c, d, creator, draws, now).value;
      d in e.panels && Fresh(e, d, e.panels[d])
  {
    var a := Appeal(c, d, now).value;
    var e := AppealAndSeat(c, d, creator, draws, now).value;
    SeatIsImpartial(a, d, creator, draws, now);
    assert DisputeOk(c, d);
    forall j | j in e.panels[d]
      ensures (d, j) !in e.ballots
    {
      assert j !in Barred(a, d, creator);
    }
  }

  /** On a later appeal it is not: an appeal that can be seated starts without old ballots, whatever
      the random numbers are, exactly when no impartial juror has a ballot from an earlier round. */
  lemma AppealIsFreshIff(c: Court, d: nat, creator: Address, now: nat)
    requires CourtOk(c) && Appeal(c, d, now).Ok?
    requires var a := Appeal(c, d, now).value;
      |c.jurors.Keys - Barred(a, d, creator)| >= APPEAL_JURY_SIZE
    ensures var a := Appeal(c, d, now).value;
      (forall draws :: FreshAfter(c, d, creator, draws, now))
        <==> (forall j :: j in c.jurors.Keys - Barred(a, d, creator) ==> (d, j) !in c.ballots)
  {
    var a := Appeal(c, d, now).value;
    var impartial := c.jurors.Keys - Barred(a, d, creator);
    if j :| j in impartial && (d, j) in c.ballots {
      var draws := OldBallotReturns(c, d, creator, now, j);
      assert !FreshAfter(c, d, creator, draws, now);
    } else {
      forall draws: seq<nat>
        ensures FreshAfter(c, d, creator, draws, now)
      {
        NobodyVotedBefore(c, d, creator, draws, now);
      }
    }
  }

  /** Any impartial panel of the right size can be seated. */
  lemma ChosenSeat(c: Court, d: nat, creator: Address, panel: seq<Address>, now: nat) returns (draws: seq<nat>)
    requires RosterOk(c) && d in c.disputes
    requires c.disputes[d].status == Pending || c.disputes[d].status == Appealed
    requires |panel| == Seats(c.disputes[d].status) && Distinct(panel)
    requires forall j :: j in panel ==> MaySit(c, d, creator, j)
    ensures Seat(c, d, creator, draws, now)
      == Ok(c.(jurors := Summon(c.jurors, panel), panels := c.panels[d := panel],
               disputes := c.disputes[d := c.disputes[d].(status := Voting, createdAt := now)]))
  {
    var barred := Barred(c, d, creator);
    CandidatesAreNotBarred(c, d, creator);
    draws := EveryJuryCanBeDrawn(c.roster, barred, [], panel, []);
    assert [] + panel == panel;
    FitsOnRoster(c, panel);
  }

  lemma FitsOnRoster(c: Court, panel: seq<Address>)
    requires RosterOk(c) && Distinct(panel) && forall j :: j in panel ==> j in c.jurors
    ensures |panel| <= |c.roster|
  {
    DistinctSize(panel);
    DistinctSize(c.roster);
    SubsetSize(Members(panel), Members(c.roster));
  }

  /** A juror with an old ballot who is impartial again can be drawn. If the ballot is a revealed one it
      is then among the votes that the new round counts. */
  lemma OldBallotReturns(c: Court, d: nat, creator: Address, now: nat, j: Address) returns (draws: seq<nat>)
    requires RosterOk(c) && Appeal(c, d, now).Ok? && (d, j) in c.ballots
    requires var impartial := c.jurors.Keys - Barred(Appeal(c, d, now).value, d, creator);
      j in impartial && |impartial| >= APPEAL_JURY_SIZE
    ensures var e := AppealAndSeat(c, d, creator, draws, now);
      && e.Ok? && d in e.value.panels && j in e.value.panels[d] && !FreshAfter(c, d, creator, draws, now)
      && e.value.ballots == c.ballots && d in e.value.disputes && e.value.disputes[d].status == Voting
      && (HasRevealed(c.ballots, d, j) ==> c.ballots[(d, j)] in Revealed(e.value.ballots, d, e.value.panels[d]))
  {
    var a := Appeal(c, d, now).value;
    var barred := Barred(a, d, creator);
    var panel := PanelWith(c.jurors.Keys - barred, j);
    CandidatesAreNotBarred(a, d, creator);
    draws := ChosenSeat(a, d, creator, panel, now);
    if HasRevealed(c.ballots, d, j) {
      RevealedHolds(c.ballots, d, panel, j);
    }
  }

  /** The revealed ballot of every panel member is counted. */
  lemma {:induction false} RevealedHolds(ballots: Ballots, d: nat, panel: seq<Address>, j: Address)
    requires j in panel && HasRevealed(ballots, d, j)
    ensures ballots[(d, j)] in Revealed(ballots, d, panel)
    decreases |panel|
  {
    var n := |panel| - 1;
    if panel[n] != j {
      RevealedHolds(ballots, d, panel[..n], j);
    }
  }

  lemma NobodyVotedBefore(c: Court, d: nat, creator: Address, draws: seq<nat>, now: nat)
    requires RosterOk(c) && Appeal(c, d, now).Ok?
    requires forall j :: j in c.jurors.Keys - Barred(Appeal(c, d, now).value, d, creator) ==> (d, j) !in c.ballots
    ensures FreshAfter(c, d, creator, draws, now)
  {
    var a := Appeal(c, d, now).value;
    if Seat(a, d, creator, draws, now).Ok? {
      SeatIsImpartial(a, d, creator, draws, now);
    }
  }

  ghost predicate FreshAfter(c: Court, d: nat, creator: Address, draws: seq<nat>, now: nat) {
    var e := AppealAndSeat(c, d, creator, draws, now);
    e.Ok? ==> d in e.value.panels && Fresh(e.value, d, e.value.panels[d])
  }

  /** A panel of the size of an appeal jury, with j on it. */
  lemma PanelWith(from: set<Address>, j: Address) returns (panel: seq<Address>)
    requires j in from && |from| >= APPEAL_JURY_SIZE
    ensures |panel| == APPEAL_JURY_SIZE && Distinct(panel) && j in panel
    ensures forall k :: k in panel ==> k in from
  {
    panel := [j];
    var left := from - {j};
    while |panel| < APPEAL_JURY_SIZE
      invariant 1 <= |panel| <= APPEAL_JURY_SIZE && Distinct(panel) && j in panel
      invariant |left| == |from| - |panel| && left <= from
      invariant forall k :: k in panel ==> k in from && k !in left
      decreases APPEAL_JURY_SIZE - |panel|
    {
      var k :| k in left;
      panel := panel + [k];
      left := left - {k};
    }
  }
}
