/** The dispute court of contracts/escrow/src/lib.rs: jurors and their stakes, disputes, panels,
    blinded votes, settlement and appeals. */
module Court {
  import opened Machine
  import opened Outcomes
  import opened EscrowTypes
  import opened Jury
  import opened Tally

  const MIN_JUROR_STAKE := 5_000_000_000
  const JURY_SIZE: nat := 7
  const APPEAL_JURY_SIZE: nat := 13
  const VOTING_COMMIT_PERIOD := 259_200
  const VOTING_REVEAL_PERIOD := 172_800
  const APPEAL_WINDOW_PERIOD := 432_000
  const RESOLUTION_TIME_LOCK := 259_200
  const APPEAL_FEE := 1_000_000_000
  const MAX_APPEALS: nat := 2
  const SLASH := MIN_JUROR_STAKE / 10

  datatype Juror = Juror(stake: int, active: int, successful: nat, missed: nat)

  type Jurors = map<Address, Juror>

  datatype DisputeStatus = Pending | JurySelection | Voting | Resolved | Appealed | FinalResolved

  datatype Dispute = Dispute(projectId: nat, milestoneId: nat, initiator: Address, status: DisputeStatus,
                             createdAt: nat, resolution: Resolution, payload: nat, appealCount: nat)

  /** Token by token, what was taken in less what was paid out. */
  type Ledger = map<Address, int>

  function Balance(held: Ledger, token: Address): int {
    if token in held then held[token] else 0
  }

  function Booked(held: Ledger, token: Address, amount: int): Ledger {
    held[token := Balance(held, token) + amount]
  }

  /** The stored state of the court. `token` is the token that stakes and fees are taken in and stakes
      paid out in; it can be replaced. `held` counts these transfers. */
  datatype Court = Court(jurors: Jurors, roster: seq<Address>, disputes: map<nat, Dispute>, nextId: nat,
                         panels: map<nat, seq<Address>>, ballots: Ballots, feePool: int,
                         token: Option<Address>, held: Ledger)

  const EMPTY_COURT := Court(map[], [], map[], 1, map[], map[], 0, None, map[])

  // ----- Jurors

  function ConfigureToken(c: Court, token: Address): Court {
    c.(token := Some(token))
  }

  function Without(roster: seq<Address>, juror: Address): seq<Address> {
    if roster == [] then []
    else if roster[0] == juror then roster[1..]
    else [roster[0]] + Without(roster[1..], juror)
  }

  function Register(c: Court, juror: Address, stake: int): Result<Court, Error> {
    if stake < MIN_JUROR_STAKE then Err(JurorStakeL)
    else if juror in c.jurors then Err(JurorReg)
    else if c.token.None? then Err(NotInit)
    else
      Ok(c.(held := Booked(c.held, c.token.value, stake),
            jurors := c.jurors[juror := Juror(stake, 0, 0, 0)],
            roster := c.roster + [juror]))
  }

  function Deregister(c: Court, juror: Address): Result<Court, Error> {
    if juror !in c.jurors then Err(NotJuror)
    else if c.jurors[juror].active > 0 then Err(JurorAct)
    else if c.token.None? then Err(NotInit)
    else
      Ok(c.(held := Booked(c.held, c.token.value, 0 - c.jurors[juror].stake),
            jurors := c.jurors - {juror},
            roster := Without(c.roster, juror)))
  }

  // ----- Disputes and panels

  function Open(c: Court, projectId: nat, milestoneId: nat, initiator: Address, now: nat): Court {
    c.(disputes := c.disputes[c.nextId := Dispute(projectId, milestoneId, initiator, Pending, now, NoRes, 0, 0)],
       nextId := c.nextId + 1)
  }

  /** Every member of the panel has one more active dispute. */
  function Summon(jurors: Jurors, panel: seq<Address>): Jurors {
    if panel == [] then jurors
    else
      var m, j := Summon(jurors, panel[..|panel| - 1]), panel[|panel| - 1];
      if j in m then m[j := m[j].(active := m[j].active + 1)] else m
  }

  /** Who may not sit: the creator, the initiator and, on appeal, the panel before. */
  function Barred(c: Court, d: nat, creator: Address): set<Address>
    requires d in c.disputes
  {
    {creator, c.disputes[d].initiator}
      + if c.disputes[d].appealCount > 0 && d in c.panels then (set a | a in c.panels[d]) else {}
  }

  function JurySize(status: DisputeStatus): nat {
    if status == Appealed then APPEAL_JURY_SIZE else JURY_SIZE
  }

  function Seat(c: Court, d: nat, creator: Address, draws: seq<nat>, now: nat): Result<Court, Error>
    requires d in c.disputes
  {
    var dispute := c.disputes[d];
    var size := JurySize(dispute.status);
    if dispute.status != Pending && dispute.status != Appealed then Err(InvInput)
    else if |c.roster| < size then Err(InvInput)
    else
      var panel := Draw(c.roster, Barred(c, d, creator), size, [], draws, 0);
      if |panel| < size then Err(ConflictInt)
      else
        Ok(c.(jurors := Summon(c.jurors, panel),
              panels := c.panels[d := panel],
              disputes := c.disputes[d := dispute.(status := Voting, createdAt := now)]))
  }

  // ----- Votes

  function CommitEnd(dispute: Dispute): nat {
    dispute.createdAt + VOTING_COMMIT_PERIOD
  }

  function RevealEnd(dispute: Dispute): nat {
    dispute.createdAt + VOTING_COMMIT_PERIOD + VOTING_REVEAL_PERIOD
  }

  function Commit(c: Court, d: nat, juror: Address, hash: Hash, now: nat): Result<Court, Error> {
    if d !in c.disputes then Err(DispNF)
    else if c.disputes[d].status != Voting then Err(VoteNA)
    else if now > CommitEnd(c.disputes[d]) then Err(VoteNA)
    else if d !in c.panels then Err(NotFound)
    else if juror !in c.panels[d] then Err(NotJuror)
    else if (d, juror) in c.ballots then Err(AlreadyVoted)
    else Ok(c.(ballots := c.ballots[(d, juror) := Ballot(hash, false, NoRes, 0)]))
  }

  function Reveal(c: Court, sha: seq<Byte> -> Hash, d: nat, juror: Address, vote: Resolution, payload: U32,
                  salt: seq<Byte>, now: nat): Result<Court, Error>
  {
    if d !in c.disputes then Err(DispNF)
    else if now <= CommitEnd(c.disputes[d]) || now > RevealEnd(c.disputes[d]) then Err(RevealNA)
    else if (d, juror) !in c.ballots then Err(NotFound)
    else if c.ballots[(d, juror)].revealed then Err(AlreadyVoted)
    else if vote == NoRes then Err(InvInput)
    else if c.ballots[(d, juror)].hash != sha(Preimage(vote, payload, salt)) then Err(InvReveal)
    else
      var b := c.ballots[(d, juror)].(revealed := true, vote := vote, payload := payload);
      Ok(c.(ballots := c.ballots[(d, juror) := b]))
  }

  // ----- Settlement

  predicate InMajority(ballots: Ballots, d: nat, juror: Address, outcome: Resolution) {
    HasRevealed(ballots, d, juror) && ballots[(d, juror)].vote == outcome
  }

  function Majority(ballots: Ballots, d: nat, panel: seq<Address>, outcome: Resolution): seq<Address> {
    if panel == [] then []
    else
      var n := |panel| - 1;
      Majority(ballots, d, panel[..n], outcome) + if InMajority(ballots, d, panel[n], outcome) then [panel[n]] else []
  }

  /** A penalty, but never more than the stake. */
  function Slashed(stake: int): int {
    if stake < SLASH then stake else SLASH
  }

  /** One panel member's record after the tally, before rewards. */
  function Settled(j: Juror, majority: bool): Juror {
    if majority then j.(successful := j.successful + 1, active := j.active - 1)
    else j.(missed := j.missed + 1, active := j.active - 1, stake := j.stake - Slashed(j.stake))
  }

  /** The jurors and the fee pool once the panel is settled member by member. */
  datatype Books = Books(jurors: Jurors, pool: int)

  function Settle(b: Books, ballots: Ballots, d: nat, panel: seq<Address>, outcome: Resolution): Books {
    if panel == [] then b
    else
      var m, j := Settle(b, ballots, d, panel[..|panel| - 1], outcome), panel[|panel| - 1];
      if j !in m.jurors then m
      else
        var majority := InMajority(ballots, d, j, outcome);
        Books(m.jurors[j := Settled(m.jurors[j], majority)],
              m.pool + if majority then 0 else Slashed(m.jurors[j].stake))
  }

  function AddToStakes(jurors: Jurors, panel: seq<Address>, each: int): Jurors {
    if panel == [] then jurors
    else
      var m, j := AddToStakes(jurors, panel[..|panel| - 1], each), panel[|panel| - 1];
      if j in m then m[j := m[j].(stake := m[j].stake + each)] else m
  }

  /** The pool is shared out equally; what does not divide stays in it. */
  function Reward(b: Books, majority: seq<Address>): Books {
    if majority == [] || b.pool <= 0 then b
    else Books(AddToStakes(b.jurors, majority, b.pool / |majority|), b.pool % |majority|)
  }

  function SettleAndReward(b: Books, ballots: Ballots, d: nat, panel: seq<Address>, outcome: Resolution): Books {
    Reward(Settle(b, ballots, d, panel, outcome), Majority(ballots, d, panel, outcome))
  }

  function TallyVotes(c: Court, d: nat, now: nat): Result<Court, Error> {
    if d !in c.disputes then Err(DispNF)
    else if c.disputes[d].status != Voting then Err(VoteNA)
    else if now <= RevealEnd(c.disputes[d]) then Err(VoteNA)
    else if d !in c.panels then Err(NotFound)
    else
      var lead := Leader(Revealed(c.ballots, d, c.panels[d]));
      var b := SettleAndReward(Books(c.jurors, c.feePool), c.ballots, d, c.panels[d], Outcome(lead));
      Ok(c.(jurors := b.jurors, feePool := b.pool,
            disputes := c.disputes[d := c.disputes[d].(resolution := Outcome(lead), payload := lead.payload,
                                                       status := Resolved, createdAt := now)]))
  }

  // ----- Appeals and enforcement

  function Appeal(c: Court, d: nat, now: nat): Result<Court, Error> {
    if d !in c.disputes then Err(DispNF)
    else
      var dispute := c.disputes[d];
      if dispute.status != Resolved then Err(InvInput)
      else if now > dispute.createdAt + APPEAL_WINDOW_PERIOD then Err(AppealWinCl)
      else if dispute.appealCount >= MAX_APPEALS then Err(MaxAppeals)
      else if c.token.None? then Err(NotInit)
      else
        Ok(c.(held := Booked(c.held, c.token.value, APPEAL_FEE), feePool := c.feePool + APPEAL_FEE,
              disputes := c.disputes[d := dispute.(appealCount := dispute.appealCount + 1, status := Appealed)]))
  }

  function RequiredDelay(appealCount: nat): nat {
    if appealCount >= MAX_APPEALS then RESOLUTION_TIME_LOCK
    else Max(RESOLUTION_TIME_LOCK, APPEAL_WINDOW_PERIOD)
  }

  function Max(x: nat, y: nat): nat {
    if x < y then y else x
  }

  function Finalize(c: Court, d: nat, now: nat): Result<Court, Error> {
    if d !in c.disputes then Err(DispNF)
    else
      var dispute := c.disputes[d];
      if dispute.status != Resolved then Err(InvInput)
      else if now <= dispute.createdAt + RequiredDelay(dispute.appealCount) then Err(AppealWinCl)
      else Ok(c.(disputes := c.disputes[d := dispute.(status := FinalResolved)]))
  }

  // ----- The loops behind the functions

  method SummonAll(jurors: Jurors, panel: seq<Address>) returns (r: Jurors)
    requires forall j :: j in panel ==> j in jurors
    ensures r == Summon(jurors, panel)
  {
    r := jurors;
    for i := 0 to |panel|
      invariant r == Summon(jurors, panel[..i]) && r.Keys == jurors.Keys
    {
      assert panel[..i + 1][..i] == panel[..i];
      assert panel[i] in panel;
      var info := r[panel[i]];
      r := r[panel[i] := info.(active := info.active + 1)];
    }
    assert panel[..|panel|] == panel;
  }

  /** One turn of the settlement loop. */
  lemma SettleStep(b: Books, ballots: Ballots, d: nat, panel: seq<Address>, i: nat, outcome: Resolution)
    requires i < |panel| && panel[i] in Settle(b, ballots, d, panel[..i], outcome).jurors
    ensures var m, j := Settle(b, ballots, d, panel[..i], outcome), panel[i];
      var majority := InMajority(ballots, d, j, outcome);
      && Settle(b, ballots, d, panel[..i + 1], outcome)
         == Books(m.jurors[j := Settled(m.jurors[j], majority)],
                  m.pool + if majority then 0 else Slashed(m.jurors[j].stake))
      && Majority(ballots, d, panel[..i + 1], outcome)
         == Majority(ballots, d, panel[..i], outcome) + if majority then [j] else []
  {
    assert panel[..i + 1][..i] == panel[..i];
  }

  method SettleOne(before: Juror, isMajority: bool) returns (info: Juror, slashed: int)
    ensures info == Settled(before, isMajority) && slashed == if isMajority then 0 else Slashed(before.stake)
  {
    info, slashed := before, 0;
    if isMajority {
      info := info.(successful := info.successful + 1, active := info.active - 1);
    } else {
      slashed := if info.stake < SLASH then info.stake else SLASH;
      info := info.(missed := info.missed + 1, active := info.active - 1, stake := info.stake - slashed);
    }
  }

  /** The settlement loop: no panel member is missing from the register. */
  method SettleAll(jurors: Jurors, pool: int, ballots: Ballots, d: nat, panel: seq<Address>, outcome: Resolution)
    returns (r: Jurors, newPool: int, majority: seq<Address>)
    requires forall j :: j in panel ==> j in jurors
    ensures Books(r, newPool) == Settle(Books(jurors, pool), ballots, d, panel, outcome)
    ensures majority == Majority(ballots, d, panel, outcome) && r.Keys == jurors.Keys
  {
    r, newPool, majority := jurors, pool, [];
    for i := 0 to |panel|
      invariant Books(r, newPool) == Settle(Books(jurors, pool), ballots, d, panel[..i], outcome)
      invariant majority == Majority(ballots, d, panel[..i], outcome) && r.Keys == jurors.Keys
    {
      assert panel[i] in panel;
      SettleStep(Books(jurors, pool), ballots, d, panel, i, outcome);
      var juror := panel[i];
      var isMajority := false;
      if (d, juror) in ballots && ballots[(d, juror)].revealed && ballots[(d, juror)].vote == outcome {
        isMajority := true;
      }
      var info, slashed := SettleOne(r[juror], isMajority);
      if isMajority {
        majority := majority + [juror];
      }
      r, newPool := r[juror := info], newPool + slashed;
    }
    assert panel[..|panel|] == panel;
  }

  method RewardAll(jurors: Jurors, pool: int, majority: seq<Address>) returns (r: Jurors, newPool: int)
    requires forall j :: j in majority ==> j in jurors
    ensures Books(r, newPool) == Reward(Books(jurors, pool), majority)
  {
    r, newPool := jurors, pool;
    if |majority| == 0 {
      return;
    }
    if pool > 0 {
      var each := pool / |majority|;
      for i := 0 to |majority|
        invariant r == AddToStakes(jurors, majority[..i], each) && r.Keys == jurors.Keys
      {
        assert majority[..i + 1][..i] == majority[..i];
        assert majority[i] in majority;
        var info := r[majority[i]];
        r := r[majority[i] := info.(stake := info.stake + each)];
      }
      assert majority[..|majority|] == majority;
      newPool := pool % |majority|;
    }
  }
}
