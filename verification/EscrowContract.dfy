/** The escrow contract as it runs: entry points that read records from storage, change them and
    write them back. A call that fails leaves the storage as it was, because the host rolls it back. */
module EscrowContract {
  import opened Machine
  import opened Outcomes
  import opened EscrowTypes
  import M = Milestones
  import opened Jury
  import opened Tally
  import opened Court
  import C = Court
  import SettlementProofs
  import opened CourtProofs
  import opened Escrow
  import opened EscrowProofs

  /** Removing the vote records of the validators, one by one. */
  method ClearMilestoneVoters(p: M.Project, id: nat) returns (voters: set<(nat, Address)>)
    ensures voters == M.VotersWithout(p, id)
  {
    voters := p.voters;
    for i := 0 to |p.validators|
      invariant voters == set vote | vote in p.voters && !(vote.0 == id && vote.1 in p.validators[..i])
    {
      voters := voters - {(id, p.validators[i])};
      assert forall v :: v in p.validators[..i + 1] <==> v in p.validators[..i] || v == p.validators[i];
    }
    assert p.validators[..|p.validators|] == p.validators;
  }

  /** Adding up the amounts of all milestones of a project. */
  method GetTotalMilestoneAmount(p: M.Project) returns (total: Result<int, Error>)
    ensures total == M.TotalUpTo(p.milestones, p.counter)
  {
    var sum := 0;
    for id := 0 to p.counter
      invariant M.TotalUpTo(p.milestones, id) == Ok(sum)
      invariant forall n: nat {:trigger M.TotalUpTo(p.milestones, n)} :: n <= id ==> M.TotalUpTo(p.milestones, n).Ok?
    {
      if id in p.milestones {
        var next := Checked(sum + p.milestones[id].amount);
        if next.Err? {
          TotalFails(p.milestones, id + 1, p.counter);
          return next;
        }
        sum := next.value;
      }
    }
    return Ok(sum);
  }

  lemma {:induction false} TotalFails(milestones: map<nat, M.Milestone>, k: nat, n: nat)
    requires k <= n && M.TotalUpTo(milestones, k).Err?
    ensures M.TotalUpTo(milestones, n) == M.TotalUpTo(milestones, k)
    decreases n
  {
    if k < n {
      TotalFails(milestones, k, n - 1);
    }
  }

  /** With its milestone in place, an appeal succeeds or fails with the court's part of it. */
  lemma FileAppealByParts(s: State, d: nat, draws: seq<nat>, now: nat)
    requires d in s.court.disputes && s.court.disputes[d].projectId in s.projects
    requires s.court.disputes[d].milestoneId in s.projects[s.court.disputes[d].projectId].milestones
    ensures var dispute := s.court.disputes[d];
      var p := s.projects[dispute.projectId];
      var c, q := AppealAndSeat(s.court, d, p.creator, draws, now), M.Reset(p, dispute.milestoneId);
      && (c.Err? ==> FileAppeal(s, d, draws, now) == Err(c.error))
      && q.Ok?
      && (c.Ok? ==>
            && FileAppeal(s, d, draws, now)
               == Ok(s.(projects := s.projects[dispute.projectId := q.value], court := c.value)))
  {
  }

  class Contract {
    /** The hash function behind the commitments. */
    const sha: seq<Byte> -> Hash
    var projects: map<nat, M.Project>
    var jurors: Jurors
    var activeJurors: seq<Address>
    var disputes: map<nat, Dispute>
    var nextDisputeId: nat
    var jurorAssignments: map<nat, seq<Address>>
    var disputeVotes: Ballots
    var disputeFeePool: int
    var jurorToken: Option<Address>
    /** What was taken in and not paid out, token by token. */
    var held: Ledger
    var paused: bool

    constructor (sha: seq<Byte> -> Hash)
      ensures this.sha == sha && Valid() && Stored() == GENESIS
    {
      this.sha := sha;
      projects, jurors, activeJurors, disputes := map[], map[], [], map[];
      nextDisputeId, jurorAssignments, disputeVotes := 1, map[], map[];
      disputeFeePool, jurorToken, held, paused := 0, None, map[], false;
      new;
      GenesisIsOk(Stored());
    }

    function Courtroom(): Court
      reads this
    {
      Court(jurors, activeJurors, disputes, nextDisputeId, jurorAssignments, disputeVotes, disputeFeePool,
            jurorToken, held)
    }

    function Stored(): State
      reads this
    {
      State(projects, Courtroom(), paused)
    }

    ghost predicate Valid()
      reads this
    {
      StateOk(Stored())
    }

    /** Writing the records back. */
    method Store(s: State)
      modifies this
      ensures Stored() == s
    {
      projects, paused := s.projects, s.paused;
      jurors, activeJurors, disputes := s.court.jurors, s.court.roster, s.court.disputes;
      nextDisputeId, jurorAssignments, disputeVotes := s.court.nextId, s.court.panels, s.court.ballots;
      disputeFeePool, jurorToken, held := s.court.feePool, s.court.token, s.court.held;
    }

    // ----- Milestones

    method Initialize(id: nat, creator: Address, validators: seq<Address>, threshold: nat, fee: nat)
      returns (r: Result<(), Error>)
      requires Valid()
      modifies this`projects
      ensures Valid()
      ensures Ends(old(Stored()), Escrow.Initialize(old(Stored()), id, creator, validators, threshold, fee), r,
                   Stored())
    {
      if |validators| < M.MIN_VALIDATORS || fee > BASIS_POINTS {
        return Err(InvInput);
      }
      if id in projects {
        return Err(AlreadyInit);
      }
      if !(M.MIN_APPROVAL_THRESHOLD <= threshold <= M.MAX_APPROVAL_THRESHOLD) {
        return Err(InvInput);
      }
      InitializeKeepsOk(Stored(), id, creator, validators, threshold, fee);
      projects := projects[id := M.Project(creator, 0, 0, 0, validators, threshold, 0, map[], {})];
      return Ok(());
    }

    method Deposit(id: nat, amount: int) returns (r: Result<(), Error>)
      requires Valid()
      modifies this`projects
      ensures Valid()
      ensures Ends(old(Stored()), Escrow.Deposit(old(Stored()), id, amount), r, Stored())
    {
      if id !in projects {
        return Err(NotFound);
      }
      var p := projects[id];
      if amount <= 0 {
        return Err(InvInput);
      }
      if paused {
        return Err(Paused);
      }
      var deposited :- Checked(p.deposited + amount);
      DepositKeepsOk(Stored(), id, amount);
      projects := projects[id := p.(deposited := deposited)];
      return Ok(());
    }

    method CreateMilestone(id: nat, amount: int) returns (r: Result<(), Error>)
      requires Valid()
      modifies this`projects
      ensures Valid()
      ensures Ends(old(Stored()), Escrow.CreateMilestone(old(Stored()), id, amount), r, Stored())
    {
      if id !in projects {
        return Err(NotFound);
      }
      var p := projects[id];
      if amount <= 0 {
        return Err(InvInput);
      }
      var total :- GetTotalMilestoneAmount(p);
      var newTotal :- Checked(total + amount);
      if newTotal > p.deposited {
        return Err(EscrowInsuf);
      }
      if paused {
        return Err(Paused);
      }
      CreateKeepsOk(Stored(), id, amount);
      var milestone := M.Milestone(amount, M.Pending, 0, 0, 0);
      projects := projects[id := p.(counter := p.counter + 1, milestones := p.milestones[p.counter := milestone])];
      return Ok(());
    }

    method SubmitMilestone(id: nat, milestone: nat) returns (r: Result<(), Error>)
      requires Valid()
      modifies this`projects
      ensures Valid()
      ensures Ends(old(Stored()), Escrow.SubmitMilestone(old(Stored()), id, milestone), r, Stored())
    {
      if id !in projects || milestone !in projects[id].milestones {
        return Err(NotFound);
      }
      var p := projects[id];
      var m := p.milestones[milestone];
      if m.status != M.Pending {
        return Err(MstoneInv);
      }
      if paused {
        return Err(Paused);
      }
      SubmitKeepsOk(Stored(), id, milestone);
      m := m.(status := M.Submitted, approvals := 0, rejections := 0);
      var voters := ClearMilestoneVoters(p, milestone);
      projects := projects[id := p.(milestones := p.milestones[milestone := m], voters := voters)];
      return Ok(());
    }

    method VoteMilestone(id: nat, milestone: nat, voter: Address, approve: bool) returns (r: Result<(), Error>)
      requires Valid()
      modifies this`projects
      ensures Valid()
      ensures Ends(old(Stored()), Escrow.VoteMilestone(old(Stored()), id, milestone, voter, approve), r, Stored())
    {
      if id !in projects {
        return Err(NotFound);
      }
      ghost var s := Stored();
      var p :- CastVote(projects[id], milestone, voter, approve, paused);
      VoteKeepsOk(s, id, milestone, voter, approve);
      projects := projects[id := p];
      return Ok(());
    }

    /** The vote on one project's records. */
    static method CastVote(before: M.Project, milestone: nat, voter: Address, approve: bool, paused: bool)
      returns (r: Result<M.Project, Error>)
      ensures r == M.Vote(before, milestone, voter, approve, paused)
    {
      var p := before;
      if voter !in p.validators {
        return Err(NotValidator);
      }
      if milestone !in p.milestones {
        return Err(NotFound);
      }
      var m := p.milestones[milestone];
      if m.status != M.Submitted {
        return Err(MstoneInv);
      }
      if (milestone, voter) in p.voters {
        return Err(AlreadyVoted);
      }
      if approve {
        m := m.(approvals := m.approvals + 1);
      } else {
        m := m.(rejections := m.rejections + 1);
      }
      if paused {
        return Err(Paused);
      }
      p := p.(voters := p.voters + {(milestone, voter)});
      var byValue := M.SignaturesFor(m.amount, |p.validators|);
      var byThreshold := |p.validators| * p.threshold / BASIS_POINTS;
      var required := if byValue > byThreshold then byValue else byThreshold;
      if m.approvals >= required {
        m := m.(status := M.Approved);
        var released :- Checked(p.released + m.amount);
        if released > p.deposited {
          return Err(EscrowInsuf);
        }
        p := p.(released := released, paid := p.paid + m.amount);
        m := m.(releases := m.releases + 1);
      } else if m.rejections > |p.validators| - required {
        m := m.(status := M.Rejected);
      }
      return Ok(p.(milestones := p.milestones[milestone := m]));
    }

    method UpdateValidators(id: nat, validators: seq<Address>) returns (r: Result<(), Error>)
      requires Valid()
      modifies this`projects
      ensures Valid()
      ensures Ends(old(Stored()), Escrow.UpdateValidators(old(Stored()), id, validators), r, Stored())
    {
      if |validators| < M.MIN_VALIDATORS {
        return Err(InvInput);
      }
      if id !in projects {
        return Err(NotFound);
      }
      UpdateKeepsOk(Stored(), id, validators);
      projects := projects[id := projects[id].(validators := validators)];
      return Ok(());
    }

    method SetPaused(value: bool)
      requires Valid()
      modifies this`paused
      ensures Valid()
      ensures Stored() == old(Stored()).(paused := value)
    {
      PauseKeepsOk(Stored(), value);
      paused := value;
    }

    // ----- Jurors

    method ConfigureDisputeToken(token: Address)
      requires Valid()
      modifies this`jurorToken
      ensures Valid()
      ensures Stored() == old(Stored()).(court := ConfigureToken(old(Courtroom()), token))
    {
      ConfigureKeepsStateOk(Stored(), token);
      jurorToken := Some(token);
    }

    method RegisterAsJuror(juror: Address, stake: int) returns (r: Result<(), Error>)
      requires Valid()
      modifies this
      ensures Valid()
      ensures Ends(old(Stored()), Rule(old(Stored()), Register(old(Courtroom()), juror, stake)), r, Stored())
    {
      var s, c := Stored(), Courtroom();
      if stake < MIN_JUROR_STAKE {
        return Err(JurorStakeL);
      }
      if juror in c.jurors {
        return Err(JurorReg);
      }
      if c.token.None? {
        return Err(NotInit);
      }
      RegisterKeepsStateOk(s, juror, stake);
      Store(s.(court := c.(held := Booked(c.held, c.token.value, stake),
                           jurors := c.jurors[juror := Juror(stake, 0, 0, 0)],
                           roster := c.roster + [juror])));
      return Ok(());
    }

    method DeregisterAsJuror(juror: Address) returns (r: Result<(), Error>)
      requires Valid()
      modifies this
      ensures Valid()
      ensures Ends(old(Stored()), Rule(old(Stored()), Deregister(old(Courtroom()), juror)), r, Stored())
    {
      var s, c := Stored(), Courtroom();
      if juror !in c.jurors {
        return Err(NotJuror);
      }
      var info := c.jurors[juror];
      if info.active > 0 {
        return Err(JurorAct);
      }
      if c.token.None? {
        return Err(NotInit);
      }
      DeregisterKeepsStateOk(s, juror);
      Store(s.(court := c.(held := Booked(c.held, c.token.value, 0 - info.stake),
                           jurors := c.jurors - {juror},
                           roster := C.Without(c.roster, juror))));
      return Ok(());
    }

    // ----- Disputes

    method InitiateDispute(id: nat, milestone: nat, initiator: Address, contribution: int, now: nat)
      returns (r: Result<nat, Error>)
      requires Valid()
      modifies this
      ensures Valid()
      ensures Ends(old(Stored()), Escrow.InitiateDispute(old(Stored()), id, milestone, initiator, contribution, now), r,
                   Stored())
      ensures r.Ok? ==> r.value == old(nextDisputeId) && r.value !in old(disputes) && r.value in disputes
    {
      if id !in projects || milestone !in projects[id].milestones {
        return Err(NotFound);
      }
      var status := projects[id].milestones[milestone].status;
      if status != M.Rejected && status != M.Submitted {
        return Err(MstoneContest);
      }
      if initiator != projects[id].creator && contribution < MIN_CONTRIBUTION {
        return Err(Unauthorized);
      }
      InitiateKeepsOk(Stored(), id, milestone, initiator, contribution, now);
      var d := nextDisputeId;
      disputes := disputes[d := Dispute(id, milestone, initiator, Pending, now, NoRes, 0, 0)];
      nextDisputeId := d + 1;
      return Ok(d);
    }

    method SelectJury(d: nat, draws: seq<nat>, now: nat) returns (r: Result<(), Error>)
      requires Valid()
      modifies this
      ensures Valid()
      ensures Ends(old(Stored()), Escrow.SelectJury(old(Stored()), d, draws, now), r, Stored())
    {
      if d !in disputes {
        return Err(DispNF);
      }
      var dispute := disputes[d];
      if dispute.status != Pending && dispute.status != Appealed {
        return Err(InvInput);
      }
      // The escrow is found: disputes are only opened on milestones that exist.
      assert dispute.projectId in projects;
      var seated :- SeatPanel(Courtroom(), d, projects[dispute.projectId].creator, draws, now);
      SelectKeepsOk(Stored(), d, draws, now);
      jurors, jurorAssignments, disputes := seated.jurors, seated.panels, seated.disputes;
      return Ok(());
    }

    /** Drawing the panel of a dispute that is due for selection. */
    static method SeatPanel(c: Court, d: nat, creator: Address, draws: seq<nat>, now: nat)
      returns (r: Result<Court, Error>)
      requires d in c.disputes && (c.disputes[d].status == Pending || c.disputes[d].status == Appealed)
      requires RosterOk(c)
      ensures r == Seat(c, d, creator, draws, now)
    {
      var dispute := c.disputes[d];
      var size := JurySize(dispute.status);
      if |c.roster| < size {
        return Err(InvInput);
      }
      var previous := if dispute.appealCount > 0 && d in c.panels then c.panels[d] else [];
      var selected := DrawJury(c.roster, creator, dispute.initiator, previous, size, draws);
      assert {creator, dispute.initiator} + (set a | a in previous) == Barred(c, d, creator);
      if |selected| < size {
        return Err(ConflictInt);
      }
      DrawFillsIff(c.roster, Barred(c, d, creator), size, draws);
      var summoned := SummonAll(c.jurors, selected);
      return Ok(c.(jurors := summoned, panels := c.panels[d := selected],
                   disputes := c.disputes[d := dispute.(status := Voting, createdAt := now)]));
    }

    method CommitVote(d: nat, juror: Address, hash: Hash, now: nat) returns (r: Result<(), Error>)
      requires Valid()
      modifies this`disputeVotes
      ensures Valid()
      ensures Ends(old(Stored()), Rule(old(Stored()), Commit(old(Courtroom()), d, juror, hash, now)), r, Stored())
    {
      if d !in disputes {
        return Err(DispNF);
      }
      var dispute := disputes[d];
      if dispute.status != Voting {
        return Err(VoteNA);
      }
      if now > dispute.createdAt + VOTING_COMMIT_PERIOD {
        return Err(VoteNA);
      }
      // The panel is found: a dispute under vote has one.
      assert InSession(disputes, d);
      if juror !in jurorAssignments[d] {
        return Err(NotJuror);
      }
      if (d, juror) in disputeVotes {
        return Err(AlreadyVoted);
      }
      CommitKeepsStateOk(Stored(), d, juror, hash, now);
      disputeVotes := disputeVotes[(d, juror) := Ballot(hash, false, NoRes, 0)];
      return Ok(());
    }

    method RevealVote(d: nat, juror: Address, vote: Resolution, payload: U32, salt: seq<Byte>, now: nat)
      returns (r: Result<(), Error>)
      requires Valid()
      modifies this`disputeVotes
      ensures Valid()
      ensures Ends(old(Stored()),
                   Rule(old(Stored()), Reveal(old(Courtroom()), sha, d, juror, vote, payload, salt, now)),
                   r, Stored())
    {
      if d !in disputes {
        return Err(DispNF);
      }
      var commitEnd := disputes[d].createdAt + VOTING_COMMIT_PERIOD;
      var revealEnd := commitEnd + VOTING_REVEAL_PERIOD;
      if now <= commitEnd || now > revealEnd {
        return Err(RevealNA);
      }
      if (d, juror) !in disputeVotes {
        return Err(NotFound);
      }
      var commitment := disputeVotes[(d, juror)];
      if commitment.revealed {
        return Err(AlreadyVoted);
      }
      if vote == NoRes {
        return Err(InvInput);
      }
      if commitment.hash != sha(Preimage(vote, payload, salt)) {
        return Err(InvReveal);
      }
      RevealKeepsStateOk(Stored(), sha, d, juror, vote, payload, salt, now);
      disputeVotes := disputeVotes[(d, juror) := commitment.(revealed := true, vote := vote, payload := payload)];
      return Ok(());
    }

    method TallyVotes(d: nat, now: nat) returns (r: Result<(), Error>)
      requires Valid()
      modifies this
      ensures Valid()
      ensures Ends(old(Stored()), Rule(old(Stored()), C.TallyVotes(old(Courtroom()), d, now)), r, Stored())
    {
      var s := Stored();
      var c :- TallyDispute(s.court, d, now);
      TallyKeepsStateOk(s, d, now);
      Store(s.(court := c));
      return Ok(());
    }

    /** The tally of one dispute over the stored records. */
    static method TallyDispute(c: Court, d: nat, now: nat) returns (r: Result<Court, Error>)
      requires PanelsOk(c)
      ensures r == C.TallyVotes(c, d, now)
    {
      if d !in c.disputes {
        return Err(DispNF);
      }
      var dispute := c.disputes[d];
      if dispute.status != Voting {
        return Err(VoteNA);
      }
      if now <= dispute.createdAt + VOTING_COMMIT_PERIOD + VOTING_REVEAL_PERIOD {
        return Err(VoteNA);
      }
      // The panel is found: a dispute under vote has one.
      assert InSession(c.disputes, d);
      var panel := c.panels[d];
      var lead := FindLeader(c.ballots, d, panel);
      var outcome := if lead.vote == NoRes then RefBackers else lead.vote;
      var settled, pool := SettlePanel(c.jurors, c.feePool, c.ballots, d, panel, outcome);
      return Ok(c.(jurors := settled, feePool := pool,
                   disputes := c.disputes[d := dispute.(resolution := outcome, payload := lead.payload,
                                                        status := Resolved, createdAt := now)]));
    }

    /** Slashing, then rewards. */
    static method SettlePanel(jurors: Jurors, pool: int, ballots: Ballots, d: nat, panel: seq<Address>,
                              outcome: Resolution)
      returns (settled: Jurors, newPool: int)
      requires SettlementProofs.Registered(panel, jurors)
      ensures Books(settled, newPool) == SettleAndReward(Books(jurors, pool), ballots, d, panel, outcome)
    {
      var majority;
      settled, newPool, majority := SettleAll(jurors, pool, ballots, d, panel, outcome);
      SettlementProofs.MajorityMembers(ballots, d, panel, outcome);
      settled, newPool := RewardAll(settled, newPool, majority);
    }

    method FileAppeal(d: nat, draws: seq<nat>, now: nat) returns (r: Result<(), Error>)
      requires Valid()
      modifies this
      ensures Valid()
      ensures Ends(old(Stored()), Escrow.FileAppeal(old(Stored()), d, draws, now), r, Stored())
    {
      var s :- AppealState(Stored(), d, draws, now);
      Store(s);
      return Ok(());
    }

    /** The appeal over the stored records: the court's part, then the milestone's. */
    static method AppealState(s: State, d: nat, draws: seq<nat>, now: nat) returns (r: Result<State, Error>)
      requires StateOk(s)
      ensures r == Escrow.FileAppeal(s, d, draws, now)
      ensures r.Ok? ==> StateOk(r.value)
    {
      if d !in s.court.disputes {
        return Err(DispNF);
      }
      var dispute := s.court.disputes[d];
      // Escrow and milestone are found: disputes are only opened on milestones that exist.
      assert dispute.projectId in s.projects && dispute.milestoneId in s.projects[dispute.projectId].milestones;
      var p := s.projects[dispute.projectId];
      FileAppealByParts(s, d, draws, now);
      var c :- AppealDispute(s.court, d, p.creator, draws, now);
      var q := ReopenMilestone(p, dispute.milestoneId);
      AppealKeepsStateOk(s, d, draws, now);
      return Ok(s.(projects := s.projects[dispute.projectId := q], court := c));
    }

    /** The fee, the next round's number and the new panel. */
    static method AppealDispute(c: Court, d: nat, creator: Address, draws: seq<nat>, now: nat)
      returns (r: Result<Court, Error>)
      requires d in c.disputes && RosterOk(c)
      ensures r == AppealAndSeat(c, d, creator, draws, now)
    {
      var dispute := c.disputes[d];
      if dispute.status != Resolved {
        return Err(InvInput);
      }
      if now > dispute.createdAt + APPEAL_WINDOW_PERIOD {
        return Err(AppealWinCl);
      }
      if dispute.appealCount >= MAX_APPEALS {
        return Err(MaxAppeals);
      }
      if c.token.None? {
        return Err(NotInit);
      }
      var appealed := dispute.(appealCount := dispute.appealCount + 1, status := Appealed);
      r := SeatPanel(c.(held := Booked(c.held, c.token.value, APPEAL_FEE), feePool := c.feePool + APPEAL_FEE,
                        disputes := c.disputes[d := appealed]),
                     d, creator, draws, now);
    }

    /** The appealed milestone goes back to pending, without votes. */
    static method ReopenMilestone(p: M.Project, id: nat) returns (q: M.Project)
      requires id in p.milestones
      ensures M.Reset(p, id) == Ok(q)
    {
      var m := p.milestones[id].(status := M.Pending, approvals := 0, rejections := 0);
      var voters := ClearMilestoneVoters(p, id);
      q := p.(milestones := p.milestones[id := m], voters := voters);
    }

    method ExecuteResolution(d: nat, now: nat) returns (r: Result<(), Error>)
      requires Valid()
      modifies this
      ensures Valid()
      ensures Ends(old(Stored()), Escrow.ExecuteResolution(old(Stored()), d, now), r, Stored())
    {
      if d !in disputes {
        return Err(DispNF);
      }
      var dispute := disputes[d];
      if dispute.status != Resolved {
        return Err(InvInput);
      }
      if now <= dispute.createdAt + RequiredDelay(dispute.appealCount) {
        return Err(AppealWinCl);
      }
      ghost var s := Stored();
      assert dispute.projectId in projects && dispute.milestoneId in projects[dispute.projectId].milestones;
      var p :- EnforceResolution(projects[dispute.projectId], dispute.milestoneId, dispute.resolution, dispute.payload);
      ExecuteKeepsOk(s, d, now);
      disputes := disputes[d := dispute.(status := FinalResolved)];
      projects := projects[dispute.projectId := p];
      return Ok(());
    }

    static method EnforceResolution(before: M.Project, milestone: nat, resolution: Resolution, payload: nat)
      returns (r: Result<M.Project, Error>)
      requires milestone in before.milestones
      ensures r == M.Enforce(before, milestone, resolution, payload)
    {
      var p, m := before, before.milestones[milestone];
      var amount := 0;
      match resolution {
        case RelFunds =>
          amount := m.amount;
          m := m.(status := M.Approved);
        case RefBackers =>
          m := m.(status := M.Rejected);
        case PartRel =>
          var percent := if payload > BASIS_POINTS then BASIS_POINTS else payload;
          amount := Quot(m.amount * percent, BASIS_POINTS);
          m := m.(status := M.Approved);
        case NoRes =>
      }
      if amount > 0 {
        var released :- Checked(p.released + amount);
        if released > p.deposited {
          return Err(EscrowInsuf);
        }
        p := p.(released := released, paid := p.paid + amount);
        m := m.(releases := m.releases + 1);
      }
      return Ok(p.(milestones := p.milestones[milestone := m]));
    }
  }
}
