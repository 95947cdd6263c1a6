/** The escrow contract of contracts/escrow/src/lib.rs as a whole: the projects' escrows and the
    dispute court over one storage. */
module Escrow {
  import opened Outcomes
  import opened EscrowTypes
  import M = Milestones
  import opened Jury
  import opened Tally
  import opened Court

  const MIN_CONTRIBUTION := 100_000_000

  datatype State = State(projects: map<nat, M.Project>, court: Court, paused: bool)

  const GENESIS := State(map[], EMPTY_COURT, false)

  // ----- The calls, as functions on the whole state

  function Store(s: State, id: nat, p: Result<M.Project, Error>): Result<State, Error> {
    var q :- p;
    Ok(s.(projects := s.projects[id := q]))
  }

  function Rule(s: State, c: Result<Court, Error>): Result<State, Error> {
    var d :- c;
    Ok(s.(court := d))
  }

  function Initialize(s: State, id: nat, creator: Address, validators: seq<Address>, threshold: nat, fee: nat)
    : Result<State, Error>
  {
    if |validators| < M.MIN_VALIDATORS || fee > BASIS_POINTS then Err(InvInput)
    else if id in s.projects then Err(AlreadyInit)
    else Store(s, id, M.NewProject(creator, validators, threshold, fee))
  }

  function Deposit(s: State, id: nat, amount: int): Result<State, Error> {
    if id !in s.projects then Err(NotFound) else Store(s, id, M.Deposit(s.projects[id], amount, s.paused))
  }

  function CreateMilestone(s: State, id: nat, amount: int): Result<State, Error> {
    if id !in s.projects then Err(NotFound) else Store(s, id, M.Create(s.projects[id], amount, s.paused))
  }

  function SubmitMilestone(s: State, id: nat, milestone: nat): Result<State, Error> {
    if id !in s.projects then Err(NotFound) else Store(s, id, M.Submit(s.projects[id], milestone, s.paused))
  }

  function VoteMilestone(s: State, id: nat, milestone: nat, voter: Address, approve: bool): Result<State, Error> {
    if id !in s.projects then Err(NotFound)
    else Store(s, id, M.Vote(s.projects[id], milestone, voter, approve, s.paused))
  }

  function UpdateValidators(s: State, id: nat, validators: seq<Address>): Result<State, Error> {
    if |validators| < M.MIN_VALIDATORS then Err(InvInput)
    else if id !in s.projects then Err(NotFound)
    else Store(s, id, M.SetValidators(s.projects[id], validators))
  }

  /** `contribution` is what the project contract answers for the initiator. */
  function InitiateDispute(s: State, id: nat, milestone: nat, initiator: Address, contribution: int, now: nat)
    : Result<State, Error>
  {
    if id !in s.projects || milestone !in s.projects[id].milestones then Err(NotFound)
    else if s.projects[id].milestones[milestone].status != M.Rejected
         && s.projects[id].milestones[milestone].status != M.Submitted then Err(MstoneContest)
    else if initiator != s.projects[id].creator && contribution < MIN_CONTRIBUTION then Err(Unauthorized)
    else Ok(s.(court := Open(s.court, id, milestone, initiator, now)))
  }

  function SelectJury(s: State, d: nat, draws: seq<nat>, now: nat): Result<State, Error> {
    if d !in s.court.disputes then Err(DispNF)
    else
      var dispute := s.court.disputes[d];
      if dispute.status != Pending && dispute.status != Appealed then Err(InvInput)
      else if |s.court.roster| < JurySize(dispute.status) then Err(InvInput)
      else if dispute.projectId !in s.projects then Err(NotFound)
      else Rule(s, Seat(s.court, d, s.projects[dispute.projectId].creator, draws, now))
  }

  function FileAppeal(s: State, d: nat, draws: seq<nat>, now: nat): Result<State, Error> {
    var appealed :- Appeal(s.court, d, now);
    var dispute := s.court.disputes[d];
    if dispute.projectId !in s.projects then Err(NotFound)
    else
      var p :- M.Reset(s.projects[dispute.projectId], dispute.milestoneId);
      var seated :- Seat(appealed, d, p.creator, draws, now);
      Ok(s.(projects := s.projects[dispute.projectId := p], court := seated))
  }

  function ExecuteResolution(s: State, d: nat, now: nat): Result<State, Error> {
    var final :- Finalize(s.court, d, now);
    var dispute := s.court.disputes[d];
    if dispute.projectId !in s.projects then Err(NotFound)
    else
      var p :- M.Enforce(s.projects[dispute.projectId], dispute.milestoneId, dispute.resolution, dispute.payload);
      Ok(s.(projects := s.projects[dispute.projectId := p], court := final))
  }

  datatype Call =
    | InitializeCall(id: nat, creator: Address, validators: seq<Address>, threshold: nat, fee: nat)
    | DepositCall(id: nat, amount: int)
    | CreateMilestoneCall(id: nat, amount: int)
    | SubmitMilestoneCall(id: nat, milestone: nat)
    | VoteMilestoneCall(id: nat, milestone: nat, voter: Address, approve: bool)
    | UpdateValidatorsCall(id: nat, validators: seq<Address>)
    | SetPausedCall(paused: bool)
    | ConfigureTokenCall(token: Address)
    | RegisterCall(juror: Address, stake: int)
    | DeregisterCall(juror: Address)
    | InitiateDisputeCall(id: nat, milestone: nat, initiator: Address, contribution: int, now: nat)
    | SelectJuryCall(d: nat, draws: seq<nat>, now: nat)
    | CommitVoteCall(d: nat, juror: Address, hash: Hash, now: nat)
    | RevealVoteCall(d: nat, juror: Address, vote: Resolution, payload: U32, salt: seq<Byte>, now: nat)
    | TallyVotesCall(d: nat, now: nat)
    | FileAppealCall(d: nat, draws: seq<nat>, now: nat)
    | ExecuteResolutionCall(d: nat, now: nat)
}

/** What every run of the contract keeps. */
module EscrowProofs {
  import opened Outcomes
  import opened EscrowTypes
  import M = Milestones
  import opened MilestoneProofs
  import opened Jury
  import opened Tally
  import opened Court
  import opened CourtProofs
  import opened Escrow

  ghost predicate Disputed(c: Court, id: nat) {
    exists d :: d in c.disputes && c.disputes[d].projectId == id
  }

  /** Every dispute is about a milestone that exists. */
  ghost predicate Linked(s: State) {
    forall d :: d in s.court.disputes ==>
      && s.court.disputes[d].projectId in s.projects
      && s.court.disputes[d].milestoneId in s.projects[s.court.disputes[d].projectId].milestones
  }

  /** The same disputes about the same milestones. */
  ghost predicate SameSubjects(c: Court, e: Court) {
    && e.disputes.Keys == c.disputes.Keys
    && forall d :: d in c.disputes ==>
      && e.disputes[d].projectId == c.disputes[d].projectId
      && e.disputes[d].milestoneId == c.disputes[d].milestoneId
  }

  /** In all projects there are enough validators and releases stay within deposits; where no dispute
      was ever opened they are exactly the approved amounts. */
  ghost predicate ProjectOk(s: State, id: nat)
    requires id in s.projects
  {
    && Configured(s.projects[id]) && Funded(s.projects[id])
    && (Disputed(s.court, id) || Exact(s.projects[id]))
  }

  ghost predicate ProjectsOk(s: State) {
    forall id {:trigger ProjectOk(s, id)} :: id in s.projects ==> ProjectOk(s, id)
  }

  ghost predicate StateOk(s: State) {
    CourtOk(s.court) && ProjectsOk(s) && Linked(s)
  }

  // ----- One project changes

  lemma ProjectStored(s: State, id: nat, q: M.Project)
    requires StateOk(s)
    requires Configured(q) && Funded(q) && (Disputed(s.court, id) || Exact(q))
    requires id in s.projects ==> s.projects[id].milestones.Keys <= q.milestones.Keys
    ensures StateOk(s.(projects := s.projects[id := q]))
  {
    var t := s.(projects := s.projects[id := q]);
    forall x | x in t.projects
      ensures ProjectOk(t, x)
    {
      if x != id {
        assert ProjectOk(s, x);
      }
    }
  }

  /** The court changes, and its disputes are about the same milestones as before. */
  lemma CourtStored(s: State, c: Court)
    requires StateOk(s) && CourtOk(c)
    requires SameSubjects(s.court, c)
    ensures StateOk(s.(court := c))
  {
    var t := s.(court := c);
    forall id | id in t.projects
      ensures ProjectOk(t, id)
    {
      assert ProjectOk(s, id);
      if Disputed(s.court, id) {
        var d :| d in s.court.disputes && s.court.disputes[d].projectId == id;
        assert d in c.disputes;
      }
    }
  }

  lemma InitializeKeepsOk(s: State, id: nat, creator: Address, validators: seq<Address>, threshold: nat, fee: nat)
    requires StateOk(s) && Initialize(s, id, creator, validators, threshold, fee).Ok?
    ensures StateOk(Initialize(s, id, creator, validators, threshold, fee).value)
  {
    var p := M.NewProject(creator, validators, threshold, fee).value;
    assert Amounts(p.milestones) == map[] && ApprovedAmounts(p.milestones) == map[];
    ProjectStored(s, id, p);
  }

  lemma DepositKeepsOk(s: State, id: nat, amount: int)
    requires StateOk(s) && Deposit(s, id, amount).Ok?
    ensures StateOk(Deposit(s, id, amount).value)
  {
    assert ProjectOk(s, id);
    ProjectStored(s, id, M.Deposit(s.projects[id], amount, s.paused).value);
  }

  lemma CreateKeepsOk(s: State, id: nat, amount: int)
    requires StateOk(s) && CreateMilestone(s, id, amount).Ok?
    ensures StateOk(CreateMilestone(s, id, amount).value)
  {
    assert ProjectOk(s, id);
    CreateKeepsFunded(s.projects[id], amount, s.paused);
    if Exact(s.projects[id]) {
      CreateKeepsExact(s.projects[id], amount, s.paused);
    }
    ProjectStored(s, id, M.Create(s.projects[id], amount, s.paused).value);
  }

  lemma SubmitKeepsOk(s: State, id: nat, milestone: nat)
    requires StateOk(s) && SubmitMilestone(s, id, milestone).Ok?
    ensures StateOk(SubmitMilestone(s, id, milestone).value)
  {
    assert ProjectOk(s, id);
    var p := s.projects[id];
    var q := M.Submit(p, milestone, s.paused).value;
    SameAmountsKeepsFunded(p, q);
    if Exact(p) {
      SubmitKeepsExact(p, milestone, s.paused);
    }
    ProjectStored(s, id, q);
  }

  lemma VoteKeepsOk(s: State, id: nat, milestone: nat, voter: Address, approve: bool)
    requires StateOk(s) && VoteMilestone(s, id, milestone, voter, approve).Ok?
    ensures StateOk(VoteMilestone(s, id, milestone, voter, approve).value)
  {
    assert ProjectOk(s, id);
    var p := s.projects[id];
    VoteKeepsFunded(p, milestone, voter, approve, s.paused);
    if Exact(p) {
      VoteKeepsExact(p, milestone, voter, approve, s.paused);
    }
    ProjectStored(s, id, M.Vote(p, milestone, voter, approve, s.paused).value);
  }

  lemma UpdateKeepsOk(s: State, id: nat, validators: seq<Address>)
    requires StateOk(s) && UpdateValidators(s, id, validators).Ok?
    ensures StateOk(UpdateValidators(s, id, validators).value)
  {
    assert ProjectOk(s, id);
    ProjectStored(s, id, M.SetValidators(s.projects[id], validators).value);
  }

  // ----- The court changes

  lemma InitiateKeepsOk(s: State, id: nat, milestone: nat, initiator: Address, contribution: int, now: nat)
    requires StateOk(s) && InitiateDispute(s, id, milestone, initiator, contribution, now).Ok?
    ensures StateOk(InitiateDispute(s, id, milestone, initiator, contribution, now).value)
  {
    OpenKeepsOk(s.court, id, milestone, initiator, now);
    var t := InitiateDispute(s, id, milestone, initiator, contribution, now).value;
    assert s.court.nextId !in s.court.disputes;
    forall x | x in t.projects
      ensures ProjectOk(t, x)
    {
      assert ProjectOk(s, x);
      if Disputed(s.court, x) {
        var d :| d in s.court.disputes && s.court.disputes[d].projectId == x;
        assert d in t.court.disputes && t.court.disputes[d].projectId == x;
      }
    }
  }

  lemma SelectParts(s: State, d: nat, draws: seq<nat>, now: nat)
    requires SelectJury(s, d, draws, now).Ok?
    ensures d in s.court.disputes && s.court.disputes[d].projectId in s.projects
    ensures var c := Seat(s.court, d, s.projects[s.court.disputes[d].projectId].creator, draws, now);
      && c.Ok?
      && SameSubjects(s.court, c.value)
      && SelectJury(s, d, draws, now) == Ok(s.(court := c.value))
  {
  }

  lemma SelectKeepsOk(s: State, d: nat, draws: seq<nat>, now: nat)
    requires StateOk(s) && SelectJury(s, d, draws, now).Ok?
    ensures StateOk(SelectJury(s, d, draws, now).value)
  {
    SelectParts(s, d, draws, now);
    var creator := s.projects[s.court.disputes[d].projectId].creator;
    SeatKeepsOk(s.court, d, creator, draws, now);
    CourtStored(s, Seat(s.court, d, creator, draws, now).value);
  }

  lemma ConfigureKeepsStateOk(s: State, token: Address)
    requires StateOk(s)
    ensures StateOk(s.(court := ConfigureToken(s.court, token)))
  {
    ConfigureKeepsOk(s.court, token);
    CourtStored(s, ConfigureToken(s.court, token));
  }

  lemma RegisterKeepsStateOk(s: State, juror: Address, stake: int)
    requires StateOk(s) && Register(s.court, juror, stake).Ok?
    ensures StateOk(s.(court := Register(s.court, juror, stake).value))
  {
    RegisterKeepsOk(s.court, juror, stake);
    CourtStored(s, Register(s.court, juror, stake).value);
  }

  lemma DeregisterKeepsStateOk(s: State, juror: Address)
    requires StateOk(s) && Deregister(s.court, juror).Ok?
    ensures StateOk(s.(court := Deregister(s.court, juror).value))
  {
    DeregisterKeepsOk(s.court, juror);
    CourtStored(s, Deregister(s.court, juror).value);
  }

  lemma CommitKeepsStateOk(s: State, d: nat, juror: Address, hash: Hash, now: nat)
    requires StateOk(s) && Commit(s.court, d, juror, hash, now).Ok?
    ensures StateOk(s.(court := Commit(s.court, d, juror, hash, now).value))
  {
    CommitKeepsOk(s.court, d, juror, hash, now);
    CourtStored(s, Commit(s.court, d, juror, hash, now).value);
  }

  lemma RevealKeepsStateOk(s: State, sha: seq<Byte> -> Hash, d: nat, juror: Address, vote: Resolution, payload: U32,
                           salt: seq<Byte>, now: nat)
    requires StateOk(s) && Reveal(s.court, sha, d, juror, vote, payload, salt, now).Ok?
    ensures StateOk(s.(court := Reveal(s.court, sha, d, juror, vote, payload, salt, now).value))
  {
    RevealKeepsOk(s.court, sha, d, juror, vote, payload, salt, now);
    CourtStored(s, Reveal(s.court, sha, d, juror, vote, payload, salt, now).value);
  }

  lemma TallyKeepsStateOk(s: State, d: nat, now: nat)
    requires StateOk(s) && TallyVotes(s.court, d, now).Ok?
    ensures StateOk(s.(court := TallyVotes(s.court, d, now).value))
  {
    TallyKeepsOk(s.court, d, now);
    CourtStored(s, TallyVotes(s.court, d, now).value);
  }

  /** The court changes and so does one disputed project. */
  lemma BothStored(s: State, c: Court, id: nat, q: M.Project)
    requires StateOk(s) && CourtOk(c) && Configured(q) && Funded(q) && Disputed(s.court, id) && id in s.projects
    requires s.projects[id].milestones.Keys <= q.milestones.Keys
    requires SameSubjects(s.court, c)
    ensures StateOk(s.(projects := s.projects[id := q], court := c))
  {
    CourtStored(s, c);
    var d :| d in s.court.disputes && s.court.disputes[d].projectId == id;
    assert c.disputes[d].projectId == id;
    ProjectStored(s.(court := c), id, q);
  }

  /** An appeal is the court's part and the project's part. */
  lemma AppealParts(s: State, d: nat, draws: seq<nat>, now: nat)
    requires FileAppeal(s, d, draws, now).Ok?
    ensures d in s.court.disputes && s.court.disputes[d].projectId in s.projects
    ensures var dispute := s.court.disputes[d];
      var p := s.projects[dispute.projectId];
      var c, q := AppealAndSeat(s.court, d, p.creator, draws, now), M.Reset(p, dispute.milestoneId);
      && c.Ok? && q.Ok?
      && SameSubjects(s.court, c.value)
      && FileAppeal(s, d, draws, now) == Ok(s.(projects := s.projects[dispute.projectId := q.value], court := c.value))
  {
  }

  lemma AppealKeepsStateOk(s: State, d: nat, draws: seq<nat>, now: nat)
    requires StateOk(s) && FileAppeal(s, d, draws, now).Ok?
    ensures StateOk(FileAppeal(s, d, draws, now).value)
  {
    AppealParts(s, d, draws, now);
    var dispute := s.court.disputes[d];
    var p := s.projects[dispute.projectId];
    var q := M.Reset(p, dispute.milestoneId).value;
    assert ProjectOk(s, dispute.projectId);
    SameAmountsKeepsFunded(p, q);
    AppealKeepsOk(s.court, d, p.creator, draws, now);
    BothStored(s, AppealAndSeat(s.court, d, p.creator, draws, now).value, dispute.projectId, q);
  }

  lemma ExecuteParts(s: State, d: nat, now: nat)
    requires ExecuteResolution(s, d, now).Ok?
    ensures d in s.court.disputes && s.court.disputes[d].projectId in s.projects
    ensures var dispute := s.court.disputes[d];
      var c := Finalize(s.court, d, now);
      var q := M.Enforce(s.projects[dispute.projectId], dispute.milestoneId, dispute.resolution, dispute.payload);
      && c.Ok? && q.Ok?
      && SameSubjects(s.court, c.value)
      && ExecuteResolution(s, d, now) == Ok(s.(projects := s.projects[dispute.projectId := q.value], court := c.value))
  {
  }

  lemma ExecuteKeepsOk(s: State, d: nat, now: nat)
    requires StateOk(s) && ExecuteResolution(s, d, now).Ok?
    ensures StateOk(ExecuteResolution(s, d, now).value)
  {
    ExecuteParts(s, d, now);
    var dispute := s.court.disputes[d];
    var p := s.projects[dispute.projectId];
    assert ProjectOk(s, dispute.projectId);
    FinalizeKeepsOk(s.court, d, now);
    EnforceKeepsFunded(p, dispute.milestoneId, dispute.resolution, dispute.payload);
    BothStored(s, Finalize(s.court, d, now).value, dispute.projectId,
               M.Enforce(p, dispute.milestoneId, dispute.resolution, dispute.payload).value);
  }

  // ----- Every run

  function Apply(s: State, sha: seq<Byte> -> Hash, call: Call): Result<State, Error> {
    match call
    case InitializeCall(id, creator, validators, threshold, fee) =>
      Initialize(s, id, creator, validators, threshold, fee)
    case DepositCall(id, amount) => Deposit(s, id, amount)
    case CreateMilestoneCall(id, amount) => CreateMilestone(s, id, amount)
    case SubmitMilestoneCall(id, milestone) => SubmitMilestone(s, id, milestone)
    case VoteMilestoneCall(id, milestone, voter, approve) => VoteMilestone(s, id, milestone, voter, approve)
    case UpdateValidatorsCall(id, validators) => UpdateValidators(s, id, validators)
    case SetPausedCall(paused) => Ok(s.(paused := paused))
    case ConfigureTokenCall(token) => Rule(s, Ok(ConfigureToken(s.court, token)))
    case RegisterCall(juror, stake) => Rule(s, Register(s.court, juror, stake))
    case DeregisterCall(juror) => Rule(s, Deregister(s.court, juror))
    case InitiateDisputeCall(id, milestone, initiator, contribution, now) =>
      InitiateDispute(s, id, milestone, initiator, contribution, now)
    case SelectJuryCall(d, draws, now) => SelectJury(s, d, draws, now)
    case CommitVoteCall(d, juror, hash, now) => Rule(s, Commit(s.court, d, juror, hash, now))
    case RevealVoteCall(d, juror, vote, payload, salt, now) =>
      Rule(s, Reveal(s.court, sha, d, juror, vote, payload, salt, now))
    case TallyVotesCall(d, now) => Rule(s, TallyVotes(s.court, d, now))
    case FileAppealCall(d, draws, now) => FileAppeal(s, d, draws, now)
    case ExecuteResolutionCall(d, now) => ExecuteResolution(s, d, now)
  }

  /** The state after a list of calls; a call that fails changes nothing. */
  function After(sha: seq<Byte> -> Hash, calls: seq<Call>): State
    decreases |calls|
  {
    if calls == [] then GENESIS
    else
      var before := After(sha, calls[..|calls| - 1]);
      var next := Apply(before, sha, calls[|calls| - 1]);
      if next.Ok? then next.value else before
  }

  lemma ProjectCallKeepsOk(s: State, sha: seq<Byte> -> Hash, call: Call)
    requires StateOk(s) && Apply(s, sha, call).Ok?
    requires call.InitializeCall? || call.DepositCall? || call.CreateMilestoneCall? || call.SubmitMilestoneCall?
      || call.VoteMilestoneCall? || call.UpdateValidatorsCall?
    ensures StateOk(Apply(s, sha, call).value)
  {
    match call
    case InitializeCall(id, creator, validators, threshold, fee) =>
      InitializeKeepsOk(s, id, creator, validators, threshold, fee);
    case DepositCall(id, amount) => DepositKeepsOk(s, id, amount);
    case CreateMilestoneCall(id, amount) => CreateKeepsOk(s, id, amount);
    case SubmitMilestoneCall(id, milestone) => SubmitKeepsOk(s, id, milestone);
    case VoteMilestoneCall(id, milestone, voter, approve) => VoteKeepsOk(s, id, milestone, voter, approve);
    case UpdateValidatorsCall(id, validators) => UpdateKeepsOk(s, id, validators);
  }

  lemma PauseKeepsOk(s: State, paused: bool)
    requires StateOk(s)
    ensures StateOk(s.(paused := paused))
  {
    forall id | id in s.projects
      ensures ProjectOk(s.(paused := paused), id)
    {
      assert ProjectOk(s, id);
    }
  }

  lemma CallKeepsOk(s: State, sha: seq<Byte> -> Hash, call: Call)
    requires StateOk(s) && Apply(s, sha, call).Ok?
    ensures StateOk(Apply(s, sha, call).value)
  {
    match call
    case SetPausedCall(paused) => PauseKeepsOk(s, paused);
    case InitiateDisputeCall(id, milestone, initiator, contribution, now) =>
      InitiateKeepsOk(s, id, milestone, initiator, contribution, now);
    case SelectJuryCall(d, draws, now) => SelectKeepsOk(s, d, draws, now);
    case FileAppealCall(d, draws, now) => AppealKeepsStateOk(s, d, draws, now);
    case ExecuteResolutionCall(d, now) => ExecuteKeepsOk(s, d, now);
    case ConfigureTokenCall(token) => ConfigureKeepsStateOk(s, token);
    case RegisterCall(juror, stake) => RegisterKeepsStateOk(s, juror, stake);
    case DeregisterCall(juror) => DeregisterKeepsStateOk(s, juror);
    case CommitVoteCall(d, juror, hash, now) => CommitKeepsStateOk(s, d, juror, hash, now);
    case RevealVoteCall(d, juror, vote, payload, salt, now) =>
      RevealKeepsStateOk(s, sha, d, juror, vote, payload, salt, now);
    case TallyVotesCall(d, now) => TallyKeepsStateOk(s, d, now);
    case _ => ProjectCallKeepsOk(s, sha, call);
  }

  /** The main invariant: in every reachable state stakes and fees add up to the tokens held, every
      juror's counter is the number of panels under vote, the active list is the register, every
      project's releases stay within its deposits, and on a project without disputes they are
      exactly its approved amounts. */
  lemma {:induction false} ReachableStatesAreOk(sha: seq<Byte> -> Hash, calls: seq<Call>)
    ensures StateOk(After(sha, calls))
    decreases |calls|
  {
    if calls == [] {
      GenesisIsOk(GENESIS);
    } else {
      var n := |calls| - 1;
      ReachableStatesAreOk(sha, calls[..n]);
      var before := After(sha, calls[..n]);
      if Apply(before, sha, calls[n]).Ok? {
        CallKeepsOk(before, sha, calls[n]);
      }
    }
  }

  lemma NoProjectsYet(s: State)
    requires s == GENESIS
    ensures ProjectsOk(s) && Linked(s)
  {
  }

  lemma GenesisIsOk(s: State)
    requires s == GENESIS
    ensures StateOk(s)
  {
    EmptyCourtIsOk(s.court);
    NoProjectsYet(s);
  }
}
