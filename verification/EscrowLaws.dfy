/** Conditions on the calls of a run that decide, in both directions, whether it keeps a property. */
module EscrowLaws {
  import opened Outcomes
  import opened Sums
  import opened EscrowTypes
  import M = Milestones
  import opened MilestoneProofs
  import opened Tally
  import opened Court
  import opened SettlementProofs
  import opened CourtProofs
  import opened Escrow
  import opened EscrowProofs

  // ----- A property of states against a condition on calls

  /** The property holds at every point of a run. */
  ghost predicate Always(holds: State -> bool, sha: seq<Byte> -> Hash, calls: seq<Call>)
    decreases |calls|
  {
    holds(After(sha, calls)) && (calls == [] || Always(holds, sha, calls[..|calls| - 1]))
  }

  /** Every call of a run that succeeds meets the condition in the state in which it is made. */
  ghost predicate Each(keeps: (State, Call) -> bool, sha: seq<Byte> -> Hash, calls: seq<Call>)
    decreases |calls|
  {
    calls == [] ||
    var n := |calls| - 1;
    var before := After(sha, calls[..n]);
    Each(keeps, sha, calls[..n]) && (Apply(before, sha, calls[n]).Ok? ==> keeps(before, calls[n]))
  }

  /** Where the property holds, a successful call keeps it exactly when it meets the condition. */
  ghost predicate Decides(holds: State -> bool, keeps: (State, Call) -> bool, sha: seq<Byte> -> Hash) {
    forall s: State, call: Call {:trigger keeps(s, call)} ::
      StateOk(s) && holds(s) && Apply(s, sha, call).Ok? ==> (holds(Apply(s, sha, call).value) <==> keeps(s, call))
  }

  lemma {:induction false} AlwaysIff(holds: State -> bool, keeps: (State, Call) -> bool, sha: seq<Byte> -> Hash,
                                     calls: seq<Call>)
    requires holds(GENESIS) && Decides(holds, keeps, sha)
    ensures Always(holds, sha, calls) <==> Each(keeps, sha, calls)
    ensures Each(keeps, sha, calls) ==> holds(After(sha, calls))
    decreases |calls|
  {
    if calls != [] {
      var n := |calls| - 1;
      AlwaysIff(holds, keeps, sha, calls[..n]);
      ReachableStatesAreOk(sha, calls[..n]);
      var before := After(sha, calls[..n]);
      assert Each(keeps, sha, calls[..n]) ==> holds(before);
      if Each(keeps, sha, calls[..n]) && Apply(before, sha, calls[n]).Ok? {
        assert holds(Apply(before, sha, calls[n]).value) <==> keeps(before, calls[n]);
      }
    }
  }

  // ----- Releases equal approvals

  ghost predicate ExactAt(s: State, id: nat) {
    id in s.projects ==> Exact(s.projects[id])
  }

  /** The calls that leave releases on a project equal to its approvals: no appeal resets a milestone
      of it that is approved, and no ruling on it releases other than what it approves. */
  predicate Harmless(s: State, call: Call, id: nat) {
    match call
    case FileAppealCall(d, _, _) =>
      OnMilestone(s, d, id) ==> s.projects[id].milestones[s.court.disputes[d].milestoneId].status != M.Approved
    case ExecuteResolutionCall(d, _) =>
      OnMilestone(s, d, id) ==>
        var dispute := s.court.disputes[d];
        RulingMatches(s.projects[id].milestones[dispute.milestoneId], dispute.resolution, dispute.payload)
    case _ => true
  }

  /** Dispute d is about a milestone of the project. */
  predicate OnMilestone(s: State, d: nat, id: nat) {
    && d in s.court.disputes && s.court.disputes[d].projectId == id
    && id in s.projects && s.court.disputes[d].milestoneId in s.projects[id].milestones
  }

  lemma ProjectCallKeepsExact(s: State, sha: seq<Byte> -> Hash, call: Call, id: nat)
    requires StateOk(s) && ExactAt(s, id) && Apply(s, sha, call).Ok?
    requires call.InitializeCall? || call.DepositCall? || call.CreateMilestoneCall? || call.SubmitMilestoneCall?
      || call.VoteMilestoneCall? || call.UpdateValidatorsCall?
    ensures ExactAt(Apply(s, sha, call).value, id)
  {
    if call.id == id {
      match call {
        case InitializeCall(_, creator, validators, threshold, fee) =>
          assert ApprovedAmounts(M.NewProject(creator, validators, threshold, fee).value.milestones) == map[];
        case DepositCall(_, _) =>
        case CreateMilestoneCall(_, amount) =>
          assert ProjectOk(s, id);
          CreateKeepsExact(s.projects[id], amount, s.paused);
        case SubmitMilestoneCall(_, milestone) => SubmitKeepsExact(s.projects[id], milestone, s.paused);
        case VoteMilestoneCall(_, milestone, voter, approve) =>
          VoteKeepsExact(s.projects[id], milestone, voter, approve, s.paused);
        case UpdateValidatorsCall(_, _) =>
      }
    }
  }

  lemma AppealKeepsExactIff(s: State, sha: seq<Byte> -> Hash, call: Call, id: nat)
    requires StateOk(s) && ExactAt(s, id) && call.FileAppealCall? && Apply(s, sha, call).Ok?
    ensures ExactAt(Apply(s, sha, call).value, id) <==> Harmless(s, call, id)
  {
    AppealParts(s, call.d, call.draws, call.now);
    var dispute := s.court.disputes[call.d];
    if dispute.projectId == id {
      assert ProjectOk(s, id);
      ResetKeepsExactIff(s.projects[id], dispute.milestoneId);
    }
  }

  lemma ExecuteKeepsExactIff(s: State, sha: seq<Byte> -> Hash, call: Call, id: nat)
    requires StateOk(s) && ExactAt(s, id) && call.ExecuteResolutionCall? && Apply(s, sha, call).Ok?
    ensures ExactAt(Apply(s, sha, call).value, id) <==> Harmless(s, call, id)
  {
    ExecuteParts(s, call.d, call.now);
    var dispute := s.court.disputes[call.d];
    if dispute.projectId == id {
      assert ProjectOk(s, id);
      EnforceKeepsExactIff(s.projects[id], dispute.milestoneId, dispute.resolution, dispute.payload);
    }
  }

  lemma CourtCallKeepsProjects(s: State, sha: seq<Byte> -> Hash, call: Call)
    requires Apply(s, sha, call).Ok?
    requires !(call.FileAppealCall? || call.ExecuteResolutionCall? || call.InitializeCall? || call.DepositCall?
      || call.CreateMilestoneCall? || call.SubmitMilestoneCall? || call.VoteMilestoneCall?
      || call.UpdateValidatorsCall?)
    ensures Apply(s, sha, call).value.projects == s.projects
  {
  }

  /** One call keeps the releases on a project equal to its approvals exactly when it is harmless. */
  lemma CallKeepsExactIff(s: State, sha: seq<Byte> -> Hash, call: Call, id: nat)
    requires StateOk(s) && ExactAt(s, id) && Apply(s, sha, call).Ok?
    ensures ExactAt(Apply(s, sha, call).value, id) <==> Harmless(s, call, id)
  {
    if call.FileAppealCall? {
      AppealKeepsExactIff(s, sha, call, id);
    } else if call.ExecuteResolutionCall? {
      ExecuteKeepsExactIff(s, sha, call, id);
    } else if call.InitializeCall? || call.DepositCall? || call.CreateMilestoneCall? || call.SubmitMilestoneCall?
           || call.VoteMilestoneCall? || call.UpdateValidatorsCall? {
      ProjectCallKeepsExact(s, sha, call, id);
    } else {
      CourtCallKeepsProjects(s, sha, call);
    }
  }

  /** Over any run, releases on a project equal its approved amounts at every point exactly when no
      call that succeeds resets an approved milestone of it or enforces a ruling that does not
      match. Disputes as such do no harm. */
  lemma ReleasesAreExactIff(sha: seq<Byte> -> Hash, calls: seq<Call>, id: nat)
    ensures Always(s => ExactAt(s, id), sha, calls) <==> Each((s, call) => Harmless(s, call, id), sha, calls)
    ensures Each((s, call) => Harmless(s, call, id), sha, calls) ==> ExactAt(After(sha, calls), id)
  {
    var holds: State -> bool := s => ExactAt(s, id);
    var keeps: (State, Call) -> bool := (s, call) => Harmless(s, call, id);
    forall s: State, call: Call | StateOk(s) && holds(s) && Apply(s, sha, call).Ok?
      ensures holds(Apply(s, sha, call).value) <==> keeps(s, call)
    {
      CallKeepsExactIff(s, sha, call, id);
    }
    AlwaysIff(holds, keeps, sha, calls);
  }

  // ----- Milestones are paid once

  ghost predicate PaidOnceAt(s: State, id: nat) {
    id in s.projects ==> PaidOnce(s.projects[id])
  }

  ghost predicate PaidAtMostOnceAt(s: State, id: nat) {
    id in s.projects ==> PaidAtMostOnce(s.projects[id])
  }

  /** The calls that leave every milestone of a project paid once if it is approved and not at all
      otherwise. */
  predicate PaysOnce(s: State, call: Call, id: nat) {
    match call
    case FileAppealCall(d, _, _) =>
      OnMilestone(s, d, id) ==> s.projects[id].milestones[s.court.disputes[d].milestoneId].status != M.Approved
    case ExecuteResolutionCall(d, _) =>
      OnMilestone(s, d, id) ==>
        var dispute := s.court.disputes[d];
        RulingPaysOnce(s.projects[id].milestones[dispute.milestoneId], dispute.resolution, dispute.payload)
    case _ => true
  }

  /** The calls that pay a milestone of a project that was paid before: the deciding vote on one, or a
      ruling on one that releases something. */
  predicate PaysAgain(s: State, call: Call, id: nat) {
    match call
    case VoteMilestoneCall(project, milestone, _, approve) =>
      && project == id && id in s.projects && milestone in s.projects[id].milestones
      && s.projects[id].milestones[milestone].releases > 0 && Approves(s.projects[id], milestone, approve)
    case ExecuteResolutionCall(d, _) =>
      && OnMilestone(s, d, id)
      && var dispute := s.court.disputes[d];
        var m := s.projects[id].milestones[dispute.milestoneId];
        m.releases > 0 && Releases(m, dispute.resolution, dispute.payload)
    case _ => false
  }

  /** What one call does to the two properties of a project. */
  ghost predicate PaidIff(s: State, t: State, call: Call, id: nat) {
    && (PaidOnceAt(s, id) ==> (PaidOnceAt(t, id) <==> PaysOnce(s, call, id)))
    && (PaidAtMostOnceAt(s, id) ==> (PaidAtMostOnceAt(t, id) <==> !PaysAgain(s, call, id)))
  }

  lemma ProjectCallKeepsPaid(s: State, sha: seq<Byte> -> Hash, call: Call, id: nat)
    requires Apply(s, sha, call).Ok?
    requires call.InitializeCall? || call.DepositCall? || call.CreateMilestoneCall? || call.SubmitMilestoneCall?
      || call.VoteMilestoneCall? || call.UpdateValidatorsCall?
    ensures PaidIff(s, Apply(s, sha, call).value, call, id)
  {
    if call.id == id && call.VoteMilestoneCall? {
      VoteKeepsPaidIff(s.projects[id], call.milestone, call.voter, call.approve, s.paused);
    }
  }

  lemma AppealKeepsPaidIff(s: State, sha: seq<Byte> -> Hash, call: Call, id: nat)
    requires StateOk(s) && call.FileAppealCall? && Apply(s, sha, call).Ok?
    ensures PaidIff(s, Apply(s, sha, call).value, call, id)
  {
    AppealParts(s, call.d, call.draws, call.now);
    var dispute := s.court.disputes[call.d];
    if dispute.projectId == id {
      ResetKeepsPaidIff(s.projects[id], dispute.milestoneId);
    }
  }

  lemma ExecuteKeepsPaidIff(s: State, sha: seq<Byte> -> Hash, call: Call, id: nat)
    requires StateOk(s) && call.ExecuteResolutionCall? && Apply(s, sha, call).Ok?
    ensures PaidIff(s, Apply(s, sha, call).value, call, id)
  {
    ExecuteParts(s, call.d, call.now);
    var dispute := s.court.disputes[call.d];
    if dispute.projectId == id {
      assert ProjectOk(s, id);
      EnforceKeepsPaidIff(s.projects[id], dispute.milestoneId, dispute.resolution, dispute.payload);
    }
  }

  /** One call keeps every milestone of a project paid once if approved and else not at all exactly when
      it pays once; and it keeps each of them paid at most once exactly when it pays none again. */
  lemma CallKeepsPaidIff(s: State, sha: seq<Byte> -> Hash, call: Call, id: nat)
    requires StateOk(s) && Apply(s, sha, call).Ok?
    ensures PaidIff(s, Apply(s, sha, call).value, call, id)
  {
    if call.FileAppealCall? {
      AppealKeepsPaidIff(s, sha, call, id);
    } else if call.ExecuteResolutionCall? {
      ExecuteKeepsPaidIff(s, sha, call, id);
    } else if call.InitializeCall? || call.DepositCall? || call.CreateMilestoneCall? || call.SubmitMilestoneCall?
           || call.VoteMilestoneCall? || call.UpdateValidatorsCall? {
      ProjectCallKeepsPaid(s, sha, call, id);
    } else {
      CourtCallKeepsProjects(s, sha, call);
    }
  }

  /** Over any run, at every point each milestone of a project was paid exactly once if it is approved
      and never otherwise, exactly when no call that succeeds resets an approved milestone of it,
      or rules on one so that approval and payment part. */
  lemma MilestonesArePaidOnceIff(sha: seq<Byte> -> Hash, calls: seq<Call>, id: nat)
    ensures Always(s => PaidOnceAt(s, id), sha, calls) <==> Each((s, call) => PaysOnce(s, call, id), sha, calls)
    ensures Each((s, call) => PaysOnce(s, call, id), sha, calls) ==> PaidOnceAt(After(sha, calls), id)
  {
    var holds: State -> bool := s => PaidOnceAt(s, id);
    var keeps: (State, Call) -> bool := (s, call) => PaysOnce(s, call, id);
    forall s: State, call: Call | StateOk(s) && holds(s) && Apply(s, sha, call).Ok?
      ensures holds(Apply(s, sha, call).value) <==> keeps(s, call)
    {
      CallKeepsPaidIff(s, sha, call, id);
    }
    AlwaysIff(holds, keeps, sha, calls);
  }

  /** Over any run no milestone of a project is ever paid twice exactly when no deciding vote and no
      ruling that releases something is about one that was paid before. */
  lemma NoMilestoneIsPaidTwiceIff(sha: seq<Byte> -> Hash, calls: seq<Call>, id: nat)
    ensures Always(s => PaidAtMostOnceAt(s, id), sha, calls) <==> Each((s, call) => !PaysAgain(s, call, id), sha, calls)
    ensures Each((s, call) => PaysOnce(s, call, id), sha, calls) ==> PaidAtMostOnceAt(After(sha, calls), id)
  {
    var holds: State -> bool := s => PaidAtMostOnceAt(s, id);
    var keeps: (State, Call) -> bool := (s, call) => !PaysAgain(s, call, id);
    forall s: State, call: Call | StateOk(s) && holds(s) && Apply(s, sha, call).Ok?
      ensures holds(Apply(s, sha, call).value) <==> keeps(s, call)
    {
      CallKeepsPaidIff(s, sha, call, id);
    }
    AlwaysIff(holds, keeps, sha, calls);
    MilestonesArePaidOnceIff(sha, calls, id);
  }

  // ----- Votes are counted

  /** In every project the counts of every submitted milestone are its recorded voters. */
  ghost predicate AllCountsRight(s: State) {
    forall id {:trigger CountsRight(s.projects[id])} :: id in s.projects ==> CountsRight(s.projects[id])
  }

  /** The calls that leave all counts right: a new list of validators is one under which the votes so
      far survive. */
  ghost predicate KeepsCounts(s: State, call: Call) {
    call.UpdateValidatorsCall? && call.id in s.projects ==> VotesSurvive(s.projects[call.id], call.validators)
  }

  lemma CountsStored(s: State, id: nat, q: M.Project)
    requires AllCountsRight(s)
    ensures AllCountsRight(s.(projects := s.projects[id := q])) <==> CountsRight(q)
  {
    var t := s.(projects := s.projects[id := q]);
    assert t.projects[id] == q;
    if CountsRight(q) {
      forall x | x in t.projects
        ensures CountsRight(t.projects[x])
      {
        if x != id {
          assert CountsRight(s.projects[x]);
        }
      }
    }
  }

  lemma ProjectCallKeepsCounts(s: State, sha: seq<Byte> -> Hash, call: Call)
    requires StateOk(s) && AllCountsRight(s) && Apply(s, sha, call).Ok?
    requires call.DepositCall? || call.CreateMilestoneCall? || call.SubmitMilestoneCall? || call.VoteMilestoneCall?
    ensures AllCountsRight(Apply(s, sha, call).value)
  {
    assert CountsRight(s.projects[call.id]) && ProjectOk(s, call.id);
    match call {
      case DepositCall(id, amount) => DepositKeepsCounts(s.projects[id], amount, s.paused);
      case CreateMilestoneCall(id, amount) => CreateKeepsCounts(s.projects[id], amount, s.paused);
      case SubmitMilestoneCall(id, milestone) => SubmitKeepsCounts(s.projects[id], milestone, s.paused);
      case VoteMilestoneCall(id, milestone, voter, approve) =>
        VoteKeepsCounts(s.projects[id], milestone, voter, approve, s.paused);
    }
    CountsStored(s, call.id, Apply(s, sha, call).value.projects[call.id]);
  }

  lemma ValidatorCallKeepsCountsIff(s: State, sha: seq<Byte> -> Hash, call: Call)
    requires AllCountsRight(s) && Apply(s, sha, call).Ok? && (call.InitializeCall? || call.UpdateValidatorsCall?)
    ensures AllCountsRight(Apply(s, sha, call).value) <==> KeepsCounts(s, call)
  {
    if call.UpdateValidatorsCall? {
      ReplaceKeepsCountsIff(s.projects[call.id], call.validators);
    }
    CountsStored(s, call.id, Apply(s, sha, call).value.projects[call.id]);
  }

  lemma DisputeCallKeepsCounts(s: State, sha: seq<Byte> -> Hash, call: Call)
    requires StateOk(s) && AllCountsRight(s) && Apply(s, sha, call).Ok?
    requires call.FileAppealCall? || call.ExecuteResolutionCall?
    ensures AllCountsRight(Apply(s, sha, call).value)
  {
    match call
    case FileAppealCall(d, draws, now) =>
      AppealParts(s, d, draws, now);
      var dispute := s.court.disputes[d];
      assert CountsRight(s.projects[dispute.projectId]);
      ResetKeepsCounts(s.projects[dispute.projectId], dispute.milestoneId);
      CountsStored(s, dispute.projectId, M.Reset(s.projects[dispute.projectId], dispute.milestoneId).value);
    case ExecuteResolutionCall(d, now) =>
      ExecuteParts(s, d, now);
      var dispute := s.court.disputes[d];
      var p := s.projects[dispute.projectId];
      assert CountsRight(p);
      EnforceKeepsCounts(p, dispute.milestoneId, dispute.resolution, dispute.payload);
      CountsStored(s, dispute.projectId,
                   M.Enforce(p, dispute.milestoneId, dispute.resolution, dispute.payload).value);
  }

  /** One call keeps all counts right exactly when it meets the condition. */
  lemma CallKeepsCountsIff(s: State, sha: seq<Byte> -> Hash, call: Call)
    requires StateOk(s) && AllCountsRight(s) && Apply(s, sha, call).Ok?
    ensures AllCountsRight(Apply(s, sha, call).value) <==> KeepsCounts(s, call)
  {
    if call.FileAppealCall? || call.ExecuteResolutionCall? {
      DisputeCallKeepsCounts(s, sha, call);
    } else if call.InitializeCall? || call.UpdateValidatorsCall? {
      ValidatorCallKeepsCountsIff(s, sha, call);
    } else if call.DepositCall? || call.CreateMilestoneCall? || call.SubmitMilestoneCall? || call.VoteMilestoneCall? {
      ProjectCallKeepsCounts(s, sha, call);
    } else {
      CourtCallKeepsProjects(s, sha, call);
    }
  }

  /** Over any run, disputes and appeals included and whatever the lists of validators, the counts of
      each submitted milestone are its recorded voters and neither outcome is reached yet, at every
      point, exactly when each list that replaces another is one under which the votes survive. */
  lemma VotesAreCountedIff(sha: seq<Byte> -> Hash, calls: seq<Call>)
    ensures Always(s => AllCountsRight(s), sha, calls) <==> Each((s, call) => KeepsCounts(s, call), sha, calls)
    ensures Each((s, call) => KeepsCounts(s, call), sha, calls) ==> AllCountsRight(After(sha, calls))
  {
    var holds: State -> bool := s => AllCountsRight(s);
    var keeps: (State, Call) -> bool := (s, call) => KeepsCounts(s, call);
    forall s: State, call: Call | StateOk(s) && holds(s) && Apply(s, sha, call).Ok?
      ensures holds(Apply(s, sha, call).value) <==> keeps(s, call)
    {
      CallKeepsCountsIff(s, sha, call);
    }
    AlwaysIff(holds, keeps, sha, calls);
  }

  // ----- One juror token

  /** The calls that leave all stakes and fees in one token. */
  ghost predicate KeepsToken(s: State, call: Call) {
    call.ConfigureTokenCall? ==>
      s.court.token == Some(call.token) || Sum(Stakes(s.court.jurors)) + s.court.feePool == 0
  }

  lemma CallKeepsOneTokenIff(s: State, sha: seq<Byte> -> Hash, call: Call)
    requires StateOk(s) && OneToken(s.court) && Apply(s, sha, call).Ok?
    ensures OneToken(Apply(s, sha, call).value.court) <==> KeepsToken(s, call)
  {
    if call.ConfigureTokenCall? {
      ConfigureKeepsOneTokenIff(s.court, call.token);
    } else {
      TransfersUseTheToken(s, sha, call);
    }
  }

  lemma TransfersUseTheToken(s: State, sha: seq<Byte> -> Hash, call: Call)
    requires !call.ConfigureTokenCall? && Apply(s, sha, call).Ok?
    ensures var c, e := s.court, Apply(s, sha, call).value.court;
      && e.token == c.token
      && (e.held == c.held || (c.token.Some? && exists amount :: e.held == Booked(c.held, c.token.value, amount)))
  {
    if call.FileAppealCall? {
      AppealParts(s, call.d, call.draws, call.now);
    }
  }

  /** Over any run all stakes and fees are in the configured token, at every point, exactly when the
      token is only replaced by itself or while nothing is held. Then that token's balance is
      exactly the stakes and the fee pool, so every juror who may leave can be paid out of it. */
  lemma StakesAreInTheTokenIff(sha: seq<Byte> -> Hash, calls: seq<Call>)
    ensures Always((s: State) => OneToken(s.court), sha, calls) <==> Each((s, call) => KeepsToken(s, call), sha, calls)
    ensures var c := After(sha, calls).court;
      Each((s, call) => KeepsToken(s, call), sha, calls) && c.token.Some? ==>
        && Balance(c.held, c.token.value) == Sum(Stakes(c.jurors)) + c.feePool
        && forall j :: j in c.jurors ==> 0 <= c.jurors[j].stake <= Balance(c.held, c.token.value)
  {
    var holds: State -> bool := (s: State) => OneToken(s.court);
    var keeps: (State, Call) -> bool := (s, call) => KeepsToken(s, call);
    forall s: State, call: Call | StateOk(s) && holds(s) && Apply(s, sha, call).Ok?
      ensures holds(Apply(s, sha, call).value) <==> keeps(s, call)
    {
      CallKeepsOneTokenIff(s, sha, call);
    }
    AlwaysIff(holds, keeps, sha, calls);
    ReachableStatesAreOk(sha, calls);
    var c := After(sha, calls).court;
    if Each(keeps, sha, calls) && c.token.Some? {
      assert holds(After(sha, calls));
      forall j | j in c.jurors
        ensures c.jurors[j].stake <= Balance(c.held, c.token.value)
      {
        OneTokenCovers(c, j);
      }
      OneTokenCovers(c, 0);
    }
  }

  // ----- Approvals always have their money

  /** In a run of calls that are harmless to the project, disputes included, a vote that brings one of
      its milestones to the required number of approvals pays it in full. */
  lemma ApprovalIsPaid(sha: seq<Byte> -> Hash, calls: seq<Call>, id: nat, milestone: nat, voter: Address)
    requires Each((s, call) => Harmless(s, call, id), sha, calls)
    requires Deciding(After(sha, calls), id, milestone, voter)
    ensures PaidInFull(After(sha, calls), id, milestone, voter)
  {
    ReleasesAreExactIff(sha, calls, id);
    ReachableStatesAreOk(sha, calls);
    assert ProjectOk(After(sha, calls), id);
    var p := After(sha, calls).projects[id];
    ReleaseAffordable(p, milestone);
    RequiredIff(p.milestones[milestone].amount, |p.validators|, p.threshold, p.milestones[milestone].approvals + 1);
  }

  /** In every reachable state of a project on which no dispute was ever opened it does so too. */
  lemma UndisputedApprovalIsPaid(sha: seq<Byte> -> Hash, calls: seq<Call>, id: nat, milestone: nat, voter: Address)
    requires !Disputed(After(sha, calls).court, id) && Deciding(After(sha, calls), id, milestone, voter)
    ensures PaidInFull(After(sha, calls), id, milestone, voter)
  {
    ReachableStatesAreOk(sha, calls);
    assert ProjectOk(After(sha, calls), id);
    var p := After(sha, calls).projects[id];
    ReleaseAffordable(p, milestone);
    RequiredIff(p.milestones[milestone].amount, |p.validators|, p.threshold, p.milestones[milestone].approvals + 1);
  }

  /** One more approval, by this validator, decides the milestone. */
  predicate Deciding(s: State, id: nat, milestone: nat, voter: Address) {
    && id in s.projects && milestone in s.projects[id].milestones && !s.paused
    && var p := s.projects[id];
      && p.milestones[milestone].status == M.Submitted
      && voter in p.validators && (milestone, voter) !in p.voters
      && Enough(p.milestones[milestone].approvals + 1, p.milestones[milestone].amount, |p.validators|, p.threshold)
  }

  predicate PaidInFull(s: State, id: nat, milestone: nat, voter: Address)
    requires id in s.projects && milestone in s.projects[id].milestones
  {
    var t := VoteMilestone(s, id, milestone, voter, true);
    && t.Ok?
    && t.value.projects[id].milestones[milestone].status == M.Approved
    && t.value.projects[id].paid == s.projects[id].paid + s.projects[id].milestones[milestone].amount
  }
}
