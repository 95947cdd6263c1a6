/** Runs of the escrow contract, from its empty storage, that break what its users would expect. One
    project, one milestone, one dispute and twenty-six jurors are enough for all of them. */
module EscrowExamples {
  import opened Outcomes
  import opened EscrowTypes
  import M = Milestones
  import Sums
  import opened MilestoneProofs
  import opened Jury
  import opened Tally
  import opened Court
  import opened SettlementProofs
  import opened CourtProofs
  import opened Escrow
  import opened EscrowProofs
  import opened EscrowRuns

  const CREATOR: Address := 100
  const TOKEN: Address := 7
  const JURORS: nat := 26

  /** The numbers from one on, so many of them. */
  function Numbers(from: nat, n: nat): (r: seq<nat>)
    ensures |r| == n && Distinct(r)
    ensures forall j: nat :: j in r <==> from <= j < from + n
  {
    var r := seq(n, i requires 0 <= i => from + i);
    NumbersHold(r, from);
    r
  }

  lemma NumbersHold(r: seq<nat>, from: nat)
    requires forall i :: 0 <= i < |r| ==> r[i] == from + i
    ensures forall j: nat :: j in r <==> from <= j < from + |r|
  {
    forall j: nat | from <= j < from + |r|
      ensures j in r
    {
      assert r[j - from] == j;
    }
  }

  lemma Then(sha: seq<Byte> -> Hash, calls: seq<Call>, call: Call)
    requires Apply(After(sha, calls), sha, call).Ok?
    ensures After(sha, calls + [call]) == Apply(After(sha, calls), sha, call).value
  {
    assert (calls + [call])[..|calls|] == calls;
  }

  /** The project in the course of the runs: 20 deposited for one milestone of 10, which is all that is
      ever released. */
  function Project(status: M.Status, approvals: nat, released: nat, voters: set<(nat, Address)>): M.Project {
    M.Project(CREATOR, 20, released, released, [1, 2, 3], 5100, 1,
              map[0 := M.Milestone(10, status, approvals, 0, released / 10)], voters)
  }

  // ----- Up to a submitted milestone

  /** A project with three validators, different or not, and its milestone still pending. */
  lemma UpToMilestone(sha: seq<Byte> -> Hash, validators: seq<Address>) returns (calls: seq<Call>)
    requires |validators| == 3
    ensures After(sha, calls)
      == State(map[0 := Project(M.Pending, 0, 0, {}).(validators := validators)],
               ConfigureToken(EMPTY_COURT, TOKEN), false)
  {
    var c := ConfigureToken(EMPTY_COURT, TOKEN);
    var configure, initialize := ConfigureTokenCall(TOKEN), InitializeCall(0, CREATOR, validators, 5100, 0);
    Then(sha, [], configure);
    Then(sha, [configure], initialize);
    calls := [configure] + [initialize];
    var empty := M.Project(CREATOR, 0, 0, 0, validators, 5100, 0, map[], {});
    assert After(sha, calls) == State(map[0 := empty], c, false);
    Then(sha, calls, DepositCall(0, 20));
    calls := calls + [DepositCall(0, 20)];
    assert After(sha, calls) == State(map[0 := empty.(deposited := 20)], c, false);
    Then(sha, calls, CreateMilestoneCall(0, 10));
    calls := calls + [CreateMilestoneCall(0, 10)];
  }

  lemma UpToSubmission(sha: seq<Byte> -> Hash) returns (calls: seq<Call>)
    ensures After(sha, calls)
      == State(map[0 := Project(M.Submitted, 0, 0, {})], ConfigureToken(EMPTY_COURT, TOKEN), false)
  {
    calls := UpToMilestone(sha, [1, 2, 3]);
    assert Project(M.Pending, 0, 0, {}).(validators := [1, 2, 3]) == Project(M.Pending, 0, 0, {});
    Resubmit(sha, calls, 0, {});
    calls := calls + [SubmitMilestoneCall(0, 0)];
  }

  /** Submitting the milestone, with whatever votes it had before. */
  lemma Resubmit(sha: seq<Byte> -> Hash, calls: seq<Call>, released: nat, voters: set<(nat, Address)>)
    requires var s := After(sha, calls);
      s.projects == map[0 := Project(M.Pending, 0, released, voters)] && !s.paused
    requires forall vote :: vote in voters ==> vote.0 == 0 && vote.1 in [1, 2, 3]
    ensures After(sha, calls + [SubmitMilestoneCall(0, 0)])
      == After(sha, calls).(projects := map[0 := Project(M.Submitted, 0, released, {})])
  {
    var p := Project(M.Pending, 0, released, voters);
    assert M.VotersWithout(p, 0) == {};
    Then(sha, calls, SubmitMilestoneCall(0, 0));
    var m := M.Milestone(10, M.Submitted, 0, 0, released / 10);
    assert p.milestones[0 := m] == map[0 := m];
  }

  lemma TwoApprovals(released: nat)
    requires released <= 10
    ensures var once := Project(M.Submitted, 1, released, {(0, 1)});
      && M.Vote(Project(M.Submitted, 0, released, {}), 0, 1, true, false) == Ok(once)
      && M.Vote(once, 0, 2, true, false) == Ok(Project(M.Approved, 2, released + 10, {(0, 1), (0, 2)}))
  {
    var p := Project(M.Submitted, 0, released, {});
    assert M.RequiredFor(p, 10) == 2;
    assert p.validators[0] == 1 && p.validators[1] == 2;
    var none: set<(nat, Address)> := {};
    assert none + {(0, 1)} == {(0, 1)} && {(0, 1)} + {(0, 2)} == {(0, 1), (0, 2)};
    var pending, once, paid := p.milestones[0], Project(M.Submitted, 1, released, {(0, 1)}),
                               Project(M.Approved, 2, released + 10, {(0, 1), (0, 2)});
    assert p.milestones[0 := pending.(approvals := 1)] == once.milestones;
    var approved := pending.(status := M.Approved, approvals := 2, releases := pending.releases + 1);
    assert once.milestones[0 := approved] == paid.milestones;
    assert M.RequiredFor(once, 10) == 2;
    assert M.Release(once.(voters := {(0, 1), (0, 2)}), 10)
      == Ok(once.(voters := {(0, 1), (0, 2)}, released := released + 10, paid := released + 10));
  }

  /** Two approvals decide the milestone and pay it, however often it was paid before. */
  lemma ApproveTwice(sha: seq<Byte> -> Hash, before: seq<Call>, released: nat) returns (calls: seq<Call>)
    requires var s := After(sha, before);
      s.projects == map[0 := Project(M.Submitted, 0, released, {})] && !s.paused
    requires released <= 10
    ensures After(sha, calls)
      == After(sha, before).(projects := map[0 := Project(M.Approved, 2, released + 10, {(0, 1), (0, 2)})])
  {
    var first, second := VoteMilestoneCall(0, 0, 1, true), VoteMilestoneCall(0, 0, 2, true);
    TwoApprovals(released);
    Then(sha, before, first);
    calls := before + [first];
    assert After(sha, calls) == After(sha, before).(projects := map[0 := Project(M.Submitted, 1, released, {(0, 1)})]);
    Then(sha, calls, second);
    calls := calls + [second];
  }

  // ----- Jurors

  /** The first n jurors are registered, and nothing else has happened in court. */
  ghost predicate Recruited(c: Court, n: nat) {
    && c.roster == Numbers(0, n)
    && (forall j: nat :: j in c.jurors <==> j < n)
    && c == ConfigureToken(EMPTY_COURT, TOKEN).(roster := c.roster, jurors := c.jurors, held := c.held)
  }

  lemma {:induction false} Recruit(sha: seq<Byte> -> Hash, before: seq<Call>, n: nat) returns (calls: seq<Call>)
    requires After(sha, before).court == ConfigureToken(EMPTY_COURT, TOKEN)
    ensures After(sha, calls) == After(sha, before).(court := After(sha, calls).court)
    ensures Recruited(After(sha, calls).court, n)
    decreases n
  {
    if n == 0 {
      calls := before;
      assert Numbers(0, 0) == [];
    } else {
      calls := Recruit(sha, before, n - 1);
      var join := RegisterCall(n - 1, MIN_JUROR_STAKE);
      Then(sha, calls, join);
      calls := calls + [join];
      assert Numbers(0, n) == Numbers(0, n - 1) + [n - 1];
    }
  }

  // ----- The dispute

  /** The court with all jurors registered and one dispute about the milestone. */
  ghost predicate InCourt(c: Court, status: DisputeStatus, since: nat, resolution: Resolution, appeals: nat,
                          panel: seq<Address>)
  {
    && (forall j: nat :: j in c.jurors <==> j < JURORS)
    && c.token == Some(TOKEN)
    && c.disputes == map[1 := Dispute(0, 0, CREATOR, status, since, resolution, 0, appeals)]
    && c.panels == map[1 := panel]
  }

  /** The first panel is the jurors 0 to 6. */
  lemma FirstPanel(c: Court) returns (draws: seq<nat>)
    requires RosterOk(c) && (forall j: nat :: j in c.jurors <==> j < JURORS) && c.token == Some(TOKEN)
    requires c.disputes == map[1 := Dispute(0, 0, CREATOR, Pending, 0, NoRes, 0, 0)] && c.panels == map[]
    ensures var e := Seat(c, 1, CREATOR, draws, 0);
      e.Ok? && InCourt(e.value, Voting, 0, NoRes, 0, Numbers(0, 7)) && e.value.ballots == c.ballots
  {
    draws := SeatNumbers(c, Dispute(0, 0, CREATOR, Pending, 0, NoRes, 0, 0), [], 0, 7, 0);
  }

  lemma AreImpartial(c: Court, dispute: Dispute, panel: seq<Address>, next: seq<Address>)
    requires c.disputes == map[1 := dispute] && dispute.initiator == CREATOR
    requires c.panels == if dispute.appealCount == 0 then map[] else map[1 := panel]
    requires forall j: nat :: j in c.jurors <==> j < JURORS
    requires forall j :: j in next ==> j < JURORS && j !in panel
    ensures forall j :: j in next ==> MaySit(c, 1, CREATOR, j)
  {
  }

  /** Seating the jurors from a number on, none of whom sat on the panel before. */
  lemma SeatNumbers(c: Court, dispute: Dispute, panel: seq<Address>, from: nat, n: nat, now: nat)
    returns (draws: seq<nat>)
    requires RosterOk(c) && (forall j: nat :: j in c.jurors <==> j < JURORS)
    requires c.disputes == map[1 := dispute] && dispute.initiator == CREATOR
    requires dispute.status == Pending || dispute.status == Appealed
    requires c.panels == if dispute.appealCount == 0 then map[] else map[1 := panel]
    requires n == Seats(dispute.status) && from + n <= JURORS
    requires forall j: nat :: from <= j < from + n ==> j !in panel
    ensures var e := Seat(c, 1, CREATOR, draws, now);
      && e.Ok?
      && e.value == c.(jurors := e.value.jurors, panels := map[1 := Numbers(from, n)],
                       disputes := map[1 := dispute.(status := Voting, createdAt := now)])
      && e.value.jurors.Keys == c.jurors.Keys
  {
    var next := Numbers(from, n);
    AreImpartial(c, dispute, panel, next);
    draws := ChosenSeat(c, 1, CREATOR, next, now);
    SummonAddsOne(c.jurors, next);
  }

  /** The dispute is opened on the submitted milestone, which the validators then approve all the same. */
  lemma DisputeOpened(sha: seq<Byte> -> Hash) returns (calls: seq<Call>)
    ensures var s := After(sha, calls);
      && s.projects == map[0 := Project(M.Approved, 2, 10, {(0, 1), (0, 2)})] && !s.paused
      && (forall j: nat :: j in s.court.jurors <==> j < JURORS) && s.court.token == Some(TOKEN)
      && s.court.disputes == map[1 := Dispute(0, 0, CREATOR, Pending, 0, NoRes, 0, 0)]
      && s.court.panels == map[] && s.court.ballots == map[]
  {
    calls := UpToSubmission(sha);
    calls := Recruit(sha, calls, JURORS);
    var dispute := InitiateDisputeCall(0, 0, CREATOR, 0, 0);
    Then(sha, calls, dispute);
    calls := calls + [dispute];
    calls := ApproveTwice(sha, calls, 0);
  }

  lemma PanelSeated(sha: seq<Byte> -> Hash) returns (calls: seq<Call>)
    ensures var s := After(sha, calls);
      && s.projects == map[0 := Project(M.Approved, 2, 10, {(0, 1), (0, 2)})] && !s.paused
      && InCourt(s.court, Voting, 0, NoRes, 0, Numbers(0, 7)) && s.court.ballots == map[]
  {
    calls := DisputeOpened(sha);
    ReachableStatesAreOk(sha, calls);
    var draws := FirstPanel(After(sha, calls).court);
    Then(sha, calls, SelectJuryCall(1, draws, 0));
    calls := calls + [SelectJuryCall(1, draws, 0)];
  }

  function Opened(sha: seq<Byte> -> Hash, vote: Resolution): Ballot
    requires vote != NoRes
  {
    Ballot(sha(Preimage(vote, 0, [])), true, vote, 0)
  }

  function Closed(sha: seq<Byte> -> Hash, vote: Resolution): Ballot
    requires vote != NoRes
  {
    Ballot(sha(Preimage(vote, 0, [])), false, NoRes, 0)
  }

  lemma TwoCommitted(sha: seq<Byte> -> Hash) returns (calls: seq<Call>)
    ensures var s := After(sha, calls);
      && s.projects == map[0 := Project(M.Approved, 2, 10, {(0, 1), (0, 2)})] && !s.paused
      && InCourt(s.court, Voting, 0, NoRes, 0, Numbers(0, 7))
      && s.court.ballots == map[(1, 0) := Closed(sha, RelFunds), (1, 1) := Closed(sha, RefBackers)]
  {
    calls := PanelSeated(sha);
    calls := Commits(sha, calls, 0, RelFunds);
    calls := Commits(sha, calls, 1, RefBackers);
  }

  /** Juror 0 commits to a release and reveals it; juror 1 commits to a refund and does not reveal. */
  lemma BallotsCast(sha: seq<Byte> -> Hash) returns (calls: seq<Call>)
    ensures var s := After(sha, calls);
      && s.projects == map[0 := Project(M.Approved, 2, 10, {(0, 1), (0, 2)})] && !s.paused
      && InCourt(s.court, Voting, 0, NoRes, 0, Numbers(0, 7))
      && s.court.ballots == map[(1, 0) := Opened(sha, RelFunds), (1, 1) := Closed(sha, RefBackers)]
  {
    calls := TwoCommitted(sha);
    calls := Reveals(sha, calls, 0, RelFunds, Voting, 0, NoRes, 259_201);
  }

  lemma Commits(sha: seq<Byte> -> Hash, before: seq<Call>, j: Address, vote: Resolution) returns (calls: seq<Call>)
    requires InCourt(After(sha, before).court, Voting, 0, NoRes, 0, Numbers(0, 7)) && vote != NoRes
    requires j < 7 && (1, j) !in After(sha, before).court.ballots
    ensures var s := After(sha, before);
      After(sha, calls) == s.(court := s.court.(ballots := s.court.ballots[(1, j) := Closed(sha, vote)]))
  {
    var call := CommitVoteCall(1, j, sha(Preimage(vote, 0, [])), 0);
    Then(sha, before, call);
    calls := before + [call];
  }

  lemma Reveals(sha: seq<Byte> -> Hash, before: seq<Call>, j: Address, vote: Resolution, status: DisputeStatus,
                 since: nat, resolution: Resolution, now: nat)
    returns (calls: seq<Call>)
    requires InCourt(After(sha, before).court, status, since, resolution, 0, Numbers(0, 7)) && vote != NoRes
    requires (1, j) in After(sha, before).court.ballots && After(sha, before).court.ballots[(1, j)] == Closed(sha, vote)
    requires since + VOTING_COMMIT_PERIOD < now <= since + VOTING_COMMIT_PERIOD + VOTING_REVEAL_PERIOD
    ensures var s := After(sha, before);
      After(sha, calls) == s.(court := s.court.(ballots := s.court.ballots[(1, j) := Opened(sha, vote)]))
  {
    var call := RevealVoteCall(1, j, vote, 0, [], now);
    Then(sha, before, call);
    calls := before + [call];
  }

  lemma {:induction false} OnlyJurorZero(ballots: Ballots, n: nat)
    requires HasRevealed(ballots, 1, 0) && forall j: nat :: 0 < j < n ==> !HasRevealed(ballots, 1, j)
    ensures Revealed(ballots, 1, Numbers(0, n)) == if n == 0 then [] else [ballots[(1, 0)]]
  {
    if n > 0 {
      OnlyJurorZero(ballots, n - 1);
      assert Numbers(0, n)[..n - 1] == Numbers(0, n - 1);
    }
  }

  lemma {:induction false} NobodyRevealed(ballots: Ballots, from: nat, n: nat)
    requires forall j: nat :: from <= j < from + n ==> !HasRevealed(ballots, 1, j)
    ensures Revealed(ballots, 1, Numbers(from, n)) == []
    decreases n
  {
    if n > 0 {
      NobodyRevealed(ballots, from, n - 1);
      assert Numbers(from, n)[..n - 1] == Numbers(from, n - 1);
    }
  }

  /** A tally leaves the register, the ballots and the panel as they are. */
  lemma TallyAt(sha: seq<Byte> -> Hash, calls: seq<Call>, since: nat, resolution: Resolution, appeals: nat,
                panel: seq<Address>, now: nat)
    requires var s := After(sha, calls); InCourt(s.court, Voting, since, resolution, appeals, panel)
    requires since + VOTING_COMMIT_PERIOD + VOTING_REVEAL_PERIOD < now
    requires Leader(Revealed(After(sha, calls).court.ballots, 1, panel)).payload == 0
    ensures var s, t := After(sha, calls), After(sha, calls + [TallyVotesCall(1, now)]);
      var outcome := Outcome(Leader(Revealed(s.court.ballots, 1, panel)));
      && t == s.(court := t.court) && t.court.ballots == s.court.ballots
      && InCourt(t.court, Resolved, now, outcome, appeals, panel)
  {
    var s := After(sha, calls);
    ReachableStatesAreOk(sha, calls);
    assert InSession(s.court.disputes, 1);
    Then(sha, calls, TallyVotesCall(1, now));
    TallyIsTallied(s.court, 1, now);
    var outcome := Outcome(Leader(Revealed(s.court.ballots, 1, panel)));
    var share := TallyRecords(Books(s.court.jurors, s.court.feePool), s.court.ballots, 1, panel, outcome);
  }

  /** The jury rules for a release, of a milestone that is already paid. */
  lemma Ruled(sha: seq<Byte> -> Hash) returns (calls: seq<Call>)
    ensures var s := After(sha, calls);
      && s.projects == map[0 := Project(M.Approved, 2, 10, {(0, 1), (0, 2)})] && !s.paused
      && InCourt(s.court, Resolved, 432_001, RelFunds, 0, Numbers(0, 7))
      && s.court.ballots == map[(1, 0) := Opened(sha, RelFunds), (1, 1) := Closed(sha, RefBackers)]
  {
    calls := BallotsCast(sha);
    OnlyJurorZero(After(sha, calls).court.ballots, 7);
    OneVoteLeads(Opened(sha, RelFunds));
    TallyAt(sha, calls, 0, NoRes, 0, Numbers(0, 7), 432_001);
    calls := calls + [TallyVotesCall(1, 432_001)];
  }

  lemma OneVoteLeads(b: Ballot)
    ensures Leader([b]) == Leading(b.vote, b.payload, 1)
  {
    assert [b][..0] == [];
  }

  // ----- A milestone is paid twice

  /** In a run of the contract a milestone of 10 is approved and paid by its validators, and then paid
      a second time when the ruling on its dispute is enforced. */
  lemma PaidTwiceByRuling(sha: seq<Byte> -> Hash) returns (calls: seq<Call>)
    ensures var p := After(sha, calls).projects;
      && 0 in p && p[0].milestones == map[0 := M.Milestone(10, M.Approved, 2, 0, 2)]
      && p[0].released == p[0].paid == 20 && !Exact(p[0]) && !PaidAtMostOnce(p[0])
  {
    calls := Ruled(sha);
    var s := After(sha, calls);
    var p := s.projects[0];
    var m := M.Milestone(10, M.Approved, 2, 0, 2);
    assert M.Enforce(p, 0, RelFunds, 0) == Ok(p.(released := 20, paid := 20, milestones := map[0 := m])) by {
      assert p.milestones[0 := m] == map[0 := m];
    }
    Then(sha, calls, ExecuteResolutionCall(1, 864_002));
    calls := calls + [ExecuteResolutionCall(1, 864_002)];
    OnlyTen(After(sha, calls).projects[0]);
  }

  lemma OnlyTen(p: M.Project)
    requires p.milestones == map[0 := M.Milestone(10, M.Approved, 2, 0, 2)]
    ensures Exact(p) <==> p.released == 10
  {
    ApprovedUpdate(map[0 := M.Milestone(10, M.Pending, 2, 0, 2)], 0, M.Milestone(10, M.Approved, 2, 0, 2));
    Sums.SumSplit(ApprovedAmounts(map[0 := M.Milestone(10, M.Pending, 2, 0, 2)]), 0);
    assert map[0 := M.Milestone(10, M.Pending, 2, 0, 2)][0 := M.Milestone(10, M.Approved, 2, 0, 2)] == p.milestones;
    assert ApprovedAmounts(map[0 := M.Milestone(10, M.Pending, 2, 0, 2)]) - {0} == map[];
  }

  /** An appeal takes the fee, seats a panel of the jurors from x on and reopens the milestone. */
  lemma AppealTo(sha: seq<Byte> -> Hash, before: seq<Call>, since: nat, resolution: Resolution, appeals: nat,
                 panel: seq<Address>, status: M.Status, approvals: nat, released: nat, voters: set<(nat, Address)>,
                 from: nat, now: nat)
    returns (calls: seq<Call>)
    requires var s := After(sha, before);
      && s.projects == map[0 := Project(status, approvals, released, voters)] && !s.paused
      && InCourt(s.court, Resolved, since, resolution, appeals, panel)
    requires appeals < MAX_APPEALS && now <= since + APPEAL_WINDOW_PERIOD
    requires from + 13 <= JURORS && forall j: nat :: from <= j < from + 13 ==> j !in panel
    requires forall vote :: vote in voters ==> vote.0 == 0 && vote.1 in [1, 2, 3]
    ensures var s, t := After(sha, before), After(sha, calls);
      && t.projects == map[0 := Project(M.Pending, 0, released, {})] && !t.paused
      && InCourt(t.court, Voting, now, resolution, appeals + 1, Numbers(from, 13))
      && t.court.ballots == s.court.ballots
  {
    RosterIsOk(sha, before);
    var draws := NextPanel(After(sha, before).court, since, resolution, appeals, panel, from, now);
    Reopened(status, approvals, released, voters);
    Then(sha, before, FileAppealCall(1, draws, now));
    calls := before + [FileAppealCall(1, draws, now)];
  }

  lemma RosterIsOk(sha: seq<Byte> -> Hash, calls: seq<Call>)
    ensures RosterOk(After(sha, calls).court)
  {
    ReachableStatesAreOk(sha, calls);
  }

  lemma NextPanel(c: Court, since: nat, resolution: Resolution, appeals: nat, panel: seq<Address>, from: nat, now: nat)
    returns (draws: seq<nat>)
    requires RosterOk(c) && InCourt(c, Resolved, since, resolution, appeals, panel)
    requires appeals < MAX_APPEALS && now <= since + APPEAL_WINDOW_PERIOD
    requires from + 13 <= JURORS && forall j: nat :: from <= j < from + 13 ==> j !in panel
    ensures var e := AppealAndSeat(c, 1, CREATOR, draws, now);
      && e.Ok? && InCourt(e.value, Voting, now, resolution, appeals + 1, Numbers(from, 13))
      && e.value.ballots == c.ballots
  {
    var a := Appeal(c, 1, now).value;
    draws := SeatNumbers(a, Dispute(0, 0, CREATOR, Appealed, since, resolution, 0, appeals + 1), panel, from, 13, now);
  }

  lemma Reopened(status: M.Status, approvals: nat, released: nat, voters: set<(nat, Address)>)
    requires forall vote :: vote in voters ==> vote.0 == 0 && vote.1 in [1, 2, 3]
    ensures M.Reset(Project(status, approvals, released, voters), 0) == Ok(Project(M.Pending, 0, released, {}))
  {
    var p := Project(status, approvals, released, voters);
    assert M.VotersWithout(p, 0) == {};
    var m := M.Milestone(10, M.Pending, 0, 0, released / 10);
    assert p.milestones[0 := m] == map[0 := m];
  }

  /** In another run no ruling is enforced at all: an appeal reopens the paid milestone, which is
      submitted, approved and paid again. */
  lemma PaidTwiceByAppeal(sha: seq<Byte> -> Hash) returns (calls: seq<Call>)
    ensures var p := After(sha, calls).projects;
      && 0 in p && p[0].milestones == map[0 := M.Milestone(10, M.Approved, 2, 0, 2)]
      && p[0].released == p[0].paid == 20 && !Exact(p[0]) && !PaidAtMostOnce(p[0])
    ensures Enforcements(sha, calls, 1) == 0
  {
    calls := Ruled(sha);
    calls := AppealTo(sha, calls, 432_001, RelFunds, 0, Numbers(0, 7), M.Approved, 2, 10, {(0, 1), (0, 2)},
                      13, 432_001);
    Resubmit(sha, calls, 10, {});
    calls := calls + [SubmitMilestoneCall(0, 0)];
    calls := ApproveTwice(sha, calls, 10);
    OnlyTen(After(sha, calls).projects[0]);
    DisputesComeToAnEnd(sha, calls, 1);
  }

  // ----- Ballots of an earlier round are counted

  /** Juror 1, who did not reveal in the first round, does so after its tally. */
  lemma LateBallot(sha: seq<Byte> -> Hash) returns (calls: seq<Call>)
    ensures var s := After(sha, calls);
      && s.projects == map[0 := Project(M.Approved, 2, 10, {(0, 1), (0, 2)})] && !s.paused
      && InCourt(s.court, Resolved, 432_001, RelFunds, 0, Numbers(0, 7))
      && s.court.ballots == map[(1, 0) := Opened(sha, RelFunds), (1, 1) := Opened(sha, RefBackers)]
  {
    calls := Ruled(sha);
    calls := Reveals(sha, calls, 1, RefBackers, Resolved, 432_001, RelFunds, 691_202);
  }

  /** Then the ruling is appealed, and nobody of the second panel reveals. */
  lemma SecondRound(sha: seq<Byte> -> Hash) returns (calls: seq<Call>)
    ensures var s := After(sha, calls);
      && s.projects == map[0 := Project(M.Pending, 0, 10, {})] && !s.paused
      && InCourt(s.court, Resolved, 1_123_204, RefBackers, 1, Numbers(13, 13))
      && s.court.ballots == map[(1, 0) := Opened(sha, RelFunds), (1, 1) := Opened(sha, RefBackers)]
  {
    calls := LateBallot(sha);
    var ballots := After(sha, calls).court.ballots;
    calls := AppealTo(sha, calls, 432_001, RelFunds, 0, Numbers(0, 7), M.Approved, 2, 10, {(0, 1), (0, 2)},
                      13, 691_203);
    NobodyRevealed(ballots, 13, 13);
    TallyAt(sha, calls, 691_203, RelFunds, 1, Numbers(13, 13), 1_123_204);
    calls := calls + [TallyVotesCall(1, 1_123_204)];
  }

  /** In a run with two appeals, juror 0 sits in the first and in the third round, and the ballot
      revealed in the first is counted in the third. Juror 1, who did not reveal in the first round,
      does so after its tally; that ballot is counted in the third round as well. */
  lemma OldAndLateBallotsCount(sha: seq<Byte> -> Hash) returns (calls: seq<Call>)
    ensures var c := After(sha, calls).court;
      && InCourt(c, Voting, 1_123_205, RefBackers, 2, Numbers(0, 13))
      && Opened(sha, RelFunds) in Revealed(c.ballots, 1, Numbers(0, 13))
      && Opened(sha, RefBackers) in Revealed(c.ballots, 1, Numbers(0, 13))
  {
    calls := SecondRound(sha);
    var ballots := After(sha, calls).court.ballots;
    calls := AppealTo(sha, calls, 1_123_204, RefBackers, 1, Numbers(13, 13), M.Pending, 0, 10, {}, 0, 1_123_205);
    RevealedHolds(ballots, 1, Numbers(0, 13), 0);
    RevealedHolds(ballots, 1, Numbers(0, 13), 1);
  }

  // ----- Other calls without a check

  /** In a run that replaces the juror token while a stake is held, the stake is paid out in a token
      in which nothing was taken in. The payment goes through only if the contract happens to hold
      enough of that token from elsewhere; otherwise the token refuses the transfer, the call is
      rolled back and the juror cannot leave. */
  lemma ReplacedTokenIsOverdrawn(sha: seq<Byte> -> Hash) returns (calls: seq<Call>)
    ensures var c := After(sha, calls).court;
      Balance(c.held, TOKEN) == MIN_JUROR_STAKE && Balance(c.held, 8) == -MIN_JUROR_STAKE && !OneToken(c)
  {
    Then(sha, [], ConfigureTokenCall(TOKEN));
    calls := [] + [ConfigureTokenCall(TOKEN)];
    Then(sha, calls, RegisterCall(0, MIN_JUROR_STAKE));
    calls := calls + [RegisterCall(0, MIN_JUROR_STAKE)];
    var c := After(sha, calls).court;
    assert c.held == map[TOKEN := MIN_JUROR_STAKE] && c.jurors == map[0 := Juror(MIN_JUROR_STAKE, 0, 0, 0)];
    Then(sha, calls, ConfigureTokenCall(8));
    calls := calls + [ConfigureTokenCall(8)];
    Then(sha, calls, DeregisterCall(0));
    calls := calls + [DeregisterCall(0)];
    var e := After(sha, calls).court;
    assert TOKEN in e.held && Some(TOKEN) != e.token;
  }

  /** In a run that replaces a validator who has voted, the vote stays in the count although nobody on
      the list has voted. */
  lemma DroppedVoteStaysCounted(sha: seq<Byte> -> Hash) returns (calls: seq<Call>)
    ensures var p := After(sha, calls).projects;
      && 0 in p && 0 in p[0].milestones
      && p[0].milestones[0].approvals == 1 && VotersOf(p[0], 0) == {} && !CountsRight(p[0])
  {
    calls := UpToSubmission(sha);
    TwoApprovals(0);
    var vote, replace := VoteMilestoneCall(0, 0, 1, true), UpdateValidatorsCall(0, [2, 3, 4]);
    Then(sha, calls, vote);
    calls := calls + [vote];
    Then(sha, calls, replace);
    calls := calls + [replace];
    var p := After(sha, calls).projects[0];
    assert (0, 1) in p.voters && 1 !in p.validators;
    assert VotersOf(p, 0) == {};
  }

  /** The milestone of a project that lists validator 1 twice, with so many votes for and against it. */
  function Repeating(status: M.Status, approvals: nat, rejections: nat, voters: set<(nat, Address)>): M.Project {
    Project(M.Pending, 0, 0, voters).(
      validators := [1, 1, 2],
      milestones := map[0 := M.Milestone(10, status, approvals, rejections, 0)])
  }

  lemma RepeatingVotes()
    ensures M.Submit(Repeating(M.Pending, 0, 0, {}), 0, false) == Ok(Repeating(M.Submitted, 0, 0, {}))
    ensures M.Vote(Repeating(M.Submitted, 0, 0, {}), 0, 1, true, false) == Ok(Repeating(M.Submitted, 1, 0, {(0, 1)}))
    ensures M.Vote(Repeating(M.Submitted, 1, 0, {(0, 1)}), 0, 2, false, false)
      == Ok(Repeating(M.Submitted, 1, 1, {(0, 1), (0, 2)}))
  {
    var p, once := Repeating(M.Submitted, 0, 0, {}), Repeating(M.Submitted, 1, 0, {(0, 1)});
    var none: set<(nat, Address)> := {};
    assert M.VotersWithout(Repeating(M.Pending, 0, 0, {}), 0) == {};
    assert M.RequiredFor(p, 10) == 2 && M.RequiredFor(once, 10) == 2;
    assert p.validators[0] == 1 && p.validators[2] == 2;
    assert none + {(0, 1)} == {(0, 1)} && {(0, 1)} + {(0, 2)} == {(0, 1), (0, 2)};
    MilestoneStored(Repeating(M.Pending, 0, 0, {}), M.Milestone(10, M.Submitted, 0, 0, 0));
    MilestoneStored(p, M.Milestone(10, M.Submitted, 1, 0, 0));
    MilestoneStored(once, M.Milestone(10, M.Submitted, 1, 1, 0));
  }

  lemma MilestoneStored(p: M.Project, m: M.Milestone)
    requires p.milestones.Keys == {0}
    ensures p.milestones[0 := m] == map[0 := m]
  {
  }

  /** In a run with the validators 1, 1 and 2 everybody on the list has voted, and the milestone is
      neither approved nor rejected. */
  lemma RepeatedValidatorLeavesOpen(sha: seq<Byte> -> Hash) returns (calls: seq<Call>)
    ensures var p := After(sha, calls).projects;
      && 0 in p && p[0].milestones == map[0 := M.Milestone(10, M.Submitted, 1, 1, 0)]
      && p[0].validators == [1, 1, 2] && forall v :: v in p[0].validators ==> (0, v) in p[0].voters
  {
    calls := UpToMilestone(sha, [1, 1, 2]);
    assert Project(M.Pending, 0, 0, {}).(validators := [1, 1, 2]) == Repeating(M.Pending, 0, 0, {});
    RepeatingVotes();
    Then(sha, calls, SubmitMilestoneCall(0, 0));
    calls := calls + [SubmitMilestoneCall(0, 0)];
    var s := After(sha, calls);
    assert s.projects == map[0 := Repeating(M.Submitted, 0, 0, {})] && !s.paused;
    calls := BothVote(sha, calls);
  }

  lemma BothVote(sha: seq<Byte> -> Hash, before: seq<Call>) returns (calls: seq<Call>)
    requires After(sha, before).projects == map[0 := Repeating(M.Submitted, 0, 0, {})] && !After(sha, before).paused
    ensures After(sha, calls).projects == map[0 := Repeating(M.Submitted, 1, 1, {(0, 1), (0, 2)})]
  {
    RepeatingVotes();
    Then(sha, before, VoteMilestoneCall(0, 0, 1, true));
    calls := before + [VoteMilestoneCall(0, 0, 1, true)];
    var s := After(sha, calls);
    assert s.projects == map[0 := Repeating(M.Submitted, 1, 0, {(0, 1)})] && !s.paused;
    Then(sha, calls, VoteMilestoneCall(0, 0, 2, false));
    calls := calls + [VoteMilestoneCall(0, 0, 2, false)];
  }
}
