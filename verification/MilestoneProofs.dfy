/** What the milestone side keeps: released money stays within deposits, releases match approvals
    while no dispute interferes, and votes decide. */
module MilestoneProofs {
  import opened Machine
  import opened Outcomes
  import opened Sums
  import opened EscrowTypes
  import opened Milestones

  function Amounts(milestones: map<nat, Milestone>): map<nat, int> {
    map id | id in milestones :: milestones[id].amount
  }

  function ApprovedAmounts(milestones: map<nat, Milestone>): map<nat, int> {
    map id | id in milestones :: if milestones[id].status == Approved then milestones[id].amount else 0
  }

  // ----- Money, in every run

  ghost predicate Funded(p: Project) {
    && 0 <= p.released == p.paid <= p.deposited
    && FitsI128(p.deposited)
    && (forall id: nat :: id in p.milestones <==> id < p.counter)
    && (forall id :: id in p.milestones ==> 0 < p.milestones[id].amount)
    && Sum(Amounts(p.milestones)) <= p.deposited
  }

  /** The milestones changed only in status and counts. */
  ghost predicate SameAmounts(p: Project, q: Project) {
    && q.counter == p.counter && q.milestones.Keys == p.milestones.Keys
    && forall id :: id in p.milestones ==> q.milestones[id].amount == p.milestones[id].amount
  }

  lemma SameAmountsKeepsFunded(p: Project, q: Project)
    requires Funded(p) && SameAmounts(p, q)
    requires q.deposited >= p.deposited && FitsI128(q.deposited) && 0 <= q.released == q.paid <= q.deposited
    ensures Funded(q)
  {
    assert Amounts(q.milestones) == Amounts(p.milestones);
  }

  /** The loop over the milestone counter computes the sum of all amounts. */
  lemma {:induction false} TotalIsSum(milestones: map<nat, Milestone>, n: nat, limit: int)
    requires forall id: nat :: id in milestones <==> id < n
    requires forall id :: id in milestones ==> 0 < milestones[id].amount
    requires Sum(Amounts(milestones)) <= limit && FitsI128(limit)
    ensures TotalUpTo(milestones, n) == Ok(Sum(Amounts(milestones)))
    decreases n
  {
    if n == 0 {
      assert Amounts(milestones) == map[];
    } else {
      var last: nat := n - 1;
      var fewer := milestones - {last};
      assert last in milestones;
      assert Sum(Amounts(milestones)) == milestones[last].amount + Sum(Amounts(fewer)) by {
        SumSplit(Amounts(milestones), last);
        assert Amounts(milestones) - {last} == Amounts(fewer);
      }
      TotalIsSum(fewer, last, limit);
      TotalIgnoresUpTo(milestones, last, last);
      SumNonNegative(Amounts(milestones));
    }
  }

  lemma {:induction false} TotalIgnoresUpTo(milestones: map<nat, Milestone>, n: nat, k: nat)
    requires k <= n
    ensures TotalUpTo(milestones - {n}, k) == TotalUpTo(milestones, k)
    decreases k
  {
    if k > 0 {
      TotalIgnoresUpTo(milestones, n, k - 1);
    }
  }

  /** A milestone is created exactly when, with it, all milestones together are still covered by
      what was deposited. */
  lemma CreateSucceedsIff(p: Project, amount: int, paused: bool)
    requires Funded(p)
    ensures Create(p, amount, paused).Ok?
      <==> 0 < amount && Sum(Amounts(p.milestones)) + amount <= p.deposited && !paused
  {
    TotalIsSum(p.milestones, p.counter, p.deposited);
    SumNonNegative(Amounts(p.milestones));
  }

  lemma CreateKeepsFunded(p: Project, amount: int, paused: bool)
    requires Funded(p) && Create(p, amount, paused).Ok?
    ensures Funded(Create(p, amount, paused).value)
  {
    CreateSucceedsIff(p, amount, paused);
    var q := Create(p, amount, paused).value;
    SumUpdate(Amounts(p.milestones), p.counter, amount);
    assert Amounts(q.milestones) == Amounts(p.milestones)[p.counter := amount];
  }

  lemma VoteKeepsFunded(p: Project, id: nat, voter: Address, approve: bool, paused: bool)
    requires Funded(p) && Vote(p, id, voter, approve, paused).Ok?
    ensures Funded(Vote(p, id, voter, approve, paused).value)
  {
    SameAmountsKeepsFunded(p, Vote(p, id, voter, approve, paused).value);
  }

  lemma EnforceKeepsFunded(p: Project, id: nat, resolution: Resolution, payload: nat)
    requires Funded(p) && Enforce(p, id, resolution, payload).Ok?
    ensures Funded(Enforce(p, id, resolution, payload).value)
  {
    var q := Enforce(p, id, resolution, payload).value;
    SameAmountsKeepsFunded(p, q);
  }

  /** A ruling releases between nothing and the whole amount. */
  lemma RulingWithinAmount(m: Milestone, resolution: Resolution, payload: nat)
    requires 0 < m.amount
    ensures 0 <= Ruling(m, resolution, payload).0 <= m.amount
  {
    if resolution == PartRel {
      PartialRelease(m, payload);
    }
  }

  /** A ruling can be enforced exactly when what it releases is still there: nothing else stops it,
      not even an earlier release of the same milestone. */
  lemma EnforceSucceedsIff(p: Project, id: nat, resolution: Resolution, payload: nat)
    requires Funded(p) && id in p.milestones
    ensures Enforce(p, id, resolution, payload).Ok?
      <==> p.released + Ruling(p.milestones[id], resolution, payload).0 <= p.deposited
  {
    RulingWithinAmount(p.milestones[id], resolution, payload);
  }

  // ----- Money, without disputes

  /** What was released is exactly what approved milestones are worth. */
  ghost predicate Exact(p: Project) {
    p.released == Sum(ApprovedAmounts(p.milestones))
  }

  lemma {:induction false} ApprovedAtMostAll(milestones: map<nat, Milestone>, id: nat)
    requires forall k :: k in milestones ==> 0 < milestones[k].amount
    requires id in milestones && milestones[id].status != Approved
    ensures Sum(ApprovedAmounts(milestones)) + milestones[id].amount <= Sum(Amounts(milestones))
    decreases |milestones|
  {
    var rest := milestones - {id};
    SumSplit(Amounts(milestones), id);
    SumSplit(ApprovedAmounts(milestones), id);
    assert Amounts(milestones) - {id} == Amounts(rest);
    assert ApprovedAmounts(milestones) - {id} == ApprovedAmounts(rest);
    ApprovedAtMostAmounts(rest);
  }

  lemma {:induction false} ApprovedAtMostAmounts(milestones: map<nat, Milestone>)
    requires forall k :: k in milestones ==> 0 < milestones[k].amount
    ensures Sum(ApprovedAmounts(milestones)) <= Sum(Amounts(milestones))
    decreases |milestones|
  {
    if milestones == map[] {
      assert Amounts(milestones) == map[] && ApprovedAmounts(milestones) == map[];
    } else {
      var id :| id in milestones;
      var rest := milestones - {id};
      SumSplit(Amounts(milestones), id);
      SumSplit(ApprovedAmounts(milestones), id);
      assert Amounts(milestones) - {id} == Amounts(rest);
      assert ApprovedAmounts(milestones) - {id} == ApprovedAmounts(rest);
      ApprovedAtMostAmounts(rest);
    }
  }

  /** While releases match approvals, releasing any milestone not yet approved is affordable, so an
      approving vote never fails for lack of escrow. */
  lemma ReleaseAffordable(p: Project, id: nat)
    requires Funded(p) && Exact(p) && id in p.milestones && p.milestones[id].status != Approved
    ensures Release(p, p.milestones[id].amount).Ok?
  {
    ApprovedAtMostAll(p.milestones, id);
  }

  /** A milestone's record is replaced: how the approved total moves. */
  lemma ApprovedUpdate(milestones: map<nat, Milestone>, id: nat, m: Milestone)
    requires id in milestones
    ensures var before := if milestones[id].status == Approved then milestones[id].amount else 0;
      var after := if m.status == Approved then m.amount else 0;
      Sum(ApprovedAmounts(milestones[id := m])) == Sum(ApprovedAmounts(milestones)) - before + after
  {
    var after := if m.status == Approved then m.amount else 0;
    SumUpdate(ApprovedAmounts(milestones), id, after);
    assert ApprovedAmounts(milestones[id := m]) == ApprovedAmounts(milestones)[id := after];
  }

  lemma VoteKeepsExact(p: Project, id: nat, voter: Address, approve: bool, paused: bool)
    requires Exact(p) && Vote(p, id, voter, approve, paused).Ok?
    ensures Exact(Vote(p, id, voter, approve, paused).value)
  {
    var q := Vote(p, id, voter, approve, paused).value;
    ApprovedUpdate(p.milestones, id, q.milestones[id]);
    assert q.milestones == p.milestones[id := q.milestones[id]];
  }

  lemma SubmitKeepsExact(p: Project, id: nat, paused: bool)
    requires Exact(p) && Submit(p, id, paused).Ok?
    ensures Exact(Submit(p, id, paused).value)
  {
    var q := Submit(p, id, paused).value;
    ApprovedUpdate(p.milestones, id, q.milestones[id]);
  }

  lemma CreateKeepsExact(p: Project, amount: int, paused: bool)
    requires Funded(p) && Exact(p) && Create(p, amount, paused).Ok?
    ensures Exact(Create(p, amount, paused).value)
  {
    var q := Create(p, amount, paused).value;
    SumUpdate(ApprovedAmounts(p.milestones), p.counter, 0);
    assert ApprovedAmounts(q.milestones) == ApprovedAmounts(p.milestones)[p.counter := 0];
  }

  lemma EnforceMoves(p: Project, id: nat, resolution: Resolution, payload: nat)
    requires Funded(p) && Enforce(p, id, resolution, payload).Ok?
    ensures id in p.milestones
    ensures var m, q := p.milestones[id], Enforce(p, id, resolution, payload).value;
      var (amount, status) := Ruling(m, resolution, payload);
      && q.released == p.released + amount
      && q.milestones == p.milestones[id := Ruled(m, amount, status)]
      && 0 <= amount
  {
    RulingWithinAmount(p.milestones[id], resolution, payload);
  }

  /** What a partial release pays: the share that the jury set, in parts of ten thousand, rounded down,
      and never more than the whole. */
  lemma PartialRelease(m: Milestone, payload: nat)
    requires 0 < m.amount
    ensures var part := Ruling(m, PartRel, payload).0;
      && (payload >= 10_000 ==> part == m.amount)
      && (payload < 10_000 ==> part * 10_000 <= m.amount * payload < (part + 1) * 10_000)
      && 0 <= part <= m.amount
  {
    ProductBounds(m.amount, payload);
    Floor(m.amount * (if payload > 10_000 then 10_000 else payload), m.amount);
  }

  lemma ProductBounds(amount: int, payload: nat)
    requires 0 < amount
    ensures 0 <= amount * payload
    ensures payload < BASIS_POINTS <==> amount * payload < amount * BASIS_POINTS
  {
  }

  lemma Floor(n: int, amount: int)
    requires 0 <= n <= amount * BASIS_POINTS
    ensures var part := Quot(n, BASIS_POINTS);
      && part * BASIS_POINTS <= n < (part + 1) * BASIS_POINTS
      && (part == amount <==> n == amount * BASIS_POINTS)
      && 0 <= part <= amount
  {
  }

  /** A share of less than one unit. */
  predicate RoundsToNothing(amount: int, payload: nat) {
    payload < 10_000 && amount * payload < 10_000
  }

  lemma PartOfAmount(m: Milestone, payload: nat)
    requires 0 < m.amount
    ensures var part := Ruling(m, PartRel, payload).0;
      && (part == m.amount <==> payload >= 10_000)
      && (part == 0 <==> RoundsToNothing(m.amount, payload))
  {
    PartialRelease(m, payload);
    ProductBounds(m.amount, payload);
  }

  /** The rulings that release exactly what they add to the approved amounts. Not so when the
      validators approved the milestone in the meantime, or when only part of the amount is
      released: the code marks it approved and releases on top of what was released before. */
  predicate RulingMatches(m: Milestone, resolution: Resolution, payload: nat) {
    match resolution
    case NoRes => true
    case RelFunds => m.status != Approved
    case RefBackers => m.status != Approved
    case PartRel =>
      if m.status == Approved then RoundsToNothing(m.amount, payload) else payload >= 10_000
  }

  /** Enforcing a ruling keeps releases equal to approvals exactly when the ruling matches. */
  lemma EnforceKeepsExactIff(p: Project, id: nat, resolution: Resolution, payload: nat)
    requires Funded(p) && Exact(p) && Enforce(p, id, resolution, payload).Ok?
    ensures Exact(Enforce(p, id, resolution, payload).value) <==> RulingMatches(p.milestones[id], resolution, payload)
  {
    EnforceMoves(p, id, resolution, payload);
    var m := p.milestones[id];
    var (amount, status) := Ruling(m, resolution, payload);
    ApprovedUpdate(p.milestones, id, Ruled(m, amount, status));
    if resolution == PartRel {
      PartOfAmount(m, payload);
    }
  }

  /** An appeal that resets a milestone keeps releases equal to approvals exactly when the validators
      had not approved it in the meantime; otherwise what was released stays released, and the
      milestone can be submitted, approved and paid again. */
  lemma ResetKeepsExactIff(p: Project, id: nat)
    requires Funded(p) && Exact(p) && Reset(p, id).Ok?
    ensures Exact(Reset(p, id).value) <==> p.milestones[id].status != Approved
  {
    ApprovedUpdate(p.milestones, id, Reset(p, id).value.milestones[id]);
  }

  // ----- Each milestone paid once

  /** Every milestone that is approved was paid exactly once, and no other one ever. */
  ghost predicate PaidOnce(p: Project) {
    forall id :: id in p.milestones ==>
      p.milestones[id].releases == if p.milestones[id].status == Approved then 1 else 0
  }

  ghost predicate PaidAtMostOnce(p: Project) {
    forall id :: id in p.milestones ==> p.milestones[id].releases <= 1
  }

  /** A ruling on this milestone releases something. */
  predicate Releases(m: Milestone, resolution: Resolution, payload: nat) {
    resolution == RelFunds || (resolution == PartRel && !RoundsToNothing(m.amount, payload))
  }

  /** The rulings that pay a milestone when they approve it and only then. */
  predicate RulingPaysOnce(m: Milestone, resolution: Resolution, payload: nat) {
    match resolution
    case NoRes => true
    case RelFunds => m.status != Approved
    case RefBackers => m.status != Approved
    case PartRel => (m.status == Approved) == RoundsToNothing(m.amount, payload)
  }

  lemma ReleasesIff(m: Milestone, resolution: Resolution, payload: nat)
    requires 0 < m.amount
    ensures Ruling(m, resolution, payload).0 > 0 <==> Releases(m, resolution, payload)
  {
    if resolution == PartRel {
      PartOfAmount(m, payload);
      RulingWithinAmount(m, resolution, payload);
    }
  }

  /** The record of one milestone is replaced by one that is in order exactly if the project is. */
  lemma MilestoneReplaced(p: Project, q: Project, id: nat)
    requires id in p.milestones && id in q.milestones && q.milestones == p.milestones[id := q.milestones[id]]
    ensures PaidOnce(p) ==>
      (PaidOnce(q) <==> q.milestones[id].releases == if q.milestones[id].status == Approved then 1 else 0)
    ensures PaidAtMostOnce(p) ==> (PaidAtMostOnce(q) <==> q.milestones[id].releases <= 1)
  {
  }

  lemma EnforceKeepsPaidIff(p: Project, id: nat, resolution: Resolution, payload: nat)
    requires Funded(p) && Enforce(p, id, resolution, payload).Ok?
    ensures var q, m := Enforce(p, id, resolution, payload).value, p.milestones[id];
      && (PaidOnce(p) ==> (PaidOnce(q) <==> RulingPaysOnce(m, resolution, payload)))
      && (PaidAtMostOnce(p) ==> (PaidAtMostOnce(q) <==> !(Releases(m, resolution, payload) && m.releases > 0)))
  {
    EnforceMoves(p, id, resolution, payload);
    ReleasesIff(p.milestones[id], resolution, payload);
    MilestoneReplaced(p, Enforce(p, id, resolution, payload).value, id);
  }

  lemma ResetKeepsPaidIff(p: Project, id: nat)
    requires Reset(p, id).Ok?
    ensures var q := Reset(p, id).value;
      && (PaidOnce(p) ==> (PaidOnce(q) <==> p.milestones[id].status != Approved))
      && (PaidAtMostOnce(p) ==> PaidAtMostOnce(q))
  {
    MilestoneReplaced(p, Reset(p, id).value, id);
  }

  /** With this vote counted the milestone has the required approvals. (After a change of validators it
      may be a vote against it that brings this to light.) */
  predicate Approves(p: Project, id: nat, approve: bool)
    requires id in p.milestones
  {
    Counted(p.milestones[id], approve).approvals >= RequiredFor(p, p.milestones[id].amount)
  }

  lemma VoteKeepsPaidIff(p: Project, id: nat, voter: Address, approve: bool, paused: bool)
    requires Vote(p, id, voter, approve, paused).Ok?
    ensures var q := Vote(p, id, voter, approve, paused).value;
      && (PaidOnce(p) ==> PaidOnce(q))
      && (PaidAtMostOnce(p) ==> (PaidAtMostOnce(q) <==> !(Approves(p, id, approve) && p.milestones[id].releases > 0)))
  {
    MilestoneReplaced(p, Vote(p, id, voter, approve, paused).value, id);
  }

  // ----- Counting the votes of the validators

  /** Required approvals lie between one and the number of validators. */
  lemma RequiredInRange(amount: int, validators: nat, threshold: nat)
    requires 1 <= validators && threshold <= MAX_APPROVAL_THRESHOLD
    ensures 1 <= Required(amount, validators, threshold) <= validators
  {
    assert validators * threshold <= validators * BASIS_POINTS;
  }

  function VotersOf(p: Project, id: nat): set<Address> {
    set v | v in p.validators && (id, v) in p.voters
  }

  /** What every project's settings satisfy: the code checks them when they are stored. */
  predicate Configured(p: Project) {
    MIN_VALIDATORS <= |p.validators| && p.threshold <= MAX_APPROVAL_THRESHOLD
  }

  /** The two counts of a milestone are together the validators recorded as its voters, and neither
      outcome is reached. */
  ghost predicate Undecided(p: Project, id: nat)
    requires id in p.milestones
  {
    var m := p.milestones[id];
    && m.approvals + m.rejections == |VotersOf(p, id)|
    && m.approvals < RequiredFor(p, m.amount)
    && m.rejections <= |p.validators| - RequiredFor(p, m.amount)
  }

  ghost predicate CountsRight(p: Project) {
    forall id :: id in p.milestones && p.milestones[id].status == Submitted ==> Undecided(p, id)
  }

  lemma ClearedVoters(p: Project, q: Project, id: nat)
    requires q.validators == p.validators && q.voters == VotersWithout(p, id)
    ensures VotersOf(q, id) == {}
    ensures forall other {:trigger VotersOf(q, other)} :: other != id ==> VotersOf(q, other) == VotersOf(p, other)
  {
  }

  lemma SubmitKeepsCounts(p: Project, id: nat, paused: bool)
    requires Configured(p) && CountsRight(p) && Submit(p, id, paused).Ok?
    ensures CountsRight(Submit(p, id, paused).value)
  {
    var q := Submit(p, id, paused).value;
    ClearedVoters(p, q, id);
    RequiredInRange(p.milestones[id].amount, |p.validators|, p.threshold);
    forall other | other in q.milestones && q.milestones[other].status == Submitted
      ensures Undecided(q, other)
    {
      if other != id {
        assert Undecided(p, other);
        assert VotersOf(q, other) == VotersOf(p, other);
      }
    }
  }

  lemma ResetKeepsCounts(p: Project, id: nat)
    requires CountsRight(p) && Reset(p, id).Ok?
    ensures CountsRight(Reset(p, id).value)
  {
    var q := Reset(p, id).value;
    ClearedVoters(p, q, id);
    forall other | other in q.milestones && q.milestones[other].status == Submitted
      ensures Undecided(q, other)
    {
      assert Undecided(p, other);
      assert VotersOf(q, other) == VotersOf(p, other);
    }
  }

  lemma EnforceKeepsCounts(p: Project, id: nat, resolution: Resolution, payload: nat)
    requires CountsRight(p) && Enforce(p, id, resolution, payload).Ok?
    ensures CountsRight(Enforce(p, id, resolution, payload).value)
  {
    var q := Enforce(p, id, resolution, payload).value;
    forall other | other in q.milestones && q.milestones[other].status == Submitted
      ensures Undecided(q, other)
    {
      assert Undecided(p, other);
      assert VotersOf(q, other) == VotersOf(p, other);
    }
  }

  /** The votes recorded on submitted milestones still count as they are under a new list of
      validators, and decide nothing under it. */
  ghost predicate VotesSurvive(p: Project, validators: seq<Address>) {
    forall id :: id in p.milestones && p.milestones[id].status == Submitted ==>
      var m := p.milestones[id];
      && |set v | v in validators && (id, v) in p.voters| == m.approvals + m.rejections
      && m.approvals < Required(m.amount, |validators|, p.threshold)
      && m.rejections <= |validators| - Required(m.amount, |validators|, p.threshold)
  }

  /** Replacing the validators keeps the counts right exactly when the votes survive: as many voters
      of each submitted milestone are on the new list as its counts say, and the new number of
      validators does not decide it. */
  lemma ReplaceKeepsCountsIff(p: Project, validators: seq<Address>)
    requires SetValidators(p, validators).Ok?
    ensures CountsRight(SetValidators(p, validators).value) <==> VotesSurvive(p, validators)
  {
    var q := SetValidators(p, validators).value;
    forall id: nat
      ensures VotersOf(q, id) == set v | v in validators && (id, v) in p.voters
    {
    }
    if CountsRight(q) {
      forall id | id in p.milestones && p.milestones[id].status == Submitted
        ensures Undecided(q, id)
      {
        assert id in q.milestones;
      }
    }
  }

  lemma DepositKeepsCounts(p: Project, amount: int, paused: bool)
    requires CountsRight(p) && Deposit(p, amount, paused).Ok?
    ensures CountsRight(Deposit(p, amount, paused).value)
  {
    var q := Deposit(p, amount, paused).value;
    forall id | id in q.milestones && q.milestones[id].status == Submitted
      ensures Undecided(q, id)
    {
      assert Undecided(p, id);
      assert VotersOf(q, id) == VotersOf(p, id);
    }
  }

  lemma CreateKeepsCounts(p: Project, amount: int, paused: bool)
    requires CountsRight(p) && Create(p, amount, paused).Ok?
    ensures CountsRight(Create(p, amount, paused).value)
  {
    var q := Create(p, amount, paused).value;
    forall other | other in q.milestones && q.milestones[other].status == Submitted
      ensures Undecided(q, other)
    {
      assert Undecided(p, other);
      assert VotersOf(q, other) == VotersOf(p, other);
    }
  }

  /** One more voter on one milestone. */
  lemma VoterAdded(p: Project, q: Project, id: nat, voter: Address)
    requires q.validators == p.validators && voter in p.validators && (id, voter) !in p.voters
    requires q.voters == p.voters + {(id, voter)}
    ensures |VotersOf(q, id)| == |VotersOf(p, id)| + 1
    ensures forall other {:trigger VotersOf(q, other)} :: other != id ==> VotersOf(q, other) == VotersOf(p, other)
  {
    assert VotersOf(q, id) == VotersOf(p, id) + {voter};
  }

  lemma VoteKeepsCounts(p: Project, id: nat, voter: Address, approve: bool, paused: bool)
    requires CountsRight(p) && Vote(p, id, voter, approve, paused).Ok?
    ensures CountsRight(Vote(p, id, voter, approve, paused).value)
  {
    var q := Vote(p, id, voter, approve, paused).value;
    assert q.validators == p.validators && q.threshold == p.threshold;
    VoterAdded(p, q, id, voter);
    assert Undecided(p, id);
    forall other | other in q.milestones && q.milestones[other].status == Submitted
      ensures Undecided(q, other)
    {
      if other != id {
        assert q.milestones[other] == p.milestones[other];
        assert Undecided(p, other);
        assert VotersOf(q, other) == VotersOf(p, other);
      }
    }
  }

  /** So many approvals are enough: in parts of ten thousand no fewer than the threshold of all
      validators, rounded down, and no fewer than the amount calls for, or all validators if they are
      fewer than that. */
  predicate Enough(approvals: int, amount: int, validators: nat, threshold: nat) {
    && (approvals + 1) * 10_000 > validators * threshold
    && (|| approvals >= validators
        || (amount <= 1_000 && approvals >= 2)
        || (amount <= 10_000 && approvals >= 3)
        || (amount <= 100_000 && approvals >= 4)
        || approvals >= 5)
  }

  lemma RequiredIff(amount: int, validators: nat, threshold: nat, approvals: int)
    ensures approvals >= Required(amount, validators, threshold) <==> Enough(approvals, amount, validators, threshold)
  {
    var n := validators * threshold;
    assert n / BASIS_POINTS * BASIS_POINTS <= n < (n / BASIS_POINTS + 1) * BASIS_POINTS;
  }

  /** Everything a vote does. It is accepted from a validator who has not voted on a submitted
      milestone, unless it is the deciding one and the escrow cannot pay. It is recorded and counted;
      the milestone is approved and paid when the approvals are enough, and rejected when not even
      the approval of all who have not rejected it would be. */
  lemma VoteExactly(p: Project, id: nat, voter: Address, approve: bool, paused: bool)
    requires Funded(p)
    ensures Vote(p, id, voter, approve, paused).Ok? <==>
      && voter in p.validators && id in p.milestones && p.milestones[id].status == Submitted
      && (id, voter) !in p.voters && !paused
      && var m, n := p.milestones[id], |p.validators|;
        Enough(m.approvals + (if approve then 1 else 0), m.amount, n, p.threshold) ==>
          p.released + m.amount <= p.deposited
    ensures Vote(p, id, voter, approve, paused).Ok? ==>
      var m, n := p.milestones[id], |p.validators|;
      var approvals, rejections := m.approvals + (if approve then 1 else 0), m.rejections + (if approve then 0 else 1);
      var approved := Enough(approvals, m.amount, n, p.threshold);
      var rejected := !approved && !Enough(n - rejections, m.amount, n, p.threshold);
      var paid := if approved then m.amount else 0;
      var after := Milestone(m.amount, if approved then Approved else if rejected then Rejected else Submitted,
                             approvals, rejections, m.releases + if approved then 1 else 0);
      Vote(p, id, voter, approve, paused).value == Project(
        p.creator, p.deposited, p.released + paid, p.paid + paid, p.validators, p.threshold, p.counter,
        p.milestones[id := after], p.voters + {(id, voter)})
  {
    if id in p.milestones {
      var m, n := p.milestones[id], |p.validators|;
      RequiredIff(m.amount, n, p.threshold, m.approvals + if approve then 1 else 0);
      RequiredIff(m.amount, n, p.threshold, n - (m.rejections + if approve then 0 else 1));
    }
  }

  /** A vote approves exactly when the approvals are enough, and rejects exactly when, with the approval
      of all validators who have not voted yet, they no longer could be. */
  lemma VoteDecidesIff(p: Project, id: nat, voter: Address, approve: bool, paused: bool)
    requires Vote(p, id, voter, approve, paused).Ok? && Undecided(p, id)
    ensures var q := Vote(p, id, voter, approve, paused).value;
      var m, n := q.milestones[id], |p.validators|;
      && m.approvals + m.rejections == |VotersOf(q, id)|
      && (m.status == Approved <==> Enough(m.approvals, m.amount, n, p.threshold))
      && (m.status == Rejected <==> !Enough(m.approvals + (n - |VotersOf(q, id)|), m.amount, n, p.threshold))
      && (m.status == Approved ==> q.released == p.released + m.amount)
      && (m.status != Approved ==> q.released == p.released)
  {
    var q := Vote(p, id, voter, approve, paused).value;
    var m, n := q.milestones[id], |p.validators|;
    assert q.validators == p.validators && q.threshold == p.threshold;
    VoterAdded(p, q, id, voter);
    RequiredIff(m.amount, n, p.threshold, m.approvals);
    RequiredIff(m.amount, n, p.threshold, n - m.rejections);
  }

  /** With distinct validators somebody has not voted while a milestone is undecided: once all have,
      it is decided. */
  lemma UndecidedMeansVotesMissing(p: Project, id: nat)
    requires id in p.milestones && Undecided(p, id) && Distinct(p.validators)
    ensures |VotersOf(p, id)| < |p.validators|
    ensures exists v :: v in p.validators && (id, v) !in p.voters
  {
    DistinctSize(p.validators);
    var all := Members(p.validators);
    assert VotersOf(p, id) <= all;
    assert VotersOf(p, id) != all;
    var v :| v in all && v !in VotersOf(p, id);
    assert v in p.validators && (id, v) !in p.voters;
  }

  // ----- The outcome does not depend on the order of the votes

  datatype Opinion = Opinion(voter: Address, approve: bool)

  /** The project after a list of votes on one milestone; a vote that fails changes nothing. */
  function VoteAll(p: Project, id: nat, ballots: seq<Opinion>): Project
    decreases |ballots|
  {
    if ballots == [] then p
    else
      var next := Vote(p, id, ballots[0].voter, ballots[0].approve, false);
      VoteAll(if next.Ok? then next.value else p, id, ballots[1..])
  }

  function CountApprovals(ballots: seq<Opinion>): (n: nat)
    ensures n <= |ballots|
  {
    if ballots == [] then 0 else (if ballots[0].approve then 1 else 0) + CountApprovals(ballots[1..])
  }

  /** Different validators of the project, none of whom has voted on the milestone yet. */
  ghost predicate NotVotedYet(p: Project, id: nat, ballots: seq<Opinion>) {
    && (forall i :: 0 <= i < |ballots| ==> ballots[i].voter in p.validators && (id, ballots[i].voter) !in p.voters)
    && (forall i, j :: 0 <= i < j < |ballots| ==> ballots[i].voter != ballots[j].voter)
  }

  lemma {:induction false} DecidedStays(p: Project, id: nat, ballots: seq<Opinion>)
    requires id in p.milestones && p.milestones[id].status != Submitted
    ensures VoteAll(p, id, ballots) == p
    decreases |ballots|
  {
    if ballots != [] {
      DecidedStays(p, id, ballots[1..]);
    }
  }

  /** When each of distinct validators votes, in whatever order, the milestone is approved exactly when
      at least the required number of them approve, and rejected otherwise: the early decisions
      never depend on who votes first. */
  lemma {:induction false} OutcomeIgnoresOrder(p: Project, id: nat, ballots: seq<Opinion>)
    requires Configured(p) && Distinct(p.validators)
    requires id in p.milestones && p.milestones[id].status == Submitted && Undecided(p, id)
    requires Release(p, p.milestones[id].amount).Ok?
    requires NotVotedYet(p, id, ballots) && |ballots| + |VotersOf(p, id)| == |p.validators|
    ensures id in VoteAll(p, id, ballots).milestones
    ensures VoteAll(p, id, ballots).milestones[id].status ==
      var m := p.milestones[id];
      if Enough(m.approvals + CountApprovals(ballots), m.amount, |p.validators|, p.threshold) then Approved
      else Rejected
    decreases |ballots|
  {
    UndecidedMeansVotesMissing(p, id);
    var m := p.milestones[id];
    RequiredIff(m.amount, |p.validators|, p.threshold, m.approvals + CountApprovals(ballots));
    var b := ballots[0];
    assert Vote(p, id, b.voter, b.approve, false).Ok?;
    var q := Vote(p, id, b.voter, b.approve, false).value;
    VoteMoves(p, id, b);
    VoteLeavesUndecided(p, id, b);
    if q.milestones[id].status == Submitted {
      PendingRest(p, q, id, ballots);
      OutcomeIgnoresOrder(q, id, ballots[1..]);
    } else {
      DecidedStays(q, id, ballots[1..]);
    }
  }

  lemma VoteMoves(p: Project, id: nat, b: Opinion)
    requires Vote(p, id, b.voter, b.approve, false).Ok?
    ensures var m, q := p.milestones[id], Vote(p, id, b.voter, b.approve, false).value;
      && q.validators == p.validators && q.threshold == p.threshold && q.deposited == p.deposited
      && q.voters == p.voters + {(id, b.voter)} && |VotersOf(q, id)| == |VotersOf(p, id)| + 1
      && q.milestones[id].amount == m.amount
      && q.milestones[id].approvals == m.approvals + (if b.approve then 1 else 0)
      && q.milestones[id].rejections == m.rejections + (if b.approve then 0 else 1)
      && (q.milestones[id].status != Approved ==> q.released == p.released)
  {
    VoterAdded(p, Vote(p, id, b.voter, b.approve, false).value, id, b.voter);
  }

  lemma VoteLeavesUndecided(p: Project, id: nat, b: Opinion)
    requires Vote(p, id, b.voter, b.approve, false).Ok? && Undecided(p, id)
    ensures var q := Vote(p, id, b.voter, b.approve, false).value;
      q.milestones[id].status == Submitted ==> Undecided(q, id)
  {
    VoteMoves(p, id, b);
  }

  lemma PendingRest(p: Project, q: Project, id: nat, ballots: seq<Opinion>)
    requires ballots != [] && NotVotedYet(p, id, ballots)
    requires q.validators == p.validators && q.voters == p.voters + {(id, ballots[0].voter)}
    ensures NotVotedYet(q, id, ballots[1..])
  {
  }

  // ----- Whether all votes are enough for a decision

  /** Everybody on the list who has not voted yet votes once. */
  ghost predicate CompleteVote(p: Project, id: nat, ballots: seq<Opinion>) {
    && NotVotedYet(p, id, ballots)
    && forall v :: v in p.validators ==> (id, v) in p.voters || exists i :: 0 <= i < |ballots| && ballots[i].voter == v
  }

  ghost predicate LeavesOpen(p: Project, id: nat, ballots: seq<Opinion>) {
    var q := VoteAll(p, id, ballots);
    id in q.milestones && q.milestones[id].status == Submitted
  }

  /** A complete vote can leave a milestone undecided, with nobody left to vote, exactly when the list
      of validators repeats somebody or the escrow cannot pay the milestone. The code checks that
      a list is long enough and not that its members are different. */
  lemma CompleteVoteLeavesOpenIff(p: Project, id: nat)
    requires Configured(p) && id in p.milestones && p.milestones[id].status == Submitted && Undecided(p, id)
    ensures (exists ballots :: CompleteVote(p, id, ballots) && LeavesOpen(p, id, ballots))
      <==> !Distinct(p.validators) || Release(p, p.milestones[id].amount).Err?
  {
    if Distinct(p.validators) && Release(p, p.milestones[id].amount).Ok? {
      forall ballots | CompleteVote(p, id, ballots)
        ensures !LeavesOpen(p, id, ballots)
      {
        CompleteSize(p, id, ballots);
        OutcomeIgnoresOrder(p, id, ballots);
      }
    } else {
      var voters := Remaining(p, id);
      var ballots;
      if Release(p, p.milestones[id].amount).Err? {
        ballots := ApproveAll(p, id, voters);
      } else {
        RepeatedLeavesRoom(p, id, voters);
        ballots := LeaveOpen(p, id, voters);
      }
      CastBy(p, id, voters, ballots);
    }
  }

  lemma CompleteSize(p: Project, id: nat, ballots: seq<Opinion>)
    requires Distinct(p.validators) && CompleteVote(p, id, ballots)
    ensures |ballots| + |VotersOf(p, id)| == |p.validators|
  {
    var voters := seq(|ballots|, i requires 0 <= i < |ballots| => ballots[i].voter);
    var now, before, all := Members(voters), VotersOf(p, id), Members(p.validators);
    DistinctSize(voters);
    DistinctSize(p.validators);
    forall v
      ensures v in all <==> v in now || v in before
      ensures !(v in now && v in before)
    {
      if v in now {
        var i :| 0 <= i < |voters| && voters[i] == v;
        assert ballots[i].voter == v;
      }
      if v in all && v !in before {
        var i :| 0 <= i < |ballots| && ballots[i].voter == v;
        assert voters[i] == v;
      }
    }
    assert all == now + before;
  }

  /** Validators who have not voted yet, each once. */
  ghost predicate Left(p: Project, id: nat, voters: seq<Address>) {
    Distinct(voters) && forall v :: v in voters ==> v in p.validators && (id, v) !in p.voters
  }

  lemma Remaining(p: Project, id: nat) returns (voters: seq<Address>)
    ensures Left(p, id, voters)
    ensures forall v :: v in p.validators ==> (id, v) in p.voters || v in voters
  {
    voters := Listed((set v | v in p.validators && (id, v) !in p.voters));
  }

  lemma Listed(all: set<Address>) returns (r: seq<Address>)
    ensures Distinct(r) && forall v :: v in r <==> v in all
    decreases |all|
  {
    if all == {} {
      r := [];
    } else {
      var v :| v in all;
      var rest := Listed(all - {v});
      r := [v] + rest;
    }
  }

  lemma CastBy(p: Project, id: nat, voters: seq<Address>, ballots: seq<Opinion>)
    requires Left(p, id, voters) && |ballots| == |voters|
    requires forall i :: 0 <= i < |ballots| ==> ballots[i].voter == voters[i]
    requires forall v :: v in p.validators ==> (id, v) in p.voters || v in voters
    ensures CompleteVote(p, id, ballots)
  {
    forall v | v in p.validators && (id, v) !in p.voters
      ensures exists i :: 0 <= i < |ballots| && ballots[i].voter == v
    {
      var i :| 0 <= i < |voters| && voters[i] == v;
      assert ballots[i].voter == v;
    }
  }

  lemma RepeatedLeavesRoom(p: Project, id: nat, voters: seq<Address>)
    requires !Distinct(p.validators) && Left(p, id, voters)
    ensures |voters| + |VotersOf(p, id)| < |p.validators|
  {
    var now, before, all := Members(voters), VotersOf(p, id), Members(p.validators);
    DistinctSize(voters);
    RepeatedSize(p.validators);
    assert now !! before && now + before <= all;
    SubsetSize(now + before, all);
  }

  /** Votes that leave a milestone open, while they leave room below the number of places. */
  lemma {:induction false} LeaveOpen(p: Project, id: nat, voters: seq<Address>) returns (ballots: seq<Opinion>)
    requires id in p.milestones && p.milestones[id].status == Submitted && Undecided(p, id)
    requires Left(p, id, voters) && |voters| + |VotersOf(p, id)| < |p.validators|
    ensures |ballots| == |voters| && forall i :: 0 <= i < |ballots| ==> ballots[i].voter == voters[i]
    ensures LeavesOpen(p, id, ballots)
    decreases |voters|
  {
    if voters == [] {
      ballots := [];
    } else {
      assert voters[0] in voters;
      var m := p.milestones[id];
      var b := Opinion(voters[0], m.approvals + 1 < RequiredFor(p, m.amount));
      assert Vote(p, id, b.voter, b.approve, false).Ok?;
      var q := Vote(p, id, b.voter, b.approve, false).value;
      VoteMoves(p, id, b);
      assert q.milestones[id].status == Submitted;
      VoteLeavesUndecided(p, id, b);
      LeftAfter(p, q, id, voters);
      var rest := LeaveOpen(q, id, voters[1..]);
      ballots := [b] + rest;
      assert ballots[1..] == rest;
    }
  }

  lemma LeftAfter(p: Project, q: Project, id: nat, voters: seq<Address>)
    requires voters != [] && Left(p, id, voters)
    requires q.validators == p.validators && q.voters <= p.voters + {(id, voters[0])}
    ensures Left(q, id, voters[1..])
  {
    forall v | v in voters[1..]
      ensures v in q.validators && (id, v) !in q.voters
    {
      assert v in voters && v != voters[0];
    }
  }

  /** If the escrow cannot pay the milestone, even approvals only leave it open: the deciding vote
      fails, and so does every vote after it. */
  lemma {:induction false} ApproveAll(p: Project, id: nat, voters: seq<Address>) returns (ballots: seq<Opinion>)
    requires id in p.milestones && p.milestones[id].status == Submitted
    requires p.milestones[id].rejections <= |p.validators| - RequiredFor(p, p.milestones[id].amount)
    requires Release(p, p.milestones[id].amount).Err? && Left(p, id, voters)
    ensures |ballots| == |voters| && forall i :: 0 <= i < |ballots| ==> ballots[i].voter == voters[i]
    ensures LeavesOpen(p, id, ballots)
    decreases |voters|
  {
    if voters == [] {
      ballots := [];
    } else {
      var next := Vote(p, id, voters[0], true, false);
      var q := if next.Ok? then next.value else p;
      LeftAfter(p, q, id, voters);
      var rest := ApproveAll(q, id, voters[1..]);
      ballots := [Opinion(voters[0], true)] + rest;
      assert ballots[1..] == rest;
    }
  }
}
