/** When each call on a project succeeds and all that it changes, told in the fields of the records. */
module MilestoneEffects {
  import opened Machine
  import opened Outcomes
  import opened Sums
  import opened EscrowTypes
  import opened Milestones
  import opened MilestoneProofs

  /** A new escrow needs three validators, a fee of at most the whole and a threshold of 51 to 100
      percent; it holds nothing and has no milestones. */
  lemma InitializeExactly(creator: Address, validators: seq<Address>, threshold: nat, fee: nat)
    ensures var r := NewProject(creator, validators, threshold, fee);
      && (r.Ok? <==> |validators| >= 3 && fee <= 10_000 && 5_100 <= threshold <= 10_000)
      && (r.Ok? ==>
            && r.value.creator == creator && r.value.validators == validators && r.value.threshold == threshold
            && r.value.deposited == r.value.released == r.value.paid == 0
            && r.value.counter == 0 && r.value.milestones == map[] && r.value.voters == {})
  {
  }

  /** A deposit raises what was deposited by its amount and changes nothing else. */
  lemma DepositExactly(p: Project, amount: int, paused: bool)
    ensures var r := Deposit(p, amount, paused);
      && (r.Ok? <==> 0 < amount && !paused && FitsI128(p.deposited + amount))
      && (r.Ok? ==> r.value.deposited - p.deposited == amount && r.value == p.(deposited := r.value.deposited))
  {
  }

  /** The milestones, counters and voters of a project changed only as far as milestone id goes. */
  ghost predicate OnlyMilestone(p: Project, q: Project, id: nat) {
    && q == p.(counter := q.counter, milestones := q.milestones, voters := q.voters)
    && id in q.milestones && q.milestones == p.milestones[id := q.milestones[id]]
    && forall vote :: vote in p.voters || vote in q.voters ==> vote.0 == id || (vote in p.voters && vote in q.voters)
  }

  /** A new milestone comes under the next number, with its amount, pending, without votes and unpaid;
      together the milestones are worth that much more. */
  lemma CreateExactly(p: Project, amount: int, paused: bool)
    requires Funded(p) && Create(p, amount, paused).Ok?
    ensures var q := Create(p, amount, paused).value;
      && p.counter !in p.milestones && OnlyMilestone(p, q, p.counter) && q.voters == p.voters
      && q.counter == p.counter + 1
      && q.milestones[p.counter] == Milestone(amount, Pending, 0, 0, 0)
      && Sum(Amounts(q.milestones)) == Sum(Amounts(p.milestones)) + amount
  {
    var q := Create(p, amount, paused).value;
    SumUpdate(Amounts(p.milestones), p.counter, amount);
    assert Amounts(q.milestones) == Amounts(p.milestones)[p.counter := amount];
  }

  /** Nobody on the present list of validators is recorded as a voter of the milestone. */
  ghost predicate NobodyVoted(p: Project, id: nat) {
    forall v :: v in p.validators ==> (id, v) !in p.voters
  }

  /** Submitting takes a pending milestone and starts its vote: no counts, no voters. */
  lemma SubmitExactly(p: Project, id: nat, paused: bool)
    ensures var r := Submit(p, id, paused);
      && (r.Ok? <==> id in p.milestones && p.milestones[id].status == Pending && !paused)
      && (r.Ok? ==>
            && OnlyMilestone(p, r.value, id) && r.value.counter == p.counter && NobodyVoted(r.value, id)
            && r.value.milestones[id] == p.milestones[id].(status := Submitted, approvals := 0, rejections := 0)
            && forall vote :: vote in p.voters && vote.1 !in p.validators ==> vote in r.value.voters)
  {
  }

  /** The reset of an appeal takes a milestone of any status back to pending, without votes. */
  lemma ResetExactly(p: Project, id: nat)
    ensures var r := Reset(p, id);
      && (r.Ok? <==> id in p.milestones)
      && (r.Ok? ==>
            && OnlyMilestone(p, r.value, id) && r.value.counter == p.counter && NobodyVoted(r.value, id)
            && r.value.milestones[id] == p.milestones[id].(status := Pending, approvals := 0, rejections := 0)
            && forall vote :: vote in p.voters && vote.1 !in p.validators ==> vote in r.value.voters)
  {
  }

  lemma ReplaceExactly(p: Project, validators: seq<Address>)
    ensures var r := SetValidators(p, validators);
      && (r.Ok? <==> |validators| >= 3)
      && (r.Ok? ==> r.value.validators == validators && r.value == p.(validators := r.value.validators))
  {
  }

  /** What a ruling pays and leaves: a release the whole amount, a refund nothing, a partial release the
      share in parts of ten thousand, rounded down. */
  ghost predicate RulingPays(m: Milestone, resolution: Resolution, payload: nat, part: int, status: Status) {
    match resolution
    case NoRes => part == 0 && status == m.status
    case RelFunds => part == m.amount && status == Approved
    case RefBackers => part == 0 && status == Rejected
    case PartRel =>
      && status == Approved
      && (payload >= 10_000 ==> part == m.amount)
      && (payload < 10_000 ==> part * 10_000 <= m.amount * payload < (part + 1) * 10_000)
  }

  /** Enforcing a ruling pays exactly that, counts the payment, sets the status and changes nothing else. */
  lemma EnforceExactly(p: Project, id: nat, resolution: Resolution, payload: nat)
    requires Funded(p) && Enforce(p, id, resolution, payload).Ok?
    ensures id in p.milestones
    ensures var m, q := p.milestones[id], Enforce(p, id, resolution, payload).value;
      var part := q.paid - p.paid;
      && part == q.released - p.released
      && OnlyMilestone(p.(released := q.released, paid := q.paid), q, id)
      && q.counter == p.counter && q.voters == p.voters
      && RulingPays(m, resolution, payload, part, q.milestones[id].status)
      && q.milestones[id] == m.(status := q.milestones[id].status, releases := m.releases + if part > 0 then 1 else 0)
  {
    EnforceMoves(p, id, resolution, payload);
    if resolution == PartRel {
      PartialRelease(p.milestones[id], payload);
    }
  }
}

/** The same for the calls of the court. */
module CourtEffects {
  import opened Outcomes
  import opened Sums
  import opened EscrowTypes
  import opened Jury
  import opened Tally
  import opened Court
  import opened SettlementProofs
  import opened CourtProofs

  /** An amount came in, or with the other sign went out, in one token. */
  ghost predicate Transferred(before: Ledger, after: Ledger, token: Address, amount: int) {
    forall t :: Balance(after, t) == Balance(before, t) + if t == token then amount else 0
  }

  /** A juror registers once, with at least the minimum stake and a token to pay it in; the whole stake
      comes in and is recorded, and the juror joins the list at its end. */
  lemma RegisterExactly(c: Court, juror: Address, stake: int)
    ensures var r := Register(c, juror, stake);
      && (r.Ok? <==> MIN_JUROR_STAKE <= stake && juror !in c.jurors && c.token.Some?)
      && (r.Ok? ==>
            && Transferred(c.held, r.value.held, c.token.value, stake)
            && r.value == c.(held := r.value.held, jurors := c.jurors[juror := Juror(stake, 0, 0, 0)],
                             roster := c.roster + [juror]))
  {
  }

  /** A juror leaves without active disputes; exactly the recorded stake goes out. */
  lemma DeregisterExactly(c: Court, juror: Address)
    requires RosterOk(c)
    ensures var r := Deregister(c, juror);
      && (r.Ok? <==> juror in c.jurors && c.jurors[juror].active <= 0 && c.token.Some?)
      && (r.Ok? ==>
            && Transferred(c.held, r.value.held, c.token.value, 0 - c.jurors[juror].stake)
            && r.value == c.(held := r.value.held, jurors := c.jurors - {juror}, roster := r.value.roster)
            && forall j :: j in r.value.roster <==> j in c.roster && j != juror)
  {
    WithoutIsExact(c.roster, juror);
  }

  /** A new dispute is pending, without outcome or appeal, under a number of its own. */
  lemma OpenExactly(c: Court, projectId: nat, milestoneId: nat, initiator: Address, now: nat)
    requires DisputesOk(c)
    ensures var e := Open(c, projectId, milestoneId, initiator, now);
      && c.nextId !in c.disputes && e.nextId == c.nextId + 1
      && e.disputes == c.disputes[c.nextId := Dispute(projectId, milestoneId, initiator, Pending, now, NoRes, 0, 0)]
      && e == c.(nextId := e.nextId, disputes := e.disputes)
  {
  }

  /** What seating a panel leaves. */
  ghost predicate Impaneled(c: Court, e: Court, d: nat, now: nat)
    requires d in c.disputes
  {
    && d in e.panels
    && e == c.(jurors := e.jurors, panels := c.panels[d := e.panels[d]],
               disputes := c.disputes[d := c.disputes[d].(status := Voting, createdAt := now)])
    && e.jurors.Keys == c.jurors.Keys
    && forall j :: j in c.jurors ==>
      e.jurors[j] == c.jurors[j].(active := c.jurors[j].active + if j in e.panels[d] then 1 else 0)
  }

  /** Seating a panel opens the vote, counts the dispute with each of its members and changes nothing else. */
  lemma SeatExactly(c: Court, d: nat, creator: Address, draws: seq<nat>, now: nat)
    requires RosterOk(c) && d in c.disputes && Seat(c, d, creator, draws, now).Ok?
    ensures Impaneled(c, Seat(c, d, creator, draws, now).value, d, now)
  {
    SeatIsImpartial(c, d, creator, draws, now);
    SummonAddsOne(c.jurors, Seat(c, d, creator, draws, now).value.panels[d]);
  }

  // ----- Votes

  /** A commitment is taken once from each panel member until the commit period is over. */
  lemma CommitExactly(c: Court, d: nat, j: Address, hash: Hash, now: nat)
    requires DisputesOk(c)
    ensures var r := Commit(c, d, j, hash, now);
      && (r.Ok? <==>
            && d in c.disputes && c.disputes[d].status == Voting
            && now <= c.disputes[d].createdAt + VOTING_COMMIT_PERIOD
            && d in c.panels && j in c.panels[d] && (d, j) !in c.ballots)
      && (r.Ok? ==> r.value == c.(ballots := c.ballots[(d, j) := Ballot(hash, false, NoRes, 0)]))
  {
    assert d in c.disputes ==> DisputeOk(c, d);
  }

  /** What is hashed: one byte for the option, for a partial release the payload, then the salt. */
  lemma PreimageExactly(vote: Resolution, payload: U32, salt: seq<Byte>)
    requires vote != NoRes
    ensures var bytes := Preimage(vote, payload, salt);
      match vote
      case RelFunds => bytes == [0] + salt
      case RefBackers => bytes == [1] + salt
      case PartRel =>
        && |bytes| == 5 + |salt| && bytes[0] == 2 && bytes[5..] == salt
        && (bytes[1] as int) * 0x100_0000 + (bytes[2] as int) * 0x1_0000 + (bytes[3] as int) * 0x100 + (bytes[4] as int)
           == payload
  {
    if vote == PartRel {
      var four := BigEndian(payload);
      assert Preimage(vote, payload, salt)[1..5] == four;
    }
  }

  /** A ballot is opened once, in the reveal period, by an option, payload and salt that hash to it; what
      was opened is recorded. */
  lemma RevealExactly(c: Court, sha: seq<Byte> -> Hash, d: nat, j: Address, vote: Resolution, payload: U32,
                      salt: seq<Byte>, now: nat)
    ensures var r := Reveal(c, sha, d, j, vote, payload, salt, now);
      && (r.Ok? <==>
            && d in c.disputes
            && c.disputes[d].createdAt + VOTING_COMMIT_PERIOD < now
            && now <= c.disputes[d].createdAt + VOTING_COMMIT_PERIOD + VOTING_REVEAL_PERIOD
            && (d, j) in c.ballots && !c.ballots[(d, j)].revealed && vote != NoRes
            && c.ballots[(d, j)].hash == sha(Preimage(vote, payload, salt)))
      && (r.Ok? ==>
            var b := c.ballots[(d, j)];
            r.value == c.(ballots := c.ballots[(d, j) := Ballot(b.hash, true, vote, payload)]))
  {
  }

  /** Whoever commits to an option can reveal it after the commit period, and the vote is recorded;
      nothing else opens the ballot, unless it has the same hash. */
  lemma CommitThenReveal(c: Court, sha: seq<Byte> -> Hash, d: nat, j: Address, vote: Resolution, payload: U32,
                         salt: seq<Byte>, t1: nat, t2: nat, vote': Resolution, payload': U32, salt': seq<Byte>)
    requires vote != NoRes && vote' != NoRes
    requires Commit(c, d, j, sha(Preimage(vote, payload, salt)), t1).Ok?
    requires c.disputes[d].createdAt + VOTING_COMMIT_PERIOD < t2
    requires t2 <= c.disputes[d].createdAt + VOTING_COMMIT_PERIOD + VOTING_REVEAL_PERIOD
    ensures var e := Commit(c, d, j, sha(Preimage(vote, payload, salt)), t1).value;
      var r := Reveal(e, sha, d, j, vote, payload, salt, t2);
      && r.Ok? && r.value.ballots[(d, j)].revealed
      && r.value.ballots[(d, j)].vote == vote && r.value.ballots[(d, j)].payload == payload
      && (Reveal(e, sha, d, j, vote', payload', salt', t2).Ok? ==>
            || (vote' == vote && salt' == salt && (vote == PartRel ==> payload' == payload))
            || (Preimage(vote', payload', salt') != Preimage(vote, payload, salt)
                && sha(Preimage(vote', payload', salt')) == sha(Preimage(vote, payload, salt))))
  {
    if sha(Preimage(vote', payload', salt')) == sha(Preimage(vote, payload, salt)) {
      OpeningsAgree(sha, vote, payload, salt, vote', payload', salt');
    }
  }

  // ----- The tally

  /** The panel members who revealed a vote for the option. */
  function Supporters(ballots: Ballots, d: nat, panel: seq<Address>, v: Resolution): set<Address> {
    set j | j in panel && VotedFor(ballots, d, j, v)
  }

  lemma {:induction false} CountIsSupporters(ballots: Ballots, d: nat, panel: seq<Address>, v: Resolution)
    requires Distinct(panel)
    ensures Count(Revealed(ballots, d, panel), v) == |Supporters(ballots, d, panel, v)|
    decreases |panel|
  {
    if panel != [] {
      var front, j := panel[..|panel| - 1], panel[|panel| - 1];
      assert panel == front + [j];
      CountIsSupporters(ballots, d, front, v);
      OneMoreVote(ballots, d, panel, v);
      OneMoreSupporter(ballots, d, panel, v);
    }
  }

  lemma OneMoreVote(ballots: Ballots, d: nat, panel: seq<Address>, v: Resolution)
    requires panel != []
    ensures var front, j := panel[..|panel| - 1], panel[|panel| - 1];
      Count(Revealed(ballots, d, panel), v)
        == Count(Revealed(ballots, d, front), v) + if VotedFor(ballots, d, j, v) then 1 else 0
  {
    var front, j := panel[..|panel| - 1], panel[|panel| - 1];
    var votes := Revealed(ballots, d, front);
    if HasRevealed(ballots, d, j) {
      assert (votes + [ballots[(d, j)]])[..|votes|] == votes;
    } else {
      assert votes + [] == votes;
    }
  }

  lemma OneMoreSupporter(ballots: Ballots, d: nat, panel: seq<Address>, v: Resolution)
    requires Distinct(panel) && panel != []
    ensures var front, j := panel[..|panel| - 1], panel[|panel| - 1];
      |Supporters(ballots, d, panel, v)|
        == |Supporters(ballots, d, front, v)| + if VotedFor(ballots, d, j, v) then 1 else 0
  {
    var front, j := panel[..|panel| - 1], panel[|panel| - 1];
    var before, after := Supporters(ballots, d, front, v), Supporters(ballots, d, panel, v);
    LastMember(panel);
    if VotedFor(ballots, d, j, v) {
      assert after == before + {j};
    } else {
      assert after == before;
    }
  }

  lemma LastMember(panel: seq<Address>)
    requires Distinct(panel) && panel != []
    ensures var front, j := panel[..|panel| - 1], panel[|panel| - 1];
      j !in front && forall x :: x in panel <==> x in front || x == j
  {
    assert panel == panel[..|panel| - 1] + [panel[|panel| - 1]];
  }

  /** Each revealed vote is that of a panel member, in the order of the panel. */
  lemma {:induction false} VoteOf(ballots: Ballots, d: nat, panel: seq<Address>, k: nat) returns (n: nat)
    requires k < |Revealed(ballots, d, panel)|
    ensures n < |panel| && HasRevealed(ballots, d, panel[n])
    ensures Revealed(ballots, d, panel)[k] == ballots[(d, panel[n])]
    ensures Revealed(ballots, d, panel[..n + 1]) == Revealed(ballots, d, panel)[..k + 1]
    decreases |panel|
  {
    var front := panel[..|panel| - 1];
    if k < |Revealed(ballots, d, front)| {
      n := VoteOf(ballots, d, front, k);
      assert front[..n + 1] == panel[..n + 1];
    } else {
      n := |panel| - 1;
      assert panel[..n + 1] == panel;
    }
  }

  /** The option wins on this panel: the member at place n votes for it and sets the payload, and with
      that vote it has all its votes, while every other option has fewer up to there and no more at
      the end. */
  ghost predicate WinsAt(ballots: Ballots, d: nat, panel: seq<Address>, v: Resolution, payload: nat, n: nat) {
    && n < |panel| && VotedFor(ballots, d, panel[n], v) && ballots[(d, panel[n])].payload == payload
    && Supporters(ballots, d, panel[..n + 1], v) == Supporters(ballots, d, panel, v)
    && forall w: Resolution :: w != v ==> StaysBehind(ballots, d, panel, w, v, n)
  }

  /** Up to place n the option w has fewer members than v has in the end, and in the end no more. */
  ghost predicate StaysBehind(ballots: Ballots, d: nat, panel: seq<Address>, w: Resolution, v: Resolution, n: nat)
    requires n < |panel|
  {
    && |Supporters(ballots, d, panel[..n + 1], w)| < |Supporters(ballots, d, panel, v)|
    && |Supporters(ballots, d, panel, w)| <= |Supporters(ballots, d, panel, v)|
  }

  ghost predicate SomebodyRevealed(ballots: Ballots, d: nat, panel: seq<Address>) {
    exists j :: j in panel && (d, j) in ballots && ballots[(d, j)].revealed
  }

  /** What a tally records as the outcome. */
  ghost predicate Decided(ballots: Ballots, d: nat, panel: seq<Address>, outcome: Resolution, payload: nat, n: nat) {
    if SomebodyRevealed(ballots, d, panel) then
      WinsAt(ballots, d, panel, outcome, payload, n)
    else
      outcome == RefBackers && payload == 0
  }

  /** Without a revealed vote the tally refunds; otherwise it records the option of most panel members
      and the payload with which that option was the first to get as far. */
  lemma OutcomeExactly(ballots: Ballots, d: nat, panel: seq<Address>) returns (n: nat)
    requires Distinct(panel)
    requires forall j :: j in panel && (d, j) in ballots && ballots[(d, j)].revealed ==> ballots[(d, j)].vote != NoRes
    ensures var lead := Leader(Revealed(ballots, d, panel));
      Decided(ballots, d, panel, Outcome(lead), lead.payload, n)
  {
    n := 0;
    var votes := Revealed(ballots, d, panel);
    if votes == [] {
      forall j | j in panel
        ensures !HasRevealed(ballots, d, j)
      {
        if HasRevealed(ballots, d, j) {
          RevealedHolds(ballots, d, panel, j);
        }
      }
      assert !SomebodyRevealed(ballots, d, panel);
    } else {
      n := WinnerExactly(ballots, d, panel);
    }
  }

  lemma WinnerExactly(ballots: Ballots, d: nat, panel: seq<Address>) returns (n: nat)
    requires Distinct(panel) && Revealed(ballots, d, panel) != []
    requires forall j :: j in panel && (d, j) in ballots && ballots[(d, j)].revealed ==> ballots[(d, j)].vote != NoRes
    ensures var lead := Leader(Revealed(ballots, d, panel));
      SomebodyRevealed(ballots, d, panel) && WinsAt(ballots, d, panel, Outcome(lead), lead.payload, n)
  {
    var votes := Revealed(ballots, d, panel);
    var k := LeaderWasFirst(votes);
    n := VoteOf(ballots, d, panel, k);
    var j, v := panel[n], Leader(votes).vote;
    assert j in panel && (d, j) in ballots && ballots[(d, j)].revealed;
    assert SomebodyRevealed(ballots, d, panel);
    assert votes[k] == ballots[(d, j)] && votes[k].vote == v && Outcome(Leader(votes)) == v;
    LeaderIsAhead(votes);
    DistinctPrefix(panel, n + 1);
    CountIsSupporters(ballots, d, panel, v);
    CountIsSupporters(ballots, d, panel[..n + 1], v);
    assert Revealed(ballots, d, panel[..n + 1]) == votes[..k + 1];
    SameSupporters(ballots, d, panel, n + 1, v);
    forall w: Resolution | w != v
      ensures StaysBehind(ballots, d, panel, w, v, n)
    {
      CountIsSupporters(ballots, d, panel, w);
      CountIsSupporters(ballots, d, panel[..n + 1], w);
    }
  }

  lemma DistinctPrefix(panel: seq<Address>, n: nat)
    requires Distinct(panel) && n <= |panel|
    ensures Distinct(panel[..n])
  {
  }

  lemma SameSupporters(ballots: Ballots, d: nat, panel: seq<Address>, n: nat, v: Resolution)
    requires n <= |panel|
    requires |Supporters(ballots, d, panel[..n], v)| >= |Supporters(ballots, d, panel, v)|
    ensures Supporters(ballots, d, panel[..n], v) == Supporters(ballots, d, panel, v)
  {
    var part, whole := Supporters(ballots, d, panel[..n], v), Supporters(ballots, d, panel, v);
    assert part <= whole;
    assert whole == part + (whole - part);
  }

  /** What a tally leaves of each juror's record: the winners a success and their share, the others on the
      panel a miss and the fine, and all of the panel one active dispute less. */
  ghost predicate PaidOff(before: Jurors, after: Jurors, ballots: Ballots, d: nat, panel: seq<Address>,
                          outcome: Resolution, share: nat)
  {
    && after.Keys == before.Keys
    && forall j :: j in before ==>
      var a, b := before[j], after[j];
      if j !in panel then b == a
      else if VotedFor(ballots, d, j, outcome) then
        b == Juror(a.stake + share, a.active - 1, a.successful + 1, a.missed)
      else
        && b.active == a.active - 1 && b.successful == a.successful && b.missed == a.missed + 1
        && b.stake == if 10 * a.stake < MIN_JUROR_STAKE then 0 else a.stake - MIN_JUROR_STAKE / 10
  }

  /** A tally takes a vote whose reveal period is over. */
  lemma TallySucceedsIff(c: Court, d: nat, now: nat)
    requires CourtOk(c)
    ensures TallyVotes(c, d, now).Ok? <==>
      && d in c.disputes && c.disputes[d].status == Voting
      && c.disputes[d].createdAt + VOTING_COMMIT_PERIOD + VOTING_REVEAL_PERIOD < now
  {
    assert d in c.disputes ==> DisputeOk(c, d);
  }

  /** What a tally leaves on the dispute: the outcome of the votes, the payload that came with it, and the
      time, with everything but the jurors and the pool as it was. */
  lemma TallyDecides(c: Court, d: nat, now: nat) returns (n: nat)
    requires CourtOk(c) && TallyVotes(c, d, now).Ok?
    ensures d in c.disputes && d in c.panels && Registered(c.panels[d], c.jurors)
    ensures var e := TallyVotes(c, d, now).value;
      && d in e.disputes
      && var outcome, payload := e.disputes[d].resolution, e.disputes[d].payload;
        && Decided(c.ballots, d, c.panels[d], outcome, payload, n)
        && e == c.(jurors := e.jurors, feePool := e.feePool,
                   disputes := c.disputes[d := c.disputes[d].(resolution := outcome, payload := payload,
                                                              status := Resolved, createdAt := now)])
  {
    assert DisputeOk(c, d);
    assert InSession(c.disputes, d);
    n := OutcomeExactly(c.ballots, d, c.panels[d]);
  }

  /** What a tally leaves with the jurors and in the pool: the losers are fined, and the winners share the
      pool and the fines. */
  lemma TallyExactly(c: Court, d: nat, now: nat) returns (share: nat)
    requires CourtOk(c) && TallyVotes(c, d, now).Ok?
    ensures d in c.panels && Registered(c.panels[d], c.jurors)
    ensures var e := TallyVotes(c, d, now).value;
      && d in e.disputes
      && var panel, outcome := c.panels[d], e.disputes[d].resolution;
        && PaidOff(c.jurors, e.jurors, c.ballots, d, panel, outcome, share)
        && SharedOut(c.feePool + Fines(c.jurors, c.ballots, d, panel, outcome),
                     Winners(c.ballots, d, panel, outcome), share, e.feePool)
  {
    assert DisputeOk(c, d);
    assert InSession(c.disputes, d);
    var panel := c.panels[d];
    var outcome := Outcome(Leader(Revealed(c.ballots, d, panel)));
    share := TallyRecords(Books(c.jurors, c.feePool), c.ballots, d, panel, outcome);
  }

  // ----- Appeals and enforcement

  /** The registered jurors who are neither creator nor initiator nor on the present panel. */
  function Outsiders(c: Court, d: nat, creator: Address): set<Address>
    requires d in c.disputes
  {
    set j | j in c.jurors && j != creator && j != c.disputes[d].initiator && (d in c.panels ==> j !in c.panels[d])
  }

  lemma OutsidersMaySit(c: Court, d: nat, creator: Address, now: nat)
    requires Appeal(c, d, now).Ok?
    ensures Candidates(Appeal(c, d, now).value, d, creator) == Outsiders(c, d, creator)
  {
  }

  /** What an appeal leaves: the fee in the pool, one appeal more, and thirteen outsiders on a panel that
      votes anew. */
  ghost predicate Reheard(c: Court, e: Court, d: nat, creator: Address, now: nat)
    requires d in c.disputes
  {
    var before := c.disputes[d];
    && c.token.Some? && Transferred(c.held, e.held, c.token.value, APPEAL_FEE) && e.feePool == c.feePool + APPEAL_FEE
    && d in e.panels && |e.panels[d]| == 13 && Distinct(e.panels[d])
    && (forall j :: j in e.panels[d] ==> j in Outsiders(c, d, creator))
    && e.jurors.Keys == c.jurors.Keys
    && (forall j :: j in c.jurors ==>
          e.jurors[j] == c.jurors[j].(active := c.jurors[j].active + if j in e.panels[d] then 1 else 0))
    && e == c.(held := e.held, feePool := e.feePool, jurors := e.jurors, panels := c.panels[d := e.panels[d]],
               disputes := c.disputes[d := before.(appealCount := before.appealCount + 1, status := Voting,
                                                   createdAt := now)])
  }

  /** An appeal succeeds exactly while its window is open and appeals are left, with a token for the fee
      and thirteen outsiders to seat. */
  lemma AppealSucceedsIff(c: Court, d: nat, creator: Address, draws: seq<nat>, now: nat)
    requires CourtOk(c)
    ensures AppealAndSeat(c, d, creator, draws, now).Ok? <==>
      && d in c.disputes && c.disputes[d].status == Resolved
      && now <= c.disputes[d].createdAt + APPEAL_WINDOW_PERIOD
      && c.disputes[d].appealCount < MAX_APPEALS && c.token.Some?
      && |Outsiders(c, d, creator)| >= 13
  {
    var appealed := Appeal(c, d, now);
    if appealed.Ok? {
      assert RosterOk(appealed.value);
      SeatSucceedsIff(appealed.value, d, creator, draws, now);
      OutsidersMaySit(c, d, creator, now);
    }
  }

  /** Everything an appeal does. */
  lemma AppealExactly(c: Court, d: nat, creator: Address, draws: seq<nat>, now: nat)
    requires CourtOk(c) && AppealAndSeat(c, d, creator, draws, now).Ok?
    ensures d in c.disputes && Reheard(c, AppealAndSeat(c, d, creator, draws, now).value, d, creator, now)
  {
    var a := Appeal(c, d, now).value;
    assert RosterOk(a);
    OutsidersMaySit(c, d, creator, now);
    SeatIsImpartial(a, d, creator, draws, now);
    SeatExactly(a, d, creator, draws, now);
    FeeThenPanel(c, a, Seat(a, d, creator, draws, now).value, d, creator, now);
  }

  lemma FeeThenPanel(c: Court, a: Court, e: Court, d: nat, creator: Address, now: nat)
    requires Appeal(c, d, now) == Ok(a) && d in a.disputes && Impaneled(a, e, d, now)
    requires |e.panels[d]| == 13 && Distinct(e.panels[d])
    requires forall j :: j in e.panels[d] ==> j in Outsiders(c, d, creator)
    ensures Reheard(c, e, d, creator, now)
  {
    var before := c.disputes[d];
    assert e.disputes == c.disputes[d := before.(appealCount := before.appealCount + 1, status := Voting,
                                                 createdAt := now)];
  }

  /** A resolved dispute becomes final once the time lock is over, and while an appeal is left also its
      window. */
  lemma FinalizeExactly(c: Court, d: nat, now: nat)
    ensures var r := Finalize(c, d, now);
      && (r.Ok? <==>
            && d in c.disputes && c.disputes[d].status == Resolved
            && c.disputes[d].createdAt + RESOLUTION_TIME_LOCK < now
            && (c.disputes[d].appealCount < MAX_APPEALS ==> c.disputes[d].createdAt + APPEAL_WINDOW_PERIOD < now))
      && (r.Ok? ==> r.value == c.(disputes := c.disputes[d := c.disputes[d].(status := FinalResolved)]))
  {
  }
}

/** The same for the calls of the whole contract that join the two. */
module EscrowEffects {
  import opened Outcomes
  import opened EscrowTypes
  import M = Milestones
  import opened MilestoneProofs
  import opened MilestoneEffects
  import opened Tally
  import opened Court
  import opened CourtProofs
  import opened CourtEffects
  import opened Escrow
  import opened EscrowProofs
  import EscrowLaws

  /** A call on a project is about an existing one, except its creation, and changes nothing else. */
  lemma ProjectCallsStay(s: State, sha: seq<Byte> -> Hash, call: Call)
    requires call.InitializeCall? || call.DepositCall? || call.CreateMilestoneCall? || call.SubmitMilestoneCall?
      || call.VoteMilestoneCall? || call.UpdateValidatorsCall?
    requires Apply(s, sha, call).Ok?
    ensures (call.id in s.projects) != call.InitializeCall?
    ensures var t := Apply(s, sha, call).value;
      && call.id in t.projects && t == s.(projects := s.projects[call.id := t.projects[call.id]])
    ensures var q := Apply(s, sha, call).value.projects[call.id];
      match call
      case InitializeCall(_, creator, validators, threshold, fee) =>
        M.NewProject(creator, validators, threshold, fee) == Ok(q)
      case DepositCall(id, amount) => M.Deposit(s.projects[id], amount, s.paused) == Ok(q)
      case CreateMilestoneCall(id, amount) => M.Create(s.projects[id], amount, s.paused) == Ok(q)
      case SubmitMilestoneCall(id, milestone) => M.Submit(s.projects[id], milestone, s.paused) == Ok(q)
      case VoteMilestoneCall(id, milestone, voter, approve) =>
        M.Vote(s.projects[id], milestone, voter, approve, s.paused) == Ok(q)
      case UpdateValidatorsCall(id, validators) => M.SetValidators(s.projects[id], validators) == Ok(q)
      case _ => true
  {
  }

  /** A dispute can be opened on a milestone that is submitted or rejected, by the creator or by somebody
      who contributed enough. */
  lemma InitiateExactly(s: State, id: nat, milestone: nat, initiator: Address, contribution: int, now: nat)
    ensures var r := InitiateDispute(s, id, milestone, initiator, contribution, now);
      && (r.Ok? <==>
            && id in s.projects && milestone in s.projects[id].milestones
            && (s.projects[id].milestones[milestone].status == M.Rejected
                || s.projects[id].milestones[milestone].status == M.Submitted)
            && (initiator == s.projects[id].creator || MIN_CONTRIBUTION <= contribution))
      && (r.Ok? ==>
            r.value == s.(court := s.court.(
              nextId := s.court.nextId + 1,
              disputes := s.court.disputes[s.court.nextId :=
                Dispute(id, milestone, initiator, Pending, now, NoRes, 0, 0)])))
  {
  }

  /** A first selection seats seven jurors, none of them the creator of the project or the initiator, and
      succeeds exactly when there are as many. */
  lemma SelectExactly(s: State, d: nat, draws: seq<nat>, now: nat)
    requires StateOk(s)
    ensures SelectJury(s, d, draws, now).Ok? <==>
      && d in s.court.disputes && s.court.disputes[d].status == Pending
      && var dispute := s.court.disputes[d];
        |set j | j in s.court.jurors && j != s.projects[dispute.projectId].creator && j != dispute.initiator| >= 7
    ensures SelectJury(s, d, draws, now).Ok? ==>
      var e, dispute := SelectJury(s, d, draws, now).value.court, s.court.disputes[d];
      && d in e.panels && |e.panels[d]| == 7 && Distinct(e.panels[d])
      && (forall j :: j in e.panels[d] ==>
            j in s.court.jurors && j != s.projects[dispute.projectId].creator && j != dispute.initiator)
      && SelectJury(s, d, draws, now).value == s.(court := e)
      && e.disputes == s.court.disputes[d := dispute.(status := Voting, createdAt := now)]
  {
    if d in s.court.disputes {
      var dispute := s.court.disputes[d];
      assert DisputeOk(s.court, d);
      var creator := s.projects[dispute.projectId].creator;
      if dispute.status == Pending {
        SeatSucceedsIff(s.court, d, creator, draws, now);
        assert Candidates(s.court, d, creator)
          == set j | j in s.court.jurors && j != creator && j != dispute.initiator;
        if Seat(s.court, d, creator, draws, now).Ok? {
          SeatIsImpartial(s.court, d, creator, draws, now);
        } else {
          assert SelectJury(s, d, draws, now).Err?;
        }
      }
    }
  }

  /** Everything filing an appeal does: the court hears the dispute again, and the milestone goes back to
      pending without votes, whatever its status was. */
  lemma FileAppealExactly(s: State, d: nat, draws: seq<nat>, now: nat)
    requires StateOk(s)
    ensures FileAppeal(s, d, draws, now).Ok? <==>
      && d in s.court.disputes && s.court.disputes[d].status == Resolved
      && now <= s.court.disputes[d].createdAt + APPEAL_WINDOW_PERIOD
      && s.court.disputes[d].appealCount < MAX_APPEALS && s.court.token.Some?
      && |Outsiders(s.court, d, s.projects[s.court.disputes[d].projectId].creator)| >= 13
    ensures FileAppeal(s, d, draws, now).Ok? ==>
      var t, dispute := FileAppeal(s, d, draws, now).value, s.court.disputes[d];
      && dispute.projectId in t.projects
      && var p, q, id := s.projects[dispute.projectId], t.projects[dispute.projectId], dispute.milestoneId;
        && Reheard(s.court, t.court, d, p.creator, now)
        && OnlyMilestone(p, q, id) && q.counter == p.counter && NobodyVoted(q, id)
        && q.milestones[id] == p.milestones[id].(status := M.Pending, approvals := 0, rejections := 0)
        && t == s.(projects := s.projects[dispute.projectId := q], court := t.court)
  {
    if d in s.court.disputes {
      var dispute := s.court.disputes[d];
      assert DisputeOk(s.court, d);
      var p := s.projects[dispute.projectId];
      AppealSucceedsIff(s.court, d, p.creator, draws, now);
      ResetExactly(p, dispute.milestoneId);
      if FileAppeal(s, d, draws, now).Ok? {
        AppealParts(s, d, draws, now);
        AppealExactly(s.court, d, p.creator, draws, now);
      }
    }
  }

  /** Everything enforcement does: once the locks are over and if the escrow can pay, it makes the dispute
      final, pays what the ruling says and sets the milestone's status. */
  lemma ExecuteExactly(s: State, d: nat, now: nat)
    requires StateOk(s)
    ensures ExecuteResolution(s, d, now).Ok? <==>
      && d in s.court.disputes && s.court.disputes[d].status == Resolved
      && var dispute := s.court.disputes[d];
        && dispute.createdAt + RESOLUTION_TIME_LOCK < now
        && (dispute.appealCount < MAX_APPEALS ==> dispute.createdAt + APPEAL_WINDOW_PERIOD < now)
        && var p := s.projects[dispute.projectId];
        exists part: int, status ::
          && RulingPays(p.milestones[dispute.milestoneId], dispute.resolution, dispute.payload, part, status)
          && p.released + part <= p.deposited
    ensures ExecuteResolution(s, d, now).Ok? ==>
      var t, dispute := ExecuteResolution(s, d, now).value, s.court.disputes[d];
      var p := s.projects[dispute.projectId];
      && dispute.projectId in t.projects
      && var q := t.projects[dispute.projectId];
        && dispute.milestoneId in q.milestones
        && RulingPays(p.milestones[dispute.milestoneId], dispute.resolution, dispute.payload, q.paid - p.paid,
                      q.milestones[dispute.milestoneId].status)
        && q.released - p.released == q.paid - p.paid
        && OnlyMilestone(p.(released := q.released, paid := q.paid), q, dispute.milestoneId)
        && t == s.(projects := s.projects[dispute.projectId := q],
                   court := s.court.(disputes := s.court.disputes[d := dispute.(status := FinalResolved)]))
  {
    FinalizeExactly(s.court, d, now);
    if d in s.court.disputes && Finalize(s.court, d, now).Ok? {
      var dispute := s.court.disputes[d];
      assert ProjectOk(s, dispute.projectId);
      EnforcePaysIff(s.projects[dispute.projectId], dispute.milestoneId, dispute.resolution, dispute.payload);
      if ExecuteResolution(s, d, now).Ok? {
        ExecuteParts(s, d, now);
        EnforceExactly(s.projects[dispute.projectId], dispute.milestoneId, dispute.resolution, dispute.payload);
      }
    }
  }

  lemma EnforcePaysIff(p: M.Project, id: nat, resolution: Resolution, payload: nat)
    requires Funded(p) && id in p.milestones
    ensures M.Enforce(p, id, resolution, payload).Ok? <==>
      exists part: int, status :: RulingPays(p.milestones[id], resolution, payload, part, status)
        && p.released + part <= p.deposited
  {
    var m := p.milestones[id];
    var (amount, status) := M.Ruling(m, resolution, payload);
    EnforceSucceedsIff(p, id, resolution, payload);
    if resolution == PartRel {
      PartialRelease(m, payload);
    }
    assert RulingPays(m, resolution, payload, amount, status);
    forall part: int, other | RulingPays(m, resolution, payload, part, other)
      ensures part == amount
    {
    }
  }

  /** What every successful deposit of a run put into a project. */
  function PaidIn(sha: seq<Byte> -> Hash, calls: seq<Call>, id: nat): int
    decreases |calls|
  {
    if calls == [] then 0
    else
      var n := |calls| - 1;
      PaidIn(sha, calls[..n], id)
        + if calls[n].DepositCall? && calls[n].id == id && Apply(After(sha, calls[..n]), sha, calls[n]).Ok?
          then calls[n].amount else 0
  }

  /** What counts as deposited in a project, if there is one. */
  function Held(s: State, id: nat): int {
    if id in s.projects then s.projects[id].deposited else 0
  }

  /** In every reachable state what counts as deposited in a project is exactly what was paid in. */
  lemma {:induction false} DepositedIsPaidIn(sha: seq<Byte> -> Hash, calls: seq<Call>, id: nat)
    ensures PaidIn(sha, calls, id) == Held(After(sha, calls), id)
    decreases |calls|
  {
    if calls != [] {
      var n := |calls| - 1;
      DepositedIsPaidIn(sha, calls[..n], id);
      var s := After(sha, calls[..n]);
      if Apply(s, sha, calls[n]).Ok? {
        DepositedMoves(s, sha, calls[n], id);
      }
    }
  }

  lemma DepositedMoves(s: State, sha: seq<Byte> -> Hash, call: Call, id: nat)
    requires Apply(s, sha, call).Ok?
    ensures Held(Apply(s, sha, call).value, id) - Held(s, id)
      == if call.DepositCall? && call.id == id then call.amount else 0
  {
    match call {
      case FileAppealCall(d, draws, now) => AppealParts(s, d, draws, now);
      case ExecuteResolutionCall(d, now) => ExecuteParts(s, d, now);
      case _ =>
        if call.InitializeCall? || call.DepositCall? || call.CreateMilestoneCall? || call.SubmitMilestoneCall?
          || call.VoteMilestoneCall? || call.UpdateValidatorsCall? {
          ProjectCallMoves(s, sha, call, id);
        } else {
          EscrowLaws.CourtCallKeepsProjects(s, sha, call);
        }
    }
  }

  lemma ProjectCallMoves(s: State, sha: seq<Byte> -> Hash, call: Call, id: nat)
    requires call.InitializeCall? || call.DepositCall? || call.CreateMilestoneCall? || call.SubmitMilestoneCall?
      || call.VoteMilestoneCall? || call.UpdateValidatorsCall?
    requires Apply(s, sha, call).Ok?
    ensures Held(Apply(s, sha, call).value, id) - Held(s, id)
      == if call.DepositCall? && call.id == id then call.amount else 0
  {
    ProjectCallsStay(s, sha, call);
  }
}
