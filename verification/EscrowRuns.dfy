/** The course of a dispute over whole runs. */
module EscrowRuns {
  import opened Outcomes
  import opened EscrowTypes
  import M = Milestones
  import opened Tally
  import opened Court
  import opened SettlementProofs
  import opened CourtProofs
  import opened Escrow
  import opened EscrowProofs

  // ----- The course of a dispute

  function Rank(status: DisputeStatus): nat {
    match status
    case Pending => 3
    case Voting => 2
    case Resolved => 1
    case _ => 0
  }

  /** Two for each appeal that is left, and what is left of the present round. */
  function Measure(dispute: Dispute): nat {
    2 * (if dispute.appealCount < MAX_APPEALS then MAX_APPEALS - dispute.appealCount else 0) + Rank(dispute.status)
  }

  /** The four moves of a dispute. */
  predicate Moved(a: Dispute, b: Dispute) {
    || (a.status == Pending && b.status == Voting && b.appealCount == a.appealCount)
    || (a.status == Voting && b.status == Resolved && b.appealCount == a.appealCount)
    || (a.status == Resolved && b.status == Voting && b.appealCount == a.appealCount + 1 <= MAX_APPEALS)
    || (a.status == Resolved && b.status == FinalResolved && b.appealCount == a.appealCount)
  }

  /** What one successful call did to the record of dispute d. */
  ghost predicate LeftOrMoved(c: Court, e: Court, call: Call, d: nat)
    requires d in c.disputes
  {
    && d in e.disputes
    && (e.disputes[d] == c.disputes[d] || Moved(c.disputes[d], e.disputes[d]))
    && (c.disputes[d].status == Voting && e.disputes[d] != c.disputes[d] ==> call.TallyVotesCall? && call.d == d)
    && (call.ExecuteResolutionCall? && call.d == d <==>
          c.disputes[d].status == Resolved && e.disputes[d].status == FinalResolved)
  }

  lemma SelectMoves(s: State, call: Call, d: nat)
    requires StateOk(s) && d in s.court.disputes && call.SelectJuryCall?
    requires SelectJury(s, call.d, call.draws, call.now).Ok?
    ensures LeftOrMoved(s.court, SelectJury(s, call.d, call.draws, call.now).value.court, call, d)
  {
    assert DisputeOk(s.court, call.d);
  }

  lemma AppealMoves(s: State, call: Call, d: nat)
    requires StateOk(s) && d in s.court.disputes && call.FileAppealCall?
    requires FileAppeal(s, call.d, call.draws, call.now).Ok?
    ensures LeftOrMoved(s.court, FileAppeal(s, call.d, call.draws, call.now).value.court, call, d)
  {
    AppealParts(s, call.d, call.draws, call.now);
  }

  lemma ExecuteMoves(s: State, call: Call, d: nat)
    requires d in s.court.disputes && call.ExecuteResolutionCall?
    requires ExecuteResolution(s, call.d, call.now).Ok?
    ensures LeftOrMoved(s.court, ExecuteResolution(s, call.d, call.now).value.court, call, d)
  {
    ExecuteParts(s, call.d, call.now);
  }

  lemma TallyMoves(s: State, call: Call, d: nat)
    requires d in s.court.disputes && call.TallyVotesCall? && TallyVotes(s.court, call.d, call.now).Ok?
    ensures LeftOrMoved(s.court, TallyVotes(s.court, call.d, call.now).value, call, d)
  {
  }

  lemma OtherCallsLeaveDisputes(s: State, sha: seq<Byte> -> Hash, call: Call, d: nat)
    requires StateOk(s) && Apply(s, sha, call).Ok?
    requires !(call.SelectJuryCall? || call.FileAppealCall? || call.ExecuteResolutionCall? || call.TallyVotesCall?)
    ensures var c := Apply(s, sha, call).value.court;
      && (d in s.court.disputes ==> d in c.disputes && c.disputes[d] == s.court.disputes[d])
      && (d !in s.court.disputes && d in c.disputes ==>
            c.disputes[d].status == Pending && c.disputes[d].appealCount == 0)
  {
    match call
    case InitiateDisputeCall(_, _, _, _, _) => assert s.court.nextId !in s.court.disputes;
    case ConfigureTokenCall(_) =>
    case RegisterCall(_, _) =>
    case DeregisterCall(_) =>
    case CommitVoteCall(_, _, _, _) =>
    case RevealVoteCall(_, _, _, _, _, _) =>
    case _ => ProjectCallsLeaveCourt(s, sha, call);
  }

  lemma ProjectCallsLeaveCourt(s: State, sha: seq<Byte> -> Hash, call: Call)
    requires Apply(s, sha, call).Ok?
    requires call.InitializeCall? || call.DepositCall? || call.CreateMilestoneCall? || call.SubmitMilestoneCall?
      || call.VoteMilestoneCall? || call.UpdateValidatorsCall? || call.SetPausedCall?
    ensures Apply(s, sha, call).value.court == s.court
  {
  }

  lemma OtherCallsMoveNothing(s: State, sha: seq<Byte> -> Hash, call: Call, d: nat)
    requires StateOk(s) && d in s.court.disputes && Apply(s, sha, call).Ok?
    requires !(call.SelectJuryCall? || call.FileAppealCall? || call.ExecuteResolutionCall? || call.TallyVotesCall?)
    ensures LeftOrMoved(s.court, Apply(s, sha, call).value.court, call, d)
  {
    OtherCallsLeaveDisputes(s, sha, call, d);
  }

  /** A call leaves the record of a dispute as it is or makes one of the four moves; only the tally
      ends a vote, and only a resolved dispute can be enforced. */
  lemma DisputeMoves(s: State, sha: seq<Byte> -> Hash, call: Call, d: nat)
    requires StateOk(s) && d in s.court.disputes && Apply(s, sha, call).Ok?
    ensures LeftOrMoved(s.court, Apply(s, sha, call).value.court, call, d)
  {
    if call.SelectJuryCall? || call.FileAppealCall? {
      PanelCallMoves(s, sha, call, d);
    } else if call.ExecuteResolutionCall? || call.TallyVotesCall? {
      ClosingCallMoves(s, sha, call, d);
    } else {
      OtherCallsMoveNothing(s, sha, call, d);
    }
  }

  lemma PanelCallMoves(s: State, sha: seq<Byte> -> Hash, call: Call, d: nat)
    requires StateOk(s) && d in s.court.disputes && Apply(s, sha, call).Ok?
    requires call.SelectJuryCall? || call.FileAppealCall?
    ensures LeftOrMoved(s.court, Apply(s, sha, call).value.court, call, d)
  {
    if call.SelectJuryCall? {
      SelectMoves(s, call, d);
    } else {
      AppealMoves(s, call, d);
    }
  }

  lemma ClosingCallMoves(s: State, sha: seq<Byte> -> Hash, call: Call, d: nat)
    requires StateOk(s) && d in s.court.disputes && Apply(s, sha, call).Ok?
    requires call.ExecuteResolutionCall? || call.TallyVotesCall?
    ensures LeftOrMoved(s.court, Apply(s, sha, call).value.court, call, d)
  {
    if call.TallyVotesCall? {
      TallyMoves(s, call, d);
    } else {
      ExecuteMoves(s, call, d);
    }
  }

  /** How often the record of a dispute moves in a run. */
  function Moves(sha: seq<Byte> -> Hash, calls: seq<Call>, d: nat): nat
    decreases |calls|
  {
    if calls == [] then 0
    else
      var before, after := After(sha, calls[..|calls| - 1]).court, After(sha, calls).court;
      Moves(sha, calls[..|calls| - 1], d)
        + if d in before.disputes && d in after.disputes && Moved(before.disputes[d], after.disputes[d]) then 1 else 0
  }

  /** How often the resolution of a dispute is enforced in a run. */
  function Enforcements(sha: seq<Byte> -> Hash, calls: seq<Call>, d: nat): nat
    decreases |calls|
  {
    if calls == [] then 0
    else
      var before, call := After(sha, calls[..|calls| - 1]), calls[|calls| - 1];
      Enforcements(sha, calls[..|calls| - 1], d)
        + if call.ExecuteResolutionCall? && call.d == d && Apply(before, sha, call).Ok? then 1 else 0
  }

  /** Moves made and moves left are within bounds, and an enforced resolution is a final one. */
  ghost predicate WithinBounds(c: Court, moves: nat, enforcements: nat, d: nat) {
    if d in c.disputes then
      && moves + Measure(c.disputes[d]) <= 2 * MAX_APPEALS + 3
      && enforcements == if c.disputes[d].status == FinalResolved then 1 else 0
    else moves == 0 && enforcements == 0
  }

  /** In any run a dispute moves at most 2 * MAX_APPEALS + 3 times, and its resolution is enforced
      at most once: exactly once when it has come to its end and never before. */
  lemma {:induction false} DisputesComeToAnEnd(sha: seq<Byte> -> Hash, calls: seq<Call>, d: nat)
    ensures WithinBounds(After(sha, calls).court, Moves(sha, calls, d), Enforcements(sha, calls, d), d)
    decreases |calls|
  {
    if calls != [] {
      var n := |calls| - 1;
      var s, t := After(sha, calls[..n]), After(sha, calls);
      DisputesComeToAnEnd(sha, calls[..n], d);
      ReachableStatesAreOk(sha, calls[..n]);
      CallCounts(s, t, sha, calls[n], d);
      StaysWithinBounds(s.court, t.court, Moves(sha, calls[..n], d), Enforcements(sha, calls[..n], d),
                        calls[n].ExecuteResolutionCall? && calls[n].d == d && Apply(s, sha, calls[n]).Ok?, d);
    }
  }

  lemma StaysWithinBounds(c: Court, e: Court, moves: nat, enforcements: nat, enforced: bool, d: nat)
    requires WithinBounds(c, moves, enforcements, d) && Counted(c, e, enforced, d)
    ensures WithinBounds(e,
      moves + (if d in c.disputes && d in e.disputes && Moved(c.disputes[d], e.disputes[d]) then 1 else 0),
      enforcements + (if enforced then 1 else 0), d)
  {
  }

  /** One call's part in the two counts. */
  ghost predicate Counted(c: Court, e: Court, enforced: bool, d: nat) {
    if d in c.disputes then
      && d in e.disputes
      && var a, b := c.disputes[d], e.disputes[d];
        && (if Moved(a, b) then Measure(b) < Measure(a) else Measure(b) == Measure(a))
        && (enforced ==> a.status != FinalResolved && b.status == FinalResolved)
        && (!enforced ==> (a.status == FinalResolved <==> b.status == FinalResolved))
    else
      && !enforced
      && (d in e.disputes ==> e.disputes[d].status == Pending && e.disputes[d].appealCount == 0)
  }

  lemma MoveCounts(c: Court, e: Court, call: Call, d: nat)
    requires d in c.disputes && LeftOrMoved(c, e, call, d)
    ensures Counted(c, e, call.ExecuteResolutionCall? && call.d == d, d)
  {
  }

  lemma CallCounts(s: State, t: State, sha: seq<Byte> -> Hash, call: Call, d: nat)
    requires StateOk(s) && t == var next := Apply(s, sha, call); if next.Ok? then next.value else s
    ensures Counted(s.court, t.court, call.ExecuteResolutionCall? && call.d == d && Apply(s, sha, call).Ok?, d)
  {
    if Apply(s, sha, call).Ok? {
      if d in s.court.disputes {
        DisputeMoves(s, sha, call, d);
        MoveCounts(s.court, t.court, call, d);
      } else {
        NewDispute(s, sha, call, d);
      }
    }
  }

  lemma NewDispute(s: State, sha: seq<Byte> -> Hash, call: Call, d: nat)
    requires StateOk(s) && d !in s.court.disputes && Apply(s, sha, call).Ok?
    ensures var c := Apply(s, sha, call).value.court;
      d in c.disputes ==> c.disputes[d].status == Pending && c.disputes[d].appealCount == 0
    ensures !(call.ExecuteResolutionCall? && call.d == d)
  {
    match call
    case SelectJuryCall(_, _, _) =>
    case FileAppealCall(_, _, _) => AppealParts(s, call.d, call.draws, call.now);
    case ExecuteResolutionCall(_, _) => ExecuteParts(s, call.d, call.now);
    case TallyVotesCall(_, _) =>
    case _ => OtherCallsLeaveDisputes(s, sha, call, d);
  }

  /** Nothing changes a dispute that has come to its end. */
  lemma FinalStaysFinal(s: State, sha: seq<Byte> -> Hash, call: Call, d: nat)
    requires StateOk(s) && d in s.court.disputes && s.court.disputes[d].status == FinalResolved
    requires Apply(s, sha, call).Ok?
    ensures var c := Apply(s, sha, call).value.court;
      d in c.disputes && c.disputes[d] == s.court.disputes[d]
    ensures !(call.ExecuteResolutionCall? && call.d == d) && !(call.FileAppealCall? && call.d == d)
  {
    DisputeMoves(s, sha, call, d);
  }

  // ----- The windows of a round

  /** Moves never get fewer as a run goes on. */
  lemma {:induction false} MovesGrow(sha: seq<Byte> -> Hash, calls: seq<Call>, i: nat, d: nat)
    requires i <= |calls|
    ensures Moves(sha, calls[..i], d) <= Moves(sha, calls, d)
    decreases |calls|
  {
    if i < |calls| {
      MovesGrow(sha, calls[..|calls| - 1], i, d);
      assert calls[..|calls| - 1][..i] == calls[..i];
    } else {
      assert calls[..i] == calls;
    }
  }

  lemma LastCallLeaves(sha: seq<Byte> -> Hash, calls: seq<Call>, d: nat)
    requires calls != [] && d in After(sha, calls[..|calls| - 1]).court.disputes
    requires Moves(sha, calls[..|calls| - 1], d) == Moves(sha, calls, d)
    ensures var c, e := After(sha, calls[..|calls| - 1]).court, After(sha, calls).court;
      d in e.disputes && e.disputes[d] == c.disputes[d]
  {
    var s, call := After(sha, calls[..|calls| - 1]), calls[|calls| - 1];
    ReachableStatesAreOk(sha, calls[..|calls| - 1]);
    if Apply(s, sha, call).Ok? {
      DisputeMoves(s, sha, call, d);
    }
  }

  /** Between two moves the record of a dispute stays as it is. */
  lemma {:induction false} RecordStays(sha: seq<Byte> -> Hash, calls: seq<Call>, i: nat, d: nat)
    requires i <= |calls| && Moves(sha, calls, d) <= Moves(sha, calls[..i], d)
    requires d in After(sha, calls[..i]).court.disputes
    ensures var c, e := After(sha, calls[..i]).court, After(sha, calls).court;
      d in e.disputes && e.disputes[d] == c.disputes[d]
    decreases |calls|
  {
    if i < |calls| {
      var n := |calls| - 1;
      assert calls[..n][..i] == calls[..i];
      MovesGrow(sha, calls[..n], i, d);
      MovesGrow(sha, calls, n, d);
      RecordStays(sha, calls[..n], i, d);
      LastCallLeaves(sha, calls, d);
    } else {
      assert calls[..i] == calls;
    }
  }

  /** Two points of a run without a move of the dispute between them. */
  ghost predicate SameRound(sha: seq<Byte> -> Hash, calls: seq<Call>, i: nat, j: nat, d: nat)
    requires i <= |calls| && j <= |calls|
  {
    Moves(sha, calls[..i], d) == Moves(sha, calls[..j], d)
  }

  lemma SameRecord(sha: seq<Byte> -> Hash, calls: seq<Call>, i: nat, j: nat, d: nat)
    requires i <= |calls| && j <= |calls| && SameRound(sha, calls, i, j, d)
    requires d in After(sha, calls[..i]).court.disputes && d in After(sha, calls[..j]).court.disputes
    ensures After(sha, calls[..i]).court.disputes[d] == After(sha, calls[..j]).court.disputes[d]
  {
    if i <= j {
      assert calls[..j][..i] == calls[..i];
      RecordStays(sha, calls[..j], i, d);
    } else {
      assert calls[..i][..j] == calls[..j];
      RecordStays(sha, calls[..i], j, d);
    }
  }

  /** The calls that read the clock. */
  predicate Timed(call: Call) {
    || call.InitiateDisputeCall? || call.SelectJuryCall? || call.CommitVoteCall? || call.RevealVoteCall?
    || call.TallyVotesCall? || call.FileAppealCall? || call.ExecuteResolutionCall?
  }

  /** The clock of the ledger does not run backwards. */
  ghost predicate ClockRuns(calls: seq<Call>) {
    forall i, j :: 0 <= i < j < |calls| && Timed(calls[i]) && Timed(calls[j]) ==> calls[i].now <= calls[j].now
  }

  ghost predicate Succeeds(sha: seq<Byte> -> Hash, calls: seq<Call>, i: nat)
    requires i < |calls|
  {
    Apply(After(sha, calls[..i]), sha, calls[i]).Ok?
  }

  /** When a call on a dispute is made, by the record that it finds. */
  ghost predicate InWindow(c: Court, call: Call)
    requires call.CommitVoteCall? || call.RevealVoteCall? || call.TallyVotesCall?
  {
    && call.d in c.disputes
    && match call
       case CommitVoteCall(d, _, _, now) => now <= CommitEnd(c.disputes[d])
       case RevealVoteCall(d, _, _, _, _, now) => CommitEnd(c.disputes[d]) < now <= RevealEnd(c.disputes[d])
       case TallyVotesCall(d, now) => RevealEnd(c.disputes[d]) < now
  }

  lemma SuccessIsInWindow(s: State, sha: seq<Byte> -> Hash, call: Call)
    requires call.CommitVoteCall? || call.RevealVoteCall? || call.TallyVotesCall?
    requires Apply(s, sha, call).Ok?
    ensures InWindow(s.court, call)
  {
  }

  lemma InOrderOfTime(calls: seq<Call>, i: nat, j: nat)
    requires i < |calls| && j < |calls| && Timed(calls[i]) && Timed(calls[j])
    requires ClockRuns(calls) && calls[i].now < calls[j].now
    ensures i < j
  {
  }

  /** In any run, within one round of a dispute every successful commit is made before every
      successful reveal, and these before the tally. */
  lemma RoundInOrder(sha: seq<Byte> -> Hash, calls: seq<Call>, d: nat, i: nat, j: nat, k: nat)
    requires i < |calls| && j < |calls| && k < |calls|
    requires calls[i].CommitVoteCall? && calls[i].d == d && Succeeds(sha, calls, i)
    requires calls[j].RevealVoteCall? && calls[j].d == d && Succeeds(sha, calls, j)
    requires calls[k].TallyVotesCall? && calls[k].d == d && Succeeds(sha, calls, k)
    requires SameRound(sha, calls, i, j, d) && SameRound(sha, calls, j, k, d)
    ensures calls[i].now < calls[j].now < calls[k].now
    ensures ClockRuns(calls) ==> i < j < k
  {
    var c, e, f := After(sha, calls[..i]), After(sha, calls[..j]), After(sha, calls[..k]);
    SuccessIsInWindow(c, sha, calls[i]);
    SuccessIsInWindow(e, sha, calls[j]);
    SuccessIsInWindow(f, sha, calls[k]);
    SameRecord(sha, calls, i, j, d);
    SameRecord(sha, calls, j, k, d);
    WindowsInOrder(c.court, e.court, f.court, d, calls[i], calls[j], calls[k]);
    if ClockRuns(calls) {
      InOrderOfTime(calls, i, j);
      InOrderOfTime(calls, j, k);
    }
  }

  lemma WindowsInOrder(c: Court, e: Court, f: Court, d: nat, first: Call, second: Call, third: Call)
    requires first.CommitVoteCall? && second.RevealVoteCall? && third.TallyVotesCall?
    requires first.d == d && second.d == d && third.d == d
    requires InWindow(c, first) && InWindow(e, second) && InWindow(f, third)
    requires c.disputes[d] == e.disputes[d] == f.disputes[d]
    ensures first.now < second.now < third.now
  {
  }

  /** In any run, while one resolved record of a dispute stands, every time at which an appeal would
      be accepted lies before every time at which its resolution could be enforced. */
  lemma AppealBeforeEnforcement(sha: seq<Byte> -> Hash, calls: seq<Call>, d: nat, i: nat, j: nat, t1: nat, t2: nat,
                                draws: seq<nat>)
    requires i <= |calls| && j <= |calls| && SameRound(sha, calls, i, j, d)
    requires FileAppeal(After(sha, calls[..i]), d, draws, t1).Ok?
    requires ExecuteResolution(After(sha, calls[..j]), d, t2).Ok?
    ensures t1 < t2
  {
    AppealParts(After(sha, calls[..i]), d, draws, t1);
    SameRecord(sha, calls, i, j, d);
  }

  // ----- Reveals after the tally

  /** A reveal does not ask whether the dispute is still under vote: in a reveal window counted from
      the tally, a juror who missed the round can still open a ballot, even when the resolution has
      been enforced. It changes that one ballot and nothing else. */
  lemma LateRevealIsAccepted(c: Court, sha: seq<Byte> -> Hash, d: nat, j: Address, vote: Resolution,
                             payload: U32, salt: seq<Byte>, now: nat)
    requires d in c.disputes && (c.disputes[d].status == Resolved || c.disputes[d].status == FinalResolved)
    requires CommitEnd(c.disputes[d]) < now <= RevealEnd(c.disputes[d])
    requires vote != NoRes && (d, j) in c.ballots && !c.ballots[(d, j)].revealed
    requires c.ballots[(d, j)].hash == sha(Preimage(vote, payload, salt))
    ensures var revealed := c.ballots[(d, j)].(revealed := true, vote := vote, payload := payload);
      Reveal(c, sha, d, j, vote, payload, salt, now) == Ok(c.(ballots := c.ballots[(d, j) := revealed]))
  {
  }

  /** On a dispute that has come to its end such a ballot never counts: no tally of it follows. */
  lemma LateRevealOnFinalIsIdle(s: State, sha: seq<Byte> -> Hash, call: Call, d: nat)
    requires StateOk(s) && d in s.court.disputes && s.court.disputes[d].status == FinalResolved
    requires call.TallyVotesCall? && call.d == d
    ensures Apply(s, sha, call).Err?
  {
  }

  // ----- Which ballots the next rounds count

  /** Those who may sit on the panel of an appeal. */
  function Impartial(c: Court, d: nat, creator: Address, now: nat): set<Address>
    requires Appeal(c, d, now).Ok?
  {
    c.jurors.Keys - Barred(Appeal(c, d, now).value, d, creator)
  }

  /** After the appeal the juror sits on the panel with a revealed ballot. */
  ghost predicate CountedNext(c: Court, d: nat, creator: Address, draws: seq<nat>, now: nat, j: Address) {
    var e := AppealAndSeat(c, d, creator, draws, now);
    e.Ok? && d in e.value.panels && j in e.value.panels[d] && HasRevealed(e.value.ballots, d, j)
  }

  /** A ballot counts in the round after an appeal, for some draw, exactly when it is revealed, its juror
      is impartial, and the panel can be seated. */
  lemma CountedNextIff(c: Court, d: nat, creator: Address, now: nat, j: Address)
    requires CourtOk(c) && Appeal(c, d, now).Ok?
    ensures (exists draws :: CountedNext(c, d, creator, draws, now, j)) <==>
      && j in Impartial(c, d, creator, now) && |Impartial(c, d, creator, now)| >= APPEAL_JURY_SIZE
      && HasRevealed(c.ballots, d, j)
  {
    var a := Appeal(c, d, now).value;
    if draws :| CountedNext(c, d, creator, draws, now, j) {
      SeatIsImpartial(a, d, creator, draws, now);
      SeatSucceedsIff(a, d, creator, draws, now);
      CandidatesAreNotBarred(a, d, creator);
    }
    if j in Impartial(c, d, creator, now) && |Impartial(c, d, creator, now)| >= APPEAL_JURY_SIZE
       && HasRevealed(c.ballots, d, j) {
      var draws := OldBallotReturns(c, d, creator, now, j);
      assert CountedNext(c, d, creator, draws, now, j);
    }
  }

  /** An appeal, the tally of its round, and another appeal: after that the juror sits on the panel
      with a revealed ballot. */
  ghost predicate CountedLater(c: Court, d: nat, creator: Address, first: seq<nat>, t2: nat, t3: nat,
                               second: seq<nat>, t4: nat, j: Address)
  {
    var c1 := AppealAndSeat(c, d, creator, first, t2);
    && c1.Ok?
    && var c2 := TallyVotes(c1.value, d, t3);
      && c2.Ok?
      && CountedNext(c2.value, d, creator, second, t4, j)
  }

  /** The members of the panel just tallied are barred from the next one. The ballot of one of them
      counts in the round after it, for some draws, exactly when it is revealed, its juror is still
      registered and neither creator nor initiator, and both panels can be seated one after the other. */
  lemma CountedLaterIff(c: Court, d: nat, creator: Address, t2: nat, t3: nat, t4: nat, j: Address)
    requires CourtOk(c) && Appeal(c, d, t2).Ok? && c.disputes[d].appealCount + 2 <= MAX_APPEALS
    requires t2 + VOTING_COMMIT_PERIOD + VOTING_REVEAL_PERIOD < t3 && t4 <= t3 + APPEAL_WINDOW_PERIOD
    requires d in c.panels && j in c.panels[d]
    ensures (exists first, second :: CountedLater(c, d, creator, first, t2, t3, second, t4, j)) <==>
      && HasRevealed(c.ballots, d, j)
      && j in Others(c, d, creator)
      && |Impartial(c, d, creator, t2)| >= APPEAL_JURY_SIZE
      && |Others(c, d, creator)| >= 2 * APPEAL_JURY_SIZE
  {
    if first, second :| CountedLater(c, d, creator, first, t2, t3, second, t4, j) {
      LaterNeeds(c, d, creator, first, t2, t3, second, t4, j);
    }
    if HasRevealed(c.ballots, d, j) && j in Others(c, d, creator)
       && |Impartial(c, d, creator, t2)| >= APPEAL_JURY_SIZE && |Others(c, d, creator)| >= 2 * APPEAL_JURY_SIZE {
      var first, second := LaterDraws(c, d, creator, t2, t3, t4, j);
      assert CountedLater(c, d, creator, first, t2, t3, second, t4, j);
    }
  }

  /** The registered jurors without an interest in the dispute. */
  function Others(c: Court, d: nat, creator: Address): set<Address>
    requires d in c.disputes
  {
    c.jurors.Keys - {creator, c.disputes[d].initiator}
  }

  /** What an appeal and a tally leave for the appeal after them. */
  lemma RoundBetween(c: Court, d: nat, creator: Address, first: seq<nat>, t2: nat, t3: nat, t4: nat)
    requires CourtOk(c) && Appeal(c, d, t2).Ok? && c.disputes[d].appealCount + 2 <= MAX_APPEALS
    requires t2 + VOTING_COMMIT_PERIOD + VOTING_REVEAL_PERIOD < t3 && t4 <= t3 + APPEAL_WINDOW_PERIOD
    requires AppealAndSeat(c, d, creator, first, t2).Ok?
    ensures var e := TallyVotes(AppealAndSeat(c, d, creator, first, t2).value, d, t3);
      && e.Ok? && CourtOk(e.value) && Appeal(e.value, d, t4).Ok?
      && d in e.value.panels && e.value.panels == AppealAndSeat(c, d, creator, first, t2).value.panels
      && Impartial(e.value, d, creator, t4) == Others(c, d, creator) - Members(e.value.panels[d])
      && e.value.ballots == c.ballots
  {
    var c1 := AppealAndSeat(c, d, creator, first, t2).value;
    AppealLeaves(c, d, creator, first, t2);
    TallyLeaves(c1, d, t3);
    TallyKeepsOk(c1, d, t3);
    AppealPossible(TallyVotes(c1, d, t3).value, d, creator, t4);
  }

  /** Who is impartial in an appeal that is possible. */
  lemma AppealPossible(c: Court, d: nat, creator: Address, now: nat)
    requires d in c.disputes && c.disputes[d].status == Resolved
    requires now <= c.disputes[d].createdAt + APPEAL_WINDOW_PERIOD
    requires c.disputes[d].appealCount < MAX_APPEALS && c.token.Some? && d in c.panels
    ensures Appeal(c, d, now).Ok?
    ensures Impartial(c, d, creator, now) == Others(c, d, creator) - Members(c.panels[d])
  {
  }

  lemma AppealLeaves(c: Court, d: nat, creator: Address, draws: seq<nat>, now: nat)
    requires CourtOk(c) && AppealAndSeat(c, d, creator, draws, now).Ok?
    ensures var e := AppealAndSeat(c, d, creator, draws, now).value;
      && CourtOk(e) && InSession(e.disputes, d) && e.disputes[d].createdAt == now
      && d in c.disputes && e.disputes[d].appealCount == c.disputes[d].appealCount + 1
      && e.disputes[d].initiator == c.disputes[d].initiator
      && e.jurors.Keys == c.jurors.Keys && e.ballots == c.ballots && e.token == c.token && c.token.Some?
  {
    var a, e := Appeal(c, d, now).value, AppealAndSeat(c, d, creator, draws, now).value;
    AppealKeepsOk(c, d, creator, draws, now);
    SeatIsImpartial(a, d, creator, draws, now);
    SummonAddsOne(a.jurors, e.panels[d]);
  }

  lemma TallyLeaves(c: Court, d: nat, now: nat)
    requires CourtOk(c) && InSession(c.disputes, d) && RevealEnd(c.disputes[d]) < now
    ensures var e := TallyVotes(c, d, now);
      && e.Ok? && e.value.jurors.Keys == c.jurors.Keys && e.value.panels == c.panels && e.value.ballots == c.ballots
      && e.value.token == c.token
      && d in e.value.disputes && e.value.disputes[d].status == Resolved && e.value.disputes[d].createdAt == now
      && e.value.disputes[d].appealCount == c.disputes[d].appealCount
      && e.value.disputes[d].initiator == c.disputes[d].initiator
  {
    assert DisputeOk(c, d);
    var outcome := Outcome(Leader(Revealed(c.ballots, d, c.panels[d])));
    var share := TallyRecords(Books(c.jurors, c.feePool), c.ballots, d, c.panels[d], outcome);
  }

  lemma LaterNeeds(c: Court, d: nat, creator: Address, first: seq<nat>, t2: nat, t3: nat, second: seq<nat>, t4: nat,
                   j: Address)
    requires CourtOk(c) && Appeal(c, d, t2).Ok? && c.disputes[d].appealCount + 2 <= MAX_APPEALS
    requires t2 + VOTING_COMMIT_PERIOD + VOTING_REVEAL_PERIOD < t3 && t4 <= t3 + APPEAL_WINDOW_PERIOD
    requires CountedLater(c, d, creator, first, t2, t3, second, t4, j)
    ensures HasRevealed(c.ballots, d, j) && j in Others(c, d, creator)
    ensures |Impartial(c, d, creator, t2)| >= APPEAL_JURY_SIZE && |Others(c, d, creator)| >= 2 * APPEAL_JURY_SIZE
  {
    var a := Appeal(c, d, t2).value;
    var panel := AppealAndSeat(c, d, creator, first, t2).value.panels[d];
    SeatIsImpartial(a, d, creator, first, t2);
    SeatSucceedsIff(a, d, creator, first, t2);
    CandidatesAreNotBarred(a, d, creator);
    RoundBetween(c, d, creator, first, t2, t3, t4);
    var c2 := TallyVotes(AppealAndSeat(c, d, creator, first, t2).value, d, t3).value;
    CountedNextIff(c2, d, creator, t4, j);
    DistinctSize(panel);
    TwoPanels(Others(c, d, creator), Members(panel));
  }

  lemma TwoPanels(all: set<Address>, panel: set<Address>)
    requires panel <= all
    ensures |all| == |panel| + |all - panel|
  {
    assert all == panel + (all - panel);
  }

  lemma LaterDraws(c: Court, d: nat, creator: Address, t2: nat, t3: nat, t4: nat, j: Address)
    returns (first: seq<nat>, second: seq<nat>)
    requires CourtOk(c) && Appeal(c, d, t2).Ok? && c.disputes[d].appealCount + 2 <= MAX_APPEALS
    requires t2 + VOTING_COMMIT_PERIOD + VOTING_REVEAL_PERIOD < t3 && t4 <= t3 + APPEAL_WINDOW_PERIOD
    requires d in c.panels && j in c.panels[d] && HasRevealed(c.ballots, d, j) && j in Others(c, d, creator)
    requires |Impartial(c, d, creator, t2)| >= APPEAL_JURY_SIZE && |Others(c, d, creator)| >= 2 * APPEAL_JURY_SIZE
    ensures CountedLater(c, d, creator, first, t2, t3, second, t4, j)
  {
    var a := Appeal(c, d, t2).value;
    var some :| some in Impartial(c, d, creator, t2);
    var panel := PanelWith(Impartial(c, d, creator, t2), some);
    CandidatesAreNotBarred(a, d, creator);
    first := ChosenSeat(a, d, creator, panel, t2);
    RoundBetween(c, d, creator, first, t2, t3, t4);
    var c2 := TallyVotes(AppealAndSeat(c, d, creator, first, t2).value, d, t3).value;
    DistinctSize(panel);
    TwoPanels(Others(c, d, creator), Members(panel));
    assert j !in panel;
    CountedNextIff(c2, d, creator, t4, j);
    second :| CountedNext(c2, d, creator, second, t4, j);
  }

  /** What a late reveal leaves for the appeal after it. */
  lemma LateRevealLeaves(c: Court, sha: seq<Byte> -> Hash, d: nat, j: Address, vote: Resolution, payload: U32,
                         salt: seq<Byte>, t1: nat, creator: Address, t2: nat)
    requires CourtOk(c) && Reveal(c, sha, d, j, vote, payload, salt, t1).Ok? && Appeal(c, d, t2).Ok?
    ensures var late := Reveal(c, sha, d, j, vote, payload, salt, t1).value;
      && CourtOk(late) && HasRevealed(late.ballots, d, j) && late == c.(ballots := late.ballots)
      && Appeal(late, d, t2).Ok? && Impartial(late, d, creator, t2) == Impartial(c, d, creator, t2)
  {
    RevealKeepsOk(c, sha, d, j, vote, payload, salt, t1);
    var late := Reveal(c, sha, d, j, vote, payload, salt, t1).value;
    assert Appeal(late, d, t2).value == Appeal(c, d, t2).value.(ballots := late.ballots);
  }

  /** A ballot revealed after the tally counts in the round after the next appeal, for some draw, exactly
      when its juror is impartial again and a panel can be seated. The members of the panel just
      tallied are not impartial, so only the ballots of earlier rounds can count so soon. */
  lemma LateRevealCountsNextIff(c: Court, sha: seq<Byte> -> Hash, d: nat, j: Address, vote: Resolution, payload: U32,
                                salt: seq<Byte>, t1: nat, creator: Address, t2: nat)
    requires CourtOk(c) && d in c.disputes && c.disputes[d].status == Resolved
    requires Reveal(c, sha, d, j, vote, payload, salt, t1).Ok? && Appeal(c, d, t2).Ok?
    ensures var late := Reveal(c, sha, d, j, vote, payload, salt, t1).value;
      (exists draws :: CountedNext(late, d, creator, draws, t2, j)) <==>
      j in Impartial(c, d, creator, t2) && |Impartial(c, d, creator, t2)| >= APPEAL_JURY_SIZE
    ensures d in c.panels && j in c.panels[d] ==> j !in Impartial(c, d, creator, t2)
  {
    LateRevealLeaves(c, sha, d, j, vote, payload, salt, t1, creator, t2);
    CountedNextIff(Reveal(c, sha, d, j, vote, payload, salt, t1).value, d, creator, t2, j);
    if d in c.panels && j in c.panels[d] {
      assert j in Barred(Appeal(c, d, t2).value, d, creator);
    }
  }

  /** A ballot revealed after the tally by a member of the panel just tallied counts in the round after
      the appeal after next, for some draws, exactly when that juror has no interest in the dispute
      and both panels can be seated one after the other. */
  lemma LateRevealCountsLaterIff(c: Court, sha: seq<Byte> -> Hash, d: nat, j: Address, vote: Resolution, payload: U32,
                                 salt: seq<Byte>, t1: nat, creator: Address, t2: nat, t3: nat, t4: nat)
    requires CourtOk(c) && d in c.disputes && c.disputes[d].status == Resolved
    requires Reveal(c, sha, d, j, vote, payload, salt, t1).Ok? && Appeal(c, d, t2).Ok?
    requires d in c.panels && j in c.panels[d] && c.disputes[d].appealCount + 2 <= MAX_APPEALS
    requires t2 + VOTING_COMMIT_PERIOD + VOTING_REVEAL_PERIOD < t3 && t4 <= t3 + APPEAL_WINDOW_PERIOD
    ensures var late := Reveal(c, sha, d, j, vote, payload, salt, t1).value;
      (exists first, second :: CountedLater(late, d, creator, first, t2, t3, second, t4, j)) <==>
      && j in Others(c, d, creator)
      && |Impartial(c, d, creator, t2)| >= APPEAL_JURY_SIZE
      && |Others(c, d, creator)| >= 2 * APPEAL_JURY_SIZE
  {
    LateRevealLeaves(c, sha, d, j, vote, payload, salt, t1, creator, t2);
    CountedLaterIff(Reveal(c, sha, d, j, vote, payload, salt, t1).value, d, creator, t2, t3, t4, j);
  }
}
