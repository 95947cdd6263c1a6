/** What the milestone side and the dispute side of the escrow contract share. */
module EscrowTypes {
  import opened Machine
  import opened Outcomes

  type Address = nat

  datatype Error =
    | NotFound | InvInput | Paused | EscrowInsuf | MstoneInv | NotValidator | AlreadyVoted | AlreadyInit
    | MstoneContest | Unauthorized | DispNF | ConflictInt | NotJuror | JurorReg | JurorStakeL | JurorAct
    | VoteNA | RevealNA | InvReveal | AppealWinCl | MaxAppeals | NotInit

  /** A vote of a juror and the outcome of a dispute. */
  datatype Resolution = NoRes | RelFunds | RefBackers | PartRel

  const BASIS_POINTS := 10_000

  function Checked(x: int): Result<int, Error> {
    if FitsI128(x) then Ok(x) else Err(InvInput)
  }

  ghost predicate Distinct<T>(s: seq<T>) {
    forall i, j :: 0 <= i < j < |s| ==> s[i] != s[j]
  }

  ghost function Members<T>(s: seq<T>): set<T> {
    set x | x in s
  }

  lemma {:induction false} DistinctSize<T>(s: seq<T>)
    requires Distinct(s)
    ensures |Members(s)| == |s|
  {
    if s != [] {
      var front, last := s[..|s| - 1], s[|s| - 1];
      DistinctSize(front);
      assert s == front + [last];
      assert Members(s) == Members(front) + {last};
    }
  }

  /** A list that repeats somebody has fewer different members than places. */
  lemma {:induction false} RepeatedSize<T>(s: seq<T>)
    requires !Distinct(s)
    ensures |Members(s)| < |s|
  {
    var front, last := s[..|s| - 1], s[|s| - 1];
    assert s == front + [last];
    assert Members(s) == Members(front) + {last};
    if Distinct(front) {
      DistinctSize(front);
      assert last in front;
    } else {
      RepeatedSize(front);
    }
  }

  lemma SubsetSize<T>(part: set<T>, whole: set<T>)
    requires part <= whole
    ensures |part| <= |whole|
  {
    assert whole == part + (whole - part);
  }
}

/** Milestone funding and validator voting in contracts/escrow/src/lib.rs and storage.rs: one
    project's escrow, its milestones, and the record of who voted on them. */
module Milestones {
  import opened Machine
  import opened Outcomes
  import opened EscrowTypes

  const MIN_VALIDATORS := 3
  const MIN_APPROVAL_THRESHOLD := 5100
  const MAX_APPROVAL_THRESHOLD := 10000

  datatype Status = Pending | Submitted | Approved | Rejected

  /** `releases` is how often the milestone was paid; the contract emits an event for each payment. */
  datatype Milestone = Milestone(amount: int, status: Status, approvals: nat, rejections: nat, releases: nat)

  /** `paid` is what was transferred to the creator so far. */
  datatype Project = Project(creator: Address, deposited: int, released: int, paid: int,
                             validators: seq<Address>, threshold: nat,
                             counter: nat, milestones: map<nat, Milestone>, voters: set<(nat, Address)>)

  // ----- How many approvals a milestone needs

  function SignaturesFor(amount: int, validators: nat): nat {
    var base := if amount <= 1_000 then 2 else if amount <= 10_000 then 3 else if amount <= 100_000 then 4 else 5;
    if validators < base then validators else base
  }

  function Required(amount: int, validators: nat, threshold: nat): nat {
    var byValue := SignaturesFor(amount, validators);
    var byThreshold := validators * threshold / BASIS_POINTS;
    if byValue > byThreshold then byValue else byThreshold
  }

  function RequiredFor(p: Project, amount: int): nat {
    Required(amount, |p.validators|, p.threshold)
  }

  // ----- The calls, as functions on the stored project

  function NewProject(creator: Address, validators: seq<Address>, threshold: nat, fee: nat): Result<Project, Error> {
    if |validators| < MIN_VALIDATORS || fee > BASIS_POINTS then Err(InvInput)
    else if !(MIN_APPROVAL_THRESHOLD <= threshold <= MAX_APPROVAL_THRESHOLD) then Err(InvInput)
    else Ok(Project(creator, 0, 0, 0, validators, threshold, 0, map[], {}))
  }

  function Deposit(p: Project, amount: int, paused: bool): Result<Project, Error> {
    if amount <= 0 then Err(InvInput)
    else if paused then Err(Paused)
    else
      var deposited :- Checked(p.deposited + amount);
      Ok(p.(deposited := deposited))
  }

  /** The checked sum of the amounts of the first n milestones. */
  function TotalUpTo(milestones: map<nat, Milestone>, n: nat): Result<int, Error> {
    if n == 0 then Ok(0)
    else
      var total :- TotalUpTo(milestones, n - 1);
      if n - 1 in milestones then Checked(total + milestones[n - 1].amount) else Ok(total)
  }

  function Create(p: Project, amount: int, paused: bool): Result<Project, Error> {
    if amount <= 0 then Err(InvInput)
    else
      var total :- TotalUpTo(p.milestones, p.counter);
      var newTotal :- Checked(total + amount);
      if newTotal > p.deposited then Err(EscrowInsuf)
      else if paused then Err(Paused)
      else
        Ok(p.(counter := p.counter + 1,
              milestones := p.milestones[p.counter := Milestone(amount, Pending, 0, 0, 0)]))
  }

  /** The votes that stay when those of the present validators on one milestone are cleared. */
  function VotersWithout(p: Project, id: nat): set<(nat, Address)> {
    set vote | vote in p.voters && !(vote.0 == id && vote.1 in p.validators)
  }

  function Submit(p: Project, id: nat, paused: bool): Result<Project, Error> {
    if id !in p.milestones then Err(NotFound)
    else if p.milestones[id].status != Pending then Err(MstoneInv)
    else if paused then Err(Paused)
    else
      var m := p.milestones[id].(status := Submitted, approvals := 0, rejections := 0);
      Ok(p.(milestones := p.milestones[id := m], voters := VotersWithout(p, id)))
  }

  function Release(p: Project, amount: int): Result<Project, Error> {
    var released :- Checked(p.released + amount);
    if released > p.deposited then Err(EscrowInsuf)
    else Ok(p.(released := released, paid := p.paid + amount))
  }

  /** The milestone with one more vote counted. */
  function Counted(m: Milestone, approve: bool): Milestone {
    if approve then m.(approvals := m.approvals + 1) else m.(rejections := m.rejections + 1)
  }

  function Vote(p: Project, id: nat, voter: Address, approve: bool, paused: bool): Result<Project, Error> {
    if voter !in p.validators then Err(NotValidator)
    else if id !in p.milestones then Err(NotFound)
    else if p.milestones[id].status != Submitted then Err(MstoneInv)
    else if (id, voter) in p.voters then Err(AlreadyVoted)
    else if paused then Err(Paused)
    else
      var m := Counted(p.milestones[id], approve);
      var q := p.(voters := p.voters + {(id, voter)});
      var required := RequiredFor(p, m.amount);
      if m.approvals >= required then
        var r :- Release(q, m.amount);
        Ok(r.(milestones := p.milestones[id := m.(status := Approved, releases := m.releases + 1)]))
      else if m.rejections > |p.validators| - required then
        Ok(q.(milestones := p.milestones[id := m.(status := Rejected)]))
      else
        Ok(q.(milestones := p.milestones[id := m]))
  }

  function SetValidators(p: Project, validators: seq<Address>): Result<Project, Error> {
    if |validators| < MIN_VALIDATORS then Err(InvInput) else Ok(p.(validators := validators))
  }

  function Clamped(payload: nat): nat {
    if payload > BASIS_POINTS then BASIS_POINTS else payload
  }

  /** What a resolution releases and the status it leaves the milestone in. */
  function Ruling(m: Milestone, resolution: Resolution, payload: nat): (int, Status) {
    match resolution
    case RelFunds => (m.amount, Approved)
    case RefBackers => (0, Rejected)
    case PartRel =>
      (Quot(m.amount * Clamped(payload), BASIS_POINTS), Approved)
    case NoRes => (0, m.status)
  }

  function Ruled(m: Milestone, amount: int, status: Status): Milestone {
    m.(status := status, releases := m.releases + if amount > 0 then 1 else 0)
  }

  /** The part of an executed resolution that concerns the project. */
  function Enforce(p: Project, id: nat, resolution: Resolution, payload: nat): Result<Project, Error> {
    if id !in p.milestones then Err(NotFound)
    else
      var (amount, status) := Ruling(p.milestones[id], resolution, payload);
      var q :- if amount > 0 then Release(p, amount) else Ok(p);
      Ok(q.(milestones := p.milestones[id := Ruled(p.milestones[id], amount, status)]))
  }

  /** The part of an appeal that concerns the project: the milestone starts over. */
  function Reset(p: Project, id: nat): Result<Project, Error> {
    if id !in p.milestones then Err(NotFound)
    else
      var m := p.milestones[id].(status := Pending, approvals := 0, rejections := 0);
      Ok(p.(milestones := p.milestones[id := m], voters := VotersWithout(p, id)))
  }
}
