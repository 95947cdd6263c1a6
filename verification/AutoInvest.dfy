/** The auto-invest pool of contracts/auto-invest-pool/src/lib.rs: ranking the registered projects
    for a user and dripping the user's deposit into the best of them. */
module Ranking {
  import opened Sorting

  type Address = nat

  datatype Scored = Scored(score: nat, project: Address)

  /** A higher score ranks first. */
  function Rank(x: Scored): int {
    0 - x.score
  }

  /** The entries of one score, in the order in which they occur. */
  function WithScore(s: seq<Scored>, score: nat): seq<Scored> {
    if s == [] then []
    else WithScore(s[..|s| - 1], score) + if s[|s| - 1].score == score then [s[|s| - 1]] else []
  }

  /** Rearranged without changing the order of any two entries of equal score. */
  ghost predicate Stable(s: seq<Scored>, t: seq<Scored>) {
    forall v: nat :: WithScore(s, v) == WithScore(t, v)
  }

  /** The ranking the contract is meant to produce: each project in turn goes behind all those
      registered before it that score at least as much. */
  function Ranked(s: seq<Scored>): (r: seq<Scored>)
    ensures |r| == |s|
  {
    Sorted(s, Rank)
  }

  // ----- Bubble sort computes the ranking

  function Swapped(s: seq<Scored>, j: nat): (r: seq<Scored>)
    requires j + 1 < |s|
    ensures |r| == |s|
  {
    s[j := s[j + 1]][j + 1 := s[j]]
  }

  lemma {:induction false} WithScoreAppend(s: seq<Scored>, t: seq<Scored>, v: nat)
    ensures WithScore(s + t, v) == WithScore(s, v) + WithScore(t, v)
    decreases |t|
  {
    if t == [] {
      assert s + t == s;
    } else {
      var n := |t| - 1;
      WithScoreAppend(s, t[..n], v);
      assert (s + t)[..|s| + n] == s + t[..n];
    }
  }

  /** Exchanging two neighbours of different score is stable. */
  lemma SwapIsStable(s: seq<Scored>, j: nat)
    requires j + 1 < |s| && s[j].score != s[j + 1].score
    ensures Stable(s, Swapped(s, j))
  {
    forall v: nat
      ensures WithScore(s, v) == WithScore(Swapped(s, j), v)
    {
      assert s == s[..j] + [s[j], s[j + 1]] + s[j + 2..];
      assert Swapped(s, j) == s[..j] + [s[j + 1], s[j]] + s[j + 2..];
      PairSwap(s[..j], s[j], s[j + 1], s[j + 2..], v);
    }
  }

  lemma PairSwap(front: seq<Scored>, x: Scored, y: Scored, back: seq<Scored>, v: nat)
    requires x.score != y.score
    ensures WithScore(front + [x, y] + back, v) == WithScore(front + [y, x] + back, v)
  {
    WithScoreAppend(front + [x, y], back, v);
    WithScoreAppend(front + [y, x], back, v);
    WithScoreAppend(front, [x, y], v);
    WithScoreAppend(front, [y, x], v);
    assert [x, y][..1] == [x] && [y, x][..1] == [y];
    assert [x][..0] == [] && [y][..0] == [];
  }

  /** The last i entries are in place. */
  ghost predicate TailPlaced(s: seq<Scored>, from: nat) {
    forall p, q :: 0 <= p < q < |s| && from <= q ==> s[p].score >= s[q].score
  }

  method BubbleSort(a: array<Scored>)
    modifies a
    ensures a[..] == Ranked(old(a[..]))
  {
    ghost var s := a[..];
    for i := 0 to a.Length
      invariant Stable(s, a[..])
      invariant TailPlaced(a[..], a.Length - i)
    {
      BubblePass(a, a.Length - 1 - i);
    }
    RankedIsStable(s);
    SortedIsASort(s, Rank);
    StableSortUnique(a[..], Ranked(s));
  }

  method BubblePass(a: array<Scored>, last: nat)
    requires last < a.Length && TailPlaced(a[..], last + 1)
    modifies a
    ensures Stable(old(a[..]), a[..])
    ensures TailPlaced(a[..], last)
  {
    for j := 0 to last
      invariant Stable(old(a[..]), a[..])
      invariant TailPlaced(a[..], last + 1)
      invariant forall p :: 0 <= p < j ==> a[p].score >= a[j].score
    {
      if a[j].score < a[j + 1].score {
        ghost var before := a[..];
        SwapIsStable(before, j);
        a[j], a[j + 1] := a[j + 1], a[j];
        assert a[..] == Swapped(before, j);
        SwapKeepsTail(before, j, last + 1);
      }
    }
  }

  lemma SwapKeepsTail(s: seq<Scored>, j: nat, from: nat)
    requires j + 1 < from <= |s| && TailPlaced(s, from)
    ensures TailPlaced(Swapped(s, j), from)
  {
  }

  // ----- The ranking is the stable descending order

  lemma {:induction false} InsertedIsStable(s: seq<Scored>, x: Scored)
    ensures Stable(s + [x], Inserted(s, x, Rank))
    decreases |s|
  {
    if s != [] && s[|s| - 1].score < x.score {
      var front, last := s[..|s| - 1], s[|s| - 1];
      InsertedIsStable(front, x);
      var r := Inserted(front, x, Rank);
      forall v: nat
        ensures WithScore(s + [x], v) == WithScore(r + [last], v)
      {
        assert s + [x] == front + [last, x] + [];
        PairSwap(front, last, x, [], v);
        assert front + [x, last] + [] == (front + [x]) + [last];
        WithScoreAppend(front + [x], [last], v);
        WithScoreAppend(r, [last], v);
      }
    }
  }

  lemma {:induction false} RankedIsStable(s: seq<Scored>)
    ensures Stable(s, Ranked(s))
    decreases |s|
  {
    if s != [] {
      var front, last := s[..|s| - 1], s[|s| - 1];
      RankedIsStable(front);
      InsertedIsStable(Ranked(front), last);
      StableAppend(front, Ranked(front), last);
      assert s == front + [last];
      StableTransitive(s, Ranked(front) + [last], Ranked(s));
    }
  }

  lemma StableAppend(s: seq<Scored>, t: seq<Scored>, x: Scored)
    requires Stable(s, t)
    ensures Stable(s + [x], t + [x])
  {
    forall v: nat
      ensures WithScore(s + [x], v) == WithScore(t + [x], v)
    {
      WithScoreAppend(s, [x], v);
      WithScoreAppend(t, [x], v);
      assert WithScore(s, v) == WithScore(t, v);
    }
  }

  lemma StableTransitive(s: seq<Scored>, t: seq<Scored>, u: seq<Scored>)
    requires Stable(s, t) && Stable(t, u)
    ensures Stable(s, u)
  {
    forall v: nat
      ensures WithScore(s, v) == WithScore(u, v)
    {
      assert WithScore(s, v) == WithScore(t, v);
    }
  }

  lemma {:induction false} WithScoreMembers(s: seq<Scored>, v: nat, x: Scored)
    ensures x in WithScore(s, v) <==> x in s && x.score == v
    decreases |s|
  {
    if s != [] {
      WithScoreMembers(s[..|s| - 1], v, x);
      assert s == s[..|s| - 1] + [s[|s| - 1]];
    }
  }

  /** There is only one stable descending order. */
  lemma {:induction false} StableSortUnique(s: seq<Scored>, t: seq<Scored>)
    requires Stable(s, t)
    requires Ascending(s, Rank) && Ascending(t, Rank)
    ensures s == t
    decreases |s|
  {
    SameMembers(s, t);
    if s != [] {
      var x, y := s[|s| - 1], t[|t| - 1];
      assert x in t && y in s;
      assert x.score == y.score;
      SameLast(s, t);
      StableSortUnique(s[..|s| - 1], t[..|t| - 1]);
      assert s == s[..|s| - 1] + [x] && t == t[..|t| - 1] + [y];
    }
  }

  lemma SameLast(s: seq<Scored>, t: seq<Scored>)
    requires Stable(s, t) && s != [] && t != [] && s[|s| - 1].score == t[|t| - 1].score
    ensures s[|s| - 1] == t[|t| - 1] && Stable(s[..|s| - 1], t[..|t| - 1])
  {
    var x := s[|s| - 1];
    LastOfScore(s);
    LastOfScore(t);
    assert WithScore(s, x.score) == WithScore(t, x.score);
    forall v: nat {:trigger WithScore(s[..|s| - 1], v)}
      ensures WithScore(s[..|s| - 1], v) == WithScore(t[..|t| - 1], v)
    {
      if v != x.score {
        SkipsOtherScores(s, v);
        SkipsOtherScores(t, v);
        assert WithScore(s, v) == WithScore(t, v);
      }
    }
  }

  lemma SkipsOtherScores(s: seq<Scored>, v: nat)
    requires s != [] && s[|s| - 1].score != v
    ensures WithScore(s, v) == WithScore(s[..|s| - 1], v)
  {
  }

  lemma LastOfScore(s: seq<Scored>)
    requires s != []
    ensures var x := s[|s| - 1];
      var same := WithScore(s, x.score);
      && same != [] && same[|same| - 1] == x
      && same[..|same| - 1] == WithScore(s[..|s| - 1], x.score)
  {
  }

  lemma SameMembers(s: seq<Scored>, t: seq<Scored>)
    requires Stable(s, t)
    ensures forall x :: x in s <==> x in t
    ensures s == [] <==> t == []
  {
    forall x: Scored
      ensures x in s <==> x in t
    {
      WithScoreMembers(s, x.score, x);
      WithScoreMembers(t, x.score, x);
      assert WithScore(s, x.score) == WithScore(t, x.score);
    }
    if s != [] {
      assert s[0] in t;
    }
    if t != [] {
      assert t[0] in s;
    }
  }

  /** Where the entry registered last lands, and that it scores more than everything after it. */
  lemma RankedLast(s: seq<Scored>) returns (at: nat)
    requires s != []
    ensures var r, last := Ranked(s[..|s| - 1]), s[|s| - 1];
      && at <= |r| && Ranked(s) == r[..at] + [last] + r[at..]
      && forall i :: at <= i < |r| ==> r[i].score < last.score
  {
    var r, last := Ranked(s[..|s| - 1]), s[|s| - 1];
    at := Place(r, last, Rank, |r|);
    InsertedAtPlace(r, last, Rank, |r|);
    assert r[..|r|] == r;
    forall i | at <= i < |r|
      ensures r[i].score < last.score
    {
      assert Rank(r[i]) > Rank(last);
    }
  }

  /** Of two entries of equal score, the one ranked first was registered first. */
  lemma {:induction false} TiesKeepTheirOrder(s: seq<Scored>, i: nat, j: nat) returns (k: nat, l: nat)
    requires i < j < |s| && Ranked(s)[i].score == Ranked(s)[j].score
    ensures k < l < |s| && s[k] == Ranked(s)[i] && s[l] == Ranked(s)[j]
    decreases |s|
  {
    var front := s[..|s| - 1];
    var r := Ranked(front);
    var at := RankedLast(s);
    if j == at {
      SortedMembers(front, Rank);
      assert r[i] in r;
      k :| 0 <= k < |front| && front[k] == r[i];
      l := |s| - 1;
    } else if i != at {
      k, l := TiesKeepTheirOrder(front, if i < at then i else i - 1, if j < at then j else j - 1);
    } else {
      assert false;
    }
  }
}

module AutoInvest {
  import opened Outcomes
  import opened Machine
  import opened Sorting
  import opened Ranking

  type Tag = string

  datatype Error =
    | InsufficientBalance | EntryAlreadyExists | EntryNotFound | ContractPaused | UserPaused
    | DripCooldownNotMet | InvalidDepositAmount | InvalidDripAmount | ProjectNotFound
    | ProjectAlreadyRegistered | WithdrawalExceedsBalance

  const SECONDS_PER_MONTH := 2_592_000
  const MAX_PROJECTS_PER_DRIP := 5

  /** Risk levels from conservative (0) to aggressive (2). */
  type Risk = r: nat | r <= 2

  datatype Project = Project(risk: Risk, tags: seq<Tag>, active: bool, minimum: int)

  datatype Entry = Entry(deposited: int, remaining: int, monthly: int, risk: Risk, tags: seq<Tag>,
                         paused: bool, lastDrip: nat, invested: seq<Address>)

  /** What a user has put in, had invested and taken out over all entries so far. */
  datatype Account = Account(deposited: int, dripped: int, withdrawn: int)

  datatype Registry = Registry(listed: seq<Address>, projects: map<Address, Project>)

  datatype Stored = Stored(paused: bool, registry: Registry, entries: map<Address, Entry>,
                           ledger: map<Address, Account>)

  // ----- Matching projects to a user

  predicate Eligible(p: Project, risk: Risk, monthly: int) {
    p.risk <= risk && p.active && p.minimum <= monthly
  }

  /** How many of a project's tags the user prefers. */
  function Score(tags: seq<Tag>, preferred: seq<Tag>): nat {
    if tags == [] then 0
    else Score(tags[..|tags| - 1], preferred) + if tags[|tags| - 1] in preferred then 1 else 0
  }

  /** The eligible projects with their scores, in the order of registration. */
  function Candidates(listed: seq<Address>, projects: map<Address, Project>, risk: Risk,
                      preferred: seq<Tag>, monthly: int): seq<Scored>
  {
    if listed == [] then []
    else
      var a := listed[|listed| - 1];
      Candidates(listed[..|listed| - 1], projects, risk, preferred, monthly)
        + if a in projects && Eligible(projects[a], risk, monthly)
          then [Scored(Score(projects[a].tags, preferred), a)] else []
  }

  function ProjectsOf(s: seq<Scored>): (r: seq<Address>)
    ensures |r| == |s|
  {
    seq(|s|, i requires 0 <= i < |s| => s[i].project)
  }

  function Matches(g: Registry, risk: Risk, preferred: seq<Tag>, monthly: int): seq<Address> {
    ProjectsOf(Ranked(Candidates(g.listed, g.projects, risk, preferred, monthly)))
  }

  method ScoreOf(tags: seq<Tag>, preferred: seq<Tag>) returns (score: nat)
    ensures score == Score(tags, preferred)
  {
    score := 0;
    for i := 0 to |tags|
      invariant score == Score(tags[..i], preferred)
    {
      assert tags[..i + 1][..i] == tags[..i];
      for k := 0 to |preferred|
        invariant tags[i] !in preferred[..k]
        invariant score == Score(tags[..i], preferred)
      {
        if tags[i] == preferred[k] {
          score := score + 1;
          break;
        }
      }
    }
    assert tags[..|tags|] == tags;
  }

  method MatchProjects(g: Registry, risk: Risk, preferred: seq<Tag>, monthly: int) returns (r: seq<Address>)
    ensures r == Matches(g, risk, preferred, monthly)
  {
    var pairs: seq<Scored> := [];
    for i := 0 to |g.listed|
      invariant pairs == Candidates(g.listed[..i], g.projects, risk, preferred, monthly)
    {
      assert g.listed[..i + 1][..i] == g.listed[..i];
      var a := g.listed[i];
      if a in g.projects && Eligible(g.projects[a], risk, monthly) {
        var score := ScoreOf(g.projects[a].tags, preferred);
        pairs := pairs + [Scored(score, a)];
      }
    }
    assert g.listed[..|g.listed|] == g.listed;
    var ranked := new Scored[|pairs|](i requires 0 <= i < |pairs| => pairs[i]);
    assert ranked[..] == pairs;
    BubbleSort(ranked);
    r := ProjectsOf(ranked[..]);
  }

  // ----- The calls on one user's money

  function AccountOf(s: Stored, user: Address): Account {
    if user in s.ledger then s.ledger[user] else Account(0, 0, 0)
  }

  function Deposit(s: Stored, user: Address, amount: int, risk: Risk, tags: seq<Tag>, monthly: int, now: nat)
    : Result<Stored, Error>
  {
    if s.paused then Err(ContractPaused)
    else if amount <= 0 then Err(InvalidDepositAmount)
    else if monthly <= 0 || monthly > amount || tags == [] then Err(InvalidDripAmount)
    else if user in s.entries then Err(EntryAlreadyExists)
    else
      var account := AccountOf(s, user);
      Ok(s.(entries := s.entries[user := Entry(amount, amount, monthly, risk, tags, false, now, [])],
            ledger := s.ledger[user := account.(deposited := account.deposited + amount)]))
  }

  /** The first moment at which the next drip is due; the addition saturates. */
  function NextDrip(e: Entry): int {
    if e.lastDrip + SECONDS_PER_MONTH < U64_SIZE then e.lastDrip + SECONDS_PER_MONTH else U64_SIZE - 1
  }

  /** The projects one drip invests in and the amount each of them gets. */
  function Drip(matches: seq<Address>, monthly: int): (d: (seq<Address>, int))
    requires matches != []
  {
    var n := if |matches| < MAX_PROJECTS_PER_DRIP then |matches| else MAX_PROJECTS_PER_DRIP;
    (matches[..n], Quot(monthly, n))
  }

  function ExecuteDrip(s: Stored, user: Address, now: nat): Result<Stored, Error> {
    if s.paused then Err(ContractPaused)
    else if user !in s.entries then Err(EntryNotFound)
    else
      var e := s.entries[user];
      if e.paused then Err(UserPaused)
      else if now < NextDrip(e) then Err(DripCooldownNotMet)
      else if e.remaining < e.monthly then Err(InsufficientBalance)
      else
        var matches := Matches(s.registry, e.risk, e.tags, e.monthly);
        if matches == [] then Ok(s.(entries := s.entries[user := e.(lastDrip := now)]))
        else
          var (chosen, each) := Drip(matches, e.monthly);
          var account := AccountOf(s, user);
          Ok(s.(entries := s.entries[user := e.(remaining := e.remaining - |chosen| * each,
                                                lastDrip := now, invested := e.invested + chosen)],
                ledger := s.ledger[user := account.(dripped := account.dripped + |chosen| * each)]))
  }

  function Withdraw(s: Stored, user: Address, amount: Option<int>): Result<Stored, Error> {
    if user !in s.entries then Err(EntryNotFound)
    else
      var e := s.entries[user];
      var out := match amount case None => e.remaining case Some(x) => x;
      if out > e.remaining then Err(WithdrawalExceedsBalance)
      else
        var account := AccountOf(s, user);
        Ok(s.(entries := if e.remaining == out then s.entries - {user}
                         else s.entries[user := e.(remaining := e.remaining - out)],
              ledger := s.ledger[user := account.(withdrawn := account.withdrawn + out)]))
  }

  function SetPaused(s: Stored, user: Address, paused: bool): Result<Stored, Error> {
    if user !in s.entries then Err(EntryNotFound)
    else Ok(s.(entries := s.entries[user := s.entries[user].(paused := paused)]))
  }

  function Register(s: Stored, a: Address, p: Project): Result<Stored, Error> {
    if a in s.registry.projects then Err(ProjectAlreadyRegistered)
    else Ok(s.(registry := Registry(s.registry.listed + [a], s.registry.projects[a := p])))
  }

  function Deregister(s: Stored, a: Address): Result<Stored, Error> {
    if a !in s.registry.projects then Err(ProjectNotFound)
    else
      var p := s.registry.projects[a].(active := false);
      Ok(s.(registry := s.registry.(projects := s.registry.projects[a := p])))
  }
}

/** What the pool promises: the right projects in the right order, and every user's money accounted
    for over every run. */
module AutoInvestProofs {
  import opened Outcomes
  import opened Machine
  import opened Sorting
  import opened Ranking
  import opened AutoInvest

  ghost predicate RegistryValid(g: Registry) {
    && (forall i, j :: 0 <= i < j < |g.listed| ==> g.listed[i] != g.listed[j])
    && (forall a :: a in g.listed <==> a in g.projects)
  }

  // ----- Matching

  lemma {:induction false} CandidateMembers(listed: seq<Address>, projects: map<Address, Project>, risk: Risk,
                                            preferred: seq<Tag>, monthly: int, x: Scored)
    ensures x in Candidates(listed, projects, risk, preferred, monthly) <==>
      && x.project in listed && x.project in projects && Eligible(projects[x.project], risk, monthly)
      && x.score == Score(projects[x.project].tags, preferred)
    decreases |listed|
  {
    if listed != [] {
      CandidateMembers(listed[..|listed| - 1], projects, risk, preferred, monthly, x);
      assert listed == listed[..|listed| - 1] + [listed[|listed| - 1]];
    }
  }

  /** The matches are exactly the listed projects that are active, no riskier than the user accepts and
      with a minimum of at most the monthly amount. */
  lemma MatchesExactly(g: Registry, risk: Risk, preferred: seq<Tag>, monthly: int, a: Address)
    ensures a in Matches(g, risk, preferred, monthly) <==>
      && a in g.listed && a in g.projects
      && g.projects[a].active && g.projects[a].risk <= risk && g.projects[a].minimum <= monthly
  {
    var candidates := Candidates(g.listed, g.projects, risk, preferred, monthly);
    SortedMembers(candidates, Rank);
    var ranked := Ranked(candidates);
    if a in ProjectsOf(ranked) {
      var i :| 0 <= i < |ranked| && ranked[i].project == a;
      assert ranked[i] in ranked;
      CandidateMembers(g.listed, g.projects, risk, preferred, monthly, ranked[i]);
    }
    if a in g.listed && a in g.projects && Eligible(g.projects[a], risk, monthly) {
      var x := Scored(Score(g.projects[a].tags, preferred), a);
      CandidateMembers(g.listed, g.projects, risk, preferred, monthly, x);
      var i :| 0 <= i < |ranked| && ranked[i] == x;
      assert ProjectsOf(ranked)[i] == a;
    }
  }

  /** The places in a list of tags at which there is one that the user prefers. */
  function Preferred(tags: seq<Tag>, preferred: seq<Tag>): set<nat> {
    set i: nat | i < |tags| && tags[i] in preferred
  }

  lemma {:induction false} ScoreCountsPreferred(tags: seq<Tag>, preferred: seq<Tag>)
    ensures Score(tags, preferred) == |Preferred(tags, preferred)|
    decreases |tags|
  {
    if tags != [] {
      var n := |tags| - 1;
      ScoreCountsPreferred(tags[..n], preferred);
      var before, after := Preferred(tags[..n], preferred), Preferred(tags, preferred);
      assert n !in before;
      if tags[n] in preferred {
        assert after == before + {n};
      } else {
        assert after == before;
      }
    }
  }

  /** The candidates come in the order of registration. */
  lemma {:induction false} CandidateOrder(listed: seq<Address>, projects: map<Address, Project>, risk: Risk,
                                          preferred: seq<Tag>, monthly: int, i: nat, j: nat)
    returns (k: nat, l: nat)
    requires i < j < |Candidates(listed, projects, risk, preferred, monthly)|
    ensures k < l < |listed|
    ensures var c := Candidates(listed, projects, risk, preferred, monthly);
      listed[k] == c[i].project && listed[l] == c[j].project
    decreases |listed|
  {
    var front := listed[..|listed| - 1];
    var c := Candidates(front, projects, risk, preferred, monthly);
    if j < |c| {
      k, l := CandidateOrder(front, projects, risk, preferred, monthly, i, j);
    } else {
      CandidateMembers(front, projects, risk, preferred, monthly, c[i]);
      k :| 0 <= k < |front| && front[k] == c[i].project;
      l := |front|;
    }
  }

  /** An earlier match has more of the preferred tags than a later one, or as many and was registered
      before it. */
  lemma MatchesInOrder(g: Registry, risk: Risk, preferred: seq<Tag>, monthly: int, i: nat, j: nat)
    returns (k: nat, l: nat)
    requires i < j < |Matches(g, risk, preferred, monthly)|
    ensures k < |g.listed| && l < |g.listed|
    ensures g.listed[k] in g.projects && g.listed[l] in g.projects
    ensures var r := Matches(g, risk, preferred, monthly);
      && r[i] == g.listed[k] && r[j] == g.listed[l]
      && var high := |Preferred(g.projects[r[i]].tags, preferred)|;
      var low := |Preferred(g.projects[r[j]].tags, preferred)|;
      high > low || (high == low && k < l)
  {
    var c := Candidates(g.listed, g.projects, risk, preferred, monthly);
    SortedIsASort(c, Rank);
    SortedMembers(c, Rank);
    assert Rank(Ranked(c)[i]) <= Rank(Ranked(c)[j]);
    var x, y := Ranked(c)[i], Ranked(c)[j];
    assert x in Ranked(c) && y in Ranked(c);
    CandidateMembers(g.listed, g.projects, risk, preferred, monthly, x);
    CandidateMembers(g.listed, g.projects, risk, preferred, monthly, y);
    ScoreCountsPreferred(g.projects[x.project].tags, preferred);
    ScoreCountsPreferred(g.projects[y.project].tags, preferred);
    if x.score == y.score {
      var p, q := TiesKeepTheirOrder(c, i, j);
      k, l := CandidateOrder(g.listed, g.projects, risk, preferred, monthly, p, q);
    } else {
      k :| 0 <= k < |g.listed| && g.listed[k] == x.project;
      l :| 0 <= l < |g.listed| && g.listed[l] == y.project;
    }
  }

  // ----- Dripping

  /** A drip invests the same amount in a prefix of the matches and leaves of the monthly amount
      less than one unit per project. */
  lemma DripSpendsTheMonthlyAmount(matches: seq<Address>, monthly: int)
    requires matches != [] && 0 < monthly
    ensures var (chosen, each) := Drip(matches, monthly);
      && chosen <= matches && 0 < |chosen| <= MAX_PROJECTS_PER_DRIP
      && (|chosen| < MAX_PROJECTS_PER_DRIP ==> chosen == matches)
      && 0 <= each && 0 <= monthly - |chosen| * each < |chosen|
  {
    var (chosen, each) := Drip(matches, monthly);
    assert monthly == |chosen| * (monthly / |chosen|) + monthly % |chosen|;
  }

  /** A deposit opens an entry, for a user without one, with at least one month's amount and one tag; the
      whole amount remains in it and the first month starts. */
  lemma DepositExactly(s: Stored, user: Address, amount: int, risk: Risk, tags: seq<Tag>, monthly: int, now: nat)
    ensures var r := Deposit(s, user, amount, risk, tags, monthly, now);
      && (r.Ok? <==> !s.paused && 0 < monthly <= amount && tags != [] && user !in s.entries)
      && (r.Ok? ==>
            && r.value.entries == s.entries[user := Entry(amount, amount, monthly, risk, tags, false, now, [])]
            && AccountOf(r.value, user).deposited - AccountOf(s, user).deposited == amount
            && MoneyMoved(s, r.value, user)
            && AccountOf(r.value, user).dripped == AccountOf(s, user).dripped
            && AccountOf(r.value, user).withdrawn == AccountOf(s, user).withdrawn)
  {
  }

  /** Only the entry and the account of one user changed. */
  ghost predicate MoneyMoved(s: Stored, t: Stored, user: Address) {
    && t.paused == s.paused && t.registry == s.registry
    && forall other :: other != user ==>
      && (other in t.entries <==> other in s.entries)
      && (other in s.entries ==> t.entries[other] == s.entries[other])
      && AccountOf(t, other) == AccountOf(s, other)
  }

  /** A drip is due a month after the one before, if a month's amount remains and neither the user nor the
      contract is paused. */
  lemma DripSucceedsIff(s: Stored, user: Address, now: nat)
    ensures ExecuteDrip(s, user, now).Ok? <==>
      && !s.paused && user in s.entries && !s.entries[user].paused
      && (s.entries[user].lastDrip + 2_592_000 <= now || U64_SIZE - 1 <= now)
      && s.entries[user].monthly <= s.entries[user].remaining
  {
  }

  /** Of the monthly amount as much was spent as gives each of the first matches, at most five, the same. */
  ghost predicate Shared(matches: seq<Address>, monthly: int, spent: int, after: seq<Address>, before: seq<Address>) {
    var n := if |matches| < 5 then |matches| else 5;
    && after == before + matches[..n]
    && spent <= monthly && (n == 0 ==> spent == 0) && (n > 0 ==> spent % n == 0 && monthly - spent < n)
  }

  /** A drip shares the monthly amount equally among the first five matches, or all of them if there are
      fewer; what does not divide remains. */
  lemma DripExactly(s: Stored, user: Address, now: nat)
    requires ExecuteDrip(s, user, now).Ok? && 0 < s.entries[user].monthly
    ensures var t, e := ExecuteDrip(s, user, now).value, s.entries[user];
      && MoneyMoved(s, t, user) && user in t.entries
      && var f, matches := t.entries[user], Matches(s.registry, e.risk, e.tags, e.monthly);
        && f == e.(remaining := f.remaining, lastDrip := now, invested := f.invested)
        && Shared(matches, e.monthly, e.remaining - f.remaining, f.invested, e.invested)
        && AccountOf(t, user).dripped - AccountOf(s, user).dripped == e.remaining - f.remaining
  {
    var e := s.entries[user];
    var matches := Matches(s.registry, e.risk, e.tags, e.monthly);
    if matches == [] {
      assert e.invested + matches[..0] == e.invested;
    } else {
      DripShares(matches, e.monthly, e.invested);
    }
  }

  lemma DripShares(matches: seq<Address>, monthly: int, before: seq<Address>)
    requires matches != [] && 0 < monthly
    ensures var (chosen, each) := Drip(matches, monthly);
      Shared(matches, monthly, |chosen| * each, before + chosen, before)
  {
    DripSpendsTheMonthlyAmount(matches, monthly);
  }

  /** A withdrawal takes out the given amount, or with none given all of it, but no more than remains; with
      all of it taken the entry is gone. */
  lemma WithdrawExactly(s: Stored, user: Address, amount: Option<int>)
    ensures Withdraw(s, user, amount).Ok? <==>
      user in s.entries && (amount.Some? ==> amount.value <= s.entries[user].remaining)
    ensures Withdraw(s, user, amount).Ok? ==>
      var t, e := Withdraw(s, user, amount).value, s.entries[user];
      var out := if amount.Some? then amount.value else e.remaining;
      && MoneyMoved(s, t, user)
      && (user in t.entries <==> out < e.remaining)
      && (user in t.entries ==> t.entries[user] == e.(remaining := e.remaining - out))
      && AccountOf(t, user) == AccountOf(s, user).(withdrawn := AccountOf(s, user).withdrawn + out)
  {
  }

  // ----- Every run

  function Remaining(s: Stored, user: Address): int {
    if user in s.entries then s.entries[user].remaining else 0
  }

  /** Everything a user deposited is still there, was invested, or was taken out. */
  predicate Balanced(s: Stored, user: Address) {
    var account := AccountOf(s, user);
    account.deposited == account.dripped + account.withdrawn + Remaining(s, user)
  }

  ghost predicate Valid(s: Stored) {
    && RegistryValid(s.registry)
    && (forall user :: user in s.entries ==> 0 <= s.entries[user].remaining && 0 < s.entries[user].monthly)
    && (forall user :: Balanced(s, user))
  }

  datatype Call =
    | DepositCall(user: Address, amount: int, risk: Risk, tags: seq<Tag>, monthly: int, now: nat)
    | DripCall(user: Address, now: nat)
    | WithdrawCall(user: Address, out: Option<int>)
    | SetPausedCall(user: Address, paused: bool)
    | RegisterCall(a: Address, p: Project)
    | DeregisterCall(a: Address)
    | PauseContractCall(paused: bool)

  function Apply(s: Stored, call: Call): Result<Stored, Error> {
    match call
    case DepositCall(user, amount, risk, tags, monthly, now) => Deposit(s, user, amount, risk, tags, monthly, now)
    case DripCall(user, now) => ExecuteDrip(s, user, now)
    case WithdrawCall(user, amount) => Withdraw(s, user, amount)
    case SetPausedCall(user, paused) => SetPaused(s, user, paused)
    case RegisterCall(a, p) => Register(s, a, p)
    case DeregisterCall(a) => Deregister(s, a)
    case PauseContractCall(paused) => Ok(s.(paused := paused))
  }

  function After(calls: seq<Call>): Stored
    decreases |calls|
  {
    if calls == [] then Stored(false, Registry([], map[]), map[], map[])
    else
      var before := After(calls[..|calls| - 1]);
      var next := Apply(before, calls[|calls| - 1]);
      if next.Ok? then next.value else before
  }

  lemma DepositKeepsValid(s: Stored, user: Address, amount: int, risk: Risk, tags: seq<Tag>, monthly: int, now: nat)
    requires Valid(s) && Deposit(s, user, amount, risk, tags, monthly, now).Ok?
    ensures Valid(Deposit(s, user, amount, risk, tags, monthly, now).value)
  {
    var t := Deposit(s, user, amount, risk, tags, monthly, now).value;
    forall other: Address
      ensures Balanced(t, other)
    {
      assert Balanced(s, other);
    }
  }

  lemma DripKeepsValid(s: Stored, user: Address, now: nat)
    requires Valid(s) && ExecuteDrip(s, user, now).Ok?
    ensures Valid(ExecuteDrip(s, user, now).value)
  {
    var t := ExecuteDrip(s, user, now).value;
    var spent := DripMovesMoney(s, user, now);
    forall other: Address
      ensures Balanced(t, other)
    {
      assert Balanced(s, other);
    }
  }

  /** A drip moves at most the monthly amount, from what the user has left to what was dripped. */
  lemma DripMovesMoney(s: Stored, user: Address, now: nat) returns (spent: int)
    requires ExecuteDrip(s, user, now).Ok? && 0 < s.entries[user].monthly
    ensures 0 <= spent <= s.entries[user].monthly <= s.entries[user].remaining
    ensures var t := ExecuteDrip(s, user, now).value;
      && t.registry == s.registry && user in t.entries
      && t.entries == s.entries[user := t.entries[user]]
      && t.entries[user].monthly == s.entries[user].monthly
      && t.entries[user].remaining == s.entries[user].remaining - spent
      && AccountOf(t, user) == AccountOf(s, user).(dripped := AccountOf(s, user).dripped + spent)
      && forall other :: other != user ==> AccountOf(t, other) == AccountOf(s, other)
  {
    var e := s.entries[user];
    var matches := Matches(s.registry, e.risk, e.tags, e.monthly);
    spent := 0;
    if matches != [] {
      var (chosen, each) := Drip(matches, e.monthly);
      DripSpendsTheMonthlyAmount(matches, e.monthly);
      spent := |chosen| * each;
      assert 0 <= |chosen| * each;
    }
  }

  lemma WithdrawKeepsValid(s: Stored, user: Address, amount: Option<int>)
    requires Valid(s) && Withdraw(s, user, amount).Ok?
    ensures Valid(Withdraw(s, user, amount).value)
  {
    var t := Withdraw(s, user, amount).value;
    forall other: Address
      ensures Balanced(t, other)
    {
      assert Balanced(s, other);
    }
  }

  /** In every reachable state each user's deposits equal what remains plus what was invested plus
      what was withdrawn, nothing that remains is negative, and every project is listed once. */
  lemma {:induction false} ReachableStatesAreValid(calls: seq<Call>)
    ensures Valid(After(calls))
    decreases |calls|
  {
    if calls != [] {
      var n := |calls| - 1;
      ReachableStatesAreValid(calls[..n]);
      var s := After(calls[..n]);
      if Apply(s, calls[n]).Ok? {
        CallKeepsValid(s, calls[n]);
      }
    }
  }

  lemma CallKeepsValid(s: Stored, call: Call)
    requires Valid(s) && Apply(s, call).Ok?
    ensures Valid(Apply(s, call).value)
  {
    match call
    case DepositCall(user, amount, risk, tags, monthly, now) =>
      DepositKeepsValid(s, user, amount, risk, tags, monthly, now);
    case DripCall(user, now) => DripKeepsValid(s, user, now);
    case WithdrawCall(user, amount) => WithdrawKeepsValid(s, user, amount);
    case SetPausedCall(_, _) =>
      forall other: Address
        ensures Balanced(Apply(s, call).value, other)
      {
        assert Balanced(s, other);
      }
    case RegisterCall(a, p) => SameMoney(s, Apply(s, call).value);
    case DeregisterCall(a) => SameMoney(s, Apply(s, call).value);
    case PauseContractCall(_) => SameMoney(s, Apply(s, call).value);
  }

  lemma SameMoney(s: Stored, t: Stored)
    requires t.entries == s.entries && t.ledger == s.ledger
    requires forall user :: Balanced(s, user)
    ensures forall user :: Balanced(t, user)
  {
    forall user: Address
      ensures Balanced(t, user)
    {
      assert Balanced(s, user);
    }
  }

  /** A withdrawal never raises what remains exactly when its amount is not negative; the code lets
      a negative one through and adds it to the balance. */
  lemma WithdrawNeverRaisesIff(s: Stored, user: Address, amount: Option<int>)
    requires Valid(s) && Withdraw(s, user, amount).Ok?
    ensures Remaining(Withdraw(s, user, amount).value, user) <= Remaining(s, user)
      <==> amount.None? || 0 <= amount.value
  {
  }

  /** A run in which a user deposits 100, withdraws -50 and has 150 left. */
  lemma NegativeWithdrawalRaises()
    ensures var calls := [DepositCall(1, 100, 0, ["tag"], 10, 0), WithdrawCall(1, Some(-50))];
      Remaining(After(calls), 1) == 150
  {
    var deposit, withdraw := DepositCall(1, 100, 0, ["tag"], 10, 0), WithdrawCall(1, Some(-50));
    var calls := [deposit, withdraw];
    assert calls[..1] == [deposit] && [deposit][..0] == [];
    assert After([deposit]) == Apply(After([]), deposit).value;
    assert After(calls) == Apply(After([deposit]), withdraw).value;
  }

  // ----- The list of projects

  /** A project is registered once, at the end of the list, and removed by marking it inactive, which
      leaves it in its place; neither touches anybody's money. */
  lemma ListingExactly(s: Stored, a: Address, p: Project)
    ensures var added, removed := Register(s, a, p), Deregister(s, a);
      && (added.Ok? <==> a !in s.registry.projects)
      && (added.Ok? ==>
            added.value == s.(registry := Registry(s.registry.listed + [a], s.registry.projects[a := p])))
      && (removed.Ok? <==> a in s.registry.projects)
      && (removed.Ok? ==>
            && a in removed.value.registry.projects && !removed.value.registry.projects[a].active
            && var g, q := removed.value.registry, removed.value.registry.projects[a];
              && removed.value == s.(registry := g) && g.listed == s.registry.listed
              && g.projects == s.registry.projects[a := q] && q == s.registry.projects[a].(active := false))
  {
  }

  /** A user with an entry can stop and resume the drips; nothing else changes. */
  lemma PausingExactly(s: Stored, user: Address, paused: bool, now: nat)
    ensures var r := SetPaused(s, user, paused);
      && (r.Ok? <==> user in s.entries)
      && (r.Ok? ==>
            && MoneyMoved(s, r.value, user) && r.value.ledger == s.ledger
            && user in r.value.entries && r.value.entries[user] == s.entries[user].(paused := paused)
            && (paused ==> ExecuteDrip(r.value, user, now).Err?))
  {
  }

  /** Call i of the run registers the project, and succeeds. */
  predicate Registers(calls: seq<Call>, i: nat, a: Address)
    requires i < |calls|
  {
    calls[i].RegisterCall? && calls[i].a == a && Apply(After(calls[..i]), calls[i]).Ok?
  }

  /** A call adds at most one project to the list, at its end, and never makes one active again. */
  lemma ListMoves(s: Stored, call: Call)
    requires Apply(s, call).Ok?
    ensures var g, h := s.registry, Apply(s, call).value.registry;
      && h.listed == g.listed + (if call.RegisterCall? then [call.a] else [])
      && (forall a :: a in g.projects ==> a in h.projects && (h.projects[a].active ==> g.projects[a].active))
      && (call.DeregisterCall? ==> call.a in h.projects && !h.projects[call.a].active)
  {
  }

  /** Projects are only ever added to the list, at its end. */
  lemma {:induction false} ListGrows(calls: seq<Call>, i: nat)
    requires i <= |calls|
    ensures After(calls[..i]).registry.listed <= After(calls).registry.listed
    decreases |calls|
  {
    if i == |calls| {
      assert calls[..i] == calls;
    } else {
      var n := |calls| - 1;
      assert calls[..n][..i] == calls[..i];
      ListGrows(calls[..n], i);
      if Apply(After(calls[..n]), calls[n]).Ok? {
        ListMoves(After(calls[..n]), calls[n]);
      }
    }
  }

  /** What is registered stays at the place that was the end of the list. */
  lemma RegisteredAt(calls: seq<Call>, i: nat, a: Address)
    requires i < |calls| && Registers(calls, i, a)
    ensures var k, listed := |After(calls[..i]).registry.listed|, After(calls).registry.listed;
      k < |After(calls[..i + 1]).registry.listed| <= |listed| && listed[k] == a
  {
    assert calls[..i + 1][..i] == calls[..i];
    ListMoves(After(calls[..i]), calls[i]);
    ListGrows(calls, i + 1);
  }

  /** In any run, of two projects the one registered first is first in the list. */
  lemma EarlierIsListedFirst(calls: seq<Call>, i: nat, j: nat, a: Address, b: Address) returns (k: nat, l: nat)
    requires i < j < |calls| && Registers(calls, i, a) && Registers(calls, j, b)
    ensures var listed := After(calls).registry.listed;
      k < l < |listed| && listed[k] == a && listed[l] == b
  {
    k, l := |After(calls[..i]).registry.listed|, |After(calls[..j]).registry.listed|;
    RegisteredAt(calls, i, a);
    RegisteredAt(calls, j, b);
    assert calls[..j][..i + 1] == calls[..i + 1];
    ListGrows(calls[..j], i + 1);
  }

  /** In any run, once a project is deregistered it is never matched again: it cannot be registered anew. */
  lemma {:induction false} DeregisteredIsNeverMatched(calls: seq<Call>, i: nat, a: Address, risk: Risk,
                                                      preferred: seq<Tag>, monthly: int)
    requires i < |calls| && calls[i] == DeregisterCall(a) && Apply(After(calls[..i]), calls[i]).Ok?
    ensures var g := After(calls).registry;
      a in g.projects && !g.projects[a].active && a !in Matches(g, risk, preferred, monthly)
    decreases |calls|
  {
    var n := |calls| - 1;
    if i < n {
      assert calls[..n][..i] == calls[..i];
      DeregisteredIsNeverMatched(calls[..n], i, a, risk, preferred, monthly);
    }
    if Apply(After(calls[..n]), calls[n]).Ok? {
      ListMoves(After(calls[..n]), calls[n]);
    }
    MatchesExactly(After(calls).registry, risk, preferred, monthly, a);
  }

  // ----- When drips happen

  predicate Timed(call: Call) {
    call.DepositCall? || call.DripCall?
  }

  /** The clock of the ledger does not run backwards. */
  ghost predicate ClockRuns(calls: seq<Call>) {
    forall i, j :: 0 <= i < j < |calls| && Timed(calls[i]) && Timed(calls[j]) ==> calls[i].now <= calls[j].now
  }

  /** Call i of the run is a drip for the user, and succeeds. */
  predicate Drips(calls: seq<Call>, i: nat, user: Address)
    requires i < |calls|
  {
    calls[i].DripCall? && calls[i].user == user && Apply(After(calls[..i]), calls[i]).Ok?
  }

  /** Ever after a drip, the time from which the user's next one is counted is not before it; not
      even when the user withdraws everything and deposits again. */
  lemma {:induction false} CountedFromLater(calls: seq<Call>, i: nat, user: Address)
    requires i < |calls| && Drips(calls, i, user) && ClockRuns(calls)
    ensures var entries := After(calls).entries;
      user in entries ==> entries[user].lastDrip >= calls[i].now
    decreases |calls|
  {
    var n := |calls| - 1;
    if i < n {
      assert calls[..n][..i] == calls[..i];
      CountedFromLater(calls[..n], i, user);
      if Apply(After(calls[..n]), calls[n]).Ok? {
        LastDripMoves(After(calls[..n]), calls[n], user);
        assert Timed(calls[n]) ==> calls[i].now <= calls[n].now;
      }
    } else {
      LastDripMoves(After(calls[..n]), calls[n], user);
    }
  }

  /** What one call does to the time of a user's last drip: it leaves it or sets it to the present. */
  lemma LastDripMoves(s: Stored, call: Call, user: Address)
    requires Apply(s, call).Ok?
    ensures var t := Apply(s, call).value;
      && (user in t.entries ==>
            || (user in s.entries && t.entries[user].lastDrip == s.entries[user].lastDrip)
            || (Timed(call) && t.entries[user].lastDrip == call.now))
      && (call.DripCall? && call.user == user ==> user in t.entries && t.entries[user].lastDrip == call.now)
  {
  }

  /** Any two drips of a user in a run are at least a month apart, unless the clock is within a month
      of its end. */
  lemma DripsAreAMonthApart(calls: seq<Call>, i: nat, j: nat, user: Address)
    requires i < j < |calls| && ClockRuns(calls) && Drips(calls, i, user) && Drips(calls, j, user)
    ensures calls[j].now >= calls[i].now + SECONDS_PER_MONTH || calls[j].now >= U64_SIZE - 1
  {
    assert calls[..j][..i] == calls[..i];
    CountedFromLater(calls[..j], i, user);
  }
}

/** The contract as it runs, over its stored fields. */
module AutoInvestContract {
  import opened Outcomes
  import opened Machine
  import opened Ranking
  import opened AutoInvest
  import opened AutoInvestProofs
  import P = AutoInvestProofs

  class AutoInvestPool {
    var paused: bool
    var registry: Registry
    var entries: map<Address, Entry>
    ghost var ledger: map<Address, Account>

    constructor ()
      ensures Valid() && State() == Stored(false, Registry([], map[]), map[], map[])
    {
      paused, registry, entries, ledger := false, Registry([], map[]), map[], map[];
      new;
      ReachableStatesAreValid([]);
    }

    ghost function State(): Stored
      reads this
    {
      Stored(paused, registry, entries, ledger)
    }

    ghost predicate Valid()
      reads this
    {
      P.Valid(State())
    }

    /** Money in, out, or on to a project on behalf of a user. */
    ghost method Book(user: Address, deposited: int, dripped: int, withdrawn: int)
      modifies this`ledger
      ensures var before := AccountOf(old(State()), user);
        ledger == old(ledger)[user := Account(before.deposited + deposited, before.dripped + dripped,
                                              before.withdrawn + withdrawn)]
    {
      var before := AccountOf(State(), user);
      ledger := ledger[user := Account(before.deposited + deposited, before.dripped + dripped,
                                       before.withdrawn + withdrawn)];
    }

    method MakeDeposit(user: Address, amount: int, risk: Risk, tags: seq<Tag>, monthly: int, now: nat)
      returns (r: Result<(), Error>)
      requires Valid()
      modifies this
      ensures Valid()
      ensures Ends(old(State()), Deposit(old(State()), user, amount, risk, tags, monthly, now), r, State())
    {
      if paused {
        return Err(ContractPaused);
      }
      if amount <= 0 {
        return Err(InvalidDepositAmount);
      }
      if monthly <= 0 || monthly > amount || |tags| == 0 {
        return Err(InvalidDripAmount);
      }
      if user in entries {
        return Err(EntryAlreadyExists);
      }
      DepositKeepsValid(State(), user, amount, risk, tags, monthly, now);
      Book(user, amount, 0, 0);
      entries := entries[user := Entry(amount, amount, monthly, risk, tags, false, now, [])];
      return Ok(());
    }

    method RunDrip(user: Address, now: nat) returns (r: Result<seq<Address>, Error>)
      requires Valid()
      modifies this
      ensures Valid()
      ensures Ends(old(State()), ExecuteDrip(old(State()), user, now), r, State())
      ensures r.Ok? ==> entries[user].invested == old(entries[user].invested) + r.value
    {
      if paused {
        return Err(ContractPaused);
      }
      if user !in entries {
        return Err(EntryNotFound);
      }
      var e := entries[user];
      if e.paused {
        return Err(UserPaused);
      }
      if now < NextDrip(e) {
        return Err(DripCooldownNotMet);
      }
      if e.remaining < e.monthly {
        return Err(InsufficientBalance);
      }
      var matches := MatchProjects(registry, e.risk, e.tags, e.monthly);
      DripKeepsValid(State(), user, now);
      if |matches| == 0 {
        entries := entries[user := e.(lastDrip := now)];
        return Ok([]);
      }
      var n := if |matches| < MAX_PROJECTS_PER_DRIP then |matches| else MAX_PROJECTS_PER_DRIP;
      var each := Quot(e.monthly, n);
      var chosen, dripped := InvestIn(matches, n, each);
      Book(user, 0, dripped, 0);
      entries := entries[user := e.(remaining := e.remaining - dripped, lastDrip := now,
                                    invested := e.invested + chosen)];
      return Ok(chosen);
    }

    /** The loop that invests the same amount in each of the first n projects. */
    static method InvestIn(matches: seq<Address>, n: nat, each: int) returns (chosen: seq<Address>, dripped: int)
      requires n <= |matches|
      ensures chosen == matches[..n] && dripped == n * each
    {
      chosen, dripped := [], 0;
      for i := 0 to n
        invariant chosen == matches[..i] && dripped == i * each
      {
        chosen := chosen + [matches[i]];
        dripped := dripped + each;
      }
    }

    method TakeOut(user: Address, amount: Option<int>) returns (r: Result<int, Error>)
      requires Valid()
      modifies this
      ensures Valid()
      ensures Ends(old(State()), Withdraw(old(State()), user, amount), r, State())
      ensures r.Ok? ==> r.value == AccountOf(State(), user).withdrawn - AccountOf(old(State()), user).withdrawn
    {
      if user !in entries {
        return Err(EntryNotFound);
      }
      var e := entries[user];
      var out := match amount case None => e.remaining case Some(x) => x;
      if out > e.remaining {
        return Err(WithdrawalExceedsBalance);
      }
      WithdrawKeepsValid(State(), user, amount);
      Book(user, 0, 0, out);
      e := e.(remaining := e.remaining - out);
      if e.remaining == 0 {
        entries := entries - {user};
      } else {
        entries := entries[user := e];
      }
      return Ok(out);
    }

    method SetUserPaused(user: Address, value: bool) returns (r: Result<(), Error>)
      requires Valid()
      modifies this
      ensures Valid()
      ensures Ends(old(State()), SetPaused(old(State()), user, value), r, State())
    {
      if user !in entries {
        return Err(EntryNotFound);
      }
      CallKeepsValid(State(), SetPausedCall(user, value));
      entries := entries[user := entries[user].(paused := value)];
      return Ok(());
    }

    method RegisterProject(a: Address, p: Project) returns (r: Result<(), Error>)
      requires Valid()
      modifies this
      ensures Valid()
      ensures Ends(old(State()), Register(old(State()), a, p), r, State())
    {
      if a in registry.projects {
        return Err(ProjectAlreadyRegistered);
      }
      CallKeepsValid(State(), RegisterCall(a, p));
      registry := Registry(registry.listed + [a], registry.projects[a := p]);
      return Ok(());
    }

    method DeregisterProject(a: Address) returns (r: Result<(), Error>)
      requires Valid()
      modifies this
      ensures Valid()
      ensures Ends(old(State()), Deregister(old(State()), a), r, State())
    {
      if a !in registry.projects {
        return Err(ProjectNotFound);
      }
      CallKeepsValid(State(), DeregisterCall(a));
      registry := registry.(projects := registry.projects[a := registry.projects[a].(active := false)]);
      return Ok(());
    }

    method SetContractPaused(value: bool)
      requires Valid()
      modifies this
      ensures Valid()
      ensures State() == old(State()).(paused := value)
    {
      CallKeepsValid(State(), PauseContractCall(value));
      paused := value;
    }
  }
}
