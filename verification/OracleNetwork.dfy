/** The oracle network of contracts/oracle-network/src/lib.rs: the insertion sort behind the median,
    the rounds of the feeds, and the rewards they credit. */
module Median {
  import opened Sorting

  function Value(x: int): int {
    x
  }

  function Median(s: seq<int>): int {
    if s == [] then 0 else Sorted(s, Value)[|s| / 2]
  }

  /** One pass of the inner loop: shift what is greater than the key, then drop the key in. */
  method InsertAt(a: array<int>, i: nat)
    requires i < a.Length
    modifies a
    ensures a[..i + 1] == Inserted(old(a[..i]), old(a[i]), Value)
    ensures forall k :: i < k < a.Length ==> a[k] == old(a[k])
  {
    ghost var s := a[..i];
    var key := a[i];
    var j: int := i - 1;
    while j >= 0
      invariant -1 <= j < i
      invariant Place(s, key, Value, i) == Place(s, key, Value, j + 1)
      invariant forall k :: 0 <= k <= j ==> a[k] == s[k]
      invariant forall k :: j + 1 < k <= i ==> a[k] == s[k - 1]
      invariant forall k :: i < k < a.Length ==> a[k] == old(a[k])
    {
      var vj := a[j];
      if vj <= key {
        break;
      }
      a[j + 1] := vj;
      j := j - 1;
    }
    a[j + 1] := key;
    ShiftedIsInserted(s, key, a[..i + 1], j + 1);
  }

  lemma ShiftedIsInserted(s: seq<int>, key: int, t: seq<int>, p: nat)
    requires p == Place(s, key, Value, |s|) && |t| == |s| + 1 && t[p] == key
    requires forall k :: 0 <= k < p ==> t[k] == s[k]
    requires forall k :: p < k < |t| ==> t[k] == s[k - 1]
    ensures t == Inserted(s, key, Value)
  {
    InsertedAtPlace(s, key, Value, |s|);
    assert s[..|s|] == s;
    assert t == s[..p] + [key] + s[p..|s|];
  }

  method InsertionSort(a: array<int>)
    modifies a
    ensures a[..] == Sorted(old(a[..]), Value)
  {
    if a.Length == 0 {
      return;
    }
    ghost var s := a[..];
    var i := 1;
    assert s[..1][..0] == [];
    while i < a.Length
      invariant 1 <= i <= a.Length
      invariant a[..i] == Sorted(s[..i], Value)
      invariant forall k :: i <= k < a.Length ==> a[k] == s[k]
    {
      assert s[..i + 1][..i] == s[..i];
      InsertAt(a, i);
      i := i + 1;
    }
    assert a[..i] == a[..] && s[..i] == s;
  }

  /** The aggregate of a list of reported values. */
  method Aggregate(reported: seq<int>) returns (median: int)
    ensures median == Median(reported)
  {
    if |reported| == 0 {
      return 0;
    }
    var values := new int[|reported|](i requires 0 <= i < |reported| => reported[i]);
    assert values[..] == reported;
    InsertionSort(values);
    assert values[..][|reported| / 2] == values[|reported| / 2];
    return values[values.Length / 2];
  }

  // ----- The median resists a minority

  function CountAtMost(s: seq<int>, bound: int): (n: nat)
    ensures n <= |s|
  {
    if s == [] then 0
    else CountAtMost(s[..|s| - 1], bound) + if s[|s| - 1] <= bound then 1 else 0
  }

  lemma {:induction false} InsertedCounts(s: seq<int>, key: int, bound: int)
    ensures CountAtMost(Inserted(s, key, Value), bound) == CountAtMost(s, bound) + if key <= bound then 1 else 0
    decreases |s|
  {
    if s == [] || s[|s| - 1] <= key {
      assert (s + [key])[..|s|] == s;
    } else {
      var r := Inserted(s[..|s| - 1], key, Value);
      InsertedCounts(s[..|s| - 1], key, bound);
      assert (r + [s[|s| - 1]])[..|r|] == r;
    }
  }

  lemma {:induction false} SortedCounts(s: seq<int>, bound: int)
    ensures CountAtMost(Sorted(s, Value), bound) == CountAtMost(s, bound)
    decreases |s|
  {
    if s != [] {
      SortedCounts(s[..|s| - 1], bound);
      InsertedCounts(Sorted(s[..|s| - 1], Value), s[|s| - 1], bound);
    }
  }

  /** At least k + 1 elements of an ascending list are at most its element k, and fewer than k + 1
      are at most anything less. */
  lemma {:induction false} CountInAscending(s: seq<int>, k: nat, bound: int)
    requires Ascending(s, Value) && k < |s|
    ensures s[k] <= bound ==> k + 1 <= CountAtMost(s, bound)
    ensures bound < s[k] ==> CountAtMost(s, bound) <= k
    decreases |s|
  {
    var front := s[..|s| - 1];
    if k < |front| {
      assert front[k] == s[k];
      CountInAscending(front, k, bound);
    } else if k > 0 {
      CountInAscending(front, k - 1, bound);
      assert front[k - 1] == s[k - 1];
    }
  }

  /** The median is the value such that more than half are at most it and no more than half are
      below it. */
  lemma MedianCounts(s: seq<int>, bound: int)
    requires s != []
    ensures Median(s) <= bound <==> |s| / 2 + 1 <= CountAtMost(s, bound)
  {
    SortedIsASort(s, Value);
    SortedCounts(s, bound);
    CountInAscending(Sorted(s, Value), |s| / 2, bound);
  }

  /** The number of bad reports among a list whose honest ones are marked true. */
  function CountBad(honest: seq<bool>): (n: nat)
    ensures n <= |honest|
  {
    if honest == [] then 0
    else CountBad(honest[..|honest| - 1]) + if honest[|honest| - 1] then 0 else 1
  }

  lemma {:induction false} BadBound(s: seq<int>, honest: seq<bool>, bound: int)
    requires |s| == |honest|
    ensures (forall i :: 0 <= i < |s| && honest[i] ==> s[i] > bound) ==> CountAtMost(s, bound) <= CountBad(honest)
    ensures (forall i :: 0 <= i < |s| && honest[i] ==> s[i] <= bound)
      ==> |s| - CountAtMost(s, bound) <= CountBad(honest)
    decreases |s|
  {
    if s != [] {
      var n := |s| - 1;
      BadBound(s[..n], honest[..n], bound);
    }
  }

  /** With fewer than half of the reports bad, the median lies between two honest values, whatever
      the bad reports say. */
  lemma MedianBetweenHonest(s: seq<int>, honest: seq<bool>) returns (low: nat, high: nat)
    requires s != [] && |honest| == |s| && 2 * CountBad(honest) < |s|
    ensures low < |s| && honest[low] && s[low] <= Median(s)
    ensures high < |s| && honest[high] && Median(s) <= s[high]
  {
    var m := Median(s);
    MedianCounts(s, m);
    MedianCounts(s, m - 1);
    BadBound(s, honest, m);
    BadBound(s, honest, m - 1);
    low :| 0 <= low < |s| && honest[low] && s[low] <= m;
    high :| 0 <= high < |s| && honest[high] && !(s[high] <= m - 1);
  }

  /** One dishonest half is enough: with at least half of the reports bad (rounding up), they can
      push the median above every honest value. */
  lemma HalfCanCapture(n: nat, bad: nat) returns (s: seq<int>, honest: seq<bool>)
    requires 0 < n && bad <= n && n <= 2 * bad
    ensures |s| == n && |honest| == n && CountBad(honest) == bad
    ensures forall i :: 0 <= i < n && honest[i] ==> s[i] < Median(s)
  {
    s := seq(n, i => if i < n - bad then 0 else 1);
    honest := seq(n, i => i < n - bad);
    CountTail(n, bad);
    SortedOfAscending(s, Value);
  }

  lemma {:induction false} CountTail(n: nat, bad: nat)
    requires bad <= n
    ensures CountBad(seq(n, i => i < n - bad)) == bad
    decreases n
  {
    var honest := seq(n, i => i < n - bad);
    if n > 0 {
      if bad > 0 {
        CountTail(n - 1, bad - 1);
        assert honest[..n - 1] == seq(n - 1, i => i < n - 1 - (bad - 1));
      } else {
        CountTail(n - 1, 0);
        assert honest[..n - 1] == seq(n - 1, i => i < n - 1 - 0);
      }
    }
  }
}

module OracleNetwork {
  import opened Outcomes
  import opened Sums
  import opened Median

  type Address = nat

  type FeedId = string

  datatype Error =
    | UnknownFeed | FeedExists | NotOracle | TimestampSkew | Duplicate | NoOracles | TooManyOracles | NoRewardToken

  const MAX_ORACLES_PER_FEED := 16
  const DEFAULT_HEARTBEAT := 60

  datatype Report = Report(oracle: Address, value: int)

  datatype Latest = Latest(value: int, roundId: nat, timestamp: nat, updatedAt: nat)

  /** The settings of a feed after create_feed has filled in its defaults. */
  datatype Config = Config(heartbeat: nat, minOracles: nat, reward: int)

  datatype Feed = Feed(config: Config, oracles: seq<Address>, reports: seq<Report>, latest: Latest)

  /** The feeds, whether the reward token is set, and over all feeds what is owed to each oracle and
      what was paid out in reward tokens. */
  datatype Network = Network(feeds: map<FeedId, Feed>, tokenSet: bool, pending: map<Address, int>, paid: int)

  function Normalized(heartbeat: nat, minOracles: nat, reward: int): (c: Config)
    ensures 1 <= c.minOracles && 1 <= c.heartbeat
  {
    Config(if heartbeat == 0 then DEFAULT_HEARTBEAT else heartbeat,
           if minOracles == 0 then 1 else minOracles,
           reward)
  }

  function Values(reports: seq<Report>): seq<int> {
    seq(|reports|, i requires 0 <= i < |reports| => reports[i].value)
  }

  predicate Reported(reports: seq<Report>, oracle: Address) {
    exists i :: 0 <= i < |reports| && reports[i].oracle == oracle
  }

  function Owed(pending: map<Address, int>, oracle: Address): int {
    if oracle in pending then pending[oracle] else 0
  }

  function Credit(pending: map<Address, int>, oracle: Address, reward: int): map<Address, int> {
    if reward <= 0 then pending else pending[oracle := Owed(pending, oracle) + reward]
  }

  function CreditAll(pending: map<Address, int>, reports: seq<Report>, reward: int): map<Address, int> {
    if reports == [] then pending
    else Credit(CreditAll(pending, reports[..|reports| - 1], reward), reports[|reports| - 1].oracle, reward)
  }

  function CreateFeed(n: Network, id: FeedId, heartbeat: nat, minOracles: nat, reward: int, oracles: seq<Address>)
    : Result<Network, Error>
  {
    if oracles == [] then Err(NoOracles)
    else if |oracles| > MAX_ORACLES_PER_FEED then Err(TooManyOracles)
    else if id in n.feeds then Err(FeedExists)
    else
      var feed := Feed(Normalized(heartbeat, minOracles, reward), oracles, [], Latest(0, 0, 0, 0));
      Ok(n.(feeds := n.feeds[id := feed]))
  }

  /** The feed once a full round is closed. */
  function Closed(f: Feed, reports: seq<Report>, reportedAt: nat, now: nat): Feed {
    f.(reports := [], latest := Latest(Median.Median(Values(reports)), f.latest.roundId + 1, reportedAt, now))
  }

  function Submit(n: Network, id: FeedId, value: int, reportedAt: nat, oracle: Address, now: nat)
    : Result<Network, Error>
  {
    if id !in n.feeds then Err(UnknownFeed)
    else
      var f := n.feeds[id];
      if oracle !in f.oracles then Err(NotOracle)
      else if reportedAt > now + f.config.heartbeat then Err(TimestampSkew)
      else if Reported(f.reports, oracle) then Err(Duplicate)
      else
        var reports := f.reports + [Report(oracle, value)];
        if |reports| < f.config.minOracles then Ok(n.(feeds := n.feeds[id := f.(reports := reports)]))
        else
          Ok(n.(feeds := n.feeds[id := Closed(f, reports, reportedAt, now)],
                pending := CreditAll(n.pending, reports, f.config.reward)))
  }

  function UpdateOracles(n: Network, id: FeedId, oracles: seq<Address>): Result<Network, Error> {
    if oracles == [] then Err(NoOracles)
    else if |oracles| > MAX_ORACLES_PER_FEED then Err(TooManyOracles)
    else if id !in n.feeds then Err(UnknownFeed)
    else Ok(n.(feeds := n.feeds[id := n.feeds[id].(oracles := oracles)]))
  }

  function Claim(n: Network, oracle: Address): Result<Network, Error> {
    var owed := Owed(n.pending, oracle);
    if owed <= 0 then Ok(n)
    else if !n.tokenSet then Err(NoRewardToken)
    else Ok(n.(pending := n.pending[oracle := 0], paid := n.paid + owed))
  }

  class Contract {
    var feeds: map<FeedId, Feed>
    var tokenSet: bool
    var pendingRewards: map<Address, int>
    /** Reward tokens sent to oracles so far. */
    ghost var paid: int

    constructor ()
      ensures Valid() && Stored() == Network(map[], false, map[], 0)
    {
      feeds, tokenSet, pendingRewards, paid := map[], false, map[], 0;
      new;
      ReachableFeedsAreValid([]);
    }

    ghost function Stored(): Network
      reads this
    {
      Network(feeds, tokenSet, pendingRewards, paid)
    }

    ghost predicate Valid()
      reads this
    {
      NetworkOk(Stored())
    }

    method SetTokens()
      requires Valid()
      modifies this`tokenSet
      ensures Valid()
      ensures Stored() == old(Stored()).(tokenSet := true)
    {
      tokenSet := true;
    }

    method AddFeed(id: FeedId, heartbeat: nat, minOracles: nat, reward: int, oracles: seq<Address>)
      returns (r: Result<(), Error>)
      requires Valid()
      modifies this`feeds
      ensures Valid()
      ensures Ends(old(Stored()), CreateFeed(old(Stored()), id, heartbeat, minOracles, reward, oracles), r, Stored())
    {
      if |oracles| == 0 {
        return Err(NoOracles);
      }
      if |oracles| > MAX_ORACLES_PER_FEED {
        return Err(TooManyOracles);
      }
      if id in feeds {
        return Err(FeedExists);
      }
      CallKeepsValid(Stored(), CreateCall(id, heartbeat, minOracles, reward, oracles));
      feeds := feeds[id := Feed(Normalized(heartbeat, minOracles, reward), oracles, [], Latest(0, 0, 0, 0))];
      return Ok(());
    }

    method SubmitReport(id: FeedId, value: int, reportedAt: nat, oracle: Address, now: nat)
      returns (r: Result<(), Error>)
      requires Valid()
      modifies this
      ensures Valid()
      ensures Ends(old(Stored()), Submit(old(Stored()), id, value, reportedAt, oracle, now), r, Stored())
    {
      if id !in feeds {
        return Err(UnknownFeed);
      }
      var feed := feeds[id];
      var isOracle := false;
      for i := 0 to |feed.oracles|
        invariant !isOracle && oracle !in feed.oracles[..i]
      {
        if feed.oracles[i] == oracle {
          isOracle := true;
          break;
        }
      }
      if !isOracle {
        return Err(NotOracle);
      }
      if reportedAt > now + feed.config.heartbeat {
        return Err(TimestampSkew);
      }
      var duplicate := IsReported(feed.reports, oracle);
      if duplicate {
        return Err(Duplicate);
      }
      var reports := feed.reports + [Report(oracle, value)];
      SubmitKeepsValid(Stored(), id, value, reportedAt, oracle, now);
      if |reports| >= feed.config.minOracles {
        CloseRound(id, reports, reportedAt, now);
      } else {
        feeds := feeds[id := feed.(reports := reports)];
      }
      return Ok(());
    }

    static method IsReported(reports: seq<Report>, oracle: Address) returns (found: bool)
      ensures found == Reported(reports, oracle)
    {
      for i := 0 to |reports|
        invariant !Reported(reports[..i], oracle)
      {
        if reports[i].oracle == oracle {
          return true;
        }
      }
      assert reports[..|reports|] == reports;
      return false;
    }

    method CloseRound(id: FeedId, reports: seq<Report>, reportedAt: nat, now: nat)
      requires id in feeds
      modifies this
      ensures Stored() == old(Stored()).(
        feeds := old(feeds)[id := Closed(old(feeds)[id], reports, reportedAt, now)],
        pending := CreditAll(old(pendingRewards), reports, old(feeds)[id].config.reward))
    {
      var feed := feeds[id];
      var aggregated := Aggregate(Values(reports));
      var latest := Latest(aggregated, feed.latest.roundId + 1, reportedAt, now);
      feeds := feeds[id := feed.(latest := latest, reports := [])];
      pendingRewards := CreditReporters(pendingRewards, reports, feed.config.reward);
    }

    static method CreditReporters(before: map<Address, int>, reports: seq<Report>, reward: int)
      returns (pending: map<Address, int>)
      ensures pending == CreditAll(before, reports, reward)
    {
      pending := before;
      for i := 0 to |reports|
        invariant pending == CreditAll(before, reports[..i], reward)
      {
        assert reports[..i + 1][..i] == reports[..i];
        var oracle := reports[i].oracle;
        if reward > 0 {
          var current := if oracle in pending then pending[oracle] else 0;
          pending := pending[oracle := current + reward];
        }
      }
      assert reports[..|reports|] == reports;
    }

    method UpdateFeedOracles(id: FeedId, newOracles: seq<Address>) returns (r: Result<(), Error>)
      requires Valid()
      modifies this`feeds
      ensures Valid()
      ensures Ends(old(Stored()), UpdateOracles(old(Stored()), id, newOracles), r, Stored())
    {
      if |newOracles| == 0 {
        return Err(NoOracles);
      }
      if |newOracles| > MAX_ORACLES_PER_FEED {
        return Err(TooManyOracles);
      }
      if id !in feeds {
        return Err(UnknownFeed);
      }
      CallKeepsValid(Stored(), UpdateCall(id, newOracles));
      feeds := feeds[id := feeds[id].(oracles := newOracles)];
      return Ok(());
    }

    method ClaimRewards(oracle: Address) returns (r: Result<int, Error>)
      requires Valid()
      modifies this
      ensures Valid()
      ensures Ends(old(Stored()), Claim(old(Stored()), oracle), r, Stored())
      ensures r.Ok? ==> r.value == paid - old(paid) >= 0
    {
      var owed := if oracle in pendingRewards then pendingRewards[oracle] else 0;
      if owed <= 0 {
        return Ok(0);
      }
      if !tokenSet {
        return Err(NoRewardToken);
      }
      ClaimKeepsValid(Stored(), oracle);
      paid := paid + owed;
      pendingRewards := pendingRewards[oracle := 0];
      return Ok(owed);
    }
  }

  // ----- Every run

  datatype Call =
    | SetTokensCall
    | CreateCall(id: FeedId, heartbeat: nat, minOracles: nat, reward: int, oracles: seq<Address>)
    | SubmitCall(id: FeedId, value: int, reportedAt: nat, oracle: Address, now: nat)
    | UpdateCall(id: FeedId, oracles: seq<Address>)
    | ClaimCall(oracle: Address)

  function Apply(n: Network, call: Call): Result<Network, Error> {
    match call
    case SetTokensCall => Ok(n.(tokenSet := true))
    case CreateCall(id, heartbeat, minOracles, reward, oracles) =>
      CreateFeed(n, id, heartbeat, minOracles, reward, oracles)
    case SubmitCall(id, value, reportedAt, oracle, now) => Submit(n, id, value, reportedAt, oracle, now)
    case UpdateCall(id, oracles) => UpdateOracles(n, id, oracles)
    case ClaimCall(oracle) => Claim(n, oracle)
  }

  /** The network after a list of calls; a call that fails changes nothing. */
  function After(calls: seq<Call>): Network
    decreases |calls|
  {
    if calls == [] then Network(map[], false, map[], 0)
    else
      var before := After(calls[..|calls| - 1]);
      var next := Apply(before, calls[|calls| - 1]);
      if next.Ok? then next.value else before
  }

  ghost predicate DistinctOracles(reports: seq<Report>) {
    forall i, j :: 0 <= i < j < |reports| ==> reports[i].oracle != reports[j].oracle
  }

  function RewardPaid(c: Config): nat {
    if c.reward <= 0 then 0 else c.reward
  }

  ghost predicate NothingNegative(pending: map<Address, int>) {
    forall o :: o in pending ==> pending[o] >= 0
  }

  /** n times the same amount. */
  function Times(n: nat, amount: nat): (total: nat) {
    if n == 0 then 0 else Times(n - 1, amount) + amount
  }

  lemma {:induction false} TimesIsProduct(n: nat, amount: nat)
    ensures Times(n, amount) == n * amount
  {
    if n > 0 {
      TimesIsProduct(n - 1, amount);
      assert n * amount == (n - 1) * amount + amount;
    }
  }

  /** An open round holds fewer than minOracles reports, from distinct oracles. */
  ghost predicate FeedOk(f: Feed) {
    1 <= f.config.minOracles && |f.reports| < f.config.minOracles && DistinctOracles(f.reports)
  }

  /** One reward for each of minOracles reports of every closed round of a feed. */
  function EarnedOn(f: Feed): nat {
    Times(f.latest.roundId, Times(f.config.minOracles, RewardPaid(f.config)))
  }

  function Earned(feeds: map<FeedId, Feed>): map<FeedId, int> {
    map id | id in feeds :: EarnedOn(feeds[id])
  }

  /** All feeds are in order, and what is owed plus what was paid is what was earned on all of them. */
  ghost predicate NetworkOk(n: Network) {
    && (forall id :: id in n.feeds ==> FeedOk(n.feeds[id]))
    && NothingNegative(n.pending)
    && Sum(n.pending) + n.paid == Sum(Earned(n.feeds))
  }

  lemma {:induction false} CreditAllAdds(pending: map<Address, int>, reports: seq<Report>, c: Config)
    requires NothingNegative(pending)
    ensures var after := CreditAll(pending, reports, c.reward);
      && Sum(after) == Sum(pending) + Times(|reports|, RewardPaid(c))
      && NothingNegative(after)
    decreases |reports|
  {
    if reports != [] {
      var front, last := reports[..|reports| - 1], reports[|reports| - 1];
      CreditAllAdds(pending, front, c);
      var before := CreditAll(pending, front, c.reward);
      CreditAdds(before, last.oracle, c);
    }
  }

  lemma CreditAdds(pending: map<Address, int>, oracle: Address, c: Config)
    requires NothingNegative(pending)
    ensures var after := Credit(pending, oracle, c.reward);
      && Sum(after) == Sum(pending) + RewardPaid(c)
      && NothingNegative(after)
  {
    SumUpdate(pending, oracle, Owed(pending, oracle) + c.reward);
  }

  /** Every reporter of a closed round is credited exactly one reward, and nobody else any. */
  lemma {:induction false} CreditsEachReporterOnce(pending: map<Address, int>, reports: seq<Report>, c: Config,
                                                   o: Address)
    requires DistinctOracles(reports)
    ensures Owed(CreditAll(pending, reports, c.reward), o)
      == Owed(pending, o) + if Reported(reports, o) then RewardPaid(c) else 0
    decreases |reports|
  {
    if reports != [] {
      var front, last := reports[..|reports| - 1], reports[|reports| - 1];
      CreditsEachReporterOnce(pending, front, c, o);
      assert Reported(reports, o) <==> Reported(front, o) || last.oracle == o;
      assert last.oracle == o ==> !Reported(front, o);
    }
  }

  /** Rewards owed and rewards paid are together one for each report of each closed round of each feed. */
  lemma RewardsAddUp(n: Network)
    requires NetworkOk(n)
    ensures Sum(n.pending) + n.paid
      == Sum(map id | id in n.feeds ::
               n.feeds[id].latest.roundId * (n.feeds[id].config.minOracles * RewardPaid(n.feeds[id].config)))
  {
    forall id | id in n.feeds
      ensures EarnedOn(n.feeds[id])
        == n.feeds[id].latest.roundId * (n.feeds[id].config.minOracles * RewardPaid(n.feeds[id].config))
    {
      var c := n.feeds[id].config;
      TimesIsProduct(c.minOracles, RewardPaid(c));
      TimesIsProduct(n.feeds[id].latest.roundId, Times(c.minOracles, RewardPaid(c)));
    }
    assert Earned(n.feeds) == map id | id in n.feeds ::
      n.feeds[id].latest.roundId * (n.feeds[id].config.minOracles * RewardPaid(n.feeds[id].config));
  }

  /** A feed is stored, and what was earned on it changes with it. */
  lemma FeedStored(feeds: map<FeedId, Feed>, id: FeedId, f: Feed)
    ensures Sum(Earned(feeds[id := f]))
      == Sum(Earned(feeds)) - (if id in feeds then EarnedOn(feeds[id]) else 0) + EarnedOn(f)
  {
    SumUpdate(Earned(feeds), id, EarnedOn(f));
    assert Earned(feeds[id := f]) == Earned(feeds)[id := EarnedOn(f)];
  }

  lemma SubmitKeepsValid(n: Network, id: FeedId, value: int, reportedAt: nat, oracle: Address, now: nat)
    requires NetworkOk(n) && Submit(n, id, value, reportedAt, oracle, now).Ok?
    ensures NetworkOk(Submit(n, id, value, reportedAt, oracle, now).value)
  {
    var f := n.feeds[id];
    var reports := f.reports + [Report(oracle, value)];
    if |reports| >= f.config.minOracles {
      assert |reports| == f.config.minOracles;
      CreditAllAdds(n.pending, reports, f.config);
      FeedStored(n.feeds, id, Closed(f, reports, reportedAt, now));
    } else {
      FeedStored(n.feeds, id, f.(reports := reports));
    }
  }

  lemma ClaimKeepsValid(n: Network, oracle: Address)
    requires NetworkOk(n) && Claim(n, oracle).Ok?
    ensures NetworkOk(Claim(n, oracle).value)
  {
    SumUpdate(n.pending, oracle, 0);
  }

  lemma CallKeepsValid(n: Network, call: Call)
    requires NetworkOk(n) && Apply(n, call).Ok?
    ensures NetworkOk(Apply(n, call).value)
  {
    match call
    case SetTokensCall =>
    case CreateCall(id, heartbeat, minOracles, reward, oracles) =>
      FeedStored(n.feeds, id, Feed(Normalized(heartbeat, minOracles, reward), oracles, [], Latest(0, 0, 0, 0)));
    case SubmitCall(id, value, reportedAt, oracle, now) => SubmitKeepsValid(n, id, value, reportedAt, oracle, now);
    case UpdateCall(id, oracles) => FeedStored(n.feeds, id, n.feeds[id].(oracles := oracles));
    case ClaimCall(oracle) => ClaimKeepsValid(n, oracle);
  }

  /** Every reachable network is valid: rounds close as soon as they are full, no oracle reports twice
      in one, and over all feeds no reward token is created or lost. */
  lemma {:induction false} ReachableFeedsAreValid(calls: seq<Call>)
    ensures NetworkOk(After(calls))
    decreases |calls|
  {
    if calls == [] {
      assert Sum<Address>(map[]) == 0 && Earned(map[]) == map[];
    } else {
      var n := |calls| - 1;
      ReachableFeedsAreValid(calls[..n]);
      var before := After(calls[..n]);
      if Apply(before, calls[n]).Ok? {
        CallKeepsValid(before, calls[n]);
      }
    }
  }

  /** The bad oracles among those who reported. */
  function BadReporters(reports: seq<Report>, bad: set<Address>): set<Address> {
    set o | o in bad && Reported(reports, o)
  }

  /** Which of the reports do not come from bad oracles. */
  function Honest(reports: seq<Report>, bad: set<Address>): (honest: seq<bool>)
    ensures |honest| == |reports|
  {
    seq(|reports|, i requires 0 <= i < |reports| => reports[i].oracle !in bad)
  }

  /** As nobody reports twice in a round, there are no more bad reports than bad oracles. */
  lemma {:induction false} BadReportsAreBadOracles(reports: seq<Report>, bad: set<Address>)
    requires DistinctOracles(reports)
    ensures CountBad(Honest(reports, bad)) == |BadReporters(reports, bad)|
    decreases |reports|
  {
    if reports != [] {
      var front, last := reports[..|reports| - 1], reports[|reports| - 1].oracle;
      BadReportsAreBadOracles(front, bad);
      assert Honest(reports, bad)[..|front|] == Honest(front, bad);
      assert !Reported(front, last);
      LastReporter(reports, bad);
    }
  }

  lemma LastReporter(reports: seq<Report>, bad: set<Address>)
    requires reports != []
    ensures var front, last := reports[..|reports| - 1], reports[|reports| - 1].oracle;
      BadReporters(reports, bad) == BadReporters(front, bad) + if last in bad then {last} else {}
  {
    var front, last := reports[..|reports| - 1], reports[|reports| - 1].oracle;
    forall o: Address
      ensures Reported(reports, o) <==> Reported(front, o) || o == last
    {
      if Reported(reports, o) && o != last {
        var i :| 0 <= i < |reports| && reports[i].oracle == o;
        assert front[i].oracle == o;
      }
      if Reported(front, o) {
        var i :| 0 <= i < |front| && front[i].oracle == o;
        assert reports[i].oracle == o;
      }
      assert reports[|reports| - 1].oracle == last;
    }
  }

  /** In any run, when a round closes in which fewer than half of the oracles who reported are bad, the
      value that the feed publishes lies between the reports of two that are not. */
  lemma PublishedValueIsHonest(calls: seq<Call>, id: FeedId, value: int, reportedAt: nat, oracle: Address, now: nat,
                               bad: set<Address>)
    returns (low: nat, high: nat)
    requires Submit(After(calls), id, value, reportedAt, oracle, now).Ok?
    requires var f := After(calls).feeds[id];
      var reports := f.reports + [Report(oracle, value)];
      |reports| >= f.config.minOracles && 2 * |BadReporters(reports, bad)| < |reports|
    ensures var f := After(calls).feeds[id];
      var reports := f.reports + [Report(oracle, value)];
      var published := Submit(After(calls), id, value, reportedAt, oracle, now).value.feeds[id].latest;
      && published.roundId == f.latest.roundId + 1
      && low < |reports| && high < |reports| && reports[low].oracle !in bad && reports[high].oracle !in bad
      && reports[low].value <= published.value <= reports[high].value
  {
    ReachableFeedsAreValid(calls);
    var f := After(calls).feeds[id];
    assert FeedOk(f);
    var reports := f.reports + [Report(oracle, value)];
    forall i, j | 0 <= i < j < |reports|
      ensures reports[i].oracle != reports[j].oracle
    {
      if j == |f.reports| {
        assert f.reports[i].oracle != oracle;
      }
    }
    BadReportsAreBadOracles(reports, bad);
    low, high := MedianBetweenHonest(Values(reports), Honest(reports, bad));
  }
}

/** When each call on the network succeeds and all that it changes. */
module OracleEffects {
  import opened Outcomes
  import opened Median
  import opened OracleNetwork

  /** A new feed needs one to sixteen oracles and a name of its own. Left at zero, its heartbeat becomes
      sixty and its minimum of reports one; it has no reports and no value. */
  lemma CreateExactly(n: Network, id: FeedId, heartbeat: nat, minOracles: nat, reward: int, oracles: seq<Address>)
    ensures var r := CreateFeed(n, id, heartbeat, minOracles, reward, oracles);
      && (r.Ok? <==> 1 <= |oracles| <= 16 && id !in n.feeds)
      && (r.Ok? ==>
            && id in r.value.feeds && r.value == n.(feeds := n.feeds[id := r.value.feeds[id]])
            && var f := r.value.feeds[id];
              && f.oracles == oracles && f.reports == [] && f.latest == Latest(0, 0, 0, 0)
              && f.config.heartbeat == (if heartbeat == 0 then 60 else heartbeat)
              && f.config.minOracles == (if minOracles == 0 then 1 else minOracles)
              && f.config.reward == reward)
  {
  }

  lemma UpdateExactly(n: Network, id: FeedId, oracles: seq<Address>)
    ensures var r := UpdateOracles(n, id, oracles);
      && (r.Ok? <==> 1 <= |oracles| <= 16 && id in n.feeds)
      && (r.Ok? ==>
            && id in r.value.feeds && r.value == n.(feeds := n.feeds[id := r.value.feeds[id]])
            && r.value.feeds[id].oracles == oracles
            && r.value.feeds[id] == n.feeds[id].(oracles := r.value.feeds[id].oracles))
  {
  }

  /** A report is taken from each oracle of the feed once a round, and not from too far in the future. */
  lemma SubmitSucceedsIff(n: Network, id: FeedId, value: int, reportedAt: nat, oracle: Address, now: nat)
    ensures Submit(n, id, value, reportedAt, oracle, now).Ok? <==>
      && id in n.feeds && oracle in n.feeds[id].oracles
      && reportedAt <= now + n.feeds[id].config.heartbeat
      && forall r :: r in n.feeds[id].reports ==> r.oracle != oracle
  {
  }

  /** What the report that closes a round publishes: the next number, both times, and the value that more
      than half of the reports do not exceed while no more than half are below it. */
  ghost predicate Published(before: Latest, after: Latest, reports: seq<Report>, reportedAt: nat, now: nat) {
    && after.roundId == before.roundId + 1 && after.timestamp == reportedAt && after.updatedAt == now
    && forall bound: int {:trigger CountAtMost(Values(reports), bound)} ::
      after.value <= bound <==> 2 * CountAtMost(Values(reports), bound) > |reports|
  }

  /** An oracle is owed the reward, if there is one, for being among the reporters, and otherwise no more
      than before. */
  ghost predicate EarnsReward(before: map<Address, int>, after: map<Address, int>, reports: seq<Report>, reward: int,
                              o: Address)
  {
    if (exists r :: r in reports && r.oracle == o) && reward > 0 then Owed(after, o) == Owed(before, o) + reward
    else Owed(after, o) == Owed(before, o)
  }

  /** A report that does not fill its round is only added to it. One that does publishes a value, starts
      the next round and earns every reporter of the round the reward, if there is one. */
  lemma SubmitExactly(n: Network, id: FeedId, value: int, reportedAt: nat, oracle: Address, now: nat)
    requires NetworkOk(n) && Submit(n, id, value, reportedAt, oracle, now).Ok?
    ensures id in n.feeds
    ensures var m, f := Submit(n, id, value, reportedAt, oracle, now).value, n.feeds[id];
      && id in m.feeds
      && var g, reports := m.feeds[id], f.reports + [Report(oracle, value)];
        && m == n.(feeds := n.feeds[id := g], pending := m.pending)
        && g == f.(reports := g.reports, latest := g.latest)
        && (|reports| < f.config.minOracles ==> g.reports == reports && g.latest == f.latest && m.pending == n.pending)
        && (|reports| >= f.config.minOracles ==>
              && g.reports == [] && Published(f.latest, g.latest, reports, reportedAt, now)
              && forall o: Address :: EarnsReward(n.pending, m.pending, reports, f.config.reward, o))
  {
    var f := n.feeds[id];
    var reports := f.reports + [Report(oracle, value)];
    if |reports| >= f.config.minOracles {
      RoundIsDistinct(f, oracle, value);
      forall o: Address
        ensures EarnsReward(n.pending, CreditAll(n.pending, reports, f.config.reward), reports, f.config.reward, o)
      {
        CreditsEachReporterOnce(n.pending, reports, f.config, o);
        ReportedByOracle(reports, o);
      }
      PublishedIsMiddle(f, reports, reportedAt, now);
    }
  }

  lemma RoundIsDistinct(f: Feed, oracle: Address, value: int)
    requires FeedOk(f) && !Reported(f.reports, oracle)
    ensures DistinctOracles(f.reports + [Report(oracle, value)])
  {
  }

  lemma ReportedByOracle(reports: seq<Report>, o: Address)
    ensures Reported(reports, o) <==> exists r :: r in reports && r.oracle == o
  {
    if r :| r in reports && r.oracle == o {
      var i :| 0 <= i < |reports| && reports[i] == r;
    }
  }

  lemma PublishedIsMiddle(f: Feed, reports: seq<Report>, reportedAt: nat, now: nat)
    requires reports != []
    ensures Published(f.latest, Closed(f, reports, reportedAt, now).latest, reports, reportedAt, now)
  {
    forall bound: int
      ensures Median.Median(Values(reports)) <= bound <==> 2 * CountAtMost(Values(reports), bound) > |reports|
    {
      MedianCounts(Values(reports), bound);
    }
  }

  /** A claim pays exactly what is owed to the oracle and leaves what is owed to others; with nothing owed
      it changes nothing, and otherwise it needs the reward token. */
  lemma ClaimExactly(n: Network, oracle: Address)
    requires NetworkOk(n)
    ensures var r := Claim(n, oracle);
      && (r.Ok? <==> Owed(n.pending, oracle) == 0 || n.tokenSet)
      && (r.Ok? ==>
            && r.value.paid - n.paid == Owed(n.pending, oracle)
            && r.value == n.(pending := r.value.pending, paid := r.value.paid)
            && forall o: Address :: Owed(r.value.pending, o) == if o == oracle then 0 else Owed(n.pending, o))
  {
  }
}
