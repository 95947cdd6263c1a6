/** The circuit breaker and node failover of backend/src/stellar/rpc-fallback.service.ts, for calls
    that run one after another. */
module RpcFallback {
  import opened Outcomes

  datatype Breaker = Closed | Open | HalfOpen

  datatype Node = Node(priority: nat, healthy: bool, failures: nat)

  datatype Error = BreakerOpen | NoHealthyNodes | OperationFailed

  datatype Settings = Settings(failureThreshold: int, recoveryTimeout: int)

  /** What the outside world answers: the clock when the k-th try starts and when it goes wrong,
      whether a node would respond at the k-th try, and whether the k-th operation succeeds. */
  datatype World = World(started: nat -> int, failed: nat -> int, responds: (nat, nat) -> bool,
                         operates: nat -> bool)

  datatype Service = Service(nodes: seq<Node>, current: nat, breaker: Breaker, lastFailure: int, totalFailures: nat)

  // ----- Choosing a node

  /** The healthy node of the lowest priority number; the earliest of several. */
  function Best(nodes: seq<Node>): (i: Option<nat>)
    ensures i.Some? ==> i.value < |nodes| && nodes[i.value].healthy
    ensures i.Some? ==> forall k :: 0 <= k < |nodes| && nodes[k].healthy ==>
      nodes[i.value].priority < nodes[k].priority || (nodes[i.value].priority == nodes[k].priority && i.value <= k)
    ensures i.None? ==> forall k :: 0 <= k < |nodes| ==> !nodes[k].healthy
  {
    if nodes == [] then None
    else
      var n := |nodes| - 1;
      var best := Best(nodes[..n]);
      if nodes[n].healthy && (best.None? || nodes[n].priority < nodes[best.value].priority) then Some(n) else best
  }

  function SelectFrom(nodes: seq<Node>, current: nat): (i: Option<nat>)
    ensures i.Some? ==> i.value < |nodes| && nodes[i.value].healthy
    ensures i.None? ==> forall k :: 0 <= k < |nodes| ==> !nodes[k].healthy
  {
    if current < |nodes| && nodes[current].healthy then Some(current) else Best(nodes)
  }

  function Select(s: Service): (i: Option<nat>)
    ensures i.Some? ==> i.value < |s.nodes| && s.nodes[i.value].healthy
    ensures i.None? ==> forall k :: 0 <= k < |s.nodes| ==> !s.nodes[k].healthy
  {
    SelectFrom(s.nodes, s.current)
  }

  // ----- One call, as a function

  function Trip(s: Service, now: int): Service {
    s.(breaker := Open, lastFailure := now)
  }

  function Fail(s: Service, c: Settings, i: nat, now: int): Service
    requires i < |s.nodes|
  {
    var node := s.nodes[i].(healthy := false, failures := s.nodes[i].failures + 1);
    var t := s.(nodes := s.nodes[i := node], totalFailures := s.totalFailures + 1);
    if t.totalFailures >= c.failureThreshold then Trip(t, now) else t
  }

  function Connected(s: Service, i: nat): Service
    requires i < |s.nodes|
  {
    s.(nodes := s.nodes[i := s.nodes[i].(healthy := true, failures := 0)],
       breaker := if s.breaker == HalfOpen then Closed else s.breaker)
  }

  function HealthyCount(nodes: seq<Node>): (n: nat)
    ensures n <= |nodes|
  {
    if nodes == [] then 0
    else HealthyCount(nodes[..|nodes| - 1]) + if nodes[|nodes| - 1].healthy then 1 else 0
  }

  lemma {:induction false} CountUpdate(nodes: seq<Node>, i: nat, node: Node)
    requires i < |nodes|
    ensures HealthyCount(nodes[i := node])
      == HealthyCount(nodes) - (if nodes[i].healthy then 1 else 0) + if node.healthy then 1 else 0
    decreases |nodes|
  {
    var n := |nodes| - 1;
    if i < n {
      CountUpdate(nodes[..n], i, node);
      assert nodes[i := node][..n] == nodes[..n][i := node];
    } else {
      assert nodes[i := node][..n] == nodes[..n];
    }
  }

  /** After the time-out an open breaker lets one call probe the nodes. */
  function Probing(s: Service, c: Settings, now: int): Service {
    if s.breaker == Open && now - s.lastFailure > c.recoveryTimeout then s.(breaker := HalfOpen) else s
  }

  datatype Served = Served(service: Service, result: Result<nat, Error>, tries: nat)

  /** The whole recursive search for a node that responds, from try number k on. */
  function Serve(s: Service, c: Settings, w: World, k: nat): (r: Served)
    decreases HealthyCount(s.nodes)
  {
    var p := Probing(s, c, w.started(k));
    if p.breaker == Open then Served(p, Err(BreakerOpen), k + 1)
    else if Select(p).None? then Served(Trip(p, w.failed(k)), Err(NoHealthyNodes), k + 1)
    else
      var i := Select(p).value;
      var q := p.(current := i);
      if w.responds(i, k) then Served(Connected(q, i), Ok(i), k + 1)
      else
        CountUpdate(q.nodes, i, q.nodes[i].(healthy := false, failures := q.nodes[i].failures + 1));
        Serve(Fail(q, c, i, w.failed(k)), c, w, k + 1)
  }

  /** The k-th try fails on some node, and the search goes on. */
  predicate Retries(s: Service, c: Settings, w: World, k: nat) {
    var p := Probing(s, c, w.started(k));
    p.breaker != Open && Select(p).Some? && !w.responds(Select(p).value, k)
  }

  function AfterFailure(s: Service, c: Settings, w: World, k: nat): Service
    requires Retries(s, c, w, k)
  {
    var p := Probing(s, c, w.started(k));
    var i := Select(p).value;
    Fail(p.(current := i), c, i, w.failed(k))
  }

  lemma ServeAfterFailure(s: Service, c: Settings, w: World, k: nat)
    requires Retries(s, c, w, k)
    ensures Serve(s, c, w, k) == Serve(AfterFailure(s, c, w, k), c, w, k + 1)
    ensures HealthyCount(AfterFailure(s, c, w, k).nodes) == HealthyCount(s.nodes) - 1
  {
    var p := Probing(s, c, w.started(k));
    var i := Select(p).value;
    CountUpdate(p.nodes, i, p.nodes[i].(healthy := false, failures := p.nodes[i].failures + 1));
  }

  function MoveOn(s: Service): Service {
    if s.nodes == [] then s else s.(current := (s.current + 1) % |s.nodes|)
  }

  /** The retry loop around an operation: at most `attempts` calls of Serve. */
  function Execute(s: Service, c: Settings, w: World, k: nat, attempts: nat, last: Error): Served
    decreases attempts
  {
    if attempts == 0 then Served(s, Err(last), k)
    else
      var r := Serve(s, c, w, k);
      if r.result.Ok? && w.operates(r.tries) then r
      else
        Execute(MoveOn(r.service), c, w, r.tries, attempts - 1,
                if r.result.Ok? then OperationFailed else r.result.error)
  }

  // ----- The service object

  class RpcFallbackService {
    const config: Settings
    var rpcNodes: seq<Node>
    var currentNodeIndex: nat
    var circuitBreakerState: Breaker
    var lastFailureTime: int
    var totalFailures: nat

    constructor (config: Settings, backups: nat)
      ensures this.config == config
      ensures State() == Service(seq(backups + 1, i requires 0 <= i => Node(i + 1, true, 0)), 0, Closed, 0, 0)
    {
      this.config := config;
      rpcNodes := seq(backups + 1, i requires 0 <= i => Node(i + 1, true, 0));
      currentNodeIndex, circuitBreakerState, lastFailureTime, totalFailures := 0, Closed, 0, 0;
    }

    function State(): Service
      reads this
    {
      Service(rpcNodes, currentNodeIndex, circuitBreakerState, lastFailureTime, totalFailures)
    }

    method GetRpcServer(w: World, k: nat) returns (r: Result<nat, Error>, tries: nat)
      modifies this
      ensures Served(State(), r, tries) == Serve(old(State()), config, w, k)
      decreases HealthyCount(rpcNodes)
    {
      if circuitBreakerState == Open {
        if w.started(k) - lastFailureTime > config.recoveryTimeout {
          circuitBreakerState := HalfOpen;
        } else {
          return Err(BreakerOpen), k + 1;
        }
      }
      var node := SelectHealthyNode();
      if node.None? {
        TriggerCircuitBreaker(w.failed(k));
        return Err(NoHealthyNodes), k + 1;
      }
      var i := node.value;
      if w.responds(i, k) {
        rpcNodes := rpcNodes[i := rpcNodes[i].(healthy := true, failures := 0)];
        if circuitBreakerState == HalfOpen {
          circuitBreakerState := Closed;
        }
        return Ok(i), k + 1;
      }
      ServeAfterFailure(old(State()), config, w, k);
      HandleNodeFailure(i, w.failed(k));
      assert State() == AfterFailure(old(State()), config, w, k);
      r, tries := GetRpcServer(w, k + 1);
    }

    method SelectHealthyNode() returns (node: Option<nat>)
      modifies this`currentNodeIndex
      ensures node == Select(old(State()))
      ensures currentNodeIndex == if node.Some? then node.value else old(currentNodeIndex)
    {
      if currentNodeIndex < |rpcNodes| && rpcNodes[currentNodeIndex].healthy {
        return Some(currentNodeIndex);
      }
      node := None;
      for i := 0 to |rpcNodes|
        invariant node == Best(rpcNodes[..i])
      {
        assert rpcNodes[..i + 1][..i] == rpcNodes[..i];
        if rpcNodes[i].healthy && (node.None? || rpcNodes[i].priority < rpcNodes[node.value].priority) {
          node := Some(i);
        }
      }
      assert rpcNodes[..|rpcNodes|] == rpcNodes;
      if node.Some? {
        currentNodeIndex := node.value;
      }
    }

    method HandleNodeFailure(i: nat, now: int)
      requires i < |rpcNodes|
      modifies this
      ensures State() == Fail(old(State()), config, i, now)
    {
      rpcNodes := rpcNodes[i := rpcNodes[i].(healthy := false, failures := rpcNodes[i].failures + 1)];
      totalFailures := totalFailures + 1;
      if totalFailures >= config.failureThreshold {
        TriggerCircuitBreaker(now);
      }
    }

    method TriggerCircuitBreaker(now: int)
      modifies this`circuitBreakerState, this`lastFailureTime
      ensures State() == Trip(old(State()), now)
    {
      circuitBreakerState := Open;
      lastFailureTime := now;
    }

    method MoveToNextNode()
      modifies this`currentNodeIndex
      ensures State() == MoveOn(old(State()))
    {
      if |rpcNodes| > 0 {
        currentNodeIndex := (currentNodeIndex + 1) % |rpcNodes|;
      }
    }

    method ExecuteRpcOperation(w: World, k: nat) returns (r: Result<nat, Error>, tries: nat)
      requires |rpcNodes| > 0
      modifies this
      ensures Served(State(), r, tries) == Execute(old(State()), config, w, k, |old(rpcNodes)|, OperationFailed)
    {
      var last := OperationFailed;
      tries := k;
      var attempt := 0;
      ghost var n := |rpcNodes|;
      ghost var goal := Execute(State(), config, w, k, n, OperationFailed);
      while attempt < |rpcNodes|
        invariant attempt <= |rpcNodes| == n
        invariant goal == Execute(State(), config, w, tries, n - attempt, last)
        decreases n - attempt
      {
        var served;
        served, tries, last := TryOnce(w, tries, n - attempt, last);
        if served.Ok? {
          return served, tries;
        }
        attempt := attempt + 1;
      }
      return Err(last), tries;
    }

    /** The body of the retry loop: one call for a node and one operation on it. */
    method TryOnce(w: World, k: nat, ghost attempts: nat, last: Error)
      returns (done: Result<nat, Error>, tries: nat, error: Error)
      requires attempts > 0
      modifies this
      ensures |rpcNodes| == |old(rpcNodes)|
      ensures var spec := Execute(old(State()), config, w, k, attempts, last);
        if done.Ok? then Served(State(), done, tries) == spec
        else Execute(State(), config, w, tries, attempts - 1, error) == spec
    {
      NodeCountStays(State(), config, w, k);
      var served;
      served, tries := GetRpcServer(w, k);
      if served.Ok? && w.operates(tries) {
        return served, tries, last;
      }
      error := if served.Ok? then OperationFailed else served.error;
      MoveToNextNode();
      return Err(error), tries, error;
    }

    method ResetCircuitBreaker()
      modifies this
      ensures State() == old(State()).(breaker := Closed, totalFailures := 0, lastFailure := 0)
    {
      circuitBreakerState, totalFailures, lastFailureTime := Closed, 0, 0;
    }
  }

  lemma {:induction false} NodeCountStays(s: Service, c: Settings, w: World, k: nat)
    ensures |Serve(s, c, w, k).service.nodes| == |s.nodes|
    decreases HealthyCount(s.nodes)
  {
    var p := Probing(s, c, w.started(k));
    if p.breaker != Open && Select(p).Some? && !w.responds(Select(p).value, k) {
      var i := Select(p).value;
      var q := p.(current := i);
      CountUpdate(q.nodes, i, q.nodes[i].(healthy := false, failures := q.nodes[i].failures + 1));
      NodeCountStays(Fail(q, c, i, w.failed(k)), c, w, k + 1);
    }
  }
}

/** What sequential calls may rely on. */
module RpcFallbackProofs {
  import opened Outcomes
  import opened RpcFallback

  ghost predicate InRange(s: Service) {
    s.current < |s.nodes|
  }

  /** Between calls: an index in range, and a breaker that is closed or open. */
  ghost predicate Settled(s: Service) {
    InRange(s) && s.breaker != HalfOpen
  }

  /** A failed try takes one node out of the search and counts once. */
  lemma RetryStep(s: Service, c: Settings, w: World, k: nat)
    requires InRange(s) && Retries(s, c, w, k)
    ensures var t := AfterFailure(s, c, w, k);
      && Serve(s, c, w, k) == Serve(t, c, w, k + 1)
      && InRange(t) && |t.nodes| == |s.nodes|
      && HealthyCount(t.nodes) == HealthyCount(s.nodes) - 1
      && t.totalFailures == s.totalFailures + 1
      && forall j :: 0 <= j < |t.nodes| ==>
        t.nodes[j].priority == s.nodes[j].priority && (t.nodes[j].healthy ==> s.nodes[j].healthy)
  {
    ServeAfterFailure(s, c, w, k);
  }

  /** How a call for a node may end: with the breaker closed and a node that has just responded and
      is now current, or with the breaker open. */
  ghost predicate Answered(s: Service, w: World, k: nat, r: Served) {
    && |r.service.nodes| == |s.nodes| && Settled(r.service) && k < r.tries
    && if r.result.Ok? then
         && r.service.breaker == Closed && r.result.value == r.service.current
         && r.service.nodes[r.service.current] == Node(s.nodes[r.service.current].priority, true, 0)
         && w.responds(r.result.value, r.tries - 1)
       else r.service.breaker == Open
  }

  /** A call for a node returns with the breaker closed and a node that responded and is now current,
      or throws with the breaker open. */
  lemma {:induction false} ServeSettles(s: Service, c: Settings, w: World, k: nat)
    requires InRange(s)
    ensures Answered(s, w, k, Serve(s, c, w, k))
    decreases HealthyCount(s.nodes)
  {
    if Retries(s, c, w, k) {
      RetryStep(s, c, w, k);
      ServeSettles(AfterFailure(s, c, w, k), c, w, k + 1);
      AnsweredLater(s, AfterFailure(s, c, w, k), w, k, Serve(s, c, w, k));
    } else {
      LastTry(s, c, w, k);
    }
  }

  lemma LastTry(s: Service, c: Settings, w: World, k: nat)
    requires InRange(s) && !Retries(s, c, w, k)
    ensures Answered(s, w, k, Serve(s, c, w, k))
  {
  }

  lemma AnsweredLater(s: Service, t: Service, w: World, k: nat, r: Served)
    requires |t.nodes| == |s.nodes| && Answered(t, w, k + 1, r)
    requires forall j :: 0 <= j < |t.nodes| ==> t.nodes[j].priority == s.nodes[j].priority
    ensures Answered(s, w, k, r)
  {
  }

  /** No node gains health in the search, so the one that is returned was healthy before. */
  lemma {:induction false} ServeKeepsHealth(s: Service, c: Settings, w: World, k: nat)
    requires InRange(s)
    ensures var t := Serve(s, c, w, k).service;
      |t.nodes| == |s.nodes| && forall i :: 0 <= i < |t.nodes| && t.nodes[i].healthy ==> s.nodes[i].healthy
    decreases HealthyCount(s.nodes)
  {
    if Retries(s, c, w, k) {
      RetryStep(s, c, w, k);
      ServeKeepsHealth(AfterFailure(s, c, w, k), c, w, k + 1);
    }
  }

  /** Every try but the last gives up on one node, which then counts once as a failure. */
  lemma {:induction false} ServeCounts(s: Service, c: Settings, w: World, k: nat)
    requires InRange(s)
    ensures var r := Serve(s, c, w, k);
      && r.service.totalFailures - s.totalFailures == r.tries - k - 1
      && HealthyCount(s.nodes) - HealthyCount(r.service.nodes) == r.tries - k - 1
      && (r.result == Err(NoHealthyNodes) ==> HealthyCount(r.service.nodes) == 0)
    decreases HealthyCount(s.nodes)
  {
    var p := Probing(s, c, w.started(k));
    if Retries(s, c, w, k) {
      RetryStep(s, c, w, k);
      ServeCounts(AfterFailure(s, c, w, k), c, w, k + 1);
    } else if Select(p).None? {
      NoneHealthy(p.nodes);
    } else {
      var i := Select(p).value;
      CountUpdate(p.nodes, i, p.nodes[i].(healthy := true, failures := 0));
    }
  }

  /** When no node is left, the breaker opens at the time of the last try. */
  ghost predicate TripsAtLast(w: World, k: nat, r: Served) {
    && k < r.tries
    && (r.result == Err(NoHealthyNodes) ==> r.service.breaker == Open && r.service.lastFailure == w.failed(r.tries - 1))
  }

  lemma {:induction false} LastNodeTrips(s: Service, c: Settings, w: World, k: nat)
    requires InRange(s)
    ensures TripsAtLast(w, k, Serve(s, c, w, k))
    decreases HealthyCount(s.nodes)
  {
    if Retries(s, c, w, k) {
      RetryStep(s, c, w, k);
      LastNodeTrips(AfterFailure(s, c, w, k), c, w, k + 1);
    } else {
      LastTryTrips(s, c, w, k);
    }
  }

  lemma LastTryTrips(s: Service, c: Settings, w: World, k: nat)
    requires InRange(s) && !Retries(s, c, w, k)
    ensures TripsAtLast(w, k, Serve(s, c, w, k))
  {
  }

  lemma {:induction false} NoneHealthy(nodes: seq<Node>)
    requires forall i :: 0 <= i < |nodes| ==> !nodes[i].healthy
    ensures HealthyCount(nodes) == 0
    decreases |nodes|
  {
    if nodes != [] {
      NoneHealthy(nodes[..|nodes| - 1]);
    }
  }

  /** A call for a node makes at most one try per healthy node, and one more to find that none is left. */
  lemma SearchIsBounded(s: Service, c: Settings, w: World, k: nat)
    requires InRange(s)
    ensures Serve(s, c, w, k).tries <= k + HealthyCount(s.nodes) + 1
  {
    ServeCounts(s, c, w, k);
  }

  // ----- Which node a call finds

  /** The nodes in the order in which a call tries them. */
  function TryOrder(nodes: seq<Node>, current: nat): (order: seq<nat>)
    ensures |order| == HealthyCount(nodes)
    decreases HealthyCount(nodes)
  {
    var i := SelectFrom(nodes, current);
    if i.None? then
      NoneHealthy(nodes);
      []
    else
      CountUpdate(nodes, i.value, Down(nodes[i.value]));
      SomeHealthy(nodes, i.value);
      [i.value] + TryOrder(nodes[i.value := Down(nodes[i.value])], i.value)
  }

  function Down(node: Node): Node {
    node.(healthy := false, failures := node.failures + 1)
  }

  lemma {:induction false} SomeHealthy(nodes: seq<Node>, i: nat)
    requires i < |nodes| && nodes[i].healthy
    ensures HealthyCount(nodes) > 0
    decreases |nodes|
  {
    if i < |nodes| - 1 {
      SomeHealthy(nodes[..|nodes| - 1], i);
    }
  }

  /** Node i comes before node j by priority, and by position where that is equal. */
  predicate Precedes(nodes: seq<Node>, i: nat, j: nat)
    requires i < |nodes| && j < |nodes|
  {
    nodes[i].priority < nodes[j].priority || (nodes[i].priority == nodes[j].priority && i < j)
  }

  ghost predicate ByPriority(nodes: seq<Node>, order: seq<nat>) {
    && (forall a :: 0 <= a < |order| ==> order[a] < |nodes|)
    && forall a, b :: 0 <= a < b < |order| ==> Precedes(nodes, order[a], order[b])
  }

  /** A call tries exactly the healthy nodes, each once: the current one first if it is healthy, and
      the others in the order of priority. */
  lemma {:induction false} TryOrderIsRight(nodes: seq<Node>, current: nat)
    ensures var order := TryOrder(nodes, current);
      && (forall i: nat :: i in order <==> i < |nodes| && nodes[i].healthy)
      && (if current < |nodes| && nodes[current].healthy then
            order[0] == current && ByPriority(nodes, order[1..]) && current !in order[1..]
          else ByPriority(nodes, order))
    decreases HealthyCount(nodes)
  {
    var i := SelectFrom(nodes, current);
    if i.Some? {
      var down := nodes[i.value := Down(nodes[i.value])];
      CountUpdate(nodes, i.value, Down(nodes[i.value]));
      TryOrderIsRight(down, i.value);
      var rest := TryOrder(down, i.value);
      assert TryOrder(nodes, current) == [i.value] + rest;
      assert ([i.value] + rest)[1..] == rest;
      SameOrder(nodes, down, rest);
      if i != Some(current) {
        HeadFirst(nodes, i.value, rest);
      }
    }
  }

  /** The best of the healthy nodes goes before the others. */
  lemma HeadFirst(nodes: seq<Node>, i: nat, rest: seq<nat>)
    requires Best(nodes) == Some(i) && ByPriority(nodes, rest) && i !in rest
    requires forall k: nat :: k in rest ==> k < |nodes| && nodes[k].healthy
    ensures ByPriority(nodes, [i] + rest)
  {
    forall b | 0 <= b < |rest|
      ensures rest[b] < |nodes| && Precedes(nodes, i, rest[b])
    {
      assert rest[b] in rest;
      BestPrecedes(nodes, i, rest[b]);
    }
    PriorityPrepended(nodes, i, rest);
  }

  lemma BestPrecedes(nodes: seq<Node>, i: nat, k: nat)
    requires Best(nodes) == Some(i) && k < |nodes| && nodes[k].healthy && k != i
    ensures Precedes(nodes, i, k)
  {
  }

  lemma PriorityPrepended(nodes: seq<Node>, i: nat, rest: seq<nat>)
    requires i < |nodes| && ByPriority(nodes, rest)
    requires forall b :: 0 <= b < |rest| ==> Precedes(nodes, i, rest[b])
    ensures ByPriority(nodes, [i] + rest)
  {
  }

  lemma SameOrder(nodes: seq<Node>, down: seq<Node>, order: seq<nat>)
    requires |down| == |nodes| && ByPriority(down, order)
    requires forall i :: 0 <= i < |nodes| ==> down[i].priority == nodes[i].priority
    ensures ByPriority(nodes, order)
  {
  }

  /** The breaker lets a call go on to try k + 1, with so many failures up to try k: the threshold is
      not reached, or the recovery time-out has run out since it was. */
  predicate GoesOn(c: Settings, w: World, k: nat, total: int) {
    total < c.failureThreshold || w.started(k + 1) - w.failed(k) > c.recoveryTimeout
  }

  /** The node at place i of the order does not respond, and the breaker lets the call go on. */
  predicate Passed(c: Settings, w: World, k: nat, order: seq<nat>, total: int, i: nat)
    requires i < |order|
  {
    !w.responds(order[i], k + i) && GoesOn(c, w, k + i, total + i + 1)
  }

  /** The node at place j of the order is the first to respond, and the breaker lets the call get
      that far. */
  ghost predicate FoundAt(c: Settings, w: World, k: nat, order: seq<nat>, total: int, j: nat) {
    && j < |order| && w.responds(order[j], k + j)
    && forall i: nat :: i < j ==> Passed(c, w, k, order, total, i)
  }

  ghost predicate Found(c: Settings, w: World, k: nat, order: seq<nat>, total: int) {
    exists j: nat :: FoundAt(c, w, k, order, total, j)
  }

  lemma FoundLater(c: Settings, w: World, k: nat, order: seq<nat>, total: int, j: nat)
    requires order != [] && !w.responds(order[0], k)
    ensures FoundAt(c, w, k, order, total, j + 1)
      <==> GoesOn(c, w, k, total + 1) && FoundAt(c, w, k + 1, order[1..], total + 1, j)
  {
    var next, rest, failures := k + 1, order[1..], total + 1;
    if FoundAt(c, w, k, order, total, j + 1) {
      assert Passed(c, w, k, order, total, 0);
      forall i: nat | i < j
        ensures Passed(c, w, next, rest, failures, i)
      {
        assert Passed(c, w, k, order, total, i + 1);
      }
    }
    if GoesOn(c, w, k, total + 1) && FoundAt(c, w, next, rest, failures, j) {
      forall i: nat | i < j + 1
        ensures Passed(c, w, k, order, total, i)
      {
        assert i > 0 ==> Passed(c, w, next, rest, failures, i - 1);
      }
    }
  }

  /** Whether the breaker lets a call try any node at all. */
  predicate LetsIn(s: Service, c: Settings, w: World, k: nat) {
    s.breaker != Open || w.started(k) - s.lastFailure > c.recoveryTimeout
  }

  /** The result of a search of the nodes in this order, if the breaker lets it in. */
  ghost predicate Finds(letsIn: bool, c: Settings, w: World, k: nat, order: seq<nat>, total: int,
                        r: Result<nat, Error>)
  {
    && (r.Ok? <==> letsIn && Found(c, w, k, order, total))
    && (r.Ok? ==> exists j: nat :: FoundAt(c, w, k, order, total, j) && r.value == order[j])
  }

  /** Failover finds a node exactly when the breaker lets the call in and one of the healthy nodes
      responds before a failure opens the breaker for good; it is then the first in the order that
      does. The failure count is not reset by success, so a service that has failed often enough no
      longer falls back at all. */
  lemma {:induction false} FailoverFindsIff(s: Service, c: Settings, w: World, k: nat)
    requires InRange(s)
    ensures Finds(LetsIn(s, c, w, k), c, w, k, TryOrder(s.nodes, s.current), s.totalFailures, Serve(s, c, w, k).result)
    decreases HealthyCount(s.nodes)
  {
    var order := TryOrder(s.nodes, s.current);
    if Retries(s, c, w, k) {
      RetryStep(s, c, w, k);
      var t := AfterFailure(s, c, w, k);
      FailoverFindsIff(t, c, w, k + 1);
      RestOfOrder(s, c, w, k);
      FindsLater(c, w, k, order, s.totalFailures, Serve(s, c, w, k).result);
    } else {
      FindsAtOnce(s, c, w, k);
    }
  }

  lemma RestOfOrder(s: Service, c: Settings, w: World, k: nat)
    requires InRange(s) && Retries(s, c, w, k)
    ensures var t, order := AfterFailure(s, c, w, k), TryOrder(s.nodes, s.current);
      && order != [] && !w.responds(order[0], k) && order[1..] == TryOrder(t.nodes, t.current)
      && LetsIn(s, c, w, k)
      && LetsIn(t, c, w, k + 1) == GoesOn(c, w, k, s.totalFailures + 1)
  {
    BreakerAfterFailure(s, c, w, k);
  }

  /** After a failed try the breaker lets the search in again exactly when the failures so far allow it. */
  lemma BreakerAfterFailure(s: Service, c: Settings, w: World, k: nat)
    requires InRange(s) && Retries(s, c, w, k)
    ensures LetsIn(s, c, w, k)
    ensures LetsIn(AfterFailure(s, c, w, k), c, w, k + 1) == GoesOn(c, w, k, s.totalFailures + 1)
  {
  }

  lemma FindsAtOnce(s: Service, c: Settings, w: World, k: nat)
    requires InRange(s) && !Retries(s, c, w, k)
    ensures Finds(LetsIn(s, c, w, k), c, w, k, TryOrder(s.nodes, s.current), s.totalFailures, Serve(s, c, w, k).result)
  {
    var order := TryOrder(s.nodes, s.current);
    if LetsIn(s, c, w, k) && order != [] {
      assert FoundAt(c, w, k, order, s.totalFailures, 0);
    }
  }

  lemma FindsLater(c: Settings, w: World, k: nat, order: seq<nat>, total: int, r: Result<nat, Error>)
    requires order != [] && !w.responds(order[0], k)
    requires Finds(GoesOn(c, w, k, total + 1), c, w, k + 1, order[1..], total + 1, r)
    ensures Finds(true, c, w, k, order, total, r)
  {
    ShiftFound(c, w, k, order, total);
    if r.Ok? {
      var j: nat :| FoundAt(c, w, k + 1, order[1..], total + 1, j) && r.value == order[1..][j];
      FoundLater(c, w, k, order, total, j);
    }
  }

  lemma ShiftFound(c: Settings, w: World, k: nat, order: seq<nat>, total: int)
    requires order != [] && !w.responds(order[0], k)
    ensures Found(c, w, k, order, total) <==> GoesOn(c, w, k, total + 1) && Found(c, w, k + 1, order[1..], total + 1)
  {
    if Found(c, w, k, order, total) {
      var j: nat :| FoundAt(c, w, k, order, total, j);
      FoundLater(c, w, k, order, total, j - 1);
    }
    if GoesOn(c, w, k, total + 1) && Found(c, w, k + 1, order[1..], total + 1) {
      var j: nat :| FoundAt(c, w, k + 1, order[1..], total + 1, j);
      FoundLater(c, w, k, order, total, j);
    }
  }

  /** A healthy node that responds whenever it is tried saves the call, as long as the breaker is not
      open and even the failure of all other healthy nodes would not reach the threshold. */
  lemma RespondingNodeIsReached(s: Service, c: Settings, w: World, k: nat, i: nat)
    requires InRange(s) && i < |s.nodes| && s.nodes[i].healthy && forall try: nat :: w.responds(i, try)
    requires s.breaker != Open && s.totalFailures + HealthyCount(s.nodes) <= c.failureThreshold
    ensures Serve(s, c, w, k).result.Ok?
  {
    var order := TryOrder(s.nodes, s.current);
    TryOrderIsRight(s.nodes, s.current);
    assert i in order;
    var p: nat :| p < |order| && order[p] == i;
    var j := FirstToRespond(w, order, k, p);
    assert forall m: nat :: m < j ==> Passed(c, w, k, order, s.totalFailures, m);
    assert FoundAt(c, w, k, order, s.totalFailures, j);
    FailoverFindsIff(s, c, w, k);
  }

  lemma {:induction false} FirstToRespond(w: World, order: seq<nat>, k: nat, p: nat) returns (j: nat)
    requires p < |order| && w.responds(order[p], k + p)
    ensures j <= p && w.responds(order[j], k + j) && forall i: nat :: i < j ==> !w.responds(order[i], k + i)
    decreases p
  {
    if i: nat :| i < p && w.responds(order[i], k + i) {
      j := FirstToRespond(w, order, k, i);
    } else {
      j := p;
    }
  }

  /** A service with two healthy nodes, of which the other would respond, and four failures in its
      lifetime: one more opens the breaker, and the other node is not tried. */
  lemma HealthyNodeLeftUntried()
    ensures var s := Service([Node(1, true, 0), Node(2, true, 0)], 0, Closed, 0, 4);
      var w := World(n => 0, n => 0, (i, n) => i == 1, n => true);
      var r := Serve(s, Settings(5, 60_000), w, 0);
      && r.result == Err(BreakerOpen) && r.service.breaker == Open
      && r.service.nodes == [Node(1, false, 1), Node(2, true, 0)]
  {
  }

  /** The retry loop around an operation leaves the service settled, and gives up only after as many
      calls as there are nodes. */
  lemma {:induction false} ExecuteOutcome(s: Service, c: Settings, w: World, k: nat, attempts: nat, last: Error)
    requires Settled(s)
    ensures var r := Execute(s, c, w, k, attempts, last);
      && |r.service.nodes| == |s.nodes| && Settled(r.service)
      && (r.result.Ok? ==> w.operates(r.tries) && r.service.breaker == Closed)
      && (r.result.Err? ==> k + attempts <= r.tries)
    decreases attempts
  {
    if attempts > 0 {
      ServeSettles(s, c, w, k);
      var r := Serve(s, c, w, k);
      if !(r.result.Ok? && w.operates(r.tries)) {
        ExecuteOutcome(MoveOn(r.service), c, w, r.tries, attempts - 1,
                       if r.result.Ok? then OperationFailed else r.result.error);
      }
    }
  }

  /** What a call leaves of the nodes: the first n of its order are marked down and count a failure more;
      the one found, if any, is the next of the order and is up with its count cleared; the others stay
      as they are. */
  ghost predicate NodesAfter(before: seq<Node>, after: seq<Node>, order: seq<nat>, n: int, r: Result<nat, Error>) {
    && |after| == |before| && 0 <= n <= |order|
    && (r.Ok? ==> n < |order| && r.value == order[n])
    && forall i :: 0 <= i < |before| ==> NodeAfter(before[i], after[i], i in order[..n], r == Ok(i))
  }

  predicate NodeAfter(before: Node, after: Node, failed: bool, found: bool) {
    if failed then after == Node(before.priority, false, before.failures + 1)
    else if found then after == Node(before.priority, true, 0)
    else after == before
  }

  /** A call gives up on one node of its order for each try but the last. */
  lemma {:induction false} ServeLeavesNodes(s: Service, c: Settings, w: World, k: nat)
    requires InRange(s)
    ensures var r := Serve(s, c, w, k);
      NodesAfter(s.nodes, r.service.nodes, TryOrder(s.nodes, s.current), r.tries - k - 1, r.result)
    decreases HealthyCount(s.nodes)
  {
    var r := Serve(s, c, w, k);
    if Retries(s, c, w, k) {
      RetryStep(s, c, w, k);
      var t := AfterFailure(s, c, w, k);
      ServeLeavesNodes(t, c, w, k + 1);
      NodesLater(s, c, w, k, r);
    } else {
      LastNode(s, c, w, k);
    }
  }

  lemma NodesLater(s: Service, c: Settings, w: World, k: nat, r: Served)
    requires InRange(s) && Retries(s, c, w, k)
    requires var t := AfterFailure(s, c, w, k);
      NodesAfter(t.nodes, r.service.nodes, TryOrder(t.nodes, t.current), r.tries - k - 2, r.result)
    ensures NodesAfter(s.nodes, r.service.nodes, TryOrder(s.nodes, s.current), r.tries - k - 1, r.result)
  {
    var t := AfterFailure(s, c, w, k);
    FirstIsGivenUp(s, c, w, k);
    NodesPrepended(s.nodes, t.nodes, r.service.nodes, TryOrder(s.nodes, s.current), TryOrder(t.nodes, t.current),
                   r.tries - k - 1, r.result);
  }

  lemma LastNode(s: Service, c: Settings, w: World, k: nat)
    requires InRange(s) && !Retries(s, c, w, k)
    ensures var r := Serve(s, c, w, k);
      NodesAfter(s.nodes, r.service.nodes, TryOrder(s.nodes, s.current), r.tries - k - 1, r.result)
  {
  }

  /** The node a try fails on goes first in the order, and the others follow as they would without it. */
  ghost predicate GivenUp(before: seq<Node>, mid: seq<Node>, order: seq<nat>, rest: seq<nat>) {
    && order != [] && order[1..] == rest && order[0] < |before| == |mid| && order[0] !in rest
    && NodeAfter(before[order[0]], mid[order[0]], true, false)
    && forall j :: 0 <= j < |before| && j != order[0] ==> mid[j] == before[j]
  }

  lemma FirstIsGivenUp(s: Service, c: Settings, w: World, k: nat)
    requires InRange(s) && Retries(s, c, w, k)
    ensures var t := AfterFailure(s, c, w, k);
      GivenUp(s.nodes, t.nodes, TryOrder(s.nodes, s.current), TryOrder(t.nodes, t.current))
  {
    var t := AfterFailure(s, c, w, k);
    FirstIsDown(s, c, w, k);
    RestOfOrder(s, c, w, k);
    TryOrderIsRight(t.nodes, t.current);
  }

  lemma NodesPrepended(before: seq<Node>, mid: seq<Node>, after: seq<Node>, order: seq<nat>, rest: seq<nat>, n: int,
                       r: Result<nat, Error>)
    requires GivenUp(before, mid, order, rest) && NodesAfter(mid, after, rest, n - 1, r)
    ensures NodesAfter(before, after, order, n, r)
  {
    assert order[..n] == [order[0]] + rest[..n - 1];
    assert r.Ok? ==> r.value in rest;
    forall i | 0 <= i < |before|
      ensures NodeAfter(before[i], after[i], i in order[..n], r == Ok(i))
    {
      assert NodeAfter(mid[i], after[i], i in rest[..n - 1], r == Ok(i));
      assert i == order[0] ==> i !in rest[..n - 1];
    }
  }

  lemma FirstIsDown(s: Service, c: Settings, w: World, k: nat)
    requires InRange(s) && Retries(s, c, w, k)
    ensures var t, order := AfterFailure(s, c, w, k), TryOrder(s.nodes, s.current);
      && order != [] && order[0] < |s.nodes| == |t.nodes|
      && t.nodes[order[0]] == Node(s.nodes[order[0]].priority, false, s.nodes[order[0]].failures + 1)
      && forall j :: 0 <= j < |s.nodes| && j != order[0] ==> t.nodes[j] == s.nodes[j]
  {
  }

  // ----- Which nodes an operation is run on

  /** The operation at the i-th attempt, when every call for a node takes one try. */
  predicate Operates(w: World, k: nat, i: nat) {
    w.operates(k + i + 1)
  }

  /** The i-th node after the current one, from the last on to the first. */
  function Onward(s: Service, i: nat): int {
    if s.current + i < |s.nodes| then s.current + i else s.current + i - |s.nodes|
  }

  /** The operation succeeds at one of the first attempts. */
  ghost predicate OperatesWithin(w: World, k: nat, attempts: nat) {
    exists i: nat :: i < attempts && Operates(w, k, i)
  }

  /** How a call ends that runs the operation on one node after the other. */
  ghost predicate GoesRound(s: Service, w: World, k: nat, attempts: nat, r: Served) {
    && (r.result.Ok? <==> OperatesWithin(w, k, attempts))
    && (r.result.Ok? ==>
          var i := r.tries - k - 1;
          && 0 <= i < attempts && Operates(w, k, i) && r.result == Ok(Onward(s, i))
          && forall j: nat :: j < i ==> !Operates(w, k, j))
    && (r.result.Err? && attempts > 0 ==> r.result == Err(OperationFailed) && r.tries == k + attempts)
  }

  /** With all nodes healthy and responding, an operation that fails is run again on the next node, and
      so on through all of them: the call succeeds exactly when the operation does at one of its attempts,
      on the node whose turn it then is. */
  lemma {:induction false} OperationGoesRound(s: Service, c: Settings, w: World, k: nat, attempts: nat, last: Error)
    requires Settled(s) && s.breaker == Closed && attempts <= |s.nodes|
    requires forall i :: 0 <= i < |s.nodes| ==> s.nodes[i].healthy
    requires forall i: nat, try: nat :: w.responds(i, try)
    ensures GoesRound(s, w, k, attempts, Execute(s, c, w, k, attempts, last))
    decreases attempts
  {
    if attempts > 0 {
      var r, next := Serve(s, c, w, k), k + 1;
      assert r == Served(Connected(s, s.current), Ok(s.current), next);
      if !Operates(w, k, 0) {
        var t := MoveOn(r.service);
        OperationGoesRound(t, c, w, next, attempts - 1, OperationFailed);
        RoundPrepended(s, t, w, k, next, attempts, Execute(t, c, w, next, attempts - 1, OperationFailed));
      }
    }
  }

  lemma RoundPrepended(s: Service, t: Service, w: World, k: nat, next: nat, attempts: nat, r: Served)
    requires InRange(s) && |t.nodes| == |s.nodes| && t.current == (s.current + 1) % |s.nodes|
    requires 0 < attempts <= |s.nodes| && next == k + 1 && !Operates(w, k, 0)
    requires GoesRound(t, w, next, attempts - 1, r)
    requires attempts == 1 ==> r.result == Err(OperationFailed) && r.tries == next
    ensures GoesRound(s, w, k, attempts, r)
  {
    NextIsOnward(s, t);
    OneFurther(w, k, next, attempts);
  }

  lemma OneFurther(w: World, k: nat, next: nat, attempts: nat)
    requires !Operates(w, k, 0) && attempts > 0 && next == k + 1
    ensures OperatesWithin(w, k, attempts) <==> OperatesWithin(w, next, attempts - 1)
    ensures forall i: nat :: Operates(w, next, i) ==> Operates(w, k, i + 1)
    ensures forall i: nat :: Operates(w, k, i) ==> i > 0 && Operates(w, next, i - 1)
  {
    if OperatesWithin(w, k, attempts) {
      var i: nat :| i < attempts && Operates(w, k, i);
      assert Operates(w, next, i - 1);
    }
    if OperatesWithin(w, next, attempts - 1) {
      var i: nat :| i < attempts - 1 && Operates(w, next, i);
      assert Operates(w, k, i + 1);
    }
  }

  lemma NextIsOnward(s: Service, t: Service)
    requires InRange(s) && |t.nodes| == |s.nodes| && t.current == (s.current + 1) % |s.nodes|
    ensures forall i: nat :: i < |s.nodes| - 1 ==> Onward(t, i) == Onward(s, i + 1)
  {
    if s.current + 1 == |s.nodes| {
      assert t.current == 0;
    }
  }

  /** The attempts of an operation on any nodes: each starts where the one before left off, but from the
      node after it. */
  ghost predicate Walks(s: Service, c: Settings, w: World, k: nat, starts: seq<Service>, ends: seq<Served>) {
    && 0 < |starts| == |ends| && starts[0] == s && ends[0] == Serve(s, c, w, k)
    && forall i, j :: 0 <= i < j < |starts| && j == i + 1 ==> Follows(c, w, ends[i], starts[j], ends[j])
  }

  predicate Follows(c: Settings, w: World, before: Served, start: Service, end: Served) {
    GivesUp(w, before) && NextNode(before.service, start) && end == Serve(start, c, w, before.tries)
  }

  predicate GivesUp(w: World, r: Served) {
    r.result.Err? || !w.operates(r.tries)
  }

  predicate NextNode(s: Service, t: Service) {
    && t == s.(current := t.current)
    && if s.current + 1 < |s.nodes| then t.current == s.current + 1 else t.current == 0
  }

  /** How the whole call ends after an attempt that ended in z: with it, or after the last one failed with
      its error, and moved on all the same. */
  predicate EndsWith(w: World, z: Served, r: Served) {
    if GivesUp(w, z) then
      && NextNode(z.service, r.service) && r.tries == z.tries
      && r.result == Err(if z.result.Ok? then OperationFailed else z.result.error)
    else
      r == z
  }

  /** An operation is attempted until it succeeds or the attempts are used up. */
  lemma {:induction false} ExecuteWalks(s: Service, c: Settings, w: World, k: nat, attempts: nat, last: Error)
    returns (starts: seq<Service>, ends: seq<Served>)
    requires Settled(s) && attempts > 0
    ensures Walks(s, c, w, k, starts, ends) && |ends| <= attempts
    ensures var z := ends[|ends| - 1];
      && (GivesUp(w, z) ==> |ends| == attempts)
      && EndsWith(w, z, Execute(s, c, w, k, attempts, last))
    decreases attempts
  {
    ServeSettles(s, c, w, k);
    var first := Serve(s, c, w, k);
    starts, ends := [s], [first];
    if GivesUp(w, first) {
      var t := MoveOn(first.service);
      var error := if first.result.Ok? then OperationFailed else first.result.error;
      MovesToNext(first.service);
      if attempts > 1 {
        var starts', ends' := ExecuteWalks(t, c, w, first.tries, attempts - 1, error);
        starts, ends := [s] + starts', [first] + ends';
        WalksPrepended(s, c, w, k, t, first, starts', ends');
      }
    }
  }

  lemma WalksPrepended(s: Service, c: Settings, w: World, k: nat, t: Service, first: Served, starts: seq<Service>,
                       ends: seq<Served>)
    requires first == Serve(s, c, w, k) && GivesUp(w, first) && NextNode(first.service, t)
    requires Walks(t, c, w, first.tries, starts, ends)
    ensures Walks(s, c, w, k, [s] + starts, [first] + ends)
  {
    var starts', ends' := [s] + starts, [first] + ends;
    forall i, j | 0 <= i < j < |starts'| && j == i + 1
      ensures Follows(c, w, ends'[i], starts'[j], ends'[j])
    {
      if i > 0 {
        assert Follows(c, w, ends[i - 1], starts[j - 1], ends[j - 1]);
      }
    }
  }

  lemma MovesToNext(s: Service)
    requires InRange(s)
    ensures NextNode(s, MoveOn(s))
  {
  }

  // ----- Every run

  datatype Call =
    | GetServer(w: World)
    | RunOperation(w: World)
    | HealthCheck(passed: seq<bool>)
    | ForceSwitch(i: nat)
    | Reset

  function Checked(nodes: seq<Node>, passed: seq<bool>): (r: seq<Node>)
    ensures |r| == |nodes|
  {
    seq(|nodes|, i requires 0 <= i < |nodes| =>
      if i < |passed| && passed[i] then nodes[i].(healthy := true, failures := 0)
      else nodes[i].(healthy := false, failures := nodes[i].failures + 1))
  }

  function Apply(s: Service, c: Settings, call: Call): Service {
    match call
    case GetServer(w) => Serve(s, c, w, 0).service
    case RunOperation(w) => Execute(s, c, w, 0, |s.nodes|, OperationFailed).service
    case HealthCheck(passed) => s.(nodes := Checked(s.nodes, passed))
    case ForceSwitch(i) => if i < |s.nodes| && s.nodes[i].healthy then s.(current := i) else s
    case Reset => s.(breaker := Closed, totalFailures := 0, lastFailure := 0)
  }

  function After(c: Settings, backups: nat, calls: seq<Call>): Service
    decreases |calls|
  {
    if calls == [] then
      Service(seq(backups + 1, i requires 0 <= i => Node(i + 1, true, 0)), 0, Closed, 0, 0)
    else Apply(After(c, backups, calls[..|calls| - 1]), c, calls[|calls| - 1])
  }

  /** After any sequence of calls the half-open state is gone and the current index is a node. */
  lemma {:induction false} ReachableServicesAreSettled(c: Settings, backups: nat, calls: seq<Call>)
    ensures Settled(After(c, backups, calls)) && |After(c, backups, calls).nodes| == backups + 1
    decreases |calls|
  {
    if calls != [] {
      var n := |calls| - 1;
      ReachableServicesAreSettled(c, backups, calls[..n]);
      var s := After(c, backups, calls[..n]);
      match calls[n]
      case GetServer(w) => ServeSettles(s, c, w, 0);
      case RunOperation(w) => ExecuteOutcome(s, c, w, 0, |s.nodes|, OperationFailed);
      case HealthCheck(_) =>
      case ForceSwitch(_) =>
      case Reset =>
    }
  }

  // ----- What the other calls are for

  /** After a health check a call tries exactly the nodes that passed, whatever they were before; their
      failure counts are cleared and those of the others grow. */
  lemma CheckedNodesAreTried(s: Service, c: Settings, passed: seq<bool>, i: nat)
    requires i < |s.nodes|
    ensures var t, ok := Apply(s, c, HealthCheck(passed)), i < |passed| && passed[i];
      && t == s.(nodes := t.nodes) && |t.nodes| == |s.nodes|
      && (i in TryOrder(t.nodes, t.current) <==> ok)
      && NodeAfter(s.nodes[i], t.nodes[i], !ok, ok)
  {
    var t := Apply(s, c, HealthCheck(passed));
    TryOrderIsRight(t.nodes, t.current);
  }

  /** A switch to a healthy node makes it the first to be tried, with the others after it by priority; a
      switch to another one changes nothing. */
  lemma SwitchedNodeIsTriedFirst(s: Service, c: Settings, i: nat)
    ensures var t := Apply(s, c, ForceSwitch(i));
      if i < |s.nodes| && s.nodes[i].healthy then
        && t == s.(current := i) && TryOrder(t.nodes, t.current) != [] && TryOrder(t.nodes, t.current)[0] == i
        && ByPriority(s.nodes, TryOrder(t.nodes, t.current)[1..])
      else
        t == s
  {
    var t := Apply(s, c, ForceSwitch(i));
    TryOrderIsRight(t.nodes, t.current);
  }

  /** A reset lets the next call in whatever the clock says, and failures are counted from none again: a
      node that is healthy and responds is reached, unless there are more healthy nodes than failures the
      breaker puts up with. */
  lemma ResetStartsAnew(s: Service, c: Settings, w: World, k: nat, i: nat)
    requires InRange(s) && i < |s.nodes| && s.nodes[i].healthy && forall try: nat :: w.responds(i, try)
    requires HealthyCount(s.nodes) <= c.failureThreshold
    ensures var t := Apply(s, c, Reset);
      t.nodes == s.nodes && t.current == s.current && Serve(t, c, w, k).result.Ok?
  {
    RespondingNodeIsReached(Apply(s, c, Reset), c, w, k, i);
  }
}
