/**
 The deadlock detector: a graph of who waits for whom, built from a snapshot of
 the lock table, the checks on policy, deadline and graph, the search for the
 first cycle, and the choice of a victim.
 */
module DeadlockDetection {
  import opened Common
  import opened LockTable
  import opened WaitGraphs
  import opened SearchReadings
  import opened CycleSearch

  datatype DeadlockError = ZeroTransactionId | SelfEdge | InvalidTimeout | ShortCycle | NoStartOrder

  // ---------------------------------------------------------------- the graph of a lock table

  /** A request of `t` in the queue conflicts with what `u` holds. */
  ghost predicate WaitsFor(e: LockEntry, t: Tx, u: Tx)
  {
    exists w :: w in e.waiters && w.tx == t && BlockedBy(e.holders, w, u)
  }

  ghost predicate BlockedBy(holders: seq<LockHolder>, w: LockWaiter, u: Tx)
  {
    exists h :: h in holders && h.tx == u && Blocks(h, w.tx, w.mode)
  }

  ghost predicate HasZeroId(e: LockEntry)
  {
    || Waits(e.waiters, 0)
    || (e.waiters != [] && Holds(e.holders, 0))
  }

  /** Only transactions that wait for somebody are listed. */
  ghost predicate NobodyIsIdle(g: Graph)
  {
    forall t :: t in g ==> g[t] != {}
  }

  function InsertEdge(g: Graph, t: Tx, u: Tx): (r: Graph)
    ensures forall a, b :: Edge(r, a, b) <==> Edge(g, a, b) || (a == t && b == u)
  {
    if t in g then g[t := g[t] + {u}] else g[t := {u}]
  }

  /** The inner loop: the edges of one request. */
  method AddWaiter(g: Graph, w: LockWaiter, holders: seq<LockHolder>) returns (r: Result<Graph, DeadlockError>)
    requires w.tx != 0
    ensures r.Err? <==> Holds(holders, 0)
    ensures r.Ok? ==> forall t, u :: Edge(r.value, t, u) <==> Edge(g, t, u) || (t == w.tx && BlockedBy(holders, w, u))
    ensures r.Ok? && 0 !in Nodes(g) ==> 0 !in Nodes(r.value)
    ensures r.Ok? && NobodyIsIdle(g) ==> NobodyIsIdle(r.value)
  {
    var out := g;
    for i := 0 to |holders|
      invariant !Holds(holders[..i], 0)
      invariant (0 !in Nodes(g) ==> 0 !in Nodes(out)) && (NobodyIsIdle(g) ==> NobodyIsIdle(out))
      invariant forall t, u :: Edge(out, t, u) <==> Edge(g, t, u) || (t == w.tx && BlockedBy(holders[..i], w, u))
    {
      var h := holders[i];
      if h.tx == 0 {
        return Err(ZeroTransactionId);
      }
      assert holders[..i + 1] == holders[..i] + [h];
      if h.tx == w.tx {
        continue;
      }
      if !Compatible(h.mode, w.mode) {
        out := InsertEdge(out, w.tx, h.tx);
      }
    }
    assert holders[..|holders|] == holders;
    return Ok(out);
  }

  /** The middle loop: the edges of one queue. */
  method AddEntry(g: Graph, e: LockEntry) returns (r: Result<Graph, DeadlockError>)
    ensures r.Err? <==> HasZeroId(e)
    ensures r.Ok? ==> forall t, u :: Edge(r.value, t, u) <==> Edge(g, t, u) || WaitsFor(e, t, u)
    ensures r.Ok? && 0 !in Nodes(g) ==> 0 !in Nodes(r.value)
    ensures r.Ok? && NobodyIsIdle(g) ==> NobodyIsIdle(r.value)
  {
    var out := g;
    for i := 0 to |e.waiters|
      invariant (0 !in Nodes(g) ==> 0 !in Nodes(out)) && (NobodyIsIdle(g) ==> NobodyIsIdle(out))
      invariant !Waits(e.waiters[..i], 0)
      invariant i > 0 ==> !Holds(e.holders, 0)
      invariant forall t, u :: Edge(out, t, u) <==>
                Edge(g, t, u) || WaitsFor(LockEntry(e.holders, e.waiters[..i]), t, u)
    {
      var w := e.waiters[i];
      if w.tx == 0 {
        return Err(ZeroTransactionId);
      }
      var next := AddWaiter(out, w, e.holders);
      if next.Err? {
        return Err(ZeroTransactionId);
      }
      assert e.waiters[..i + 1] == e.waiters[..i] + [w];
      out := next.value;
    }
    assert e.waiters[..|e.waiters|] == e.waiters;
    return Ok(out);
  }

  /** Every conflict between a request and a lock of another transaction becomes an edge, and nothing else does. */
  method FromLockTableSnapshot(snapshot: seq<(LockResource, LockEntry)>) returns (r: Result<Graph, DeadlockError>)
    ensures r.Err? <==> exists k :: 0 <= k < |snapshot| && HasZeroId(snapshot[k].1)
    ensures r.Ok? ==> forall t, u :: Edge(r.value, t, u) <==>
              exists k :: 0 <= k < |snapshot| && WaitsFor(snapshot[k].1, t, u)
    ensures r.Ok? ==> ValidGraph(r.value) && NobodyIsIdle(r.value)
  {
    var g: Graph := map[];
    for i := 0 to |snapshot|
      invariant 0 !in Nodes(g) && NobodyIsIdle(g)
      invariant forall k :: 0 <= k < i ==> !HasZeroId(snapshot[k].1)
      invariant forall t, u :: Edge(g, t, u) <==> exists k :: 0 <= k < i && WaitsFor(snapshot[k].1, t, u)
    {
      var next := AddEntry(g, snapshot[i].1);
      if next.Err? {
        return Err(ZeroTransactionId);
      }
      g := next.value;
    }
    return Ok(g);
  }

  // ---------------------------------------------------------------- the detector

  datatype VictimPolicy = YoungestStartOrder | YoungestId | OldestId

  /** Durations are in nanoseconds. */
  datatype Policy = Policy(timeout: nat, victimPolicy: VictimPolicy)

  const MAX_TIMEOUT: nat := 60_000_000_000

  datatype Status = NoDeadlock | Deadlock(victim: Tx, participants: seq<Tx>) | DeadlinePassed | Deferred

  predicate ValidTimeout(timeout: nat)
  {
    0 < timeout <= MAX_TIMEOUT
  }

  /** The member that the policy picks: the greatest start order with the greatest id, or the greatest or least id. */
  ghost predicate IsVictim(policy: VictimPolicy, orders: map<Tx, U64>, d: set<Tx>, v: Tx)
  {
    && v in d
    && match policy
       case YoungestId => forall t :: t in d ==> t <= v
       case OldestId => forall t :: t in d ==> v <= t
       case YoungestStartOrder =>
         d <= orders.Keys && forall t :: t in d ==> orders[t] < orders[v] || (orders[t] == orders[v] && t <= v)
  }

  /** What the choice of a victim demands of a cycle. */
  ghost predicate ValidParticipants(cycle: seq<Tx>)
  {
    |cycle| >= 2 && 0 !in cycle
  }

  /** The members of the cycle in order, and the one that the policy picks. */
  method SelectVictim(policy: VictimPolicy, orders: map<Tx, U64>, cycle: seq<Tx>)
    returns (r: Result<(Tx, seq<Tx>), DeadlockError>)
    ensures r.Err? <==>
              !ValidParticipants(cycle) || (policy.YoungestStartOrder? && !(Members(cycle) <= orders.Keys))
    ensures r.Ok? ==>
              && IsVictim(policy, orders, Members(cycle), r.value.0)
              && Members(r.value.1) == Members(cycle) && Ascends(r.value.1)
  {
    if |cycle| < 2 {
      return Err(ShortCycle);
    }
    if 0 in cycle {
      return Err(ZeroTransactionId);
    }
    var sorted := Ascending(set t | t in cycle);
    assert Members(sorted) == Members(cycle);
    assert cycle[0] in sorted;
    match policy
    case YoungestId =>
      return Ok((sorted[|sorted| - 1], sorted));
    case OldestId =>
      return Ok((sorted[0], sorted));
    case YoungestStartOrder =>
      var youngest := SelectYoungest(orders, sorted);
      if youngest.None? {
        return Err(NoStartOrder);
      }
      return Ok((youngest.value, sorted));
  }

  /** The loop over the members; none if one of them has no start order. */
  method SelectYoungest(orders: map<Tx, U64>, sorted: seq<Tx>) returns (r: Option<Tx>)
    requires sorted != []
    ensures r.None? <==> !(Members(sorted) <= orders.Keys)
    ensures r.Some? ==> IsVictim(YoungestStartOrder, orders, Members(sorted), r.value)
  {
    var selected: Option<Tx> := None;
    for i := 0 to |sorted|
      invariant selected.None? <==> i == 0
      invariant selected.Some? ==> selected.value in sorted
      invariant forall j :: 0 <= j < i ==> Younger(orders, sorted[j], selected.value)
    {
      assert sorted[i] in Members(sorted);
      if sorted[i] !in orders {
        return None;
      }
      if selected.None? || !Younger(orders, sorted[i], selected.value) {
        selected := Some(sorted[i]);
      }
    }
    return selected;
  }

  /** `v` is at least as young as `t`. */
  predicate Younger(orders: map<Tx, U64>, t: Tx, v: Tx)
  {
    t in orders && v in orders && (orders[t] < orders[v] || (orders[t] == orders[v] && t <= v))
  }

  /** The report of the first cycle, or its deferral if the policy needs start orders that are missing. */
  ghost predicate IsReportOf(policy: VictimPolicy, orders: map<Tx, U64>, c: seq<Tx>, status: Status)
  {
    if policy.YoungestStartOrder? && !(Members(c) <= orders.Keys) then status == Deferred
    else
      && status.Deadlock? && Ascends(status.participants) && Members(status.participants) == Members(c)
      && IsVictim(policy, orders, Members(c), status.victim)
  }

  /**
   What the detector answers on a graph that it accepts: the deadline has passed exactly if it
   has at the first reading or at one of those the search takes; otherwise the answer is
   about the first cycle, or there is none.
   */
  ghost predicate IsAnswer(policy: VictimPolicy, g: Graph, orders: map<Tx, U64>, expired: nat -> bool, status: Status)
  {
    && (status.DeadlinePassed? <==> exists k: nat :: k <= Readings(g) && expired(k))
    && (status.NoDeadlock? ==> forall t :: !Cyclic(g, t))
    && (status.Deferred? || status.Deadlock? ==>
          exists c :: IsFirstCycle(g, c) && IsReportOf(policy, orders, c, status))
  }

  /** There is one answer only. */
  lemma AnswerIsUnique(policy: VictimPolicy, g: Graph, orders: map<Tx, U64>, expired: nat -> bool, a: Status, b: Status)
    requires IsAnswer(policy, g, orders, expired, a) && IsAnswer(policy, g, orders, expired, b)
    ensures a == b
  {
    if c :| IsFirstCycle(g, c) {
      FoundIsCyclic(g, c);
      if !a.DeadlinePassed? {
        var x :| IsFirstCycle(g, x) && IsReportOf(policy, orders, x, a);
        var y :| IsFirstCycle(g, y) && IsReportOf(policy, orders, y, b);
        FirstCycleIsUnique(g, x, y);
        ReportIsUnique(policy, orders, x, a, b);
      }
    }
  }

  lemma ReportIsUnique(policy: VictimPolicy, orders: map<Tx, U64>, c: seq<Tx>, a: Status, b: Status)
    requires IsReportOf(policy, orders, c, a) && IsReportOf(policy, orders, c, b)
    ensures a == b
  {
    if a.Deadlock? {
      AscendingIsUnique(a.participants, b.participants);
      VictimIsUnique(policy, orders, Members(c), a.victim, b.victim);
    }
  }

  lemma VictimIsUnique(policy: VictimPolicy, orders: map<Tx, U64>, d: set<Tx>, v: Tx, w: Tx)
    requires IsVictim(policy, orders, d, v) && IsVictim(policy, orders, d, w)
    ensures v == w
  {
  }

  lemma {:induction false} AscendingIsUnique(a: seq<Tx>, b: seq<Tx>)
    requires Ascends(a) && Ascends(b) && Members(a) == Members(b)
    ensures a == b
    decreases |a|
  {
    forall t ensures t in a <==> t in b {
      assert t in Members(a) <==> t in Members(b);
    }
    EmptyTogether(a, b);
    if a != [] {
      assert a[0] == b[0];
      forall t ensures t in a[1..] <==> t in Members(a) && t != a[0] {
        RestOf(a, t);
      }
      forall t ensures t in b[1..] <==> t in Members(b) && t != b[0] {
        RestOf(b, t);
      }
      assert Members(a[1..]) == Members(b[1..]);
      AscendingIsUnique(a[1..], b[1..]);
      assert a == [a[0]] + a[1..] && b == [b[0]] + b[1..];
    }
  }

  lemma RestOf(a: seq<Tx>, t: Tx)
    requires Ascends(a) && a != []
    ensures t in a[1..] <==> t in Members(a) && t != a[0]
  {
    if t in Members(a) && t != a[0] {
      var i :| 0 <= i < |a| && a[i] == t;
      assert a[1..][i - 1] == t;
    }
  }

  /**
   The checks on policy, deadline and graph, the search, and the choice of a victim. The
   first reading of the clock comes before the search.
   */
  method DetectInGraph(policy: Policy, timeout: nat, g: Graph, orders: map<Tx, U64>, expired: nat -> bool)
    returns (r: Result<Status, DeadlockError>)
    ensures r.Err? <==> !(0 < timeout <= policy.timeout <= 60_000_000_000) || (!expired(0) && !ValidGraph(g))
    ensures r.Ok? ==> IsAnswer(policy.victimPolicy, g, orders, expired, r.value)
  {
    if !ValidTimeout(policy.timeout) || !ValidTimeout(timeout) || timeout > policy.timeout {
      return Err(InvalidTimeout);
    }
    if expired(0) {
      return Ok(DeadlinePassed);
    }
    var error := ValidateGraph(g);
    if error.Some? {
      return Err(error.value);
    }
    var status := SearchAndReport(policy.victimPolicy, g, orders, expired);
    return Ok(status);
  }

  /** The search and the choice of a victim, on a graph that has been checked. */
  method SearchAndReport(policy: VictimPolicy, g: Graph, orders: map<Tx, U64>, expired: nat -> bool)
    returns (status: Status)
    requires ValidGraph(g) && !expired(0)
    ensures IsAnswer(policy, g, orders, expired, status)
  {
    if g == map[] {
      EmptyGraph(g);
      return NoDeadlock;
    }
    var outcome := FindFirstCycle(g, (k: nat) => expired(k + 1));
    LaterReadings(g, expired, outcome);
    match outcome
    case NoCycle =>
      return NoDeadlock;
    case TimedOut =>
      return DeadlinePassed;
    case CycleFound(c) =>
      status := Report(policy, g, orders, c);
  }

  /** The answer to a cycle: a deferral if start orders are asked for and missing, or the victim. */
  method Report(policy: VictimPolicy, g: Graph, orders: map<Tx, U64>, c: seq<Tx>) returns (status: Status)
    requires ValidGraph(g) && IsFirstCycle(g, c)
    ensures IsReportOf(policy, orders, c, status) && (status.Deferred? || status.Deadlock?)
  {
    FirstCycleIsCycle(g, c);
    CycleIsInGraph(g, c);
    if policy.YoungestStartOrder? && exists t :: t in c && t !in orders {
      return Deferred;
    }
    var victim := SelectVictim(policy, orders, c);
    return Deadlock(victim.value.0, victim.value.1);
  }

  /** The search is on the clock from the second reading on. */
  lemma LaterReadings(g: Graph, expired: nat -> bool, outcome: Outcome)
    requires !expired(0) && IsOutcome(g, (k: nat) => expired(k + 1), outcome)
    ensures outcome.TimedOut? <==> exists k: nat :: k <= Readings(g) && expired(k)
  {
    OneReadingLater(Readings(g), expired, (k: nat) => expired(k + 1));
  }

  lemma OneReadingLater(n: nat, expired: nat -> bool, later: nat -> bool)
    requires !expired(0) && forall k: nat :: later(k) == expired(k + 1)
    ensures (exists k: nat :: k < n && later(k)) <==> (exists k: nat :: k <= n && expired(k))
  {
    if k: nat :| k <= n && expired(k) {
      assert later(k - 1);
    }
    if k: nat :| k < n && later(k) {
      assert expired(k + 1);
    }
  }

  lemma CycleIsInGraph(g: Graph, c: seq<Tx>)
    requires IsClosedWalk(g, c)
    ensures forall t :: t in c ==> t in Nodes(g)
  {
    forall t | t in c ensures t in Nodes(g) {
      var i :| 0 <= i < |c| && c[i] == t;
      assert Edge(g, t, c[if i + 1 < |c| then i + 1 else 0]);
    }
  }

  lemma EmptyGraph(g: Graph)
    requires g == map[]
    ensures (forall t :: !Cyclic(g, t)) && Readings(g) == 0
  {
    forall t ensures !Cyclic(g, t) {
      if Cyclic(g, t) {
        CyclicHasEdge(g, t);
      }
    }
    var nobody, nothing := Nodes(g), Looked(g, Nodes(g), [], {});
    assert nobody == {} && nothing == {};
    assert IsWholeSearch(g, nobody, nobody, nothing);
    assert TakesReadings(g, |nobody| + |nobody| + |nothing|);
    ReadingsAreUnique(g, 0, Readings(g));
  }

  method ValidateGraph(g: Graph) returns (error: Option<DeadlockError>)
    ensures error.None? <==> ValidGraph(g)
  {
    if 0 in Nodes(g) {
      return Some(ZeroTransactionId);
    }
    if t :| t in g && t in g[t] {
      assert Edge(g, t, t);
      return Some(SelfEdge);
    }
    return None;
  }
}
