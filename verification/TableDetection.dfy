/**
 Detection on a lock table: the snapshot, its graph, the search and the choice of
 a victim together, and what the answer means for the requests in the table.
 */
module TableDetection {
  import opened Common
  import opened LockTable
  import opened LockManager
  import opened WaitGraphs
  import opened SearchReadings
  import opened CycleSearch
  import opened DeadlockDetection
  import opened Deadlocks

  // ---------------------------------------------------------------- the snapshot

  /** What the order of resources compares: the kind, then the ids. */
  function Key(r: LockResource): (nat, nat, nat, nat)
  {
    match r
    case Schema(s) => (0, s, 0, 0)
    case Object(s, o) => (1, s, o, 0)
    case Table(s, t) => (2, s, t, 0)
    case Page(s, t, p) => (3, s, t, p)
    case Row(s, t, w) => (4, s, t, w)
  }

  predicate Precedes(a: LockResource, b: LockResource)
  {
    var (k, x) := (Key(a), Key(b));
    || k.0 < x.0
    || (k.0 == x.0 && (k.1 < x.1 || (k.1 == x.1 && (k.2 < x.2 || (k.2 == x.2 && k.3 < x.3)))))
  }

  /** The order is strict and total. */
  lemma ResourcesAreOrdered(a: LockResource, b: LockResource, c: LockResource)
    ensures Precedes(a, b) || Precedes(b, a) || a == b
    ensures !(Precedes(a, b) && Precedes(b, a))
    ensures Precedes(a, b) && Precedes(b, c) ==> Precedes(a, c)
  {
  }

  /** Schemas come first, then objects, tables, pages and rows, each kind by its ids from the left. */
  lemma ResourcesComeByKind(a: LockResource, b: LockResource)
    ensures a.Schema? && !b.Schema? ==> Precedes(a, b)
    ensures a.Object? && (b.Table? || b.Page? || b.Row?) ==> Precedes(a, b)
    ensures a.Table? && (b.Page? || b.Row?) ==> Precedes(a, b)
    ensures a.Page? && b.Row? ==> Precedes(a, b)
    ensures |Ids(a)| == |Ids(b)| && SameKind(a, b) ==>
              (Precedes(a, b) <==> exists k :: 0 <= k < |Ids(a)| && Ids(a)[..k] == Ids(b)[..k] && Ids(a)[k] < Ids(b)[k])
  {
    if SameKind(a, b) {
      FirstDifference(a, b);
    }
  }

  predicate SameKind(a: LockResource, b: LockResource)
  {
    (a.Schema? && b.Schema?) || (a.Object? && b.Object?) || (a.Table? && b.Table?) || (a.Page? && b.Page?)
    || (a.Row? && b.Row?)
  }

  lemma FirstDifference(a: LockResource, b: LockResource)
    requires SameKind(a, b)
    ensures |Ids(a)| == |Ids(b)|
    ensures Precedes(a, b) <==> exists k :: 0 <= k < |Ids(a)| && Ids(a)[..k] == Ids(b)[..k] && Ids(a)[k] < Ids(b)[k]
  {
    var x, y := Ids(a), Ids(b);
    forall k | 0 < k <= |x| ensures x[..k] == y[..k] <==> x[..k - 1] == y[..k - 1] && x[k - 1] == y[k - 1] {
      assert x[..k] == x[..k - 1] + [x[k - 1]] && y[..k] == y[..k - 1] + [y[k - 1]];
    }
    assert x[..0] == y[..0];
    assert |x| > 1 ==> (x[..1] == y[..1] <==> x[0] == y[0]);
    assert |x| > 2 ==> (x[..2] == y[..2] <==> x[0] == y[0] && x[1] == y[1]);
    if Precedes(a, b) {
      if x[0] < y[0] {
        assert x[..0] == y[..0] && x[0] < y[0];
      } else if x[1] < y[1] {
        assert x[..1] == y[..1] && x[1] < y[1];
      } else {
        assert x[..2] == y[..2] && x[2] < y[2];
      }
    }
  }

  lemma FirstResource(s: set<LockResource>) returns (m: LockResource)
    requires s != {}
    ensures m in s && forall x :: x in s && x != m ==> Precedes(m, x)
  {
    var y :| y in s;
    m := y;
    if s != {y} {
      var z := FirstResource(s - {y});
      ResourcesAreOrdered(y, z, z);
      m := if Precedes(y, z) then y else z;
      forall x | x in s && x != m ensures Precedes(m, x) {
        assert x != y ==> x in s - {y};
        ResourcesAreOrdered(y, z, x);
      }
    }
  }

  ghost predicate InOrder(entries: seq<(LockResource, LockEntry)>)
  {
    forall i, j :: 0 <= i < j < |entries| ==> Precedes(entries[i].0, entries[j].0)
  }

  ghost predicate Lists(entries: seq<(LockResource, LockEntry)>, table: LockMap, resources: set<LockResource>)
  {
    forall r, e :: (r, e) in entries <==> r in resources && r in table && table[r] == e
  }

  /** The resources with their entries, in the order of the resources. */
  method Snapshot(table: LockMap) returns (entries: seq<(LockResource, LockEntry)>)
    ensures Lists(entries, table, table.Keys) && InOrder(entries)
  {
    entries := [];
    var pending := table.Keys;
    while pending != {}
      invariant pending <= table.Keys
      invariant Lists(entries, table, table.Keys - pending) && InOrder(entries)
      invariant forall i, r :: 0 <= i < |entries| && r in pending ==> Precedes(entries[i].0, r)
      decreases pending
    {
      ghost var m := FirstResource(pending);
      var r :| r in pending && forall x :: x in pending && x != r ==> Precedes(r, x);
      entries := entries + [(r, table[r])];
      pending := pending - {r};
    }
  }

  /** The snapshot is deterministic: its contents and its order leave one list only. */
  lemma {:induction false} SnapshotIsUnique(a: seq<(LockResource, LockEntry)>, b: seq<(LockResource, LockEntry)>)
    requires InOrder(a) && InOrder(b) && forall x :: x in a <==> x in b
    ensures a == b
    decreases |a|
  {
    EmptyTogether(a, b);
    if a != [] {
      SameFirst(a, b);
      forall x ensures x in a[1..] <==> x in b[1..] {
        InRest(a, x);
        InRest(b, x);
      }
      SnapshotIsUnique(a[1..], b[1..]);
      assert a == [a[0]] + a[1..] && b == [b[0]] + b[1..];
    }
  }

  lemma SameFirst(a: seq<(LockResource, LockEntry)>, b: seq<(LockResource, LockEntry)>)
    requires InOrder(a) && InOrder(b) && a != [] && b != [] && a[0] in b && b[0] in a
    ensures a[0] == b[0]
  {
    ResourcesAreOrdered(a[0].0, b[0].0, b[0].0);
  }

  lemma InRest(a: seq<(LockResource, LockEntry)>, x: (LockResource, LockEntry))
    requires InOrder(a) && a != []
    ensures x in a[1..] <==> x in a && x != a[0]
  {
    ResourcesAreOrdered(x.0, x.0, x.0);
  }

  lemma SnapshotGraph(table: LockMap, entries: seq<(LockResource, LockEntry)>, g: Graph)
    requires Lists(entries, table, table.Keys)
    requires forall t, u :: Edge(g, t, u) <==> exists k :: 0 <= k < |entries| && WaitsFor(entries[k].1, t, u)
    ensures IsGraphOf(g, table)
  {
    forall t, u ensures Edge(g, t, u) <==> exists r :: r in table && WaitsFor(table[r], t, u) {
      if Edge(g, t, u) {
        var k :| 0 <= k < |entries| && WaitsFor(entries[k].1, t, u);
        assert (entries[k].0, entries[k].1) in entries;
      }
      if r :| r in table && WaitsFor(table[r], t, u) {
        assert (r, table[r]) in entries;
        var k :| 0 <= k < |entries| && entries[k] == (r, table[r]);
        assert WaitsFor(entries[k].1, t, u);
      }
    }
  }

  // ---------------------------------------------------------------- the graph

  /** The graph of the table, in which nobody is listed without a blocker. */
  ghost predicate IsTableGraph(g: Graph, table: LockMap)
  {
    IsGraphOf(g, table) && NobodyIsIdle(g)
  }

  lemma TableGraphIsUnique(g: Graph, h: Graph, table: LockMap)
    requires IsTableGraph(g, table) && IsTableGraph(h, table)
    ensures g == h
  {
    forall t, u ensures Edge(g, t, u) <==> Edge(h, t, u) {
      assert Edge(g, t, u) <==> exists r :: r in table && WaitsFor(table[r], t, u);
    }
    SameEdges(g, h);
  }

  lemma SameEdges(g: Graph, h: Graph)
    requires NobodyIsIdle(g) && NobodyIsIdle(h) && forall t, u :: Edge(g, t, u) <==> Edge(h, t, u)
    ensures g == h
  {
    forall t ensures t in g <==> t in h {
      if t in g {
        var u :| u in g[t];
        assert Edge(h, t, u);
      }
      if t in h {
        var u :| u in h[t];
        assert Edge(g, t, u);
      }
    }
    forall t | t in g ensures g[t] == h[t] {
      forall u ensures u in g[t] <==> u in h[t] {
        assert Edge(g, t, u) <==> Edge(h, t, u);
      }
    }
  }

  ghost predicate HasZeroIds(table: LockMap)
  {
    exists q :: q in table && HasZeroId(table[q])
  }

  /** The snapshot's graph, which the detector never refuses. */
  method GraphOfTable(table: LockMap) returns (r: Result<Graph, DeadlockError>)
    ensures r.Err? <==> HasZeroIds(table)
    ensures r.Ok? ==> IsTableGraph(r.value, table) && ValidGraph(r.value)
  {
    var entries := Snapshot(table);
    r := FromLockTableSnapshot(entries);
    if r.Ok? {
      SnapshotGraph(table, entries, r.value);
      forall q | q in table ensures !HasZeroId(table[q]) {
        assert (q, table[q]) in entries;
      }
    } else {
      ghost var k :| 0 <= k < |entries| && HasZeroId(entries[k].1);
      assert (entries[k].0, entries[k].1) in entries;
    }
  }

  /** At least two transactions that keep each other out, with deadlocked requests, each of them one. */
  ghost predicate IsReport(table: LockMap, owners: set<Tx>)
  {
    && |owners| >= 2 && Entangled(table, owners)
    && Owners(Caught(table, owners)) == owners && Deadlocked(table, Caught(table, owners))
  }

  ghost predicate NothingIsEntangled(table: LockMap)
  {
    forall owners :: !Entangled(table, owners)
  }

  /** In covered queues there is no deadlock. */
  ghost predicate NothingIsHidden(table: LockMap)
  {
    (forall q :: q in table ==> Covered(table[q])) ==> forall d :: !Deadlocked(table, d)
  }

  /** The answer is that on the graph of the table, which also says what it means for the table. */
  ghost predicate IsAnswerOn(policy: VictimPolicy, table: LockMap, orders: map<Tx, U64>, expired: nat -> bool,
                             status: Status)
  {
    && IsAnswerOnGraphs(policy, table, orders, expired, status)
    && IsTrueOf(policy, table, orders, expired, status)
  }

  ghost predicate IsAnswerOnGraphs(policy: VictimPolicy, table: LockMap, orders: map<Tx, U64>, expired: nat -> bool,
                                   status: Status)
  {
    forall g :: IsTableGraph(g, table) ==> IsAnswer(policy, g, orders, expired, status)
  }

  ghost predicate IsTrueOf(policy: VictimPolicy, table: LockMap, orders: map<Tx, U64>, expired: nat -> bool,
                           status: Status)
  {
    match status
    case NoDeadlock => NothingIsEntangled(table) && NothingIsHidden(table)
    case Deadlock(victim, participants) =>
      IsReport(table, Members(participants)) && IsVictim(policy, orders, Members(participants), victim)
    case Deferred =>
      policy.YoungestStartOrder? && exists owners :: IsReport(table, owners) && !(owners <= orders.Keys)
    case DeadlinePassed => exists k: nat :: expired(k)
  }

  /** Whoever waits has a start order, if the policy asks for one. */
  ghost predicate HasOrders(policy: VictimPolicy, table: LockMap, orders: map<Tx, U64>)
  {
    policy.YoungestStartOrder? ==> forall r, w :: r in table && w in table[r].waiters ==> w.tx in orders
  }

  /**
   Detection on a lock table. The answer is determined by the table, the start orders and the
   clock; and if transactions keep each other out, everybody has what the policy asks for
   and no reading has expired, it is a report.
   */
  method Detect(policy: Policy, timeout: nat, table: LockMap, orders: map<Tx, U64>, expired: nat -> bool)
    returns (r: Result<Status, DeadlockError>)
    ensures r.Err? <==> HasZeroIds(table) || !(0 < timeout <= policy.timeout <= 60_000_000_000)
    ensures r.Ok? ==> IsAnswerOn(policy.victimPolicy, table, orders, expired, r.value)
    ensures (r.Ok? && !NothingIsEntangled(table) && HasOrders(policy.victimPolicy, table, orders)
             && forall k: nat :: !expired(k)) ==> r.value.Deadlock?
  {
    var graph := GraphOfTable(table);
    if graph.Err? {
      return Err(graph.error);
    }
    r := DetectInGraph(policy, timeout, graph.value, orders, expired);
    if r.Ok? {
      AnswerOnTable(policy.victimPolicy, table, graph.value, orders, expired, r.value);
      AnswerIsReport(policy.victimPolicy, table, orders, expired, r.value);
    }
  }

  lemma AnswerOnTable(policy: VictimPolicy, table: LockMap, g: Graph, orders: map<Tx, U64>, expired: nat -> bool,
                      status: Status)
    requires IsTableGraph(g, table) && ValidGraph(g) && IsAnswer(policy, g, orders, expired, status)
    ensures IsAnswerOn(policy, table, orders, expired, status)
  {
    forall h | IsTableGraph(h, table) ensures IsAnswer(policy, h, orders, expired, status) {
      TableGraphIsUnique(g, h, table);
    }
    AnswerIsTrue(policy, table, g, orders, expired, status);
  }

  lemma AnswerIsTrue(policy: VictimPolicy, table: LockMap, g: Graph, orders: map<Tx, U64>, expired: nat -> bool,
                     status: Status)
    requires IsGraphOf(g, table) && ValidGraph(g) && IsAnswer(policy, g, orders, expired, status)
    ensures IsTrueOf(policy, table, orders, expired, status)
  {
    match status
    case NoDeadlock =>
      NoCyclicIsNoTrap(g);
      NothingIsMissed(table, g);
    case DeadlinePassed =>
    case _ =>
      var c :| IsFirstCycle(g, c) && IsReportOf(policy, orders, c, status);
      FirstCycleIsCycle(g, c);
      ReportIsDeadlock(table, g, c);
      ReportIsTrue(policy, table, orders, expired, c, status);
  }

  lemma ReportIsTrue(policy: VictimPolicy, table: LockMap, orders: map<Tx, U64>, expired: nat -> bool, c: seq<Tx>,
                     status: Status)
    requires IsReport(table, Members(c)) && IsReportOf(policy, orders, c, status)
    ensures IsTrueOf(policy, table, orders, expired, status)
  {
  }

  lemma NoCyclicIsNoTrap(g: Graph)
    requires forall t :: !Cyclic(g, t)
    ensures forall d :: !IsTrap(g, d)
  {
    forall d ensures !IsTrap(g, d) {
      if IsTrap(g, d) {
        var t :| t in d;
        assert Cyclic(g, t);
      }
    }
  }

  lemma AnswerIsReport(policy: VictimPolicy, table: LockMap, orders: map<Tx, U64>, expired: nat -> bool, status: Status)
    requires IsAnswerOn(policy, table, orders, expired, status)
    ensures !NothingIsEntangled(table) && HasOrders(policy, table, orders) && (forall k: nat :: !expired(k)) ==>
              status.Deadlock?
  {
    if status.Deferred? && HasOrders(policy, table, orders) {
      var owners :| IsReport(table, owners) && !(owners <= orders.Keys);
      ReportedHaveOrders(policy, table, orders, owners);
    }
  }

  lemma ReportedHaveOrders(policy: VictimPolicy, table: LockMap, orders: map<Tx, U64>, owners: set<Tx>)
    requires policy.YoungestStartOrder? && HasOrders(policy, table, orders) && IsReport(table, owners)
    ensures owners <= orders.Keys
  {
    forall t | t in owners ensures t in orders {
      assert t in Owners(Caught(table, owners));
    }
  }

  lemma ReportIsDeadlock(table: LockMap, g: Graph, c: seq<Tx>)
    requires IsGraphOf(g, table) && IsCycle(g, c) && |c| >= 2
    ensures IsReport(table, Members(c))
  {
    ClosedWalkIsTrap(g, c);
    EntangledIsTrap(table, g, Members(c));
    TrapIsDeadlock(table, g, Members(c));
    TwoMembers(c);
  }

  lemma TwoMembers(c: seq<Tx>)
    requires Distinct(c) && |c| >= 2
    ensures |Members(c)| >= 2
  {
    var pair := {c[0], c[1]};
    assert c[0] in c && c[1] in c && pair <= Members(c);
    assert Members(c) == pair + (Members(c) - pair);
  }

  lemma NothingIsMissed(table: LockMap, g: Graph)
    requires IsGraphOf(g, table) && forall d :: !IsTrap(g, d)
    ensures NothingIsEntangled(table) && NothingIsHidden(table)
  {
    forall owners ensures !Entangled(table, owners) {
      EntangledIsTrap(table, g, owners);
    }
    if forall q :: q in table ==> Covered(table[q]) {
      forall d ensures !Deadlocked(table, d) {
        if Deadlocked(table, d) {
          CoveredDeadlockIsTrap(table, g, d);
        }
      }
    }
  }
}
