/**
 Graphs of who waits for whom: closed walks, sets that wait within themselves,
 and, among all cycles, the first one: it is reached from the least transaction
 that can reach a cycle by always going on to the least blocker that can.
 */
module WaitGraphs {
  import opened Common
  import opened LockTable

  /** The blockers of each waiting transaction. */
  type Graph = map<Tx, set<Tx>>

  predicate Edge(g: Graph, t: Tx, u: Tx)
  {
    t in g && u in g[t]
  }

  function Nodes(g: Graph): set<Tx>
  {
    g.Keys + set t, u | t in g && u in g[t] :: u
  }

  ghost predicate NoSelfEdges(g: Graph)
  {
    forall t :: !Edge(g, t, t)
  }

  /** What the detector demands of a graph. */
  ghost predicate ValidGraph(g: Graph)
  {
    NoSelfEdges(g) && 0 !in Nodes(g)
  }

  // ---------------------------------------------------------------- cycles

  ghost predicate IsPath(g: Graph, p: seq<Tx>)
  {
    forall i :: 0 <= i < |p| - 1 ==> Edge(g, p[i], p[i + 1])
  }

  /** A walk along edges that comes back to where it started. */
  ghost predicate IsClosedWalk(g: Graph, c: seq<Tx>)
  {
    c != [] && IsPath(g, c) && Edge(g, c[|c| - 1], c[0])
  }

  ghost predicate Distinct(c: seq<Tx>)
  {
    forall i, j :: 0 <= i < j < |c| ==> c[i] != c[j]
  }

  ghost predicate IsCycle(g: Graph, c: seq<Tx>)
  {
    IsClosedWalk(g, c) && Distinct(c)
  }

  /** Each member of `d` waits for a member of `d`. */
  ghost predicate IsTrap(g: Graph, d: set<Tx>)
  {
    d != {} && forall t {:trigger WaitsWithin(g, d, t)} :: t in d ==> WaitsWithin(g, d, t)
  }

  ghost predicate WaitsWithin(g: Graph, d: set<Tx>, t: Tx)
  {
    exists u :: u in d && Edge(g, t, u)
  }

  /** Whoever a transaction in the list waits for stands before it. */
  ghost predicate IsClosedOrder(g: Graph, order: seq<Tx>)
  {
    forall i, u :: 0 <= i < |order| && Edge(g, order[i], u) ==> StandsBefore(order, u, i)
  }

  ghost predicate StandsBefore(order: seq<Tx>, t: Tx, i: nat)
    requires i <= |order|
  {
    exists j :: 0 <= j < i && order[j] == t
  }

  /** Such a list of all transactions leaves no trap: the member of the trap that stands first waits for none of it. */
  lemma {:induction false} OrderLeavesNoTrap(g: Graph, order: seq<Tx>, d: set<Tx>, n: nat)
    requires IsClosedOrder(g, order) && n <= |order| && IsTrap(g, d)
    ensures forall i :: 0 <= i < n ==> order[i] !in d
  {
    if n > 0 {
      OrderLeavesNoTrap(g, order, d, n - 1);
      assert order[n - 1] in d ==> WaitsWithin(g, d, order[n - 1]);
    }
  }

  lemma NoTrap(g: Graph, order: seq<Tx>)
    requires IsClosedOrder(g, order) && forall t :: t in Nodes(g) ==> t in order
    ensures forall d :: !IsTrap(g, d)
  {
    forall d ensures !IsTrap(g, d) {
      if IsTrap(g, d) {
        var t :| t in d;
        assert WaitsWithin(g, d, t);
        var u :| u in d && Edge(g, t, u);
        assert t in Nodes(g) && t in order;
        OrderLeavesNoTrap(g, order, d, |order|);
      }
    }
  }

  ghost function Members(c: seq<Tx>): set<Tx>
  {
    set t | t in c
  }

  /** The members of a closed walk wait for each other. */
  lemma ClosedWalkIsTrap(g: Graph, c: seq<Tx>)
    requires IsClosedWalk(g, c)
    ensures IsTrap(g, Members(c))
  {
    assert c[0] in Members(c);
    forall t | t in Members(c) ensures WaitsWithin(g, Members(c), t) {
      var i :| 0 <= i < |c| && c[i] == t;
      var u := c[if i + 1 < |c| then i + 1 else 0];
      assert u in Members(c) && Edge(g, t, u);
    }
  }

  // ---------------------------------------------------------------- the first cycle

  /** `t` belongs to a set that waits within itself. */
  ghost predicate Cyclic(g: Graph, t: Tx)
  {
    exists d :: IsTrap(g, d) && t in d
  }

  /** A path that runs into itself. */
  ghost predicate IsLasso(g: Graph, p: seq<Tx>, j: nat)
  {
    j < |p| && IsPath(g, p) && Edge(g, p[|p| - 1], p[j])
  }

  lemma LassoIsTrap(g: Graph, p: seq<Tx>, j: nat)
    requires IsLasso(g, p, j)
    ensures IsTrap(g, Members(p))
  {
    assert p[0] in Members(p);
    forall t | t in Members(p) ensures WaitsWithin(g, Members(p), t) {
      var i :| 0 <= i < |p| && p[i] == t;
      var u := p[if i + 1 < |p| then i + 1 else j];
      assert u in Members(p) && Edge(g, t, u);
    }
  }

  /** Being in such a set is the same as reaching a closed walk. */
  lemma CyclicMeansReachingACycle(g: Graph, t: Tx)
    ensures Cyclic(g, t) <==> exists p, j :: IsLasso(g, p, j) && p[0] == t
  {
    if Cyclic(g, t) {
      var d :| IsTrap(g, d) && t in d;
      var p, j := LassoIn(g, d, [t]);
    }
    if p, j :| IsLasso(g, p, j) && p[0] == t {
      LassoIsTrap(g, p, j);
      assert t in Members(p);
    }
  }

  lemma {:induction false} LassoIn(g: Graph, d: set<Tx>, front: seq<Tx>) returns (p: seq<Tx>, j: nat)
    requires IsTrap(g, d) && front != [] && IsPath(g, front) && Distinct(front) && Members(front) <= d
    ensures IsLasso(g, p, j) && p[0] == front[0]
    decreases d - Members(front)
  {
    var t := front[|front| - 1];
    assert t in Members(front) && WaitsWithin(g, d, t);
    var u :| u in d && Edge(g, t, u);
    if k :| 0 <= k < |front| && front[k] == u {
      p, j := front, k;
    } else {
      assert Members(front + [u]) == Members(front) + {u};
      assert u !in Members(front);
      p, j := LassoIn(g, d, front + [u]);
    }
  }

  lemma CyclicHasEdge(g: Graph, t: Tx)
    requires Cyclic(g, t)
    ensures t in Nodes(g) && exists u :: Edge(g, t, u) && Cyclic(g, u)
  {
    var d :| IsTrap(g, d) && t in d;
    assert WaitsWithin(g, d, t);
  }

  /** The least transaction that can reach a cycle. */
  ghost predicate LeastCyclic(g: Graph, t: Tx)
  {
    Cyclic(g, t) && forall v :: Cyclic(g, v) ==> t <= v
  }

  /** The least blocker of `t` that can reach a cycle. */
  ghost predicate LeastBlocker(g: Graph, t: Tx, u: Tx)
  {
    Edge(g, t, u) && Cyclic(g, u) && forall v :: Edge(g, t, v) && Cyclic(g, v) ==> u <= v
  }

  /** From the least transaction on, always on to the least blocker, without coming back. */
  ghost predicate IsTrail(g: Graph, p: seq<Tx>)
  {
    Follows(g, p) && Distinct(p)
  }

  ghost predicate Follows(g: Graph, p: seq<Tx>)
  {
    && p != [] && LeastCyclic(g, p[0])
    && forall i {:trigger StepsOn(g, p, i)} :: 0 <= i < |p| - 1 ==> StepsOn(g, p, i)
  }

  ghost predicate StepsOn(g: Graph, p: seq<Tx>, i: nat)
    requires i + 1 < |p|
  {
    LeastBlocker(g, p[i], p[i + 1])
  }

  /** And from its end back to position `j`. */
  ghost predicate IsClosing(g: Graph, p: seq<Tx>, j: nat)
  {
    IsTrail(g, p) && j < |p| && LeastBlocker(g, p[|p| - 1], p[j])
  }

  ghost predicate IsFirstCycle(g: Graph, c: seq<Tx>)
  {
    exists p, j :: IsClosing(g, p, j) && c == p[j..]
  }

  lemma TrailIsPath(g: Graph, p: seq<Tx>)
    requires IsTrail(g, p)
    ensures IsPath(g, p) && forall i :: 0 <= i < |p| ==> Cyclic(g, p[i])
  {
    forall i | 0 <= i < |p| - 1 ensures Edge(g, p[i], p[i + 1]) {
      assert StepsOn(g, p, i);
    }
    forall i | 0 <= i < |p| ensures Cyclic(g, p[i]) {
      if i > 0 {
        assert StepsOn(g, p, i - 1);
      }
    }
  }

  /** The part of a path from the transaction that is met again is a cycle. */
  lemma PathHasCycle(g: Graph, path: seq<Tx>, i: nat)
    requires IsPath(g, path) && Distinct(path) && i < |path| && Edge(g, path[|path| - 1], path[i])
    ensures IsCycle(g, path[i..])
  {
    var c := path[i..];
    forall k | 0 <= k < |c| - 1 ensures Edge(g, c[k], c[k + 1]) {
      assert Edge(g, path[i + k], path[i + k + 1]);
    }
  }

  lemma FirstCycleIsCycle(g: Graph, c: seq<Tx>)
    requires IsFirstCycle(g, c)
    ensures IsCycle(g, c) && (NoSelfEdges(g) ==> |c| >= 2)
  {
    var p, j :| IsClosing(g, p, j) && c == p[j..];
    TrailIsPath(g, p);
    PathHasCycle(g, p, j);
    assert |c| == 1 ==> Edge(g, c[0], c[0]);
  }

  lemma {:induction false} TrailsAgree(g: Graph, p: seq<Tx>, q: seq<Tx>, n: nat)
    requires Follows(g, p) && Follows(g, q) && n <= |p| && n <= |q|
    ensures p[..n] == q[..n]
  {
    if n > 0 {
      TrailsAgree(g, p, q, n - 1);
      if n > 1 {
        assert StepsOn(g, p, n - 2) && StepsOn(g, q, n - 2);
        assert p[n - 2] == p[..n - 1][n - 2] == q[..n - 1][n - 2] == q[n - 2];
      }
      assert p[n - 1] == q[n - 1];
      assert p[..n] == p[..n - 1] + [p[n - 1]] && q[..n] == q[..n - 1] + [q[n - 1]];
    }
  }

  lemma NextIsBack(g: Graph, p: seq<Tx>, j: nat, q: seq<Tx>)
    requires IsClosing(g, p, j) && Follows(g, q) && |p| < |q|
    ensures q[|p|] == q[j]
  {
    var n := |p|;
    TrailsAgree(g, p, q, n);
    assert StepsOn(g, q, n - 1);
    assert p[n - 1] == p[..n][n - 1] == q[..n][n - 1] && p[j] == p[..n][j] == q[..n][j];
  }

  lemma ClosingIsNoShorter(g: Graph, p: seq<Tx>, j: nat, q: seq<Tx>)
    requires IsClosing(g, p, j) && IsTrail(g, q)
    ensures |q| <= |p|
  {
    if |p| < |q| {
      NextIsBack(g, p, j, q);
    }
  }

  /** There is only one such trail, so only one first cycle. */
  lemma ClosingIsUnique(g: Graph, p: seq<Tx>, j: nat, q: seq<Tx>, k: nat)
    requires IsClosing(g, p, j) && IsClosing(g, q, k)
    ensures p == q && j == k
  {
    ClosingIsNoShorter(g, p, j, q);
    ClosingIsNoShorter(g, q, k, p);
    TrailsAgree(g, p, q, |p|);
    assert p == p[..|p|] && q == q[..|q|];
    assert p[j] == p[k];
  }

  lemma FirstCycleIsUnique(g: Graph, c: seq<Tx>, d: seq<Tx>)
    requires IsFirstCycle(g, c) && IsFirstCycle(g, d)
    ensures c == d
  {
    var p, j :| IsClosing(g, p, j) && c == p[j..];
    var q, k :| IsClosing(g, q, k) && d == q[k..];
    ClosingIsUnique(g, p, j, q, k);
  }

  lemma Least(s: set<Tx>) returns (m: Tx)
    requires s != {}
    ensures m in s && forall x :: x in s ==> m <= x
  {
    var y :| y in s;
    if s == {y} {
      m := y;
    } else {
      var z := Least(s - {y});
      assert forall x :: x in s ==> x == y || x in s - {y};
      m := if y < z then y else z;
    }
  }

  ghost function CyclicNodes(g: Graph): set<Tx>
  {
    set t | t in Nodes(g) && Cyclic(g, t)
  }

  /** And there is one as soon as anything waits within itself. */
  lemma ClosingExists(g: Graph, t: Tx) returns (p: seq<Tx>, j: nat)
    requires Cyclic(g, t)
    ensures IsClosing(g, p, j)
  {
    CyclicHasEdge(g, t);
    assert t in CyclicNodes(g);
    var m := Least(CyclicNodes(g));
    forall v | Cyclic(g, v) ensures m <= v {
      CyclicHasEdge(g, v);
      assert v in CyclicNodes(g);
    }
    assert LeastCyclic(g, m);
    p, j := Continued(g, [m]);
  }

  lemma {:induction false} Continued(g: Graph, front: seq<Tx>) returns (p: seq<Tx>, j: nat)
    requires IsTrail(g, front)
    ensures IsClosing(g, p, j)
    decreases CyclicNodes(g) - Members(front)
  {
    TrailIsPath(g, front);
    var t := front[|front| - 1];
    var u := HasLeastBlocker(g, t);
    if k :| 0 <= k < |front| && front[k] == u {
      p, j := front, k;
    } else {
      TrailGrows(g, front, u);
      CyclicHasEdge(g, u);
      assert Members(front + [u]) == Members(front) + {u} && u in CyclicNodes(g) - Members(front);
      p, j := Continued(g, front + [u]);
    }
  }

  lemma HasLeastBlocker(g: Graph, t: Tx) returns (u: Tx)
    requires Cyclic(g, t)
    ensures LeastBlocker(g, t, u)
  {
    CyclicHasEdge(g, t);
    var s := set v | v in g[t] && Cyclic(g, v);
    var x :| Edge(g, t, x) && Cyclic(g, x);
    assert x in s;
    u := Least(s);
    forall v | Edge(g, t, v) && Cyclic(g, v) ensures u <= v {
      assert v in s;
    }
  }

  lemma TrailGrows(g: Graph, p: seq<Tx>, u: Tx)
    requires IsTrail(g, p) && LeastBlocker(g, p[|p| - 1], u) && u !in p
    ensures IsTrail(g, p + [u])
  {
    var q := p + [u];
    forall i | 0 <= i < |q| - 1 ensures StepsOn(g, q, i) {
      if i < |p| - 1 {
        assert StepsOn(g, p, i);
      }
    }
  }
}
