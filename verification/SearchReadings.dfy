/**
 How many readings of the clock a search for the first cycle takes: one for each
 transaction it starts from, each one it enters and each edge it looks at. These
 are stated without the search, and every state on the way to the first cycle
 is shown to be part of them.
 */
module SearchReadings {
  import opened Common
  import opened LockTable
  import opened WaitGraphs

  // ---------------------------------------------------------------- how many readings a search takes

  /** The transactions that the search starts from, up to `t`. */
  ghost function UpTo(g: Graph, t: Tx): set<Tx>
  {
    set x | x in Nodes(g) && x <= t
  }

  /** The edge is from a visited transaction, or from one on the path and not behind the edge the path takes. */
  ghost predicate IsLooked(visited: set<Tx>, path: seq<Tx>, done: set<Tx>, t: Tx, u: Tx)
  {
    t in visited || exists i :: 0 <= i < |path| && path[i] == t && IsPassed(path, done, i, u)
  }

  ghost predicate IsPassed(path: seq<Tx>, done: set<Tx>, i: nat, u: Tx)
    requires i < |path|
  {
    if i + 1 < |path| then u <= path[i + 1] else u in done
  }

  ghost function Looked(g: Graph, visited: set<Tx>, path: seq<Tx>, done: set<Tx>): set<(Tx, Tx)>
  {
    set t, u | t in g && u in g[t] && IsLooked(visited, path, done, t, u) :: (t, u)
  }

  /** Where the trail goes on from position `i`. */
  ghost function Onward(p: seq<Tx>, j: nat, i: nat): Tx
    requires j < |p| && i < |p|
  {
    if i + 1 < |p| then p[i + 1] else p[j]
  }

  /** A transaction that is tried before the trail, or before it goes on. */
  ghost predicate IsDetour(g: Graph, p: seq<Tx>, j: nat, s: Tx)
    requires j < |p|
  {
    || (s in Nodes(g) && s < p[0])
    || exists i :: 0 <= i < |p| && Edge(g, p[i], s) && s < Onward(p, j, i)
  }

  ghost predicate IsReached(g: Graph, p: seq<Tx>, j: nat, q: seq<Tx>)
    requires j < |p|
  {
    q != [] && IsPath(g, q) && IsDetour(g, p, j, q[0])
  }

  /** What is reached by detours. */
  ghost function Early(g: Graph, p: seq<Tx>, j: nat): set<Tx>
    requires j < |p|
  {
    set t | t in Nodes(g) && exists q :: IsReached(g, p, j, q) && q[|q| - 1] == t
  }

  /**
   The transactions started from, those entered and the edges looked at in a search that the
   clock does not cut short.
   */
  ghost predicate IsWholeSearch(g: Graph, starts: set<Tx>, entered: set<Tx>, looked: set<(Tx, Tx)>)
  {
    || ((forall t :: !Cyclic(g, t))
        && starts == Nodes(g) && entered == Nodes(g) && looked == Looked(g, Nodes(g), [], {}))
    || exists p, j :: IsClosing(g, p, j) && IsSearchTo(g, p, j, starts, entered, looked)
  }

  ghost predicate IsSearchTo(g: Graph, p: seq<Tx>, j: nat, starts: set<Tx>, entered: set<Tx>, looked: set<(Tx, Tx)>)
    requires j < |p|
  {
    && starts == UpTo(g, p[0]) && entered == Early(g, p, j) + Members(p)
    && looked == Looked(g, Early(g, p, j), p, UpTo(g, p[j]))
  }

  /** One reading for each of them. */
  ghost predicate TakesReadings(g: Graph, n: nat)
  {
    exists starts, entered, looked :: IsWholeSearch(g, starts, entered, looked) && n == |starts| + |entered| + |looked|
  }

  lemma ReadingsAreUnique(g: Graph, m: nat, n: nat)
    requires TakesReadings(g, m) && TakesReadings(g, n)
    ensures m == n
  {
    var a, b, c :| IsWholeSearch(g, a, b, c) && m == |a| + |b| + |c|;
    var x, y, z :| IsWholeSearch(g, x, y, z) && n == |x| + |y| + |z|;
    WholeSearchIsUnique(g, a, b, c, x, y, z);
  }

  lemma WholeSearchIsUnique(g: Graph, a: set<Tx>, b: set<Tx>, c: set<(Tx, Tx)>, x: set<Tx>, y: set<Tx>,
                            z: set<(Tx, Tx)>)
    requires IsWholeSearch(g, a, b, c) && IsWholeSearch(g, x, y, z)
    ensures a == x && b == y && c == z
  {
    if t :| Cyclic(g, t) {
      var p, j :| IsClosing(g, p, j) && IsSearchTo(g, p, j, a, b, c);
      var q, k :| IsClosing(g, q, k) && IsSearchTo(g, q, k, x, y, z);
      ClosingIsUnique(g, p, j, q, k);
    } else {
      NothingCloses(g);
    }
  }

  lemma NothingCloses(g: Graph)
    requires forall t :: !Cyclic(g, t)
    ensures forall p, j :: !IsClosing(g, p, j)
  {
  }

  lemma ReadingsExist(g: Graph)
    ensures exists n :: TakesReadings(g, n)
  {
    if t :| Cyclic(g, t) {
      var p, j := ClosingExists(g, t);
      var a, b, c := UpTo(g, p[0]), Early(g, p, j) + Members(p), Looked(g, Early(g, p, j), p, UpTo(g, p[j]));
      assert IsSearchTo(g, p, j, a, b, c) && IsWholeSearch(g, a, b, c);
      assert TakesReadings(g, |a| + |b| + |c|);
    } else {
      var a, c := Nodes(g), Looked(g, Nodes(g), [], {});
      assert IsWholeSearch(g, a, a, c);
      assert TakesReadings(g, |a| + |a| + |c|);
    }
  }

  /** The number of readings that a search takes when none of them has expired. */
  ghost function Readings(g: Graph): (n: nat)
    ensures TakesReadings(g, n)
  {
    ReadingsExist(g);
    var n :| TakesReadings(g, n);
    n
  }

  // ---------------------------------------------------------------- what is known halfway

  /** Nothing that comes before the path, or before the edges it takes, is still open. */
  ghost predicate IsOnTheWay(g: Graph, order: seq<Tx>, path: seq<Tx>)
  {
    && IsClosedOrder(g, order) && IsPath(g, path) && Distinct(path)
    && (path != [] ==> path[0] in Nodes(g) && SmallerAreDone(g, order, path[0]))
    && forall i {:trigger PassedAreDone(g, order, path, i)} :: 0 <= i < |path| - 1 ==> PassedAreDone(g, order, path, i)
  }

  ghost predicate SmallerAreDone(g: Graph, order: seq<Tx>, t: Tx)
  {
    forall x :: x in Nodes(g) && x < t ==> x in order
  }

  ghost predicate PassedAreDone(g: Graph, order: seq<Tx>, path: seq<Tx>, i: nat)
    requires i + 1 < |path|
  {
    BlockersAreDone(g, order, path[i], path[i + 1])
  }

  /** The blockers of `t` below `limit` are visited. */
  ghost predicate BlockersAreDone(g: Graph, order: seq<Tx>, t: Tx, limit: Tx)
  {
    forall u: Tx :: Edge(g, t, u) && u < limit ==> u in order
  }

  /** Everything visited so far is visited by every whole search. */
  ghost predicate IsEarly(g: Graph, order: seq<Tx>)
  {
    forall p, j :: IsClosing(g, p, j) ==> Members(order) <= Early(g, p, j)
  }

  lemma VisitedIsNotCyclic(g: Graph, order: seq<Tx>, t: Tx)
    requires IsClosedOrder(g, order) && t in order
    ensures !Cyclic(g, t)
  {
    if Cyclic(g, t) {
      var d :| IsTrap(g, d) && t in d;
      OrderLeavesNoTrap(g, order, d, |order|);
    }
  }

  lemma DetourIsEarly(g: Graph, p: seq<Tx>, j: nat, s: Tx)
    requires j < |p| && IsDetour(g, p, j, s) && s in Nodes(g)
    ensures s in Early(g, p, j)
  {
    assert IsReached(g, p, j, [s]);
  }

  lemma EarlyGoesOn(g: Graph, p: seq<Tx>, j: nat, t: Tx, u: Tx)
    requires j < |p| && t in Early(g, p, j) && Edge(g, t, u)
    ensures u in Early(g, p, j)
  {
    var q :| IsReached(g, p, j, q) && q[|q| - 1] == t;
    assert IsReached(g, p, j, q + [u]);
    assert u in Nodes(g);
  }

  /** The path has been the trail up to position `i`. */
  ghost predicate IsTrailSoFar(p: seq<Tx>, path: seq<Tx>, i: nat)
  {
    i < |path| && i < |p| && path[..i + 1] == p[..i + 1]
  }

  /** Where the path goes, it follows the trail, until it goes on a detour. */
  lemma {:induction false} Foresee(g: Graph, order: seq<Tx>, path: seq<Tx>, p: seq<Tx>, j: nat, i: nat)
    requires IsOnTheWay(g, order, path) && IsClosing(g, p, j) && i < |path|
    ensures path[i] in Early(g, p, j) || IsTrailSoFar(p, path, i)
  {
    if i == 0 {
      ForeseeStart(g, order, path[0], p, j);
      assert path[..1] == [path[0]] && p[..1] == [p[0]];
    } else {
      Foresee(g, order, path, p, j, i - 1);
      if path[i - 1] in Early(g, p, j) {
        EarlyGoesOn(g, p, j, path[i - 1], path[i]);
      } else {
        assert path[i - 1] == path[..i][i - 1] == p[..i][i - 1] == p[i - 1];
        assert PassedAreDone(g, order, path, i - 1);
        ForeseeStep(g, order, p, j, i - 1, path[i]);
        if path[i] !in Early(g, p, j) {
          ForeseeTrail(path, p, j, i);
        }
      }
    }
  }

  lemma ForeseeStart(g: Graph, order: seq<Tx>, t: Tx, p: seq<Tx>, j: nat)
    requires IsClosedOrder(g, order) && t in Nodes(g) && SmallerAreDone(g, order, t) && IsClosing(g, p, j)
    ensures t <= p[0] && (t == p[0] || t in Early(g, p, j))
  {
    TrailIsPath(g, p);
    CyclicHasEdge(g, p[0]);
    if p[0] in order {
      VisitedIsNotCyclic(g, order, p[0]);
    }
    if t < p[0] {
      DetourIsEarly(g, p, j, t);
    }
  }

  lemma OnwardIsLeast(g: Graph, p: seq<Tx>, j: nat, i: nat)
    requires IsClosing(g, p, j) && i < |p|
    ensures LeastBlocker(g, p[i], Onward(p, j, i))
  {
    if i + 1 < |p| {
      assert StepsOn(g, p, i);
    }
  }

  lemma ForeseeStep(g: Graph, order: seq<Tx>, p: seq<Tx>, j: nat, i: nat, u: Tx)
    requires IsClosedOrder(g, order) && IsClosing(g, p, j) && i < |p|
    requires BlockersAreDone(g, order, p[i], u)
    ensures u <= Onward(p, j, i)
    ensures Edge(g, p[i], u) ==> u == Onward(p, j, i) || u in Early(g, p, j)
  {
    var next := Onward(p, j, i);
    OnwardIsLeast(g, p, j, i);
    if next in order {
      VisitedIsNotCyclic(g, order, next);
    }
    if Edge(g, p[i], u) && u < next {
      assert u in Nodes(g);
      DetourIsEarly(g, p, j, u);
    }
  }

  lemma ForeseeTrail(path: seq<Tx>, p: seq<Tx>, j: nat, i: nat)
    requires 0 < i < |path| && j < |p| && IsTrailSoFar(p, path, i - 1) && path[i] == Onward(p, j, i - 1)
    ensures i < |p| ==> IsTrailSoFar(p, path, i)
    ensures i == |p| ==> j < i && path[i] == path[j]
  {
    if i < |p| {
      assert path[..i + 1] == path[..i] + [path[i]] && p[..i + 1] == p[..i] + [p[i]];
    } else {
      assert path[j] == path[..i][j] == p[..i][j];
    }
  }

  /** The edges of the path that were looked at are looked at by every whole search. */
  lemma EdgeIsForeseen(g: Graph, order: seq<Tx>, path: seq<Tx>, p: seq<Tx>, j: nat, i: nat, u: Tx, limit: Tx)
    requires IsOnTheWay(g, order, path) && IsClosing(g, p, j) && i < |path|
    requires Edge(g, path[i], u) && u <= limit && BlockersAreDone(g, order, path[i], limit)
    ensures (path[i], u) in Looked(g, Early(g, p, j), p, UpTo(g, p[j]))
  {
    Foresee(g, order, path, p, j, i);
    if path[i] !in Early(g, p, j) {
      assert path[i] == path[..i + 1][i] == p[..i + 1][i] == p[i];
      ForeseeStep(g, order, p, j, i, limit);
      assert u in Nodes(g);
      assert IsPassed(p, UpTo(g, p[j]), i, u);
    }
  }

  // ---------------------------------------------------------------- readings that are foreseen

  /** No whole search takes fewer than `k` + 1 readings. */
  ghost predicate IsForeseen(g: Graph, k: nat)
  {
    forall n :: TakesReadings(g, n) ==> k < n
  }

  lemma FewerThanAll<T>(a: set<T>, b: set<T>)
    requires a <= b
    ensures |a| <= |b| && (a != b ==> |a| < |b|)
  {
    assert b == a + (b - a);
  }

  /** What was started from, entered and looked at is part of every whole search, and not all of it. */
  ghost predicate IsPartOf(g: Graph, starts: set<Tx>, entered: set<Tx>, looked: set<(Tx, Tx)>)
  {
    forall a, b, c :: IsWholeSearch(g, a, b, c) ==>
      starts <= a && entered <= b && looked <= c && (starts != a || entered != b || looked != c)
  }

  lemma PartIsForeseen(g: Graph, starts: set<Tx>, entered: set<Tx>, looked: set<(Tx, Tx)>)
    requires IsPartOf(g, starts, entered, looked)
    ensures IsForeseen(g, |starts| + |entered| + |looked|)
  {
    forall n | TakesReadings(g, n) ensures |starts| + |entered| + |looked| < n {
      var a, b, c :| IsWholeSearch(g, a, b, c) && n == |a| + |b| + |c|;
      FewerThanAll(starts, a);
      FewerThanAll(entered, b);
      FewerThanAll(looked, c);
    }
  }

  lemma PathIsInGraph(g: Graph, path: seq<Tx>)
    requires IsPath(g, path) && (path != [] ==> path[0] in Nodes(g))
    ensures Members(path) <= Nodes(g)
  {
    forall t | t in Members(path) ensures t in Nodes(g) {
      var i :| 0 <= i < |path| && path[i] == t;
      if i > 0 {
        assert Edge(g, path[i - 1], path[i]);
      }
    }
  }

  /** Every state of the search is part of the whole one. */
  lemma WithinSearch(g: Graph, order: seq<Tx>, path: seq<Tx>, done: set<Tx>, a: set<Tx>, b: set<Tx>, c: set<(Tx, Tx)>)
    requires IsOnTheWay(g, order, path) && IsEarly(g, order) && Members(order) <= Nodes(g) && path != []
    requires forall u :: u in done ==> BlockersAreDone(g, order, path[|path| - 1], u)
    requires IsWholeSearch(g, a, b, c)
    ensures UpTo(g, path[0]) <= a && Members(order) + Members(path) <= b && Looked(g, Members(order), path, done) <= c
  {
    PathIsInGraph(g, path);
    if p, j :| IsClosing(g, p, j) && IsSearchTo(g, p, j, a, b, c) {
      ForeseeStart(g, order, path[0], p, j);
      forall t | t in Members(path) ensures t in b {
        var i :| 0 <= i < |path| && path[i] == t;
        Foresee(g, order, path, p, j, i);
        if t !in Early(g, p, j) {
          assert t == path[..i + 1][i] == p[..i + 1][i] == p[i];
        }
      }
      forall t, u | (t, u) in Looked(g, Members(order), path, done) ensures (t, u) in c {
        LookedIsForeseen(g, order, path, done, p, j, t, u);
      }
    }
  }

  lemma LookedIsForeseen(g: Graph, order: seq<Tx>, path: seq<Tx>, done: set<Tx>, p: seq<Tx>, j: nat, t: Tx, u: Tx)
    requires IsOnTheWay(g, order, path) && IsEarly(g, order) && path != [] && IsClosing(g, p, j)
    requires forall u :: u in done ==> BlockersAreDone(g, order, path[|path| - 1], u)
    requires Edge(g, t, u) && IsLooked(Members(order), path, done, t, u)
    ensures (t, u) in Looked(g, Early(g, p, j), p, UpTo(g, p[j]))
  {
    if t in Members(order) {
      assert t in Early(g, p, j);
    } else {
      var i :| 0 <= i < |path| && path[i] == t && IsPassed(path, done, i, u);
      if i + 1 < |path| {
        assert PassedAreDone(g, order, path, i);
        EdgeIsForeseen(g, order, path, p, j, i, u, path[i + 1]);
      } else {
        EdgeIsForeseen(g, order, path, p, j, i, u, u);
      }
    }
  }
}
