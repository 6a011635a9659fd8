/**
 The search for a cycle: depth first over ascending ids, under a clock that can
 cut it short. The readings of the clock are a function from their number. The
 search finds the first cycle, and its answer is determined by graph and clock.
 */
module CycleSearch {
  import opened Common
  import opened LockTable
  import opened WaitGraphs
  import opened SearchReadings

  datatype Visit = Visiting | Visited

  datatype Outcome = NoCycle | CycleFound(participants: seq<Tx>) | TimedOut

  /** The stack is a path of the transactions being visited; the visited ones are listed in closed order. */
  ghost predicate Searching(g: Graph, states: map<Tx, Visit>, stack: seq<Tx>, order: seq<Tx>)
  {
    && states.Keys <= Nodes(g)
    && (forall t :: t in states && states[t] == Visiting <==> t in stack)
    && (forall t :: t in states && states[t] == Visited <==> t in order)
    && IsPath(g, stack) && Distinct(stack) && IsClosedOrder(g, order)
  }

  lemma Push(g: Graph, states: map<Tx, Visit>, stack: seq<Tx>, order: seq<Tx>, t: Tx)
    requires Searching(g, states, stack, order) && t in Nodes(g) && t !in states
    requires stack != [] ==> Edge(g, stack[|stack| - 1], t)
    ensures Searching(g, states[t := Visiting], stack + [t], order)
  {
  }

  lemma Pop(g: Graph, states: map<Tx, Visit>, stack: seq<Tx>, order: seq<Tx>, t: Tx)
    requires Searching(g, states, stack + [t], order)
    requires forall u :: Edge(g, t, u) ==> u in order
    ensures Searching(g, states[t := Visited], stack, order + [t])
  {
    var full, all := stack + [t], order + [t];
    assert full[|stack|] == t;
    forall u ensures u in stack <==> u in full && u != t {
      if u in stack {
        var i :| 0 <= i < |stack| && stack[i] == u;
        assert full[i] == u;
      }
    }
    forall i | 0 <= i < |stack| - 1 ensures Edge(g, stack[i], stack[i + 1]) {
      assert Edge(g, full[i], full[i + 1]);
    }
    forall i, j | 0 <= i < j < |stack| ensures stack[i] != stack[j] {
      assert full[i] != full[j];
    }
    OrderGrows(g, order, t);
  }

  lemma OrderGrows(g: Graph, order: seq<Tx>, t: Tx)
    requires IsClosedOrder(g, order) && forall u :: Edge(g, t, u) ==> u in order
    ensures IsClosedOrder(g, order + [t])
  {
    var all := order + [t];
    forall i, u | 0 <= i < |all| && Edge(g, all[i], u) ensures StandsBefore(all, u, i) {
      if i < |order| {
        assert StandsBefore(order, u, i);
        var j :| 0 <= j < i && order[j] == u;
        assert all[j] == u;
      } else {
        var j :| 0 <= j < |order| && order[j] == u;
        assert all[j] == u;
      }
    }
  }

  /** The members of an ordered set, least first. */
  method Ascending(s: set<Tx>) returns (ids: seq<Tx>)
    ensures forall t :: t in ids <==> t in s
    ensures forall i, j :: 0 <= i < j < |ids| ==> ids[i] < ids[j]
  {
    ids := [];
    var rest := s;
    while rest != {}
      invariant rest <= s && forall t :: t in ids <==> t in s - rest
      invariant forall i, j :: 0 <= i < j < |ids| ==> ids[i] < ids[j]
      invariant forall i, t :: 0 <= i < |ids| && t in rest ==> ids[i] < t
      decreases rest
    {
      ghost var m := Least(rest);
      var t :| t in rest && forall x :: x in rest ==> t <= x;
      ids := ids + [t];
      rest := rest - {t};
    }
  }

  /** The readings taken so far: one for each start, each transaction entered and each edge looked at. */
  ghost predicate HasSpent(g: Graph, order: seq<Tx>, stack: seq<Tx>, path: seq<Tx>, done: set<Tx>, reading: nat)
  {
    && path != []
    && reading == |UpTo(g, path[0])| + |Members(order) + Members(stack)| + |Looked(g, Members(order), path, done)|
  }

  ghost predicate NoneExpired(expired: nat -> bool, reading: nat)
  {
    forall k: nat :: k < reading ==> !expired(k)
  }

  /** A reading that every whole search takes has expired. */
  ghost predicate ExpiresInTime(g: Graph, expired: nat -> bool)
  {
    exists k: nat :: expired(k) && IsForeseen(g, k)
  }

  /** Everything the search keeps on its way along `path`, of which `stack` has been entered. */
  ghost predicate IsHalfway(g: Graph, states: map<Tx, Visit>, stack: seq<Tx>, path: seq<Tx>, order: seq<Tx>)
  {
    Searching(g, states, stack, order) && IsOnTheWay(g, order, path) && IsEarly(g, order)
  }

  lemma EnterIsForeseen(g: Graph, states: map<Tx, Visit>, stack: seq<Tx>, order: seq<Tx>, tx: Tx, reading: nat)
    requires IsHalfway(g, states, stack, stack + [tx], order) && tx in Nodes(g) && tx !in states
    requires HasSpent(g, order, stack, stack + [tx], {}, reading)
    ensures IsForeseen(g, reading)
  {
    var path := stack + [tx];
    var entered, looked := Members(order) + Members(stack), Looked(g, Members(order), path, {});
    assert Members(path) == Members(stack) + {tx} && tx !in entered;
    forall a, b, c | IsWholeSearch(g, a, b, c)
      ensures UpTo(g, path[0]) <= a && entered <= b && looked <= c && entered != b
    {
      WithinSearch(g, order, path, {}, a, b, c);
    }
    PartIsForeseen(g, UpTo(g, path[0]), entered, looked);
  }

  lemma EnterCounts(g: Graph, order: seq<Tx>, stack: seq<Tx>, tx: Tx, reading: nat)
    requires HasSpent(g, order, stack, stack + [tx], {}, reading) && tx !in order && tx !in stack
    ensures HasSpent(g, order, stack + [tx], stack + [tx], {}, reading + 1)
  {
    assert Members(stack + [tx]) == Members(stack) + {tx};
    assert Members(order) + Members(stack + [tx]) == (Members(order) + Members(stack)) + {tx};
  }

  lemma LookedMore(g: Graph, visited: set<Tx>, path: seq<Tx>, done: set<Tx>, b: Tx)
    requires path != [] && Distinct(path) && path[|path| - 1] !in visited && b !in done && Edge(g, path[|path| - 1], b)
    ensures var top := path[|path| - 1];
            && (top, b) !in Looked(g, visited, path, done)
            && Looked(g, visited, path, done + {b}) == Looked(g, visited, path, done) + {(top, b)}
  {
    var n, top := |path| - 1, path[|path| - 1];
    forall t, u | Edge(g, t, u)
      ensures IsLooked(visited, path, done + {b}, t, u) <==> IsLooked(visited, path, done, t, u) || (t == top && u == b)
    {
      if i :| 0 <= i < |path| && path[i] == t && IsPassed(path, done, i, u) {
        assert IsPassed(path, done + {b}, i, u);
      }
      if i :| 0 <= i < |path| && path[i] == t && IsPassed(path, done + {b}, i, u) {
        assert i < n ==> IsPassed(path, done, i, u);
        assert i == n && u != b ==> IsPassed(path, done, i, u);
      }
      if t == top && u == b {
        assert path[n] == t && IsPassed(path, done + {b}, n, u);
      }
    }
    assert !IsLooked(visited, path, done, top, b);
  }

  /** Going on to `b` leaves looked at what is not behind it. */
  lemma LookedOnward(g: Graph, visited: set<Tx>, path: seq<Tx>, done: set<Tx>, b: Tx)
    requires path != [] && forall u: Tx :: Edge(g, path[|path| - 1], u) ==> (u in done <==> u <= b)
    ensures Looked(g, visited, path + [b], {}) == Looked(g, visited, path, done)
  {
    var longer, n := path + [b], |path| - 1;
    forall t, u | Edge(g, t, u)
      ensures IsLooked(visited, longer, {}, t, u) <==> IsLooked(visited, path, done, t, u)
    {
      if i :| 0 <= i < |path| && path[i] == t && IsPassed(path, done, i, u) {
        assert longer[i] == t && IsPassed(longer, {}, i, u);
      }
      if i :| 0 <= i < |longer| && longer[i] == t && IsPassed(longer, {}, i, u) {
        assert path[i] == t && IsPassed(path, done, i, u);
      }
    }
  }

  lemma LookIsForeseen(g: Graph, states: map<Tx, Visit>, path: seq<Tx>, order: seq<Tx>, done: set<Tx>, b: Tx,
                       reading: nat)
    requires IsHalfway(g, states, path, path, order) && HasSpent(g, order, path, path, done, reading)
    requires b !in done && Edge(g, path[|path| - 1], b)
    requires forall u :: u in done + {b} ==> BlockersAreDone(g, order, path[|path| - 1], u)
    ensures IsForeseen(g, reading)
  {
    var entered, looked := Members(order) + Members(path), Looked(g, Members(order), path, done);
    LookedMore(g, Members(order), path, done, b);
    forall a, b', c | IsWholeSearch(g, a, b', c)
      ensures UpTo(g, path[0]) <= a && entered <= b' && looked <= c && looked != c
    {
      WithinSearch(g, order, path, done + {b}, a, b', c);
    }
    PartIsForeseen(g, UpTo(g, path[0]), entered, looked);
  }

  lemma LookCounts(g: Graph, states: map<Tx, Visit>, path: seq<Tx>, order: seq<Tx>, done: set<Tx>, b: Tx, reading: nat)
    requires IsHalfway(g, states, path, path, order) && HasSpent(g, order, path, path, done, reading)
    requires b !in done && Edge(g, path[|path| - 1], b)
    ensures HasSpent(g, order, path, path, done + {b}, reading + 1)
  {
    LookedMore(g, Members(order), path, done, b);
  }
  lemma OnTheWayOnward(g: Graph, order: seq<Tx>, path: seq<Tx>, b: Tx)
    requires IsOnTheWay(g, order, path) && path != [] && Edge(g, path[|path| - 1], b) && b !in path
    requires BlockersAreDone(g, order, path[|path| - 1], b)
    ensures IsOnTheWay(g, order, path + [b])
  {
    var longer := path + [b];
    forall i | 0 <= i < |longer| - 1 ensures PassedAreDone(g, order, longer, i) {
      if i < |path| - 1 {
        assert PassedAreDone(g, order, path, i);
      }
    }
  }

  /** More visited transactions do no harm, and a shorter path neither. */
  lemma OnTheWayLater(g: Graph, order: seq<Tx>, order': seq<Tx>, path: seq<Tx>, longer: seq<Tx>)
    requires IsOnTheWay(g, order, longer) && order <= order' && IsClosedOrder(g, order') && path <= longer
    ensures IsOnTheWay(g, order', path)
  {
    forall i | 0 <= i < |path| - 1 ensures PassedAreDone(g, order', path, i) && Edge(g, path[i], path[i + 1]) {
      assert PassedAreDone(g, order, longer, i);
      assert Edge(g, longer[i], longer[i + 1]);
    }
    forall i, j | 0 <= i < j < |path| ensures path[i] != path[j] {
      assert longer[i] != longer[j];
    }
  }

  lemma PopIsEarly(g: Graph, order: seq<Tx>, stack: seq<Tx>, tx: Tx)
    requires IsOnTheWay(g, order, stack + [tx]) && IsEarly(g, order) && forall u :: Edge(g, tx, u) ==> u in order
    ensures IsEarly(g, order + [tx])
  {
    OrderGrows(g, order, tx);
    VisitedIsNotCyclic(g, order + [tx], tx);
    var path := stack + [tx];
    forall p, j | IsClosing(g, p, j) ensures Members(order + [tx]) <= Early(g, p, j) {
      ForeseeLast(g, order, path, p, j);
    }
  }

  lemma ForeseeLast(g: Graph, order: seq<Tx>, path: seq<Tx>, p: seq<Tx>, j: nat)
    requires IsOnTheWay(g, order, path) && IsClosing(g, p, j) && path != []
    ensures path[|path| - 1] in Early(g, p, j) || Cyclic(g, path[|path| - 1])
  {
    var n := |path| - 1;
    Foresee(g, order, path, p, j, n);
    TrailIsPath(g, p);
    if path[n] !in Early(g, p, j) {
      assert path[n] == path[..n + 1][n] == p[..n + 1][n];
    }
  }

  lemma PopCounts(g: Graph, order: seq<Tx>, stack: seq<Tx>, tx: Tx, done: set<Tx>, reading: nat)
    requires HasSpent(g, order, stack + [tx], stack + [tx], done, reading) && Distinct(stack + [tx]) && tx !in order
    requires forall u :: Edge(g, tx, u) ==> u in done
    ensures HasSpent(g, order + [tx], stack, stack + [tx], {}, reading)
  {
    var path, n := stack + [tx], |stack|;
    assert Members(order + [tx]) == Members(order) + {tx} && Members(path) == Members(stack) + {tx};
    assert Members(order + [tx]) + Members(stack) == Members(order) + Members(path);
    forall t, u | Edge(g, t, u)
      ensures IsLooked(Members(order + [tx]), path, {}, t, u) <==> IsLooked(Members(order), path, done, t, u)
    {
      if i :| 0 <= i < |path| && path[i] == t && IsPassed(path, {}, i, u) {
        assert IsPassed(path, done, i, u);
      }
      if i :| 0 <= i < |path| && path[i] == t && IsPassed(path, done, i, u) {
        assert i < n ==> IsPassed(path, {}, i, u);
      }
      if t == tx {
        assert path[n] == t && IsPassed(path, done, n, u);
      }
    }
    assert Looked(g, Members(order + [tx]), path, {}) == Looked(g, Members(order), path, done);
  }

  /** The cycle that is met first on the way is the first one. */
  lemma FoundIsClosing(g: Graph, order: seq<Tx>, path: seq<Tx>, j: nat)
    requires IsOnTheWay(g, order, path) && j < |path| && Edge(g, path[|path| - 1], path[j])
    requires BlockersAreDone(g, order, path[|path| - 1], path[j])
    ensures IsClosing(g, path, j)
  {
    LassoIsTrap(g, path, j);
    assert forall i :: 0 <= i < |path| ==> path[i] in Members(path);
    assert forall i :: 0 <= i < |path| ==> Cyclic(g, path[i]);
    forall v | Cyclic(g, v) ensures path[0] <= v {
      CyclicHasEdge(g, v);
      if v in order {
        VisitedIsNotCyclic(g, order, v);
      }
    }
    forall i | 0 <= i < |path| - 1 ensures StepsOn(g, path, i) {
      assert PassedAreDone(g, order, path, i);
      DoneIsLeast(g, order, path[i], path[i + 1]);
    }
    DoneIsLeast(g, order, path[|path| - 1], path[j]);
  }

  lemma DoneIsLeast(g: Graph, order: seq<Tx>, t: Tx, u: Tx)
    requires IsClosedOrder(g, order) && Edge(g, t, u) && Cyclic(g, u) && BlockersAreDone(g, order, t, u)
    ensures LeastBlocker(g, t, u)
  {
    forall v | Edge(g, t, v) && Cyclic(g, v) ensures u <= v {
      if v in order {
        VisitedIsNotCyclic(g, order, v);
      }
    }
  }

  lemma {:induction false} ReachedIsVisited(g: Graph, order: seq<Tx>, q: seq<Tx>)
    requires IsClosedOrder(g, order) && q != [] && IsPath(g, q) && q[0] in order
    ensures q[|q| - 1] in order
  {
    if |q| > 1 {
      var front := q[..|q| - 1];
      forall i | 0 <= i < |front| - 1 ensures Edge(g, front[i], front[i + 1]) {
        assert Edge(g, q[i], q[i + 1]);
      }
      ReachedIsVisited(g, order, front);
      var i :| 0 <= i < |order| && order[i] == q[|q| - 2];
      assert Edge(g, order[i], q[|q| - 1]) && StandsBefore(order, q[|q| - 1], i);
    }
  }

  /** When it is found, exactly the detours have been visited. */
  lemma VisitedAreEarly(g: Graph, order: seq<Tx>, path: seq<Tx>, j: nat)
    requires IsOnTheWay(g, order, path) && IsEarly(g, order) && IsClosing(g, path, j)
    requires BlockersAreDone(g, order, path[|path| - 1], path[j])
    ensures Members(order) == Early(g, path, j)
  {
    forall t | t in Early(g, path, j) ensures t in order {
      var q :| IsReached(g, path, j, q) && q[|q| - 1] == t;
      DetourIsVisited(g, order, path, j, q[0]);
      ReachedIsVisited(g, order, q);
    }
  }

  lemma DetourIsVisited(g: Graph, order: seq<Tx>, path: seq<Tx>, j: nat, s: Tx)
    requires IsOnTheWay(g, order, path) && j < |path| && IsDetour(g, path, j, s)
    requires BlockersAreDone(g, order, path[|path| - 1], path[j])
    ensures s in order
  {
    if i :| 0 <= i < |path| && Edge(g, path[i], s) && s < Onward(path, j, i) {
      if i + 1 < |path| {
        assert PassedAreDone(g, order, path, i);
      }
    }
  }

  lemma FoundTakesReadings(g: Graph, order: seq<Tx>, path: seq<Tx>, j: nat, done: set<Tx>, reading: nat)
    requires IsOnTheWay(g, order, path) && IsEarly(g, order) && IsClosing(g, path, j)
    requires BlockersAreDone(g, order, path[|path| - 1], path[j])
    requires HasSpent(g, order, path, path, done, reading)
    requires forall u: Tx :: Edge(g, path[|path| - 1], u) ==> (u in done <==> u <= path[j])
    ensures TakesReadings(g, reading)
  {
    VisitedAreEarly(g, order, path, j);
    var a, b, c := UpTo(g, path[0]), Members(order) + Members(path), Looked(g, Members(order), path, done);
    SameDone(g, Members(order), path, done, UpTo(g, path[j]));
    assert IsSearchTo(g, path, j, a, b, c);
    assert IsWholeSearch(g, a, b, c);
  }

  lemma SameDone(g: Graph, visited: set<Tx>, path: seq<Tx>, done: set<Tx>, other: set<Tx>)
    requires path != [] && forall u :: Edge(g, path[|path| - 1], u) ==> (u in done <==> u in other)
    ensures Looked(g, visited, path, done) == Looked(g, visited, path, other)
  {
    forall t, u | Edge(g, t, u) ensures IsLooked(visited, path, done, t, u) <==> IsLooked(visited, path, other, t, u) {
      if i :| 0 <= i < |path| && path[i] == t && IsPassed(path, done, i, u) {
        assert IsPassed(path, other, i, u);
      }
      if i :| 0 <= i < |path| && path[i] == t && IsPassed(path, other, i, u) {
        assert IsPassed(path, done, i, u);
      }
    }
  }

  // ---------------------------------------------------------------- the methods

  /** Where `t` stands on the stack. */
  function Position(stack: seq<Tx>, t: Tx): (i: nat)
    requires t in stack
    ensures i < |stack| && stack[i] == t
  {
    if stack[0] == t then 0 else 1 + Position(stack[1..], t)
  }

  ghost predicate Ascends(ids: seq<Tx>)
  {
    forall i, j :: 0 <= i < j < |ids| ==> ids[i] < ids[j]
  }

  /** The blockers of `tx` in their order. */
  ghost predicate AreBlockers(g: Graph, tx: Tx, blockers: seq<Tx>)
  {
    Ascends(blockers) && forall u :: u in blockers <==> Edge(g, tx, u)
  }

  lemma BlockersSoFar(g: Graph, tx: Tx, blockers: seq<Tx>, order: seq<Tx>, i: nat)
    requires AreBlockers(g, tx, blockers) && i < |blockers| && AllIn(blockers[..i], order)
    ensures Edge(g, tx, blockers[i]) && blockers[i] !in Members(blockers[..i])
    ensures Members(blockers[..i + 1]) == Members(blockers[..i]) + {blockers[i]}
    ensures forall u: Tx :: Edge(g, tx, u) ==> (u in Members(blockers[..i + 1]) <==> u <= blockers[i])
    ensures forall u :: u in Members(blockers[..i + 1]) ==> BlockersAreDone(g, order, tx, u)
  {
    var b := blockers[i];
    assert b in blockers;
    assert blockers[..i + 1] == blockers[..i] + [b];
    assert forall k :: 0 <= k < i ==> blockers[k] in blockers[..i];
    forall u: Tx | Edge(g, tx, u) ensures u in Members(blockers[..i + 1]) <==> u <= b {
      var k :| 0 <= k < |blockers| && blockers[k] == u;
      assert k <= i ==> blockers[..i + 1][k] == u;
    }
    forall u | u in Members(blockers[..i + 1]) ensures BlockersAreDone(g, order, tx, u) {
      var k :| 0 <= k <= i && blockers[k] == u;
      forall v: Tx | Edge(g, tx, v) && v < u ensures v in order {
        var l :| 0 <= l < |blockers| && blockers[l] == v;
      }
    }
  }

  /** The search is on its way along `path`, of which `stack` has been entered, and no reading has expired. */
  ghost predicate IsReady(g: Graph, states: map<Tx, Visit>, stack: seq<Tx>, path: seq<Tx>, order: seq<Tx>,
                          done: set<Tx>, expired: nat -> bool, reading: nat)
  {
    && IsHalfway(g, states, stack, path, order) && HasSpent(g, order, stack, path, done, reading)
    && NoneExpired(expired, reading)
  }

  ghost predicate HasFound(g: Graph, c: seq<Tx>, expired: nat -> bool, reading: nat)
  {
    IsFirstCycle(g, c) && TakesReadings(g, reading) && NoneExpired(expired, reading)
  }

  lemma Enter(g: Graph, states: map<Tx, Visit>, stack: seq<Tx>, order: seq<Tx>, tx: Tx, expired: nat -> bool,
              reading: nat)
    requires IsReady(g, states, stack, stack + [tx], order, {}, expired, reading) && tx in Nodes(g) && tx !in states
    ensures if expired(reading) then ExpiresInTime(g, expired)
            else IsReady(g, states[tx := Visiting], stack + [tx], stack + [tx], order, {}, expired, reading + 1)
  {
    if expired(reading) {
      EnterIsForeseen(g, states, stack, order, tx, reading);
    } else {
      PushOnTheWay(g, states, stack, order, tx);
      EnterCounts(g, order, stack, tx, reading);
    }
  }

  lemma Leave(g: Graph, states: map<Tx, Visit>, stack: seq<Tx>, order: seq<Tx>, tx: Tx, blockers: seq<Tx>,
              expired: nat -> bool, reading: nat)
    requires IsReady(g, states, stack + [tx], stack + [tx], order, Members(blockers), expired, reading)
    requires AreBlockers(g, tx, blockers) && forall u :: u in blockers ==> u in order
    ensures IsReady(g, states[tx := Visited], stack, stack + [tx], order + [tx], {}, expired, reading)
  {
    PopOnTheWay(g, states, stack, order, tx);
    PopCounts(g, order, stack, tx, Members(blockers), reading);
  }

  lemma PushOnTheWay(g: Graph, states: map<Tx, Visit>, stack: seq<Tx>, order: seq<Tx>, tx: Tx)
    requires IsHalfway(g, states, stack, stack + [tx], order) && tx in Nodes(g) && tx !in states
    ensures IsHalfway(g, states[tx := Visiting], stack + [tx], stack + [tx], order) && tx !in order && tx !in stack
  {
    var path := stack + [tx];
    if stack != [] {
      assert Edge(g, path[|stack| - 1], path[|stack|]);
    }
    Push(g, states, stack, order, tx);
  }

  lemma PopOnTheWay(g: Graph, states: map<Tx, Visit>, stack: seq<Tx>, order: seq<Tx>, tx: Tx)
    requires IsHalfway(g, states, stack + [tx], stack + [tx], order) && forall u :: Edge(g, tx, u) ==> u in order
    ensures IsHalfway(g, states[tx := Visited], stack, stack + [tx], order + [tx]) && tx !in order
  {
    var path := stack + [tx];
    assert path[|stack|] == tx && tx in path;
    Pop(g, states, stack, order, tx);
    PopIsEarly(g, order, stack, tx);
    OnTheWayLater(g, order, order + [tx], path, path);
  }

  /** What reading the clock for the edge to the next blocker does. */
  lemma Look(g: Graph, states: map<Tx, Visit>, path: seq<Tx>, order: seq<Tx>, tx: Tx, blockers: seq<Tx>, i: nat,
             expired: nat -> bool, reading: nat)
    requires path != [] && path[|path| - 1] == tx && AreBlockers(g, tx, blockers) && i < |blockers|
    requires IsReady(g, states, path, path, order, Members(blockers[..i]), expired, reading)
    requires AllIn(blockers[..i], order)
    ensures if expired(reading) then ExpiresInTime(g, expired)
            else IsReady(g, states, path, path, order, Members(blockers[..i + 1]), expired, reading + 1)
  {
    BlockersSoFar(g, tx, blockers, order, i);
    if expired(reading) {
      LookIsForeseen(g, states, path, order, Members(blockers[..i]), blockers[i], reading);
    } else {
      LookCounts(g, states, path, order, Members(blockers[..i]), blockers[i], reading);
    }
  }

  lemma GoOn(g: Graph, states: map<Tx, Visit>, path: seq<Tx>, order: seq<Tx>, tx: Tx, blockers: seq<Tx>, i: nat,
             expired: nat -> bool, reading: nat)
    requires path != [] && path[|path| - 1] == tx && AreBlockers(g, tx, blockers) && i < |blockers|
    requires IsReady(g, states, path, path, order, Members(blockers[..i + 1]), expired, reading)
    requires AllIn(blockers[..i], order) && blockers[i] !in states
    ensures IsReady(g, states, path, path + [blockers[i]], order, {}, expired, reading) && blockers[i] in Nodes(g)
  {
    BlockersSoFar(g, tx, blockers, order, i);
    OnTheWayOnward(g, order, path, blockers[i]);
    LookedOnward(g, Members(order), path, Members(blockers[..i + 1]), blockers[i]);
  }

  lemma ComeBack(g: Graph, states: map<Tx, Visit>, path: seq<Tx>, order: seq<Tx>, tx: Tx, blockers: seq<Tx>, i: nat,
                 expired: nat -> bool, reading: nat)
    requires path != [] && path[|path| - 1] == tx && AreBlockers(g, tx, blockers) && i < |blockers|
    requires IsReady(g, states, path, path + [blockers[i]], order, {}, expired, reading)
    requires AllIn(blockers[..i], order)
    ensures IsReady(g, states, path, path, order, Members(blockers[..i + 1]), expired, reading)
  {
    BlockersSoFar(g, tx, blockers, order, i);
    OnTheWayLater(g, order, order, path, path + [blockers[i]]);
    LookedOnward(g, Members(order), path, Members(blockers[..i + 1]), blockers[i]);
  }

  lemma MeetAgain(g: Graph, states: map<Tx, Visit>, path: seq<Tx>, order: seq<Tx>, tx: Tx, blockers: seq<Tx>, i: nat,
             expired: nat -> bool, reading: nat, start: nat)
    requires path != [] && path[|path| - 1] == tx && AreBlockers(g, tx, blockers) && i < |blockers|
    requires IsReady(g, states, path, path, order, Members(blockers[..i + 1]), expired, reading)
    requires AllIn(blockers[..i], order) && start < |path| && path[start] == blockers[i]
    ensures HasFound(g, path[start..], expired, reading)
  {
    BlockersSoFar(g, tx, blockers, order, i);
    assert blockers[i] in Members(blockers[..i + 1]);
    FoundIsClosing(g, order, path, start);
    FoundTakesReadings(g, order, path, start, Members(blockers[..i + 1]), reading);
  }

  lemma StatesOfReady(g: Graph, states: map<Tx, Visit>, path: seq<Tx>, order: seq<Tx>, done: set<Tx>,
                      expired: nat -> bool, reading: nat)
    requires IsReady(g, states, path, path, order, done, expired, reading)
    ensures forall t :: t in states && states[t] == Visiting ==> t in path
    ensures forall t :: t in states && states[t] == Visited ==> t in order
    ensures states.Keys <= Nodes(g)
  {
  }

  /** Visit `tx` and everything it waits for, directly or not, that has not been seen. */
  method DfsCycleFrom(g: Graph, tx: Tx, states: map<Tx, Visit>, stack: seq<Tx>, expired: nat -> bool, reading: nat,
                      ghost order: seq<Tx>)
    returns (r: Outcome, states': map<Tx, Visit>, reading': nat, ghost order': seq<Tx>)
    requires IsReady(g, states, stack, stack + [tx], order, {}, expired, reading) && tx in Nodes(g) && tx !in states
    ensures r.CycleFound? ==> HasFound(g, r.participants, expired, reading')
    ensures r.TimedOut? ==> ExpiresInTime(g, expired)
    ensures r.NoCycle? ==> IsReady(g, states', stack, stack + [tx], order', {}, expired, reading')
    ensures r.NoCycle? ==> order <= order' && tx in order' && states.Keys <= states'.Keys
    decreases Nodes(g) - states.Keys, 0
  {
    Enter(g, states, stack, order, tx, expired, reading);
    if expired(reading) {
      return TimedOut, states, reading + 1, order;
    }
    var blockers := BlockersFor(g, tx);
    r, states', reading', order' :=
      VisitBlockers(g, tx, blockers, states[tx := Visiting], stack + [tx], expired, reading + 1, order);
    if !r.NoCycle? {
      return;
    }
    Leave(g, states', stack, order', tx, blockers, expired, reading');
    return NoCycle, states'[tx := Visited], reading', order' + [tx];
  }

  /** The blockers of a transaction in deterministic order. */
  method BlockersFor(g: Graph, tx: Tx) returns (blockers: seq<Tx>)
    ensures AreBlockers(g, tx, blockers)
  {
    blockers := Ascending(if tx in g then g[tx] else {});
  }

  /** The loop over the blockers of the transaction on top of the stack. */
  method VisitBlockers(g: Graph, tx: Tx, blockers: seq<Tx>, states: map<Tx, Visit>, path: seq<Tx>, expired: nat -> bool,
                       reading: nat, ghost order: seq<Tx>)
    returns (r: Outcome, states': map<Tx, Visit>, reading': nat, ghost order': seq<Tx>)
    requires path != [] && path[|path| - 1] == tx && AreBlockers(g, tx, blockers)
    requires IsReady(g, states, path, path, order, {}, expired, reading)
    ensures r.CycleFound? ==> HasFound(g, r.participants, expired, reading')
    ensures r.TimedOut? ==> ExpiresInTime(g, expired)
    ensures r.NoCycle? ==> IsReady(g, states', path, path, order', Members(blockers), expired, reading')
    ensures r.NoCycle? ==> order <= order' && states.Keys <= states'.Keys && forall u :: u in blockers ==> u in order'
    decreases Nodes(g) - states.Keys, 2
  {
    states', reading', order' := states, reading, order;
    assert Members(blockers[..0]) == {};
    for i := 0 to |blockers|
      invariant IsReady(g, states', path, path, order', Members(blockers[..i]), expired, reading')
      invariant order <= order' && states.Keys <= states'.Keys && AllIn(blockers[..i], order')
    {
      r, states', reading', order' := VisitBlocker(g, tx, blockers, i, states', path, expired, reading', order');
      if !r.NoCycle? {
        return;
      }
    }
    assert blockers[..|blockers|] == blockers;
    return NoCycle, states', reading', order';
  }

  ghost predicate AllIn(some: seq<Tx>, order: seq<Tx>)
  {
    forall u :: u in some ==> u in order
  }

  /** One turn of that loop: a reading, and what the state of the blocker asks for. */
  method VisitBlocker(g: Graph, tx: Tx, blockers: seq<Tx>, i: nat, states: map<Tx, Visit>, path: seq<Tx>,
                      expired: nat -> bool, reading: nat, ghost order: seq<Tx>)
    returns (r: Outcome, states': map<Tx, Visit>, reading': nat, ghost order': seq<Tx>)
    requires path != [] && path[|path| - 1] == tx && AreBlockers(g, tx, blockers) && i < |blockers|
    requires IsReady(g, states, path, path, order, Members(blockers[..i]), expired, reading)
    requires AllIn(blockers[..i], order)
    ensures r.CycleFound? ==> HasFound(g, r.participants, expired, reading')
    ensures r.TimedOut? ==> ExpiresInTime(g, expired)
    ensures r.NoCycle? ==> IsReady(g, states', path, path, order', Members(blockers[..i + 1]), expired, reading')
    ensures r.NoCycle? ==> order <= order' && states.Keys <= states'.Keys && AllIn(blockers[..i + 1], order')
    decreases Nodes(g) - states.Keys, 1
  {
    var blocking := blockers[i];
    Look(g, states, path, order, tx, blockers, i, expired, reading);
    if expired(reading) {
      return TimedOut, states, reading + 1, order;
    }
    StatesOfReady(g, states, path, order, Members(blockers[..i + 1]), expired, reading + 1);
    assert blockers[..i + 1] == blockers[..i] + [blocking];
    if blocking !in states {
      GoOn(g, states, path, order, tx, blockers, i, expired, reading + 1);
      r, states', reading', order' := DfsCycleFrom(g, blocking, states, path, expired, reading + 1, order);
      if r.NoCycle? {
        AllStayIn(blockers[..i], order, order');
        ComeBack(g, states', path, order', tx, blockers, i, expired, reading');
      }
    } else if states[blocking] == Visiting {
      var start := Position(path, blocking);
      MeetAgain(g, states, path, order, tx, blockers, i, expired, reading + 1, start);
      return CycleFound(path[start..]), states, reading + 1, order;
    } else {
      return NoCycle, states, reading + 1, order;
    }
  }

  lemma AllStayIn(some: seq<Tx>, order: seq<Tx>, order': seq<Tx>)
    requires AllIn(some, order) && order <= order'
    ensures AllIn(some, order')
  {
  }

  // ---------------------------------------------------------------- the whole search

  ghost predicate AreNodes(g: Graph, ids: seq<Tx>)
  {
    Ascends(ids) && forall t :: t in ids <==> t in Nodes(g)
  }

  /** The search is done with the first `i` transactions and what they reach. */
  ghost predicate IsDoneWith(g: Graph, ids: seq<Tx>, i: nat, states: map<Tx, Visit>, order: seq<Tx>,
                             expired: nat -> bool, reading: nat)
  {
    && i <= |ids| && Searching(g, states, [], order) && IsEarly(g, order)
    && (forall k :: 0 <= k < i ==> ids[k] in order)
    && reading == i + |Members(order)| + |Looked(g, Members(order), [], {})| && NoneExpired(expired, reading)
  }

  lemma LookedAtStart(g: Graph, visited: set<Tx>, t: Tx)
    ensures Looked(g, visited, [t], {}) == Looked(g, visited, [], {})
  {
    assert forall x, u :: !IsLooked({}, [t], {}, x, u);
    assert forall x, u :: !IsLooked({}, [], {}, x, u);
    forall x, u ensures IsLooked(visited, [t], {}, x, u) <==> IsLooked(visited, [], {}, x, u) {
      assert IsLooked(visited, [t], {}, x, u) <==> x in visited || IsLooked({}, [t], {}, x, u);
      assert IsLooked(visited, [], {}, x, u) <==> x in visited || IsLooked({}, [], {}, x, u);
    }
  }

  lemma {:induction false} CountMembers(ids: seq<Tx>)
    requires Ascends(ids)
    ensures |Members(ids)| == |ids|
  {
    if ids != [] {
      var n := |ids| - 1;
      CountMembers(ids[..n]);
      assert Members(ids) == Members(ids[..n]) + {ids[n]} && ids[n] !in ids[..n];
    }
  }

  lemma StartsCount(g: Graph, ids: seq<Tx>, i: nat)
    requires AreNodes(g, ids) && i < |ids|
    ensures UpTo(g, ids[i]) == Members(ids[..i + 1]) && |UpTo(g, ids[i])| == i + 1
    ensures Members(ids[..i]) <= UpTo(g, ids[i]) && ids[i] in UpTo(g, ids[i]) - Members(ids[..i])
    ensures |Members(ids[..i])| == i && ids[i] in Nodes(g)
  {
    assert ids[i] in ids;
    forall t | t in UpTo(g, ids[i]) ensures t in ids[..i + 1] {
      var k :| 0 <= k < |ids| && ids[k] == t;
      assert ids[..i + 1][k] == t;
    }
    forall t | t in ids[..i + 1] ensures t in UpTo(g, ids[i]) {
      var k :| 0 <= k < i + 1 && ids[k] == t;
      assert ids[k] in ids;
    }
    assert UpTo(g, ids[i]) == Members(ids[..i + 1]);
    assert ids[..i + 1] == ids[..i] + [ids[i]];
    CountMembers(ids[..i + 1]);
    CountMembers(ids[..i]);
  }

  lemma RootIsOnTheWay(g: Graph, ids: seq<Tx>, i: nat, order: seq<Tx>)
    requires AreNodes(g, ids) && i < |ids| && IsClosedOrder(g, order) && forall k :: 0 <= k < i ==> ids[k] in order
    ensures IsOnTheWay(g, order, [ids[i]])
  {
    assert ids[i] in ids;
    forall x | x in Nodes(g) && x < ids[i] ensures x in order {
      var k :| 0 <= k < |ids| && ids[k] == x;
    }
  }

  lemma StartIsForeseen(g: Graph, ids: seq<Tx>, i: nat, states: map<Tx, Visit>, order: seq<Tx>, expired: nat -> bool,
                        reading: nat)
    requires AreNodes(g, ids) && i < |ids| && IsDoneWith(g, ids, i, states, order, expired, reading)
    ensures IsForeseen(g, reading)
  {
    var t := ids[i];
    RootIsOnTheWay(g, ids, i, order);
    StartsCount(g, ids, i);
    LookedAtStart(g, Members(order), t);
    var starts, looked := Members(ids[..i]), Looked(g, Members(order), [], {});
    forall a, b, c | IsWholeSearch(g, a, b, c)
      ensures starts <= a && Members(order) <= b && looked <= c && starts != a
    {
      WithinSearch(g, order, [t], {}, a, b, c);
    }
    PartIsForeseen(g, starts, Members(order), looked);
  }

  lemma Skip(g: Graph, ids: seq<Tx>, i: nat, states: map<Tx, Visit>, order: seq<Tx>, expired: nat -> bool, reading: nat)
    requires i < |ids| && IsDoneWith(g, ids, i, states, order, expired, reading) && !expired(reading)
    requires ids[i] in states
    ensures IsDoneWith(g, ids, i + 1, states, order, expired, reading + 1)
  {
    assert states[ids[i]] == Visited ==> ids[i] in order;
  }

  lemma Root(g: Graph, ids: seq<Tx>, i: nat, states: map<Tx, Visit>, order: seq<Tx>, expired: nat -> bool, reading: nat)
    requires AreNodes(g, ids) && i < |ids| && IsDoneWith(g, ids, i, states, order, expired, reading)
    requires !expired(reading)
    ensures IsReady(g, states, [], [] + [ids[i]], order, {}, expired, reading + 1) && ids[i] in Nodes(g)
  {
    RootIsOnTheWay(g, ids, i, order);
    RootCounts(g, ids, i, order, reading + 1);
    assert [] + [ids[i]] == [ids[i]];
  }

  lemma RootCounts(g: Graph, ids: seq<Tx>, i: nat, order: seq<Tx>, reading: nat)
    requires AreNodes(g, ids) && i < |ids|
    ensures ids[i] in Nodes(g)
    ensures HasSpent(g, order, [], [ids[i]], {}, reading) <==>
              reading == (i + 1) + |Members(order)| + |Looked(g, Members(order), [], {})|
  {
    StartsCount(g, ids, i);
    LookedAtStart(g, Members(order), ids[i]);
    assert Members(order) + Members([]) == Members(order);
  }

  lemma Return(g: Graph, ids: seq<Tx>, i: nat, before: seq<Tx>, states: map<Tx, Visit>, order: seq<Tx>,
               expired: nat -> bool, reading: nat)
    requires AreNodes(g, ids) && i < |ids| && IsReady(g, states, [], [] + [ids[i]], order, {}, expired, reading)
    requires ids[i] in order && before <= order && forall k :: 0 <= k < i ==> ids[k] in before
    ensures IsDoneWith(g, ids, i + 1, states, order, expired, reading)
  {
    RootCounts(g, ids, i, order, reading);
    assert [] + [ids[i]] == [ids[i]];
  }

  lemma Finish(g: Graph, ids: seq<Tx>, states: map<Tx, Visit>, order: seq<Tx>, expired: nat -> bool, reading: nat)
    requires AreNodes(g, ids) && IsDoneWith(g, ids, |ids|, states, order, expired, reading)
    ensures (forall t :: !Cyclic(g, t)) && TakesReadings(g, reading) && NoneExpired(expired, reading)
  {
    forall t | t in Nodes(g) ensures t in order && !Cyclic(g, t) {
      var k :| 0 <= k < |ids| && ids[k] == t;
      VisitedIsNotCyclic(g, order, t);
    }
    forall t ensures !Cyclic(g, t) {
      if Cyclic(g, t) {
        CyclicHasEdge(g, t);
      }
    }
    assert Members(order) == Nodes(g);
    assert Members(ids) == Nodes(g);
    CountMembers(ids);
    assert IsWholeSearch(g, Nodes(g), Nodes(g), Looked(g, Nodes(g), [], {}));
  }

  /** What the search answers: it is exactly determined by the graph and the clock. */
  ghost predicate IsOutcome(g: Graph, expired: nat -> bool, r: Outcome)
  {
    && (r.TimedOut? <==> exists k: nat :: k < Readings(g) && expired(k))
    && (r.CycleFound? ==> IsFirstCycle(g, r.participants))
    && (r.NoCycle? ==> forall t :: !Cyclic(g, t))
  }

  lemma TimeIsUp(g: Graph, expired: nat -> bool)
    requires ExpiresInTime(g, expired)
    ensures IsOutcome(g, expired, TimedOut)
  {
    var k: nat :| expired(k) && IsForeseen(g, k);
    assert k < Readings(g);
  }

  lemma TimeIsNotUp(g: Graph, expired: nat -> bool, reading: nat)
    requires TakesReadings(g, reading) && NoneExpired(expired, reading)
    ensures !exists k: nat :: k < Readings(g) && expired(k)
  {
    ReadingsAreUnique(g, reading, Readings(g));
  }

  /** There is one answer only. */
  lemma OutcomeIsUnique(g: Graph, expired: nat -> bool, r: Outcome, s: Outcome)
    requires IsOutcome(g, expired, r) && IsOutcome(g, expired, s)
    ensures r == s
  {
    if r.CycleFound? {
      FoundIsCyclic(g, r.participants);
    }
    if s.CycleFound? {
      FoundIsCyclic(g, s.participants);
    }
    if r.CycleFound? && s.CycleFound? {
      FirstCycleIsUnique(g, r.participants, s.participants);
    }
  }

  lemma FoundIsCyclic(g: Graph, c: seq<Tx>)
    requires IsFirstCycle(g, c)
    ensures exists t :: Cyclic(g, t)
  {
    var p, j :| IsClosing(g, p, j) && c == p[j..];
  }

  /**
   The search is exact: it answers with the first cycle if there is one, with none if nothing
   waits within itself, and with a timeout exactly if one of the readings it would take has expired.
   */
  method FindFirstCycle(g: Graph, expired: nat -> bool) returns (r: Outcome)
    ensures IsOutcome(g, expired, r)
  {
    var states: map<Tx, Visit> := map[];
    var reading := 0;
    ghost var order: seq<Tx> := [];
    var ids := Ascending(Nodes(g));
    NothingDone(g, ids, expired);
    for i := 0 to |ids|
      invariant IsDoneWith(g, ids, i, states, order, expired, reading)
    {
      reading := reading + 1;
      if expired(reading - 1) {
        StartIsForeseen(g, ids, i, states, order, expired, reading - 1);
        TimeIsUp(g, expired);
        return TimedOut;
      }
      if ids[i] in states {
        Skip(g, ids, i, states, order, expired, reading - 1);
        continue;
      }
      Root(g, ids, i, states, order, expired, reading - 1);
      ghost var before := order;
      r, states, reading, order := DfsCycleFrom(g, ids[i], states, [], expired, reading, order);
      if !r.NoCycle? {
        Stopped(g, expired, r, reading);
        return;
      }
      Return(g, ids, i, before, states, order, expired, reading);
    }
    Finish(g, ids, states, order, expired, reading);
    TimeIsNotUp(g, expired, reading);
    return NoCycle;
  }

  lemma NothingDone(g: Graph, ids: seq<Tx>, expired: nat -> bool)
    ensures IsDoneWith(g, ids, 0, map[], [], expired, 0)
  {
    assert Members([]) == {};
    assert Looked(g, {}, [], {}) == {};
  }

  lemma Stopped(g: Graph, expired: nat -> bool, r: Outcome, reading: nat)
    requires r.CycleFound? ==> HasFound(g, r.participants, expired, reading)
    requires r.TimedOut? ==> ExpiresInTime(g, expired)
    requires !r.NoCycle?
    ensures IsOutcome(g, expired, r)
  {
    if r.CycleFound? {
      TimeIsNotUp(g, expired, reading);
    } else {
      TimeIsUp(g, expired);
    }
  }
}
