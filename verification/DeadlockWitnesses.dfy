/**
 Two runs of the lock manager that show what the detector cannot promise: a
 deadlock without a cycle, and a cycle that another transaction dissolves.
 */
module DeadlockWitnesses {
  import opened Common
  import opened LockTable
  import opened LockManager
  import opened WaitGraphs
  import opened DeadlockDetection
  import opened Deadlocks

  // ---------------------------------------------------------------- a deadlock that is missed

  lemma UpgradeWaits(r: LockResource, a: Tx, b: Tx, h: LockHolder, v: LockWaiter, w: LockWaiter)
    requires a != b && h == LockHolder(a, Shared) && v == LockWaiter(b, Exclusive, 1) &&
              w == LockWaiter(a, Exclusive, 2)
    ensures Takes(State(map[r := LockEntry([h], [v])], 1), Step.Acquire(a, r, Exclusive),
                  State(map[r := LockEntry([h], [v, w])], 2))
  {
    var e := LockEntry([h], [v]);
    assert !Compatible(e.waiters[0].mode, Exclusive);
    assert AcquiresAt(State(map[r := e], 1), a, r, Exclusive,
                      Ok(WaitingUpgrade(2, Shared, Exclusive, Blockers([h], a, Exclusive))),
                      State(map[r := LockEntry([h], [v, w])], 2));
  }

  lemma OneEdgeIsNoTrap(g: Graph, a: Tx, b: Tx, d: set<Tx>)
    requires a != b && forall t, u :: Edge(g, t, u) ==> t == b && u == a
    ensures !IsTrap(g, d)
  {
    assert !WaitsWithin(g, d, a);
    if d != {} {
      var t :| t in d;
      assert WaitsWithin(g, d, t) ==> a in d;
    }
  }

  /** Two transactions and one resource suffice: a reads, b asks to write, a asks to upgrade. */
  lemma DeadlockIsMissed(r: LockResource, a: Tx, b: Tx)
    requires r.Valid() && a != 0 && b != 0 && a != b
    ensures var h, v, w := LockHolder(a, Shared), LockWaiter(b, Exclusive, 1), LockWaiter(a, Exclusive, 2);
            var states := [State(map[], 0), State(map[r := LockEntry([h], [])], 0),
                           State(map[r := LockEntry([h], [v])], 1),
                           State(map[r := LockEntry([h], [v, w])], 2)];
            var steps := [Step.Acquire(a, r, Shared), Step.Acquire(b, r, Exclusive), Step.Acquire(a, r, Exclusive)];
            && IsRun(states, steps)
            && FirmlyDeadlocked(states[3].table, {Request(r, v), Request(r, w)})
            && forall g :: IsGraphOf(g, states[3].table) ==> forall d :: !IsTrap(g, d)
  {
    var h, v, w := LockHolder(a, Shared), LockWaiter(b, Exclusive, 1), LockWaiter(a, Exclusive, 2);
    FirstIsGranted(r, h);
    OtherWaits(r, h, [], v);
    assert [] + [v] == [v];
    UpgradeWaits(r, a, b, h, v, w);
    RunOfThree(State(map[], 0), State(map[r := LockEntry([h], [])], 0), State(map[r := LockEntry([h], [v])], 1),
               State(map[r := LockEntry([h], [v, w])], 2),
               Step.Acquire(a, r, Shared), Step.Acquire(b, r, Exclusive), Step.Acquire(a, r, Exclusive));
    BothAreStuck(r, a, b, h, v, w);
    forall g, d | IsGraphOf(g, map[r := LockEntry([h], [v, w])]) ensures !IsTrap(g, d) {
      QueueGraph(r, a, b, h, v, w, g);
      OneEdgeIsNoTrap(g, a, b, d);
    }
  }

  lemma BothAreStuck(r: LockResource, a: Tx, b: Tx, h: LockHolder, v: LockWaiter, w: LockWaiter)
    requires a != b && h == LockHolder(a, Shared) && v == LockWaiter(b, Exclusive, 1) &&
              w == LockWaiter(a, Exclusive, 2)
    ensures FirmlyDeadlocked(map[r := LockEntry([h], [v, w])], {Request(r, v), Request(r, w)})
  {
    UpgradeBehindItsOwnLock(map[r := LockEntry([h], [v, w])], r, v, w, h);
  }

  lemma QueueGraph(r: LockResource, a: Tx, b: Tx, h: LockHolder, v: LockWaiter, w: LockWaiter, g: Graph)
    requires a != b && h == LockHolder(a, Shared) && v.tx == b && w.tx == a &&
              IsGraphOf(g, map[r := LockEntry([h], [v, w])])
    ensures forall t, u :: Edge(g, t, u) ==> t == b && u == a
  {
    forall t, u | Edge(g, t, u) ensures t == b && u == a {
      assert WaitsFor(LockEntry([h], [v, w]), t, u);
    }
  }

  // ---------------------------------------------------------------- a deadlock that is dissolved

  /** The queue of the first resource while four transactions come and go. */
  ghost function Crowd(z: Tx, y: Tx, t: Tx): LockEntry
  {
    LockEntry([LockHolder(z, Shared)],
              [LockWaiter(y, Exclusive, 1), LockWaiter(t, Shared, 2), LockWaiter(t, IntentExclusive, 3)])
  }

  ghost function Readers(z: Tx, t: Tx, waiters: seq<LockWaiter>): LockEntry
  {
    LockEntry([LockHolder(z, Shared), LockHolder(t, Shared)], waiters)
  }

  ghost function Writers(t: Tx, u: Tx): LockEntry
  {
    LockEntry([LockHolder(t, IntentExclusive), LockHolder(u, IntentExclusive)], [])
  }

  /** When the writer goes, one of the two requests of `t` is granted. */
  lemma WriterGoes(z: Tx, y: Tx, t: Tx)
    requires z != y && y != t && z != t
    ensures AfterRelease(Crowd(z, y, t), y) == Readers(z, t, [LockWaiter(t, IntentExclusive, 3)])
  {
    var e := Crowd(z, y, t);
    var s, i := LockWaiter(t, Shared, 2), LockWaiter(t, IntentExclusive, 3);
    assert HoldersWithout(e.holders[1..], y) == [];
    assert e.waiters[1..] == [s, i] && [s, i][1..] == [i] && [i][1..] == [];
    assert WaitersWithout([i], y) == [i] && WaitersWithout([s, i], y) == [s, i];
    var rest := LockEntry(e.holders, [s, i]);
    assert Without(e, y) == rest;
    PromoteFront(rest);
    assert Hold(rest.holders, s) == Readers(z, t, []).holders;
    assert Blocks(Readers(z, t, [i]).holders[0], t, IntentExclusive);
  }

  /** When the reader goes, the other request of `t` is granted, loosens its lock and lets `u` in. */
  lemma ReaderGoes(z: Tx, t: Tx, u: Tx)
    requires z != t && t != u && z != u
    ensures AfterRelease(Readers(z, t, [LockWaiter(t, IntentExclusive, 3), LockWaiter(u, IntentExclusive, 4)]), z) ==
              Writers(t, u)
  {
    var i, j := LockWaiter(t, IntentExclusive, 3), LockWaiter(u, IntentExclusive, 4);
    var e := Readers(z, t, [i, j]);
    assert e.holders[1..] == [LockHolder(t, Shared)] && [LockHolder(t, Shared)][1..] == [];
    assert HoldersWithout([LockHolder(t, Shared)], z) == [LockHolder(t, Shared)];
    assert [i, j][1..] == [j] && [j][1..] == [];
    assert WaitersWithout([j], z) == [j] && WaitersWithout([i, j], z) == [i, j];
    var rest := LockEntry([LockHolder(t, Shared)], [i, j]);
    assert Without(e, z) == rest;
    PromoteFront(rest);
    assert Hold(rest.holders, i) == [LockHolder(t, IntentExclusive)];
    PromoteFront(LockEntry([LockHolder(t, IntentExclusive)], [j]));
    assert Hold([LockHolder(t, IntentExclusive)], j) == Writers(t, u).holders;
  }

  lemma ThirdReads(r: LockResource, z: Tx, y: Tx, t: Tx)
    requires z != y && y != t && z != t
    ensures var h, x, s := LockHolder(z, Shared), LockWaiter(y, Exclusive, 1), LockWaiter(t, Shared, 2);
            Takes(State(map[r := LockEntry([h], [x])], 1), Step.Acquire(t, r, Shared),
                  State(map[r := LockEntry([h], [x, s])], 2))
  {
    var h, x, s := LockHolder(z, Shared), LockWaiter(y, Exclusive, 1), LockWaiter(t, Shared, 2);
    var e := LockEntry([h], [x]);
    assert !Compatible(e.waiters[0].mode, Shared);
    Queues(State(map[r := e], 1), r, e, s);
    assert [x] + [s] == [x, s];
    assert map[r := e][r := LockEntry([h], [x, s])] == map[r := LockEntry([h], [x, s])];
  }

  lemma SecondRequest(r: LockResource, z: Tx, y: Tx, t: Tx)
    requires z != y && y != t && z != t
    ensures var h, x, s := LockHolder(z, Shared), LockWaiter(y, Exclusive, 1), LockWaiter(t, Shared, 2);
            Takes(State(map[r := LockEntry([h], [x, s])], 2), Step.Acquire(t, r, IntentExclusive),
                  State(map[r := Crowd(z, y, t)], 3))
  {
    var h, x, s, i := LockHolder(z, Shared), LockWaiter(y, Exclusive, 1), LockWaiter(t, Shared, 2),
        LockWaiter(t, IntentExclusive, 3);
    OtherWaits(r, h, [x, s], i);
    assert [x, s] + [i] == [x, s, i];
  }

  lemma WriterStep(r: LockResource, z: Tx, y: Tx, t: Tx)
    requires z != y && y != t && z != t
    ensures Takes(State(map[r := Crowd(z, y, t)], 3), Step.Release(y, r),
                  State(map[r := Readers(z, t, [LockWaiter(t, IntentExclusive, 3)])], 3))
  {
    WriterGoes(z, y, t);
    var f := Readers(z, t, [LockWaiter(t, IntentExclusive, 3)]);
    assert map[r := Crowd(z, y, t)][r := f] == map[r := f];
  }

  lemma ThirdWaits(r: LockResource, z: Tx, t: Tx, u: Tx)
    requires z != t && t != u && z != u
    ensures var i, j := LockWaiter(t, IntentExclusive, 3), LockWaiter(u, IntentExclusive, 4);
            Takes(State(map[r := Readers(z, t, [i])], 3), Step.Acquire(u, r, IntentExclusive),
                  State(map[r := Readers(z, t, [i, j])], 4))
  {
    var i, j := LockWaiter(t, IntentExclusive, 3), LockWaiter(u, IntentExclusive, 4);
    var e := Readers(z, t, [i]);
    assert Blocks(e.holders[0], u, IntentExclusive);
    Queues(State(map[r := e], 3), r, e, j);
    assert [i] + [j] == [i, j];
    assert map[r := e][r := Readers(z, t, [i, j])] == map[r := Readers(z, t, [i, j])];
  }

  lemma OtherResource(r: LockResource, q: LockResource, e: LockEntry, t: Tx, u: Tx)
    requires r != q && t != u
    ensures var h, w := LockHolder(u, Exclusive), LockWaiter(t, Shared, 5);
            && Takes(State(map[r := e], 4), Step.Acquire(u, q, Exclusive),
                     State(map[r := e, q := LockEntry([h], [])], 4))
            && Takes(State(map[r := e, q := LockEntry([h], [])], 4), Step.Acquire(t, q, Shared),
                     State(map[r := e, q := LockEntry([h], [w])], 5))
  {
    var h, w := LockHolder(u, Exclusive), LockWaiter(t, Shared, 5);
    Passes(State(map[r := e], 4), q, NO_LOCKS, h);
    assert [] + [h] == [h];
    assert map[r := e][q := LockEntry([h], [])] == map[r := e, q := LockEntry([h], [])];
    var f := LockEntry([h], []);
    assert Blocks(f.holders[0], t, Shared);
    Queues(State(map[r := e, q := f], 4), q, f, w);
    assert [] + [w] == [w];
    assert map[r := e, q := f][q := LockEntry([h], [w])] == map[r := e, q := LockEntry([h], [w])];
  }

  lemma ReaderStep(r: LockResource, q: LockResource, z: Tx, t: Tx, u: Tx, f: LockEntry)
    requires r != q && z != t && t != u && z != u
    ensures var e := Readers(z, t, [LockWaiter(t, IntentExclusive, 3), LockWaiter(u, IntentExclusive, 4)]);
            Takes(State(map[r := e, q := f], 5), Step.Release(z, r), State(map[r := Writers(t, u), q := f], 5))
  {
    ReaderGoes(z, t, u);
    var e := Readers(z, t, [LockWaiter(t, IntentExclusive, 3), LockWaiter(u, IntentExclusive, 4)]);
    assert map[r := e, q := f][r := Writers(t, u)] == map[r := Writers(t, u), q := f];
  }

  /** Four transactions on two resources. */
  ghost predicate Cast(r: LockResource, q: LockResource, z: Tx, y: Tx, t: Tx, u: Tx)
  {
    && r.Valid() && q.Valid() && r != q && 0 !in {z, y, t, u}
    && z != y && z != t && z != u && y != t && y != u && t != u
  }

  ghost function Story(r: LockResource, q: LockResource, z: Tx, y: Tx, t: Tx, u: Tx): seq<State>
  {
    var h, x, s := LockHolder(z, Shared), LockWaiter(y, Exclusive, 1), LockWaiter(t, Shared, 2);
    var i, j := LockWaiter(t, IntentExclusive, 3), LockWaiter(u, IntentExclusive, 4);
    var k, w := LockHolder(u, Exclusive), LockWaiter(t, Shared, 5);
    [State(map[], 0), State(map[r := LockEntry([h], [])], 0), State(map[r := LockEntry([h], [x])], 1),
     State(map[r := LockEntry([h], [x, s])], 2), State(map[r := Crowd(z, y, t)], 3),
     State(map[r := Readers(z, t, [i])], 3), State(map[r := Readers(z, t, [i, j])], 4),
     State(map[r := Readers(z, t, [i, j]), q := LockEntry([k], [])], 4),
     State(map[r := Readers(z, t, [i, j]), q := LockEntry([k], [w])], 5),
     State(map[r := Writers(t, u), q := LockEntry([k], [w])], 5)]
  }

  ghost function StorySteps(r: LockResource, q: LockResource, z: Tx, y: Tx, t: Tx, u: Tx): seq<Step>
  {
    [Step.Acquire(z, r, Shared), Step.Acquire(y, r, Exclusive), Step.Acquire(t, r, Shared),
     Step.Acquire(t, r, IntentExclusive), Step.Release(y, r), Step.Acquire(u, r, IntentExclusive),
     Step.Acquire(u, q, Exclusive), Step.Acquire(t, q, Shared), Step.Release(z, r)]
  }

  lemma StoryStep(r: LockResource, q: LockResource, z: Tx, y: Tx, t: Tx, u: Tx, k: nat)
    requires Cast(r, q, z, y, t, u) && k < 9
    ensures StepAt(Story(r, q, z, y, t, u), StorySteps(r, q, z, y, t, u), k)
  {
    if k < 3 {
      Opening(r, q, z, y, t, u, k);
    } else if k < 6 {
      Middle(r, q, z, y, t, u, k);
    } else {
      Ending(r, q, z, y, t, u, k);
    }
  }

  lemma Opening(r: LockResource, q: LockResource, z: Tx, y: Tx, t: Tx, u: Tx, k: nat)
    requires Cast(r, q, z, y, t, u) && k < 3
    ensures StepAt(Story(r, q, z, y, t, u), StorySteps(r, q, z, y, t, u), k)
  {
    if k == 0 {
      FirstIsGranted(r, LockHolder(z, Shared));
    } else if k == 1 {
      OtherWaits(r, LockHolder(z, Shared), [], LockWaiter(y, Exclusive, 1));
      assert [] + [LockWaiter(y, Exclusive, 1)] == [LockWaiter(y, Exclusive, 1)];
    } else {
      ThirdReads(r, z, y, t);
    }
  }

  lemma Middle(r: LockResource, q: LockResource, z: Tx, y: Tx, t: Tx, u: Tx, k: nat)
    requires Cast(r, q, z, y, t, u) && 3 <= k < 6
    ensures StepAt(Story(r, q, z, y, t, u), StorySteps(r, q, z, y, t, u), k)
  {
    if k == 3 {
      SecondRequest(r, z, y, t);
    } else if k == 4 {
      WriterStep(r, z, y, t);
    } else {
      ThirdWaits(r, z, t, u);
    }
  }

  lemma Ending(r: LockResource, q: LockResource, z: Tx, y: Tx, t: Tx, u: Tx, k: nat)
    requires Cast(r, q, z, y, t, u) && 6 <= k < 9
    ensures StepAt(Story(r, q, z, y, t, u), StorySteps(r, q, z, y, t, u), k)
  {
    if k < 8 {
      OtherResource(r, q, Readers(z, t, [LockWaiter(t, IntentExclusive, 3), LockWaiter(u, IntentExclusive, 4)]), t, u);
    } else {
      ReaderStep(r, q, z, t, u, LockEntry([LockHolder(u, Exclusive)], [LockWaiter(t, Shared, 5)]));
    }
  }

  /** The circle: `t` waits for `u` on the second resource, `u` for `t` on the first one. */
  lemma CircleInGraph(r: LockResource, q: LockResource, z: Tx, t: Tx, u: Tx, g: Graph)
    requires r != q && z != t && t != u && z != u
    requires var e := Readers(z, t, [LockWaiter(t, IntentExclusive, 3), LockWaiter(u, IntentExclusive, 4)]);
             IsGraphOf(g, map[r := e, q := LockEntry([LockHolder(u, Exclusive)], [LockWaiter(t, Shared, 5)])])
    ensures IsCycle(g, [t, u])
  {
    var j, w := LockWaiter(u, IntentExclusive, 4), LockWaiter(t, Shared, 5);
    var e, f := Readers(z, t, [LockWaiter(t, IntentExclusive, 3), j]), LockEntry([LockHolder(u, Exclusive)], [w]);
    var table := map[r := e, q := f];
    assert LockHolder(t, Shared) in e.holders && BlockedBy(e.holders, j, t) && j in e.waiters &&
           WaitsFor(table[r], u, t);
    assert LockHolder(u, Exclusive) in f.holders && BlockedBy(f.holders, w, u) && w in f.waiters &&
           WaitsFor(table[q], t, u);
    assert Edge(g, t, u) && Edge(g, u, t);
  }

  lemma NoCircleLeft(r: LockResource, q: LockResource, t: Tx, u: Tx, g: Graph, d: set<Tx>)
    requires r != q && t != u
    requires IsGraphOf(g,
                       map[r := Writers(t, u), q := LockEntry([LockHolder(u, Exclusive)], [LockWaiter(t, Shared, 5)])])
    ensures !IsTrap(g, d)
  {
    forall a, b | Edge(g, a, b) ensures a == t && b == u {
    }
    OneEdgeIsNoTrap(g, u, t, d);
  }

  /**
   One call of a transaction outside can dissolve a reported deadlock: z and t read r, t
   also asks to write there, u waits for t on r and t for u on q. When z releases r, the second
   request of t replaces its lock by a weaker one, and u goes on.
   */
  lemma DeadlockCanDissolve(r: LockResource, q: LockResource, z: Tx, y: Tx, t: Tx, u: Tx)
    requires Cast(r, q, z, y, t, u)
    ensures var states := Story(r, q, z, y, t, u);
            && IsRun(states, StorySteps(r, q, z, y, t, u))
            && (forall g :: IsGraphOf(g, states[8].table) ==> IsCycle(g, [t, u]))
            && (forall g :: IsGraphOf(g, states[9].table) ==> forall d :: !IsTrap(g, d))
  {
    forall k | 0 <= k < 9 ensures StepAt(Story(r, q, z, y, t, u), StorySteps(r, q, z, y, t, u), k) {
      StoryStep(r, q, z, y, t, u, k);
    }
    forall g | IsGraphOf(g, Story(r, q, z, y, t, u)[8].table) ensures IsCycle(g, [t, u]) {
      CircleInGraph(r, q, z, t, u, g);
    }
    forall g, d | IsGraphOf(g, Story(r, q, z, y, t, u)[9].table) ensures !IsTrap(g, d) {
      NoCircleLeft(r, q, t, u, g, d);
    }
  }
}
