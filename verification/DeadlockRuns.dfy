/**
 What becomes of a deadlock: which requests the other transactions can never
 help, what a release does to them, and how often a victim has to be chosen.
 */
module DeadlockRuns {
  import opened Common
  import opened LockTable
  import opened LockManager
  import opened LockRuns
  import opened WaitGraphs
  import opened DeadlockDetection
  import opened Deadlocks
  import opened TableDetection

  // ---------------------------------------------------------------- a queue without the others

  /** The locks of the transactions in `d`. */
  ghost function HoldersOf(holders: seq<LockHolder>, d: set<Tx>): seq<LockHolder>
  {
    if holders == [] then []
    else if holders[0].tx in d then [holders[0]] + HoldersOf(holders[1..], d)
    else HoldersOf(holders[1..], d)
  }

  /** The requests of the transactions in `d`. */
  ghost function WaitersOf(waiters: seq<LockWaiter>, d: set<Tx>): seq<LockWaiter>
  {
    if waiters == [] then []
    else if waiters[0].tx in d then [waiters[0]] + WaitersOf(waiters[1..], d)
    else WaitersOf(waiters[1..], d)
  }

  ghost function Only(e: LockEntry, d: set<Tx>): LockEntry
  {
    LockEntry(HoldersOf(e.holders, d), WaitersOf(e.waiters, d))
  }

  /** What is left of the queue when every transaction outside `d` has given up its records. */
  ghost function Remainder(e: LockEntry, d: set<Tx>): LockEntry
  {
    Promote(Only(e, d))
  }

  lemma {:induction false} HoldersOfMeans(holders: seq<LockHolder>, d: set<Tx>)
    ensures forall h :: h in HoldersOf(holders, d) <==> h in holders && h.tx in d
  {
    if holders != [] {
      HoldersOfMeans(holders[1..], d);
      assert holders == [holders[0]] + holders[1..];
    }
  }

  lemma {:induction false} WaitersOfMeans(waiters: seq<LockWaiter>, d: set<Tx>)
    ensures forall w :: w in WaitersOf(waiters, d) <==> w in waiters && w.tx in d
  {
    if waiters != [] {
      WaitersOfMeans(waiters[1..], d);
      assert waiters == [waiters[0]] + waiters[1..];
    }
  }

  lemma {:induction false} HoldersOfConcat(a: seq<LockHolder>, b: seq<LockHolder>, d: set<Tx>)
    ensures HoldersOf(a + b, d) == HoldersOf(a, d) + HoldersOf(b, d)
  {
    if a == [] {
      assert a + b == b;
    } else {
      HoldersOfConcat(a[1..], b, d);
      assert (a + b)[1..] == a[1..] + b;
    }
  }

  lemma {:induction false} WaitersOfAppend(waiters: seq<LockWaiter>, w: LockWaiter, d: set<Tx>)
    requires w.tx !in d
    ensures WaitersOf(waiters + [w], d) == WaitersOf(waiters, d)
  {
    if waiters == [] {
      assert [w][1..] == [];
    } else {
      WaitersOfAppend(waiters[1..], w, d);
      assert (waiters + [w])[1..] == waiters[1..] + [w];
    }
  }

  lemma HoldersOfOne(h: LockHolder, d: set<Tx>)
    ensures HoldersOf([h], d) == if h.tx in d then [h] else []
  {
    assert [h][1..] == [];
  }

  lemma HoldersOfMiddle(a: seq<LockHolder>, h: LockHolder, b: seq<LockHolder>, d: set<Tx>)
    ensures HoldersOf(a + ([h] + b), d) == HoldersOf(a, d) + ((if h.tx in d then [h] else []) + HoldersOf(b, d))
  {
    HoldersOfConcat(a, [h] + b, d);
    HoldersOfConcat([h], b, d);
    HoldersOfOne(h, d);
  }

  lemma UpdateIsNotNoticed(holders: seq<LockHolder>, i: nat, h: LockHolder, d: set<Tx>)
    requires i < |holders| && holders[i].tx == h.tx && h.tx !in d
    ensures HoldersOf(holders[i := h], d) == HoldersOf(holders, d)
  {
    var a, b := holders[..i], holders[i + 1..];
    assert holders[i := h] == a + ([h] + b) && holders == a + ([holders[i]] + b);
    HoldersOfMiddle(a, h, b, d);
    HoldersOfMiddle(a, holders[i], b, d);
  }

  lemma {:induction false} FindBehind(a: seq<LockHolder>, h: LockHolder, b: seq<LockHolder>)
    requires forall k :: k in a ==> k.tx != h.tx
    ensures Find(a + ([h] + b), h.tx) == |a|
  {
    if a == [] {
      assert a + ([h] + b) == [h] + b;
    } else {
      FindBehind(a[1..], h, b);
      assert (a + ([h] + b))[1..] == a[1..] + ([h] + b);
    }
  }

  /** A promotion on top of the record `h`, with others on both sides of it. */
  lemma HoldAt(a: seq<LockHolder>, h: LockHolder, b: seq<LockHolder>, w: LockWaiter)
    requires h.tx == w.tx && forall k :: k in a ==> k.tx != h.tx
    ensures Hold(a + ([h] + b), w) == a + ([LockHolder(w.tx, Converted(h.mode, w.mode))] + b)
  {
    var all, k := a + ([h] + b), LockHolder(w.tx, Converted(h.mode, w.mode));
    FindBehind(a, h, b);
    assert all[|a|] == h;
    assert all[|a| := k] == a + ([k] + b);
    assert all[|a| := h] == all;
  }

  /** A promotion is the same with and without the others, and one of theirs is not noticed. */
  lemma HoldWithoutOthers(holders: seq<LockHolder>, w: LockWaiter, d: set<Tx>)
    ensures HoldersOf(Hold(holders, w), d) ==
              if w.tx in d then Hold(HoldersOf(holders, d), w) else HoldersOf(holders, d)
  {
    var i, h := Find(holders, w.tx), LockHolder(w.tx, w.mode);
    if i == |holders| {
      HoldersOfConcat(holders, [h], d);
      HoldersOfOne(h, d);
      HoldersOfMeans(holders, d);
      NotFound(HoldersOf(holders, d), w.tx);
    } else {
      ConvertedWithoutOthers(holders, holders[..i], holders[i], holders[i + 1..], w, d);
    }
  }

  lemma NotFound(holders: seq<LockHolder>, t: Tx)
    requires forall h :: h in holders ==> h.tx != t
    ensures Find(holders, t) == |holders|
  {
  }

  lemma ConvertedWithoutOthers(holders: seq<LockHolder>, a: seq<LockHolder>, h: LockHolder, b: seq<LockHolder>,
                               w: LockWaiter, d: set<Tx>)
    requires holders == a + ([h] + b) && h.tx == w.tx && forall k :: k in a ==> k.tx != h.tx
    ensures HoldersOf(Hold(holders, w), d) ==
              if w.tx in d then Hold(HoldersOf(holders, d), w) else HoldersOf(holders, d)
  {
    HoldAt(a, h, b, w);
    HoldersOfMiddle(a, h, b, d);
    HoldersOfMiddle(a, LockHolder(w.tx, Converted(h.mode, w.mode)), b, d);
    if w.tx in d {
      HoldersOfMeans(a, d);
      HoldAt(HoldersOf(a, d), h, HoldersOf(b, d), w);
    }
  }

  lemma {:induction false} LeaverIsNotNoticed(e: LockEntry, tx: Tx, d: set<Tx>)
    requires tx !in d
    ensures Only(Without(e, tx), d) == Only(e, d)
    decreases |e.holders| + |e.waiters|
  {
    if e.holders != [] {
      LeaverIsNotNoticed(LockEntry(e.holders[1..], e.waiters), tx, d);
    } else if e.waiters != [] {
      LeaverIsNotNoticed(LockEntry(e.holders, e.waiters[1..]), tx, d);
    }
  }

  lemma FewerBlock(e: LockEntry, d: set<Tx>, w: LockWaiter)
    requires !IsBlocked(e.holders, w.tx, w.mode)
    ensures !IsBlocked(HoldersOf(e.holders, d), w.tx, w.mode)
  {
    HoldersOfMeans(e.holders, d);
    var hs := HoldersOf(e.holders, d);
    forall i | 0 <= i < |hs| ensures !Blocks(hs[i], w.tx, w.mode) {
      assert hs[i] in e.holders;
    }
  }

  /** Whatever a promotion does among all of them, it does among those in `d` alone, sooner or later. */
  lemma {:induction false} PromotionKeepsRemainder(e: LockEntry, d: set<Tx>)
    ensures Remainder(Promote(e), d) == Remainder(e, d)
    decreases |e.waiters|
  {
    if e.waiters != [] && !IsBlocked(e.holders, e.waiters[0].tx, e.waiters[0].mode) {
      var f := e.waiters[0];
      var next := LockEntry(Hold(e.holders, f), e.waiters[1..]);
      PromotionKeepsRemainder(next, d);
      HoldWithoutOthers(e.holders, f, d);
      if f.tx in d {
        FewerBlock(e, d, f);
        PromoteFront(Only(e, d));
        assert Only(e, d).waiters[1..] == WaitersOf(next.waiters, d);
      }
    }
  }

  lemma ReleaseKeepsRemainder(e: LockEntry, tx: Tx, d: set<Tx>)
    requires tx !in d
    ensures Remainder(AfterRelease(e, tx), d) == Remainder(e, d)
  {
    LeaverIsNotNoticed(e, tx, d);
    PromotionKeepsRemainder(Without(e, tx), d);
  }

  lemma AcquireKeepsRemainder(e: LockEntry, last: nat, tx: Tx, mode: LockMode, answer: Answer, e': LockEntry,
                              last': nat, d: set<Tx>)
    requires Acquires(e, last, tx, mode, answer, e', last') && tx !in d
    ensures Only(e', d) == Only(e, d)
  {
    match answer
    case Ok(Granted) =>
      HoldersOfConcat(e.holders, [LockHolder(tx, mode)], d);
      HoldersOfOne(LockHolder(tx, mode), d);
    case Ok(Upgraded(previous, _)) =>
      var i :| 0 <= i < |e.holders| && e.holders[i] == LockHolder(tx, previous)
               && e' == LockEntry(e.holders[i := LockHolder(tx, mode)], e.waiters);
      UpdateIsNotNoticed(e.holders, i, LockHolder(tx, mode), d);
    case Ok(Waiting(sequence, _)) =>
      WaitersOfAppend(e.waiters, LockWaiter(tx, mode, sequence), d);
    case Ok(WaitingUpgrade(sequence, _, _, _)) =>
      WaitersOfAppend(e.waiters, LockWaiter(tx, mode, sequence), d);
    case _ =>
  }

  lemma StepKeepsRemainder(e: LockEntry, last: nat, s: Step, r: LockResource, e': LockEntry, last': nat, d: set<Tx>)
    requires StepsAt(e, last, s, r, e', last') && s.tx !in d
    ensures Remainder(e', d) == Remainder(e, d)
  {
    match s
    case Acquire(tx, q, mode) =>
      if q == r {
        var answer :| Acquires(e, last, tx, mode, answer, e', last');
        AcquireKeepsRemainder(e, last, tx, mode, answer, e', last', d);
      }
    case Release(tx, q) =>
      ReleaseKeepsRemainder(e, tx, d);
    case ReleaseAll(tx) =>
      ReleaseKeepsRemainder(e, tx, d);
  }

  // ---------------------------------------------------------------- runs of the others

  /** A run from `s` in which no transaction of `d` makes a call. */
  ghost predicate RunOfOthers(s: State, states: seq<State>, steps: seq<Step>, d: set<Tx>)
  {
    IsRun(states, steps) && states[0] == s && forall k :: 0 <= k < |steps| ==> steps[k].tx !in d
  }

  /** No run of the others changes what would be left without them. */
  lemma {:induction false} RunKeepsRemainder(s: State, states: seq<State>, steps: seq<Step>, d: set<Tx>,
                                             r: LockResource, k: nat)
    requires StateOk(s) && RunOfOthers(s, states, steps, d) && k < |states|
    ensures Remainder(EntryAt(states[k].table, r), d) == Remainder(EntryAt(s.table, r), d)
  {
    if k > 0 {
      RunKeepsRemainder(s, states, steps, d, r, k - 1);
      RunStaysOk(states, steps, k - 1);
      assert StepAt(states, steps, k - 1);
      var a, b := states[k - 1], states[k];
      StepAtQueue(a, steps[k - 1], b, r);
      StepKeepsRemainder(EntryAt(a.table, r), a.last, steps[k - 1], r, EntryAt(b.table, r), b.last, d);
    }
  }

  lemma RemainderWaits(e: LockEntry, d: set<Tx>, w: LockWaiter)
    requires w in Remainder(e, d).waiters
    ensures w in e.waiters && w.tx in d
  {
    PromotionTakesAPrefix(Only(e, d));
    WaitersOfMeans(e.waiters, d);
  }

  /** The transactions that have a record. */
  ghost function Transactions(table: LockMap): set<Tx>
  {
    (set r, h | r in table && h in table[r].holders :: h.tx) + (set r, w | r in table && w in table[r].waiters :: w.tx)
  }

  /** Whoever has a record in the queue. */
  ghost predicate IsIn(e: LockEntry, t: Tx)
  {
    Holds(e.holders, t) || Waits(e.waiters, t)
  }

  lemma TransactionsMean(table: LockMap, t: Tx)
    ensures t in Transactions(table) <==> exists r :: r in table && IsIn(table[r], t)
  {
    if r :| r in table && IsIn(table[r], t) {
      if Holds(table[r].holders, t) {
        var i :| 0 <= i < |table[r].holders| && table[r].holders[i].tx == t;
        assert table[r].holders[i] in table[r].holders;
      } else {
        var i :| 0 <= i < |table[r].waiters| && table[r].waiters[i].tx == t;
        assert table[r].waiters[i] in table[r].waiters;
      }
    }
    if r, h :| r in table && h in table[r].holders && h.tx == t {
      assert IsIn(table[r], t);
    }
    if r, w :| r in table && w in table[r].waiters && w.tx == t {
      assert IsIn(table[r], t);
    }
  }

  lemma ReleaseAddsNobody(e: LockEntry, tx: Tx, t: Tx)
    requires IsIn(AfterRelease(e, tx), t)
    ensures IsIn(e, t) && t != tx
  {
    ReleasedIsGone(e, tx);
    var rest := Without(e, tx);
    if rest != e {
      PromotionConserves(rest, t);
      PromotionTakesAPrefix(rest);
      assert IsIn(rest, t);
      WithoutAddsNobody(e, tx, t);
    }
  }

  lemma WithoutAddsNobody(e: LockEntry, tx: Tx, t: Tx)
    requires IsIn(Without(e, tx), t)
    ensures IsIn(e, t)
  {
    var rest := Without(e, tx);
    HoldersWithoutMeans(e.holders, tx);
    WaitersWithoutMeans(e.waiters, tx);
    if Holds(rest.holders, t) {
      var i :| 0 <= i < |rest.holders| && rest.holders[i].tx == t;
      assert rest.holders[i] in e.holders;
    } else {
      var i :| 0 <= i < |rest.waiters| && rest.waiters[i].tx == t;
      assert rest.waiters[i] in e.waiters;
    }
  }

  /** Giving up everything takes the transaction out of the table, and brings nobody in. */
  lemma ReleaseRemoves(table: LockMap, tx: Tx)
    ensures Transactions(ReleasedAll(table, tx)) <= Transactions(table) - {tx}
  {
    var after := ReleasedAll(table, tx);
    forall t | t in Transactions(after) ensures t in Transactions(table) - {tx} {
      TransactionsMean(after, t);
      var r :| r in after && IsIn(after[r], t);
      ReleaseAddsNobody(table[r], tx, t);
      TransactionsMean(table, t);
    }
  }

  lemma NobodyElse(e: LockEntry, d: set<Tx>)
    requires forall t :: IsIn(e, t) ==> t in d
    ensures Only(e, d) == e
  {
    forall i | 0 <= i < |e.holders| ensures e.holders[i].tx in d {
      assert IsIn(e, e.holders[i].tx);
    }
    forall i | 0 <= i < |e.waiters| ensures e.waiters[i].tx in d {
      assert IsIn(e, e.waiters[i].tx);
    }
    AllHolders(e.holders, d);
    AllWaiters(e.waiters, d);
  }

  lemma {:induction false} AllHolders(holders: seq<LockHolder>, d: set<Tx>)
    requires forall i :: 0 <= i < |holders| ==> holders[i].tx in d
    ensures HoldersOf(holders, d) == holders
  {
    if holders != [] {
      AllHolders(holders[1..], d);
    }
  }

  lemma {:induction false} AllWaiters(waiters: seq<LockWaiter>, d: set<Tx>)
    requires forall i :: 0 <= i < |waiters| ==> waiters[i].tx in d
    ensures WaitersOf(waiters, d) == waiters
  {
    if waiters != [] {
      AllWaiters(waiters[1..], d);
    }
  }

  /** Without others in the table every queue is its own remainder: its front is blocked. */
  lemma AloneIsRemainder(s: State, d: set<Tx>, r: LockResource)
    requires StateOk(s) && Transactions(s.table) <= d
    ensures Remainder(EntryAt(s.table, r), d) == EntryAt(s.table, r)
  {
    var e := EntryAt(s.table, r);
    forall t | IsIn(e, t) ensures t in d {
      TransactionsMean(s.table, t);
    }
    NobodyElse(e, d);
    PromotedIsFinal(e);
  }

  /** One run of the others reaches what is left without them: all of them give up everything. */
  lemma {:induction false} OthersLeave(s: State, d: set<Tx>) returns (states: seq<State>, steps: seq<Step>)
    requires StateOk(s)
    ensures RunOfOthers(s, states, steps, d)
    ensures forall r :: EntryAt(states[|steps|].table, r) == Remainder(EntryAt(s.table, r), d)
    decreases Transactions(s.table) - d
  {
    if Transactions(s.table) <= d {
      states, steps := [s], [];
      forall r ensures EntryAt(s.table, r) == Remainder(EntryAt(s.table, r), d) {
        AloneIsRemainder(s, d, r);
      }
    } else {
      var t :| t in Transactions(s.table) && t !in d;
      var b := OneLeaves(s, t, d);
      var later, rest := OthersLeave(b, d);
      states, steps := [s] + later, [Step.ReleaseAll(t)] + rest;
      RunGrows(s, Step.ReleaseAll(t), b, later, rest, d);
    }
  }

  lemma OneLeaves(s: State, t: Tx, d: set<Tx>) returns (b: State)
    requires StateOk(s) && t in Transactions(s.table) && t !in d
    ensures Takes(s, Step.ReleaseAll(t), b) && StateOk(b)
    ensures Transactions(b.table) - d < Transactions(s.table) - d
    ensures forall r :: Remainder(EntryAt(b.table, r), d) == Remainder(EntryAt(s.table, r), d)
  {
    b := State(ReleasedAll(s.table, t), s.last);
    ReleaseRemoves(s.table, t);
    assert t in Transactions(s.table) - d && t !in Transactions(b.table) - d;
    StepKeepsStateOk(s, Step.ReleaseAll(t), b);
    forall r ensures Remainder(EntryAt(b.table, r), d) == Remainder(EntryAt(s.table, r), d) {
      StepAtQueue(s, Step.ReleaseAll(t), b, r);
      ReleaseKeepsRemainder(EntryAt(s.table, r), t, d);
    }
  }

  lemma RunGrows(s: State, step: Step, b: State, states: seq<State>, steps: seq<Step>, d: set<Tx>)
    requires Takes(s, step, b) && step.tx !in d && RunOfOthers(b, states, steps, d)
    ensures RunOfOthers(s, [s] + states, [step] + steps, d)
  {
    var all, calls := [s] + states, [step] + steps;
    forall k | 0 <= k < |calls| ensures StepAt(all, calls, k) && calls[k].tx !in d {
      if k > 0 {
        assert StepAt(states, steps, k - 1);
        assert all[k] == states[k - 1] && all[k + 1] == states[k] && calls[k] == steps[k - 1];
      }
    }
  }

  // ---------------------------------------------------------------- which requests wait for ever

  /** Whatever the others do, the request keeps waiting as long as the transactions of `d` make no call. */
  ghost predicate WaitsForEver(s: State, d: set<Tx>, r: LockResource, w: LockWaiter)
  {
    forall states: seq<State>, steps: seq<Step>, k: int {:trigger RunOfOthers(s, states, steps, d), states[k]} ::
      RunOfOthers(s, states, steps, d) && 0 <= k < |states| ==> w in EntryAt(states[k].table, r).waiters
  }

  /** Exactly those requests wait for ever that still wait when everybody else has gone. */
  lemma WaitsForEverExactly(s: State, d: set<Tx>, r: LockResource, w: LockWaiter)
    requires StateOk(s)
    ensures WaitsForEver(s, d, r, w) <==> w in Remainder(EntryAt(s.table, r), d).waiters
  {
    if w in Remainder(EntryAt(s.table, r), d).waiters {
      forall states: seq<State>, steps: seq<Step>, k: int | RunOfOthers(s, states, steps, d) && 0 <= k < |states|
          ensures w in EntryAt(states[k].table, r).waiters {
        RunKeepsRemainder(s, states, steps, d, r, k);
        RemainderWaits(EntryAt(states[k].table, r), d, w);
      }
    }
    if WaitsForEver(s, d, r, w) {
      var states, steps := OthersLeave(s, d);
      assert w in EntryAt(states[|steps|].table, r).waiters;
    }
  }

  /** The table when everybody outside `d` has gone. */
  ghost function Left(table: LockMap, d: set<Tx>): LockMap
  {
    map r | r in table :: Remainder(table[r], d)
  }

  lemma LeftAt(table: LockMap, d: set<Tx>, r: LockResource)
    ensures EntryAt(Left(table, d), r) == Remainder(EntryAt(table, r), d)
  {
    assert Only(NO_LOCKS, d) == NO_LOCKS;
  }

  ghost predicate LastsForEver(s: State, d: set<Request>)
  {
    forall q {:trigger q in d} :: q in d ==> WaitsForEver(s, Owners(d), q.resource, q.waiter)
  }

  /** The requests belong to a deadlock of the same transactions. */
  ghost predicate PartOfDeadlock(table: LockMap, d: set<Request>)
  {
    exists all :: d <= all && Owners(all) == Owners(d) && Deadlocked(table, all)
  }

  /**
   The exact condition for a deadlock to last: in every run of the others all its requests
   keep waiting if and only if they are deadlocked, alone or with other requests of the same
   transactions, once everybody else has gone.
   */
  lemma DeadlockLastsExactly(s: State, d: set<Request>)
    requires StateOk(s) && d != {}
    ensures LastsForEver(s, d) <==> PartOfDeadlock(Left(s.table, Owners(d)), d)
  {
    var left := Left(s.table, Owners(d));
    if LastsForEver(s, d) {
      var all := AllRequests(left);
      forall q | q in d ensures q in all {
        WaitsForEverExactly(s, Owners(d), q.resource, q.waiter);
        LeftAt(s.table, Owners(d), q.resource);
      }
      RemainderIsDeadlock(s, d, all);
    }
    if PartOfDeadlock(left, d) {
      var all :| d <= all && Owners(all) == Owners(d) && Deadlocked(left, all);
      forall q | q in d ensures WaitsForEver(s, Owners(d), q.resource, q.waiter) {
        assert q.waiter in RequestsAt(all, q.resource);
        assert HeldUp(EntryAt(left, q.resource), Owners(all), RequestsAt(all, q.resource));
        LeftAt(s.table, Owners(d), q.resource);
        WaitsForEverExactly(s, Owners(d), q.resource, q.waiter);
      }
    }
  }

  ghost function AllRequests(table: LockMap): set<Request>
  {
    set r, w | r in table && w in table[r].waiters :: Request(r, w)
  }

  lemma RemainderIsDeadlock(s: State, d: set<Request>, all: set<Request>)
    requires StateOk(s) && d != {} && d <= all && all == AllRequests(Left(s.table, Owners(d)))
    ensures Owners(all) == Owners(d) && Deadlocked(Left(s.table, Owners(d)), all)
  {
    var owners := Owners(d);
    var left := Left(s.table, owners);
    forall q | q in all ensures q.waiter.tx in owners {
      RemainderWaits(s.table[q.resource], owners, q.waiter);
    }
    assert Owners(all) == owners;
    forall r ensures HeldUp(EntryAt(left, r), owners, RequestsAt(all, r)) {
      AllRequestsAt(left, r);
      LeftAt(s.table, owners, r);
      LaterNumbersAreOk(NO_LOCKS, 0, s.last);
      RemainderIsHeldUp(EntryAt(s.table, r), s.last, owners, RequestsAt(all, r));
    }
  }

  lemma AllRequestsAt(table: LockMap, r: LockResource)
    ensures forall w :: w in RequestsAt(AllRequests(table), r) <==> w in EntryAt(table, r).waiters
  {
    forall w | w in EntryAt(table, r).waiters ensures w in RequestsAt(AllRequests(table), r) {
      assert Request(r, w) in AllRequests(table);
    }
  }

  lemma {:induction false} OnlyIsOk(e: LockEntry, last: nat, d: set<Tx>)
    requires Safe(e.holders) && Fifo(e.waiters, last)
    ensures Safe(HoldersOf(e.holders, d)) && Fifo(WaitersOf(e.waiters, d), last)
    decreases |e.holders| + |e.waiters|
  {
    if e.holders != [] {
      OnlyIsOk(LockEntry(e.holders[1..], e.waiters), last, d);
      HoldersOfMeans(e.holders[1..], d);
      SafePrepend(e.holders[0], HoldersOf(e.holders[1..], d), e.holders[1..]);
    } else if e.waiters != [] {
      SuffixIsFifo(e.waiters, 1, last);
      OnlyIsOk(LockEntry(e.holders, e.waiters[1..]), last, d);
      WaitersOfMeans(e.waiters[1..], d);
      var kept := WaitersOf(e.waiters[1..], d);
      forall j | 0 <= j < |kept| ensures e.waiters[0].sequence < kept[j].sequence {
        assert kept[j] in e.waiters[1..];
      }
      FifoPrepend(e.waiters[0], kept, last);
    }
  }

  lemma SafePrepend(h: LockHolder, kept: seq<LockHolder>, rest: seq<LockHolder>)
    requires Safe([h] + rest) && Safe(kept) && forall k :: k in kept ==> k in rest
    ensures Safe([h] + kept)
  {
    var all, some := [h] + rest, [h] + kept;
    forall j | 0 <= j < |kept| ensures h.tx != kept[j].tx && Compatible(h.mode, kept[j].mode) {
      assert kept[j] in rest;
      var i :| 0 <= i < |rest| && rest[i] == kept[j];
      assert all[0] == h && all[i + 1] == kept[j];
    }
  }

  /** Where only they are left, the front is kept out by one of them, and the others stand behind it. */
  lemma RemainderIsHeldUp(e: LockEntry, last: nat, owners: set<Tx>, ws: set<LockWaiter>)
    requires EntryOk(e, last) && forall w :: w in ws <==> w in Remainder(e, owners).waiters
    ensures HeldUp(Remainder(e, owners), owners, ws)
  {
    var only, rest := Only(e, owners), Remainder(e, owners);
    OnlyIsOk(e, last, owners);
    PromotionIsSafe(only);
    PromotionTakesAPrefix(only);
    SuffixIsFifo(only.waiters, |only.waiters| - |rest.waiters|, last);
    forall w | w in ws
        ensures w in rest.waiters && w.tx in owners && (HeldByLock(rest, owners, w) || HeldByQueue(ws, w)) {
      RemainderWaits(e, owners, w);
      if w == rest.waiters[0] {
        var i :| 0 <= i < |rest.holders| && Blocks(rest.holders[i], w.tx, w.mode);
        RemainderHolds(e, owners, rest.holders[i]);
        assert HeldByLock(rest, owners, w);
      } else {
        assert rest.waiters[0] in ws && rest.waiters[0].sequence < w.sequence;
      }
    }
  }

  lemma RemainderHolds(e: LockEntry, d: set<Tx>, h: LockHolder)
    requires h in Remainder(e, d).holders
    ensures h.tx in d
  {
    var only := Only(e, d);
    PromotionConserves(only, h.tx);
    HoldersOfMeans(e.holders, d);
    WaitersOfMeans(e.waiters, d);
    assert Holds(Remainder(e, d).holders, h.tx);
  }

  // ---------------------------------------------------------------- what a release frees

  ghost predicate Conflicts(mode: Option<LockMode>, w: LockWaiter)
  {
    mode.Some? && !Compatible(mode.value, w.mode)
  }

  /** What the release of `tx` leaves to `t`: what it held, converted by its promoted requests. */
  ghost function ModeAfter(e: LockEntry, tx: Tx, t: Tx): Option<LockMode>
  {
    var rest := Without(e, tx);
    var n := |rest.waiters| - |AfterRelease(e, tx).waiters|;
    if n < 0 then None else EndsWith(HeldMode(rest.holders, t), rest.waiters[..n], t)
  }

  lemma ReleaseConverts(e: LockEntry, last: nat, tx: Tx, t: Tx)
    requires EntryOk(e, last)
    ensures Safe(AfterRelease(e, tx).holders) && HeldMode(AfterRelease(e, tx).holders, t) == ModeAfter(e, tx, t)
  {
    var rest := Without(e, tx);
    if rest == e {
      PromotedIsFinal(e);
    }
    WithoutIsSafe(e.holders, tx);
    PromotionIsSafe(rest);
    PromotionConverts(rest, t);
  }

  /**
   The exact effect of a whole release on a request that is still waiting: it is freed of the
   locks of `owners` if and only if each of these transactions ends, with its promoted
   requests on top of what it held, in no mode that conflicts with the request.
   */
  lemma ReleaseFreesExactly(e: LockEntry, last: nat, tx: Tx, owners: set<Tx>, w: LockWaiter)
    requires EntryOk(e, last) && w in AfterRelease(e, tx).waiters
    ensures !HeldByLock(AfterRelease(e, tx), owners, w) <==>
              forall t :: t in owners && t != w.tx ==> !Conflicts(ModeAfter(e, tx, t), w)
  {
    forall t ensures HeldMode(AfterRelease(e, tx).holders, t) == ModeAfter(e, tx, t) {
      ReleaseConverts(e, last, tx, t);
    }
    ReleaseConverts(e, last, tx, w.tx);
    HeldByModes(AfterRelease(e, tx), owners, w);
  }

  lemma HeldByModes(e: LockEntry, owners: set<Tx>, w: LockWaiter)
    requires Safe(e.holders)
    ensures HeldByLock(e, owners, w) <==>
              exists t :: t in owners && t != w.tx && Conflicts(HeldMode(e.holders, t), w)
  {
    if h :| h in e.holders && h.tx in owners && Blocks(h, w.tx, w.mode) {
      HeldModeMeans(e.holders, h);
    }
    if t :| t in owners && t != w.tx && Conflicts(HeldMode(e.holders, t), w) {
      var h := LockHolder(t, HeldMode(e.holders, t).value);
      HeldModeMeans(e.holders, h);
      assert Blocks(h, w.tx, w.mode);
    }
  }

  // ---------------------------------------------------------------- one victim after the other

  /** In each round a transaction that is entangled with others gives up everything. */
  ghost predicate IsResolution(tables: seq<LockMap>, victims: seq<Tx>)
  {
    |tables| == |victims| + 1 && forall k :: 0 <= k < |victims| ==> IsRound(tables, victims, k)
  }

  ghost predicate IsRound(tables: seq<LockMap>, victims: seq<Tx>, k: nat)
    requires k < |victims| < |tables|
  {
    IsVictimOf(tables[k], victims[k]) && tables[k + 1] == ReleasedAll(tables[k], victims[k])
  }

  /** One of several transactions that keep each other out. */
  ghost predicate IsVictimOf(table: LockMap, v: Tx)
  {
    exists owners {:trigger Entangled(table, owners)} :: Entangled(table, owners) && v in owners
  }

  /** The victim that detection picks is one. */
  lemma DetectedVictim(table: LockMap, owners: set<Tx>, policy: VictimPolicy, orders: map<Tx, U64>, v: Tx)
    requires IsReport(table, owners) && IsVictim(policy, orders, owners, v)
    ensures IsVictimOf(table, v)
  {
  }

  lemma VictimHasRecord(table: LockMap, v: Tx)
    requires IsVictimOf(table, v)
    ensures v in Transactions(table)
  {
    var owners :| Entangled(table, owners) && v in owners;
    assert KeptOutIn(table, owners, v);
    var r :| r in table && KeptOut(table[r], owners, v);
    var x :| x in table[r].waiters && x.tx == v && HeldByLock(table[r], owners, x);
  }

  /** Every round takes a transaction out of the table, so there are at most as many as transactions. */
  lemma {:induction false} VictimsRunOut(tables: seq<LockMap>, victims: seq<Tx>, k: nat)
    requires IsResolution(tables, victims) && k <= |victims|
    ensures k + |Transactions(tables[k])| <= |Transactions(tables[0])|
  {
    if k > 0 {
      VictimsRunOut(tables, victims, k - 1);
      RoundShrinks(tables, victims, k - 1);
    }
  }

  lemma RoundShrinks(tables: seq<LockMap>, victims: seq<Tx>, k: nat)
    requires IsResolution(tables, victims) && k < |victims|
    ensures |Transactions(tables[k + 1])| < |Transactions(tables[k])|
  {
    assert IsRound(tables, victims, k);
    VictimHasRecord(tables[k], victims[k]);
    ReleaseRemoves(tables[k], victims[k]);
    SmallerSet(Transactions(tables[k + 1]), Transactions(tables[k]), victims[k]);
  }

  lemma SmallerSet(a: set<Tx>, b: set<Tx>, t: Tx)
    requires a <= b - {t} && t in b
    ensures |a| < |b|
  {
    assert b - {t} == a + ((b - {t}) - a);
  }

  /**
   Victims chosen one after the other, whichever way, resolve every deadlock that the detector
   sees: the rounds can go on as long as there is one, and they end.
   */
  lemma {:induction false} VictimsResolve(tables: seq<LockMap>, victims: seq<Tx>)
    returns (more: seq<LockMap>, chosen: seq<Tx>)
    requires IsResolution(tables, victims)
    ensures IsResolution(more, chosen) && tables <= more && victims <= chosen
    ensures |chosen| <= |Transactions(tables[0])|
    ensures forall owners :: !Entangled(more[|chosen|], owners)
    decreases |Transactions(tables[0])| - |victims|
  {
    var n := |victims|;
    VictimsRunOut(tables, victims, n);
    if owners :| Entangled(tables[n], owners) {
      var v :| v in owners;
      assert IsVictimOf(tables[n], v);
      ResolutionGrows(tables, victims, v);
      VictimHasRecord(tables[n], v);
      more, chosen := VictimsResolve(tables + [ReleasedAll(tables[n], v)], victims + [v]);
    } else {
      more, chosen := tables, victims;
    }
  }

  lemma ResolutionGrows(tables: seq<LockMap>, victims: seq<Tx>, v: Tx)
    requires IsResolution(tables, victims) && IsVictimOf(tables[|victims|], v)
    ensures IsResolution(tables + [ReleasedAll(tables[|victims|], v)], victims + [v])
  {
    var all, chosen := tables + [ReleasedAll(tables[|victims|], v)], victims + [v];
    forall k | 0 <= k < |chosen| ensures IsRound(all, chosen, k) {
      if k < |victims| {
        assert IsRound(tables, victims, k);
      }
    }
  }
}
