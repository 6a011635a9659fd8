/**
 What the lock manager and the deadlock detector do together: which requests
 hold each other up, when no other transaction can ever help them, and which
 of these deadlocks the detector sees.
 */
module Deadlocks {
  import opened Common
  import opened LockTable
  import opened LockManager
  import opened LockRuns
  import opened WaitGraphs
  import opened DeadlockDetection

  datatype Request = Request(resource: LockResource, waiter: LockWaiter)

  /** The transactions that make the requests. */
  ghost function Owners(d: set<Request>): set<Tx>
  {
    set q | q in d :: q.waiter.tx
  }

  /** The requests of `d` in one queue. */
  ghost function RequestsAt(d: set<Request>, r: LockResource): set<LockWaiter>
  {
    set q | q in d && q.resource == r :: q.waiter
  }

  /** A lock of a transaction in `owners` keeps the request out. */
  ghost predicate HeldByLock(e: LockEntry, owners: set<Tx>, w: LockWaiter)
  {
    exists h :: h in e.holders && h.tx in owners && Blocks(h, w.tx, w.mode)
  }

  /** A request of the set stands in front; the queue is served in order. */
  ghost predicate HeldByQueue(ws: set<LockWaiter>, w: LockWaiter)
  {
    exists v :: v in ws && v.sequence < w.sequence
  }

  /** Every request waits, and a lock of an owner or a request of the set holds it up. */
  ghost predicate HeldUp(e: LockEntry, owners: set<Tx>, ws: set<LockWaiter>)
  {
    forall w {:trigger w in ws} :: w in ws ==>
      w in e.waiters && w.tx in owners && (HeldByLock(e, owners, w) || HeldByQueue(ws, w))
  }

  /** Requests that wait for each other: none can be granted before another one is granted or withdrawn. */
  ghost predicate Deadlocked(table: LockMap, d: set<Request>)
  {
    d != {} && forall r {:trigger RequestsAt(d, r)} :: HeldUp(EntryAt(table, r), Owners(d), RequestsAt(d, r))
  }

  // ---------------------------------------------------------------- when nobody else can help

  /** A lock of an owner keeps the request out, and nothing that owner has queued in front of the request loosens it. */
  ghost predicate HeldFirmly(e: LockEntry, owners: set<Tx>, w: LockWaiter)
  {
    exists h :: h in e.holders && h.tx in owners && Blocks(h, w.tx, w.mode) && Firm(e, h.tx, w.sequence)
  }

  ghost predicate HeldUpFirmly(e: LockEntry, owners: set<Tx>, ws: set<LockWaiter>)
  {
    forall w {:trigger w in ws} :: w in ws ==>
      w in e.waiters && w.tx in owners && (HeldFirmly(e, owners, w) || HeldByQueue(ws, w))
  }

  ghost predicate FirmlyDeadlocked(table: LockMap, d: set<Request>)
  {
    d != {} && forall r {:trigger RequestsAt(d, r)} :: HeldUpFirmly(EntryAt(table, r), Owners(d), RequestsAt(d, r))
  }

  lemma FirmlyDeadlockedIsDeadlocked(table: LockMap, d: set<Request>)
    requires FirmlyDeadlocked(table, d)
    ensures Deadlocked(table, d)
  {
    forall r ensures HeldUp(EntryAt(table, r), Owners(d), RequestsAt(d, r)) {
      assert HeldUpFirmly(EntryAt(table, r), Owners(d), RequestsAt(d, r));
    }
  }

  /** The records of the transactions in `owners` are the same in both queues. */
  ghost predicate SameFor(e: LockEntry, f: LockEntry, owners: set<Tx>)
  {
    && (forall w: LockWaiter :: w.tx in owners ==> (w in e.waiters <==> w in f.waiters))
    && (forall h: LockHolder :: h.tx in owners ==> (h in e.holders <==> h in f.holders))
  }

  lemma SameHeldUp(e: LockEntry, f: LockEntry, owners: set<Tx>, ws: set<LockWaiter>)
    requires SameFor(e, f, owners) && HeldUpFirmly(e, owners, ws)
    ensures HeldUpFirmly(f, owners, ws)
  {
    forall w | w in ws ensures w in f.waiters && w.tx in owners && (HeldFirmly(f, owners, w) || HeldByQueue(ws, w)) {
      if HeldFirmly(e, owners, w) {
        var h :| h in e.holders && h.tx in owners && Blocks(h, w.tx, w.mode) && Firm(e, h.tx, w.sequence);
        SameFirm(e, f, owners, h.tx, w.sequence);
      }
    }
  }

  lemma SameFirm(e: LockEntry, f: LockEntry, owners: set<Tx>, t: Tx, limit: nat)
    requires SameFor(e, f, owners) && t in owners && Firm(e, t, limit)
    ensures Firm(f, t, limit)
  {
  }

  lemma AcquireSame(e: LockEntry, last: nat, tx: Tx, mode: LockMode, answer: Answer, e': LockEntry, last': nat,
                    owners: set<Tx>)
    requires Acquires(e, last, tx, mode, answer, e', last') && tx !in owners
    ensures SameFor(e, e', owners)
  {
    match answer
    case Ok(Upgraded(previous, _)) =>
      var i :| 0 <= i < |e.holders| && e.holders[i] == LockHolder(tx, previous)
               && e' == LockEntry(e.holders[i := LockHolder(tx, mode)], e.waiters);
      forall h: LockHolder | h.tx in owners ensures h in e.holders <==> h in e'.holders {
        UpdateMeans(e.holders, i, LockHolder(tx, mode), h);
      }
    case _ =>
  }

  lemma WithoutSame(e: LockEntry, tx: Tx, owners: set<Tx>)
    requires tx !in owners
    ensures SameFor(e, Without(e, tx), owners)
  {
    HoldersWithoutMeans(e.holders, tx);
    WaitersWithoutMeans(e.waiters, tx);
  }

  /** A held up request is never the one that is promoted. */
  lemma FrontIsFree(e: LockEntry, last: nat, owners: set<Tx>, ws: set<LockWaiter>)
    requires Fifo(e.waiters, last) && HeldUp(e, owners, ws) && e.waiters != []
    requires !IsBlocked(e.holders, e.waiters[0].tx, e.waiters[0].mode)
    ensures e.waiters[0] !in ws
  {
    var f := e.waiters[0];
    assert !HeldByLock(e, owners, f);
    assert !HeldByQueue(ws, f) by {
      assert forall v :: v in ws ==> v in e.waiters;
    }
  }

  lemma FirmIsHeldUp(e: LockEntry, owners: set<Tx>, ws: set<LockWaiter>)
    requires HeldUpFirmly(e, owners, ws)
    ensures HeldUp(e, owners, ws)
  {
  }

  /** One promotion in front of a firmly held request leaves it firmly held. */
  lemma PromotionKeepsHeld(e: LockEntry, last: nat, owners: set<Tx>, w: LockWaiter)
    requires Safe(e.holders) && Fifo(e.waiters, last) && HeldFirmly(e, owners, w)
    requires e.waiters != [] && e.waiters[0].sequence < w.sequence
    ensures HeldFirmly(LockEntry(Hold(e.holders, e.waiters[0]), e.waiters[1..]), owners, w)
  {
    var h :| h in e.holders && h.tx in owners && Blocks(h, w.tx, w.mode) && Firm(e, h.tx, w.sequence);
    HoldKeepsFirm(e, last, h.tx, w.sequence);
    HoldKeepsAtLeast(e, h.tx, w.sequence, h.mode);
    var k :| k in Hold(e.holders, e.waiters[0]) && k.tx == h.tx && AtLeast(k.mode, h.mode);
    StrongerBlocks(h, k, w);
  }

  lemma StrongerBlocks(h: LockHolder, k: LockHolder, w: LockWaiter)
    requires Blocks(h, w.tx, w.mode) && k.tx == h.tx && AtLeast(k.mode, h.mode)
    ensures Blocks(k, w.tx, w.mode)
  {
    MatrixMeans(h.mode, w.mode);
    MatrixMeans(k.mode, w.mode);
  }

  /** No promotion grants a request that is firmly held up, or frees it. */
  lemma {:induction false} PromotionKeepsHeldUp(e: LockEntry, last: nat, owners: set<Tx>, ws: set<LockWaiter>)
    requires Safe(e.holders) && Fifo(e.waiters, last) && HeldUpFirmly(e, owners, ws)
    ensures HeldUpFirmly(Promote(e), owners, ws)
    decreases |e.waiters|
  {
    if e.waiters != [] && !IsBlocked(e.holders, e.waiters[0].tx, e.waiters[0].mode) {
      var f := e.waiters[0];
      var next := LockEntry(Hold(e.holders, f), e.waiters[1..]);
      FirmIsHeldUp(e, owners, ws);
      FrontIsFree(e, last, owners, ws);
      assert e.waiters == [f] + next.waiters;
      forall w | w in ws ensures w in next.waiters && w.tx in owners &&
          (HeldFirmly(next, owners, w) || HeldByQueue(ws, w)) {
        assert w in next.waiters;
        if HeldFirmly(e, owners, w) {
          PromotionKeepsHeld(e, last, owners, w);
        }
      }
      HoldKeepsSafe(e.holders, f);
      SuffixIsFifo(e.waiters, 1, last);
      PromotionKeepsHeldUp(next, last, owners, ws);
    }
  }

  lemma ReleaseKeepsHeldUp(e: LockEntry, last: nat, tx: Tx, owners: set<Tx>, ws: set<LockWaiter>)
    requires EntryOk(e, last) && HeldUpFirmly(e, owners, ws) && tx !in owners
    ensures HeldUpFirmly(AfterRelease(e, tx), owners, ws)
  {
    var rest := Without(e, tx);
    if rest != e {
      WithoutSame(e, tx, owners);
      SameHeldUp(e, rest, owners, ws);
      WithoutIsSafe(e.holders, tx);
      WithoutIsFifo(e.waiters, tx, last);
      PromotionKeepsHeldUp(rest, last, owners, ws);
    }
  }

  lemma StepKeepsHeldUp(e: LockEntry, last: nat, s: Step, r: LockResource, e': LockEntry, last': nat, owners: set<Tx>,
                        ws: set<LockWaiter>)
    requires EntryOk(e, last) && StepsAt(e, last, s, r, e', last') && HeldUpFirmly(e, owners, ws) && s.tx !in owners
    ensures HeldUpFirmly(e', owners, ws)
  {
    match s
    case Acquire(tx, q, mode) =>
      if q == r {
        var answer :| Acquires(e, last, tx, mode, answer, e', last');
        AcquireSame(e, last, tx, mode, answer, e', last', owners);
        SameHeldUp(e, e', owners, ws);
      }
    case Release(tx, q) =>
      ReleaseKeepsHeldUp(e, last, tx, owners, ws);
    case ReleaseAll(tx) =>
      ReleaseKeepsHeldUp(e, last, tx, owners, ws);
  }

  lemma StepKeepsDeadlock(a: State, s: Step, b: State, d: set<Request>)
    requires StateOk(a) && FirmlyDeadlocked(a.table, d) && Takes(a, s, b) && s.tx !in Owners(d)
    ensures FirmlyDeadlocked(b.table, d)
  {
    forall r ensures HeldUpFirmly(EntryAt(b.table, r), Owners(d), RequestsAt(d, r)) {
      StepAtQueue(a, s, b, r);
      StepKeepsHeldUp(EntryAt(a.table, r), a.last, s, r, EntryAt(b.table, r), b.last, Owners(d), RequestsAt(d, r));
    }
  }

  ghost predicate OthersOnly(steps: seq<Step>, d: set<Request>)
  {
    forall k :: 0 <= k < |steps| ==> steps[k].tx !in Owners(d)
  }

  /**
   A firm deadlock lasts: in every run in which its owners make no call, whatever the others
   do and however many other requests the owners have, every request of it keeps waiting.
   */
  lemma {:induction false} DeadlockLasts(states: seq<State>, steps: seq<Step>, d: set<Request>, k: nat)
    requires IsRun(states, steps) && StateOk(states[0]) && FirmlyDeadlocked(states[0].table, d) && k < |states|
    requires OthersOnly(steps, d)
    ensures FirmlyDeadlocked(states[k].table, d) && Deadlocked(states[k].table, d)
    ensures forall q :: q in d ==> q.waiter in EntryAt(states[k].table, q.resource).waiters
  {
    if k > 0 {
      DeadlockLasts(states, steps, d, k - 1);
      RunStaysOk(states, steps, k - 1);
      assert StepAt(states, steps, k - 1);
      StepKeepsDeadlock(states[k - 1], steps[k - 1], states[k], d);
    }
    FirmlyDeadlockedIsDeadlocked(states[k].table, d);
    AllWait(states[k].table, d);
  }

  lemma AllWait(table: LockMap, d: set<Request>)
    requires FirmlyDeadlocked(table, d)
    ensures forall q :: q in d ==> q.waiter in EntryAt(table, q.resource).waiters
  {
    forall q | q in d ensures q.waiter in EntryAt(table, q.resource).waiters {
      assert q.waiter in RequestsAt(d, q.resource);
    }
  }

  // ---------------------------------------------------------------- when somebody else can

  /**
   The exact effect of one promotion on a request that locks of `owners` keep out: it is
   freed if and only if the promotion loosens the one lock that keeps it out, to a mode that
   goes together with the request.
   */
  lemma PromotionFreesExactly(e: LockEntry, owners: set<Tx>, w: LockWaiter)
    requires Safe(e.holders) && HeldByLock(e, owners, w) && e.waiters != []
    ensures var f := e.waiters[0];
            !HeldByLock(LockEntry(Hold(e.holders, f), e.waiters[1..]), owners, w) <==>
              exists h :: h in e.holders && h.tx == f.tx && Loosens(h.mode, f.mode) && Compatible(f.mode, w.mode)
                          && forall k :: k in e.holders && k.tx in owners && Blocks(k, w.tx, w.mode) ==> k == h
  {
    var f := e.waiters[0];
    var next := LockEntry(Hold(e.holders, f), e.waiters[1..]);
    var h :| h in e.holders && h.tx in owners && Blocks(h, w.tx, w.mode);
    if k :| k in e.holders && k.tx in owners && Blocks(k, w.tx, w.mode) && k.tx != f.tx {
      HoldMeans(e.holders, f, k);
      assert HeldByLock(next, owners, w);
    } else {
      OnlyOneBlocks(e.holders, f.tx, h);
      RecordAfter(e.holders, f, h);
      ModeStrength(h.mode, f.mode);
      MatrixMeans(h.mode, w.mode);
      MatrixMeans(Converted(h.mode, f.mode), w.mode);
      ConvertedFrees(h.mode, f.mode, w.mode);
      OthersDoNotBlock(e, f, owners, w);
    }
  }

  lemma OnlyOneBlocks(holders: seq<LockHolder>, t: Tx, h: LockHolder)
    requires Safe(holders) && h in holders && h.tx == t
    ensures forall k :: k in holders && k.tx == t ==> k == h
  {
  }

  lemma RecordAfter(holders: seq<LockHolder>, f: LockWaiter, h: LockHolder)
    requires Safe(holders) && h in holders && h.tx == f.tx
    ensures forall k: LockHolder :: k.tx == f.tx ==> (k in Hold(holders, f) <==> k.mode == Converted(h.mode, f.mode))
  {
    forall k: LockHolder | k.tx == f.tx ensures k in Hold(holders, f) <==> k.mode == Converted(h.mode, f.mode) {
      HoldMeans(holders, f, k);
    }
  }

  lemma ConvertedFrees(held: LockMode, requested: LockMode, w: LockMode)
    requires !Compatible(held, w)
    ensures Compatible(Converted(held, requested), w) <==> Loosens(held, requested) && Compatible(requested, w)
  {
  }

  lemma OthersDoNotBlock(e: LockEntry, f: LockWaiter, owners: set<Tx>, w: LockWaiter)
    requires Safe(e.holders) && forall k :: k in e.holders && k.tx in owners && Blocks(k, w.tx, w.mode) ==> k.tx == f.tx
    ensures forall k :: k in Hold(e.holders, f) && k.tx in owners && Blocks(k, w.tx, w.mode) ==> k.tx == f.tx
  {
    forall k | k in Hold(e.holders, f) && k.tx in owners && Blocks(k, w.tx, w.mode) ensures k.tx == f.tx {
      HoldMeans(e.holders, f, k);
    }
  }

  // ---------------------------------------------------------------- what the detector sees

  /** The graph that the snapshot of the table gives. */
  ghost predicate IsGraphOf(g: Graph, table: LockMap)
  {
    forall t, u :: Edge(g, t, u) <==> exists r :: r in table && WaitsFor(table[r], t, u)
  }

  /** The requests of `owners` that locks of `owners` keep out. */
  ghost function Caught(table: LockMap, owners: set<Tx>): set<Request>
  {
    set r, w | r in table && w in table[r].waiters && w.tx in owners && HeldByLock(table[r], owners, w) :: Request(r, w)
  }

  /** Transactions that wait within themselves in the graph have deadlocked requests, each of them one. */
  lemma TrapIsDeadlock(table: LockMap, g: Graph, owners: set<Tx>)
    requires IsGraphOf(g, table) && IsTrap(g, owners)
    ensures Owners(Caught(table, owners)) == owners && Deadlocked(table, Caught(table, owners))
  {
    var d := Caught(table, owners);
    forall t | t in owners ensures t in Owners(d) {
      EachIsCaught(table, g, owners, t);
    }
    assert Owners(d) == owners;
    forall r ensures HeldUp(EntryAt(table, r), Owners(d), RequestsAt(d, r)) {
      forall w | w in RequestsAt(d, r)
          ensures w in EntryAt(table, r).waiters && HeldByLock(EntryAt(table, r), owners, w) {
        assert Request(r, w) in d;
      }
    }
    var t :| t in owners;
    assert t in Owners(d);
  }

  lemma EachIsCaught(table: LockMap, g: Graph, owners: set<Tx>, t: Tx)
    requires IsGraphOf(g, table) && IsTrap(g, owners) && t in owners
    ensures t in Owners(Caught(table, owners))
  {
    assert WaitsWithin(g, owners, t);
    var u :| u in owners && Edge(g, t, u);
    var r :| r in table && WaitsFor(table[r], t, u);
    var w :| w in table[r].waiters && w.tx == t && BlockedBy(table[r].holders, w, u);
    assert HeldByLock(table[r], owners, w);
    assert Request(r, w) in Caught(table, owners);
  }

  /** If no owner has queued anything that loosens its locks, what the graph shows is a firm deadlock. */
  lemma FirmTrapIsFirm(s: State, g: Graph, owners: set<Tx>)
    requires StateOk(s) && IsGraphOf(g, s.table) && IsTrap(g, owners)
    requires AllFirm(s, owners)
    ensures FirmlyDeadlocked(s.table, Caught(s.table, owners)) && Owners(Caught(s.table, owners)) == owners
  {
    TrapIsDeadlock(s.table, g, owners);
    var d := Caught(s.table, owners);
    forall r ensures HeldUpFirmly(EntryAt(s.table, r), owners, RequestsAt(d, r)) {
      CaughtFirmly(s, owners, r);
    }
  }

  /** No owner has queued anything that loosens what it holds, or asked for earlier, on any resource. */
  ghost predicate AllFirm(s: State, owners: set<Tx>)
  {
    forall r, t {:trigger Firm(s.table[r], t, s.last)} :: r in s.table && t in owners ==> Firm(s.table[r], t, s.last)
  }

  lemma CaughtFirmly(s: State, owners: set<Tx>, r: LockResource)
    requires StateOk(s) && AllFirm(s, owners)
    ensures HeldUpFirmly(EntryAt(s.table, r), owners, RequestsAt(Caught(s.table, owners), r))
  {
    var ws := RequestsAt(Caught(s.table, owners), r);
    forall w | w in ws ensures w in EntryAt(s.table, r).waiters && w.tx in owners &&
        HeldFirmly(EntryAt(s.table, r), owners, w) {
      assert Request(r, w) in Caught(s.table, owners);
      LockHoldsFirmly(s.table[r], s.last, owners, w);
    }
  }

  lemma LockHoldsFirmly(e: LockEntry, last: nat, owners: set<Tx>, w: LockWaiter)
    requires Fifo(e.waiters, last) && w in e.waiters && HeldByLock(e, owners, w)
    requires forall t :: t in owners ==> Firm(e, t, last)
    ensures HeldFirmly(e, owners, w)
  {
    var h :| h in e.holders && h.tx in owners && Blocks(h, w.tx, w.mode);
    assert Firm(e, h.tx, last) && w.sequence <= last;
  }

  /**
   The report of a cycle whose members asked firmly stays true: in every run of the others
   each member keeps waiting for a lock of another member.
   */
  lemma ReportedDeadlockLasts(states: seq<State>, steps: seq<Step>, g: Graph, c: seq<Tx>, k: nat)
    requires IsRun(states, steps) && StateOk(states[0]) && k < |states|
    requires IsGraphOf(g, states[0].table) && IsClosedWalk(g, c)
    requires AllFirm(states[0], Members(c)) && OthersOnly(steps, Caught(states[0].table, Members(c)))
    ensures var d := Caught(states[0].table, Members(c));
            Owners(d) == Members(c) && FirmlyDeadlocked(states[k].table, d)
  {
    CycleIsFirm(states[0], g, c);
    DeadlockLasts(states, steps, Caught(states[0].table, Members(c)), k);
  }

  lemma CycleIsFirm(s: State, g: Graph, c: seq<Tx>)
    requires StateOk(s) && IsGraphOf(g, s.table) && IsClosedWalk(g, c) && AllFirm(s, Members(c))
    ensures var d := Caught(s.table, Members(c)); Owners(d) == Members(c) && FirmlyDeadlocked(s.table, d)
  {
    ClosedWalkIsTrap(g, c);
    FirmTrapIsFirm(s, g, Members(c));
  }

  // ---------------------------------------------------------------- queues the detector can see through

  /** A lock of a transaction in `owners` keeps out a request of `t`, so that `t` waits for it in the graph. */
  ghost predicate KeptOut(e: LockEntry, owners: set<Tx>, t: Tx)
  {
    exists x :: x in e.waiters && x.tx == t && HeldByLock(e, owners, x)
  }

  /**
   Whoever stands behind a request of another transaction is kept out itself, with one of its
   requests: by the one that keeps out the request in front, or by that request's own transaction.
   */
  ghost predicate Covered(e: LockEntry)
  {
    forall v, w {:trigger CoveredBehind(e, v, w)} ::
      v in e.waiters && w in e.waiters && v.tx != w.tx && v.sequence < w.sequence ==> CoveredBehind(e, v, w)
  }

  ghost predicate CoveredBehind(e: LockEntry, v: LockWaiter, w: LockWaiter)
  {
    forall h :: h in e.holders && Blocks(h, v.tx, v.mode) ==> KeptOut(e, {h.tx, v.tx}, w.tx)
  }

  /** Whatever else holds up a request of the set, the first one in front of it is held up by a lock. */
  lemma {:induction false} FirstIsHeldByLock(e: LockEntry, owners: set<Tx>, ws: set<LockWaiter>, w: LockWaiter)
    returns (v: LockWaiter)
    requires HeldUp(e, owners, ws) && w in ws
    ensures v in ws && HeldByLock(e, owners, v) && (v == w || v.sequence < w.sequence)
    decreases w.sequence
  {
    if HeldByLock(e, owners, w) {
      v := w;
    } else {
      var u :| u in ws && u.sequence < w.sequence;
      v := FirstIsHeldByLock(e, owners, ws, u);
    }
  }

  lemma CoveredIsKeptOut(e: LockEntry, owners: set<Tx>, ws: set<LockWaiter>, w: LockWaiter)
    requires Covered(e) && HeldUp(e, owners, ws) && w in ws
    ensures KeptOut(e, owners, w.tx)
  {
    var v := FirstIsHeldByLock(e, owners, ws, w);
    if v.tx != w.tx {
      assert CoveredBehind(e, v, w);
      var h :| h in e.holders && h.tx in owners && Blocks(h, v.tx, v.mode);
      MoreOwnersKeepOut(e, {h.tx, v.tx}, owners, w.tx);
    }
  }

  lemma MoreOwnersKeepOut(e: LockEntry, some: set<Tx>, owners: set<Tx>, t: Tx)
    requires KeptOut(e, some, t) && some <= owners
    ensures KeptOut(e, owners, t)
  {
    var x :| x in e.waiters && x.tx == t && HeldByLock(e, some, x);
    assert HeldByLock(e, owners, x);
  }

  ghost predicate KeptOutIn(table: LockMap, owners: set<Tx>, t: Tx)
  {
    exists r :: r in table && KeptOut(table[r], owners, t)
  }

  /** Being kept out by a lock of an owner is an edge to an owner, and nothing else is. */
  lemma KeptOutIsAnEdge(table: LockMap, g: Graph, owners: set<Tx>, t: Tx)
    requires IsGraphOf(g, table)
    ensures WaitsWithin(g, owners, t) <==> KeptOutIn(table, owners, t)
  {
    if r :| r in table && KeptOut(table[r], owners, t) {
      var e := table[r];
      var x :| x in e.waiters && x.tx == t && HeldByLock(e, owners, x);
      var h :| h in e.holders && h.tx in owners && Blocks(h, x.tx, x.mode);
      assert BlockedBy(e.holders, x, h.tx);
      assert WaitsFor(e, t, h.tx) && Edge(g, t, h.tx);
    }
    if u :| u in owners && Edge(g, t, u) {
      var r :| r in table && WaitsFor(table[r], t, u);
      var x :| x in table[r].waiters && x.tx == t && BlockedBy(table[r].holders, x, u);
      assert HeldByLock(table[r], owners, x);
      assert KeptOut(table[r], owners, t);
    }
  }

  /** Each of the transactions is kept out by a lock of one of them. */
  ghost predicate Entangled(table: LockMap, owners: set<Tx>)
  {
    owners != {} && forall t {:trigger KeptOutIn(table, owners, t)} :: t in owners ==> KeptOutIn(table, owners, t)
  }

  /** These are the sets that the graph shows. */
  lemma EntangledIsTrap(table: LockMap, g: Graph, owners: set<Tx>)
    requires IsGraphOf(g, table)
    ensures Entangled(table, owners) <==> IsTrap(g, owners)
  {
    forall t ensures WaitsWithin(g, owners, t) <==> KeptOutIn(table, owners, t) {
      KeptOutIsAnEdge(table, g, owners, t);
    }
  }

  /** Where all queues are covered, every deadlock is one that the detector sees. */
  lemma CoveredDeadlockIsTrap(table: LockMap, g: Graph, d: set<Request>)
    requires IsGraphOf(g, table) && Deadlocked(table, d) && forall r :: r in table ==> Covered(table[r])
    ensures IsTrap(g, Owners(d))
  {
    var q :| q in d;
    assert q.waiter.tx in Owners(d);
    forall t | t in Owners(d) ensures WaitsWithin(g, Owners(d), t) {
      var q :| q in d && q.waiter.tx == t;
      var r := q.resource;
      assert q.waiter in RequestsAt(d, r);
      CoveredIsKeptOut(EntryAt(table, r), Owners(d), RequestsAt(d, r), q.waiter);
      KeptOutIsAnEdge(table, g, Owners(d), t);
    }
  }

  /**
   In every table in good order that has this queue and whose other queues are covered, the
   owners of every deadlock wait within themselves in the graph.
   */
  ghost predicate SeenThrough(e: LockEntry)
  {
    forall table, last, r, d, g {:trigger DeadlockIn(e, table, last, r, d), IsGraphOf(g, table)} ::
      DeadlockIn(e, table, last, r, d) && IsGraphOf(g, table) ==> IsTrap(g, Owners(d))
  }

  ghost predicate DeadlockIn(e: LockEntry, table: LockMap, last: nat, r: LockResource, d: set<Request>)
  {
    EntryAt(table, r) == e && TableOk(table, last) && Deadlocked(table, d)
    && forall q :: q in table && q != r ==> Covered(table[q])
  }

  /** The condition on a queue is exact: a queue that is not covered hides a deadlock in some table. */
  lemma CoverageIsExact(e: LockEntry, last: nat)
    requires EntryOk(e, last)
    ensures Covered(e) <==> SeenThrough(e)
  {
    if Covered(e) {
      forall table, n, r, d, g | DeadlockIn(e, table, n, r, d) && IsGraphOf(g, table) ensures IsTrap(g, Owners(d)) {
        CoveredDeadlockIsTrap(table, g, d);
      }
    }
    if SeenThrough(e) {
      forall v, w | v in e.waiters && w in e.waiters && v.tx != w.tx && v.sequence < w.sequence
          ensures CoveredBehind(e, v, w) {
        forall h | h in e.holders && Blocks(h, v.tx, v.mode) ensures KeptOut(e, {h.tx, v.tx}, w.tx) {
          SeenThroughIsCovered(e, last, v, w, h);
        }
      }
    }
  }

  /**
   Let the one that keeps out `v` wait for the owner of `w` elsewhere: then `w`, which is behind
   `v`, closes a circle.
   */
  lemma SeenThroughIsCovered(e: LockEntry, last: nat, v: LockWaiter, w: LockWaiter, h: LockHolder)
    requires EntryOk(e, last) && SeenThrough(e)
    requires v in e.waiters && w in e.waiters && v.tx != w.tx && v.sequence < w.sequence
    requires h in e.holders && Blocks(h, v.tx, v.mode)
    ensures KeptOut(e, {h.tx, v.tx}, w.tx)
  {
    if h.tx == w.tx {
      CircleOfTwo(e, last, v, w, h, Schema(1));
      CircleIsSeen(e, map[Schema(1) := e], last, {Request(Schema(1), v), Request(Schema(1), w)}, Schema(1), v, w, h);
    } else {
      var x, f := ClosingRequest(last, h), ClosingQueue(last, w, h);
      CircleOfThree(e, last, v, w, h, Schema(1));
      CircleIsSeen(e, map[Schema(1) := e, Schema(2) := f], last + 1,
                   {Request(Schema(1), v), Request(Schema(1), w), Request(Schema(2), x)}, Schema(1), v, w, h);
    }
  }

  /** If the circle is seen, the owner of `w` waits within it, and in this queue only. */
  lemma CircleIsSeen(e: LockEntry, table: LockMap, last: nat, d: set<Request>, r: LockResource, v: LockWaiter,
                     w: LockWaiter, h: LockHolder)
    requires SeenThrough(e) && DeadlockIn(e, table, last, r, d)
    requires w.tx in Owners(d) && Owners(d) <= {v.tx, w.tx, h.tx}
    requires forall q, x :: q in table && q != r && x in table[q].waiters ==> x.tx != w.tx
    ensures KeptOut(e, {h.tx, v.tx}, w.tx)
  {
    var g := GraphFor(table);
    assert IsTrap(g, Owners(d)) && WaitsWithin(g, Owners(d), w.tx);
    KeptOutHere(table, g, r, Owners(d), w.tx);
    OthersKeepOut(e, Owners(d), {h.tx, v.tx}, w.tx);
  }

  lemma KeptOutHere(table: LockMap, g: Graph, r: LockResource, owners: set<Tx>, t: Tx)
    requires IsGraphOf(g, table) && WaitsWithin(g, owners, t)
    requires forall q, x :: q in table && q != r && x in table[q].waiters ==> x.tx != t
    ensures KeptOut(EntryAt(table, r), owners, t)
  {
    KeptOutIsAnEdge(table, g, owners, t);
  }

  /** Nobody is kept out by its own lock. */
  lemma OthersKeepOut(e: LockEntry, owners: set<Tx>, others: set<Tx>, t: Tx)
    requires KeptOut(e, owners, t) && owners <= others + {t}
    ensures KeptOut(e, others, t)
  {
    var x :| x in e.waiters && x.tx == t && HeldByLock(e, owners, x);
    assert HeldByLock(e, others, x);
  }

  /** Every table has a graph. */
  lemma GraphFor(table: LockMap) returns (g: Graph)
    ensures IsGraphOf(g, table)
  {
    var waiting := set r, w | r in table && w in table[r].waiters :: w.tx;
    var holding := set r, h | r in table && h in table[r].holders :: h.tx;
    g := map t | t in waiting :: set u | u in holding && exists r :: r in table && WaitsFor(table[r], t, u);
    forall t, u ensures Edge(g, t, u) <==> exists r :: r in table && WaitsFor(table[r], t, u) {
      if r :| r in table && WaitsFor(table[r], t, u) {
        var w :| w in table[r].waiters && w.tx == t && BlockedBy(table[r].holders, w, u);
        var h :| h in table[r].holders && h.tx == u && Blocks(h, w.tx, w.mode);
        assert t in waiting && u in holding;
      }
    }
  }

  ghost function ClosingRequest(last: nat, h: LockHolder): LockWaiter
  {
    LockWaiter(h.tx, Exclusive, last + 1)
  }

  ghost function ClosingQueue(last: nat, w: LockWaiter, h: LockHolder): LockEntry
  {
    LockEntry([LockHolder(w.tx, Exclusive)], [ClosingRequest(last, h)])
  }

  lemma CircleOfTwo(e: LockEntry, last: nat, v: LockWaiter, w: LockWaiter, h: LockHolder, r: LockResource)
    requires EntryOk(e, last) && v in e.waiters && w in e.waiters && v.sequence < w.sequence
    requires h in e.holders && Blocks(h, v.tx, v.mode) && h.tx == w.tx
    ensures var d := {Request(r, v), Request(r, w)};
            DeadlockIn(e, map[r := e], last, r, d) && Owners(d) == {v.tx, w.tx}
  {
    var table, d := map[r := e], {Request(r, v), Request(r, w)};
    PairOf(r, v, w);
    assert HeldByLock(e, Owners(d), v) && HeldByQueue({v, w}, w);
    forall q ensures HeldUp(EntryAt(table, q), Owners(d), RequestsAt(d, q)) {
      if q != r {
        assert RequestsAt(d, q) == {};
      }
    }
  }

  lemma PairOf(r: LockResource, v: LockWaiter, w: LockWaiter)
    ensures var d := {Request(r, v), Request(r, w)}; RequestsAt(d, r) == {v, w} && Owners(d) == {v.tx, w.tx}
  {
    var d := {Request(r, v), Request(r, w)};
    assert Request(r, v) in d && Request(r, w) in d;
    assert v in RequestsAt(d, r) && w in RequestsAt(d, r);
    assert v.tx in Owners(d) && w.tx in Owners(d);
  }

  lemma TripleOf(r: LockResource, s: LockResource, v: LockWaiter, w: LockWaiter, x: LockWaiter)
    requires r != s
    ensures var d := {Request(r, v), Request(r, w), Request(s, x)};
            RequestsAt(d, r) == {v, w} && RequestsAt(d, s) == {x} && Owners(d) == {v.tx, w.tx, x.tx}
  {
    var d := {Request(r, v), Request(r, w), Request(s, x)};
    assert Request(r, v) in d && Request(r, w) in d && Request(s, x) in d;
    assert v in RequestsAt(d, r) && w in RequestsAt(d, r) && x in RequestsAt(d, s);
    assert v.tx in Owners(d) && w.tx in Owners(d) && x.tx in Owners(d);
  }

  lemma CircleOfThree(e: LockEntry, last: nat, v: LockWaiter, w: LockWaiter, h: LockHolder, r: LockResource)
    requires EntryOk(e, last) && v in e.waiters && w in e.waiters && v.sequence < w.sequence && r == Schema(1)
    requires h in e.holders && Blocks(h, v.tx, v.mode) && h.tx != w.tx
    ensures var d := {Request(r, v), Request(r, w), Request(Schema(2), ClosingRequest(last, h))};
            && DeadlockIn(e, map[r := e, Schema(2) := ClosingQueue(last, w, h)], last + 1, r, d)
            && Owners(d) == {v.tx, w.tx, h.tx}
  {
    var x, f := ClosingRequest(last, h), ClosingQueue(last, w, h);
    var table, d := map[r := e, Schema(2) := f], {Request(r, v), Request(r, w), Request(Schema(2), x)};
    TripleOf(r, Schema(2), v, w, x);
    assert HeldByLock(e, Owners(d), v) && HeldByQueue({v, w}, w);
    assert Blocks(f.holders[0], x.tx, x.mode) && HeldByLock(f, Owners(d), x);
    LaterNumbersAreOk(e, last, last + 1);
    assert Covered(f);
    forall q ensures HeldUp(EntryAt(table, q), Owners(d), RequestsAt(d, q)) {
      if q != r && q != Schema(2) {
        assert RequestsAt(d, q) == {};
      }
    }
  }

  // ---------------------------------------------------------------- what the detector does not see

  /**
   An upgrade that is queued behind a request which the held lock itself keeps out is a
   deadlock at once, a firm one unless its owner has queued something that loosens the lock
   in front of that request. If no lock of others keeps out its owner, the detector does not see it.
   */
  lemma UpgradeBehindItsOwnLock(table: LockMap, r: LockResource, v: LockWaiter, w: LockWaiter, h: LockHolder)
    requires r in table && v in table[r].waiters && w in table[r].waiters && v.sequence < w.sequence
    requires h in table[r].holders && h.tx == w.tx && Blocks(h, v.tx, v.mode)
    ensures Deadlocked(table, {Request(r, v), Request(r, w)})
    ensures Firm(table[r], w.tx, v.sequence) ==> FirmlyDeadlocked(table, {Request(r, v), Request(r, w)})
    ensures forall g, d :: IsGraphOf(g, table) && NeverBlocked(table, w.tx) && w.tx in d ==> !IsTrap(g, d)
  {
    PairIsHeldUp(table, r, v, w, h);
    if Firm(table[r], w.tx, v.sequence) {
      PairIsHeldFirmly(table, r, v, w, h);
    }
    forall g, d | IsGraphOf(g, table) && NeverBlocked(table, w.tx) && w.tx in d ensures !IsTrap(g, d) {
      NoEdgeFrom(table, w.tx, g, d);
    }
  }

  lemma PairIsHeldUp(table: LockMap, r: LockResource, v: LockWaiter, w: LockWaiter, h: LockHolder)
    requires r in table && v in table[r].waiters && w in table[r].waiters && v.sequence < w.sequence
    requires h in table[r].holders && h.tx == w.tx && Blocks(h, v.tx, v.mode)
    ensures Deadlocked(table, {Request(r, v), Request(r, w)})
  {
    var d := {Request(r, v), Request(r, w)};
    PairOf(r, v, w);
    assert HeldByLock(table[r], Owners(d), v) && HeldByQueue({v, w}, w);
    forall q ensures HeldUp(EntryAt(table, q), Owners(d), RequestsAt(d, q)) {
      if q != r {
        assert RequestsAt(d, q) == {};
      }
    }
  }

  lemma PairIsHeldFirmly(table: LockMap, r: LockResource, v: LockWaiter, w: LockWaiter, h: LockHolder)
    requires r in table && v in table[r].waiters && w in table[r].waiters && v.sequence < w.sequence
    requires h in table[r].holders && h.tx == w.tx && Blocks(h, v.tx, v.mode) && Firm(table[r], w.tx, v.sequence)
    ensures FirmlyDeadlocked(table, {Request(r, v), Request(r, w)})
  {
    var d := {Request(r, v), Request(r, w)};
    PairOf(r, v, w);
    assert HeldFirmly(table[r], Owners(d), v) && HeldByQueue({v, w}, w);
    forall q ensures HeldUpFirmly(EntryAt(table, q), Owners(d), RequestsAt(d, q)) {
      if q != r {
        assert RequestsAt(d, q) == {};
      }
    }
  }

  /** No lock keeps out a request of `t`, in any queue. */
  ghost predicate NeverBlocked(table: LockMap, t: Tx)
  {
    forall r, w :: r in table && w in table[r].waiters && w.tx == t ==> !IsBlocked(table[r].holders, w.tx, w.mode)
  }

  lemma NoEdgeFrom(table: LockMap, t: Tx, g: Graph, d: set<Tx>)
    requires IsGraphOf(g, table) && NeverBlocked(table, t)
    ensures !WaitsWithin(g, d, t)
  {
    forall q, u | q in table ensures !WaitsFor(table[q], t, u) {
      forall w | w in table[q].waiters && w.tx == t ensures !BlockedBy(table[q].holders, w, u) {
        assert !IsBlocked(table[q].holders, w.tx, w.mode);
      }
    }
  }
}
