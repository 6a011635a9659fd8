/**
 What every run of the lock manager keeps: the strength of the locks that
 transactions hold, the requests they are waiting for, and the order in which
 conflicting requests are served.
 */
module LockRuns {
  import opened Common
  import opened LockTable
  import opened LockManager

  /** What a step does to the queue of one resource. */
  ghost predicate StepsAt(e: LockEntry, last: nat, s: Step, r: LockResource, e': LockEntry, last': nat)
  {
    match s
    case Acquire(tx, q, mode) =>
      if q == r then exists answer :: Acquires(e, last, tx, mode, answer, e', last') else e' == e && last <= last'
    case Release(tx, q) => e' == (if q == r then AfterRelease(e, tx) else e) && last' == last
    case ReleaseAll(tx) => e' == AfterRelease(e, tx) && last' == last
  }

  lemma StepAtQueue(a: State, s: Step, b: State, r: LockResource)
    requires StateOk(a) && Takes(a, s, b)
    ensures EntryOk(EntryAt(a.table, r), a.last)
    ensures StepsAt(EntryAt(a.table, r), a.last, s, r, EntryAt(b.table, r), b.last)
  {
    match s
    case Acquire(tx, q, mode) =>
      StepKeepsStateOk(a, s, b);
      var answer :| AcquiresAt(a, tx, q, mode, answer, b);
      assert q == r ==> Acquires(EntryAt(a.table, r), a.last, tx, mode, answer, EntryAt(b.table, r), b.last);
    case Release(tx, q) =>
    case ReleaseAll(tx) =>
      assert AfterRelease(NO_LOCKS, tx) == NO_LOCKS;
  }

  // ---------------------------------------------------------------- firm transactions stay firm

  /** `t` asks for nothing that loosens, or is loosened by, a request it has in the queue. */
  ghost predicate AsksFirmly(e: LockEntry, s: Step, t: Tx, r: LockResource)
  {
    s.Acquire? && s.tx == t && s.resource == r ==>
      forall v :: v in e.waiters && v.tx == t ==> !Loosens(v.mode, s.mode) && !Loosens(s.mode, v.mode)
  }

  /** Asking for a resource on which no other mode is still waiting is asking firmly. */
  lemma OneModeAtATimeIsFirm(e: LockEntry, s: Step, t: Tx, r: LockResource)
    requires s.Acquire? && forall v :: v in e.waiters && v.tx == t ==> v.mode == s.mode
    ensures AsksFirmly(e, s, t, r)
  {
  }

  ghost predicate GivesUp(s: Step, t: Tx, r: LockResource)
  {
    s.tx == t && (s.ReleaseAll? || (s.Release? && s.resource == r))
  }

  lemma FirmGrows(e: LockEntry, last: nat, last': nat, t: Tx)
    requires Fifo(e.waiters, last) && Firm(e, t, last) && last <= last'
    ensures Firm(e, t, last')
  {
    assert forall w :: w in e.waiters ==> w.sequence <= last;
  }

  lemma AcquireKeepsFirm(e: LockEntry, last: nat, tx: Tx, mode: LockMode, answer: Answer, e': LockEntry, last': nat,
                         t: Tx)
    requires EntryOk(e, last) && Firm(e, t, last) && Acquires(e, last, tx, mode, answer, e', last')
    requires tx == t ==> forall v :: v in e.waiters && v.tx == t ==> !Loosens(v.mode, mode) && !Loosens(mode, v.mode)
    ensures Firm(e', t, last')
  {
    match answer
    case Ok(Granted) =>
      GrantedIsFirm(e, last, tx, mode, t);
    case Ok(Upgraded(previous, _)) =>
      UpgradedIsFirm(e, last, tx, previous, mode, e', t);
    case Ok(Waiting(sequence, _)) =>
      NotHeld(e.holders, tx);
      QueuedIsFirm(e, last, LockWaiter(tx, mode, sequence), e', last', t);
    case Ok(WaitingUpgrade(sequence, held, _, _)) =>
      OneRecord(e.holders, tx, held);
      QueuedIsFirm(e, last, LockWaiter(tx, mode, sequence), e', last', t);
    case _ =>
  }

  lemma NotHeld(holders: seq<LockHolder>, tx: Tx)
    requires !Holds(holders, tx)
    ensures forall h :: h in holders ==> h.tx != tx
  {
  }

  lemma OneRecord(holders: seq<LockHolder>, tx: Tx, mode: LockMode)
    requires Safe(holders) && LockHolder(tx, mode) in holders
    ensures forall h :: h in holders && h.tx == tx ==> h.mode == mode
  {
  }

  lemma GrantedIsFirm(e: LockEntry, last: nat, tx: Tx, mode: LockMode, t: Tx)
    requires Firm(e, t, last)
    requires tx == t ==> forall v :: v in e.waiters && v.tx == t ==> !Loosens(mode, v.mode)
    ensures Firm(LockEntry(e.holders + [LockHolder(tx, mode)], e.waiters), t, last)
  {
  }

  lemma UpgradedIsFirm(e: LockEntry, last: nat, tx: Tx, previous: LockMode, mode: LockMode, e': LockEntry, t: Tx)
    requires EntryOk(e, last) && IsUpgrade(previous, mode) && MayPass(e, tx, mode) &&
              ConvertedTo(e, tx, previous, mode, e')
    ensures Firm(e', t, last)
  {
    var i :| 0 <= i < |e.holders| && e.holders[i] == LockHolder(tx, previous)
             && e' == LockEntry(e.holders[i := LockHolder(tx, mode)], e.waiters);
    UpgradePassesNobody(e, i, mode);
  }

  lemma QueuedIsFirm(e: LockEntry, last: nat, w: LockWaiter, e': LockEntry, last': nat, t: Tx)
    requires EntryOk(e, last) && Firm(e, t, last) && Queued(e, last, w, e', last')
    requires forall h :: h in e.holders && h.tx == w.tx ==> !Loosens(h.mode, w.mode)
    requires w.tx == t ==> forall v :: v in e.waiters && v.tx == t ==> !Loosens(v.mode, w.mode)
    ensures Firm(e', t, last')
  {
    assert forall v :: v in e.waiters ==> v.sequence <= last;
  }

  lemma ReleaseKeepsFirm(e: LockEntry, last: nat, tx: Tx, t: Tx)
    requires EntryOk(e, last) && Firm(e, t, last)
    ensures Firm(AfterRelease(e, tx), t, last)
  {
    var rest := Without(e, tx);
    HoldersWithoutMeans(e.holders, tx);
    WaitersWithoutMeans(e.waiters, tx);
    WithoutIsSafe(e.holders, tx);
    WithoutIsFifo(e.waiters, tx, last);
    PromotionKeepsFirm(rest, last, t);
  }

  lemma StepKeepsFirm(e: LockEntry, last: nat, s: Step, r: LockResource, e': LockEntry, last': nat, t: Tx)
    requires EntryOk(e, last) && Firm(e, t, last) && StepsAt(e, last, s, r, e', last') && AsksFirmly(e, s, t, r)
    ensures Firm(e', t, last')
  {
    match s
    case Acquire(tx, q, mode) =>
      if q == r {
        var answer :| Acquires(e, last, tx, mode, answer, e', last');
        AcquireKeepsFirm(e, last, tx, mode, answer, e', last', t);
      } else {
        FirmGrows(e, last, last', t);
      }
    case Release(tx, q) =>
      ReleaseKeepsFirm(e, last, tx, t);
    case ReleaseAll(tx) =>
      ReleaseKeepsFirm(e, last, tx, t);
  }

  // ---------------------------------------------------------------- locks and requests are kept

  /** The request is still waiting, or its transaction holds at least what it asked for. */
  ghost predicate Served(e: LockEntry, w: LockWaiter)
  {
    w in e.waiters || HoldsAtLeast(e.holders, w.tx, w.mode)
  }

  lemma AcquireKeepsLock(e: LockEntry, last: nat, tx: Tx, mode: LockMode, answer: Answer, e': LockEntry, last': nat,
                         t: Tx,
                         held: LockMode)
    requires EntryOk(e, last) && HoldsAtLeast(e.holders, t, held) && Acquires(e, last, tx, mode, answer, e', last')
    ensures HoldsAtLeast(e'.holders, t, held)
  {
    var h :| h in e.holders && h.tx == t && AtLeast(h.mode, held);
    match answer
    case Ok(Upgraded(previous, _)) =>
      var i :| 0 <= i < |e.holders| && e.holders[i] == LockHolder(tx, previous)
               && e' == LockEntry(e.holders[i := LockHolder(tx, mode)], e.waiters);
      AnswersAreSound(previous, mode);
      var j :| 0 <= j < |e.holders| && e.holders[j] == h;
      assert e'.holders[j].tx == t && AtLeast(e'.holders[j].mode, held);
      assert e'.holders[j] in e'.holders;
    case _ =>
      assert h in e'.holders;
  }

  lemma ReleaseKeepsLock(e: LockEntry, last: nat, tx: Tx, t: Tx, held: LockMode)
    requires EntryOk(e, last) && Firm(e, t, last) && HoldsAtLeast(e.holders, t, held) && tx != t
    ensures HoldsAtLeast(AfterRelease(e, tx).holders, t, held)
  {
    var rest := Without(e, tx);
    if rest != e {
      HoldersWithoutMeans(e.holders, tx);
      WaitersWithoutMeans(e.waiters, tx);
      WithoutIsSafe(e.holders, tx);
      WithoutIsFifo(e.waiters, tx, last);
      PromotionWeakensNobody(rest, last, t, held);
    }
  }

  lemma ReleaseKeepsRequest(e: LockEntry, last: nat, tx: Tx, w: LockWaiter)
    requires EntryOk(e, last) && Firm(e, w.tx, last) && w in e.waiters && tx != w.tx
    ensures Served(AfterRelease(e, tx), w)
  {
    var rest := Without(e, tx);
    if rest != e {
      HoldersWithoutMeans(e.holders, tx);
      WaitersWithoutMeans(e.waiters, tx);
      WithoutIsSafe(e.holders, tx);
      WithoutIsFifo(e.waiters, tx, last);
      PromotedHoldWhatTheyAskedFor(rest, last, w);
    }
  }

  lemma StepKeepsLock(e: LockEntry, last: nat, s: Step, r: LockResource, e': LockEntry, last': nat, t: Tx,
                      held: LockMode)
    requires EntryOk(e, last) && Firm(e, t, last) && StepsAt(e, last, s, r, e', last') && !GivesUp(s, t, r)
    requires HoldsAtLeast(e.holders, t, held)
    ensures HoldsAtLeast(e'.holders, t, held)
  {
    match s
    case Acquire(tx, q, mode) =>
      if q == r {
        var answer :| Acquires(e, last, tx, mode, answer, e', last');
        AcquireKeepsLock(e, last, tx, mode, answer, e', last', t, held);
      }
    case Release(tx, q) =>
      if q == r {
        ReleaseKeepsLock(e, last, tx, t, held);
      }
    case ReleaseAll(tx) =>
      ReleaseKeepsLock(e, last, tx, t, held);
  }

  lemma StepKeepsServed(e: LockEntry, last: nat, s: Step, r: LockResource, e': LockEntry, last': nat, w: LockWaiter)
    requires EntryOk(e, last) && Firm(e, w.tx, last) && StepsAt(e, last, s, r, e', last') && !GivesUp(s, w.tx, r)
    requires Served(e, w)
    ensures Served(e', w)
  {
    if HoldsAtLeast(e.holders, w.tx, w.mode) {
      StepKeepsLock(e, last, s, r, e', last', w.tx, w.mode);
    } else {
      match s
      case Acquire(tx, q, mode) =>
      case Release(tx, q) =>
        if q == r {
          ReleaseKeepsRequest(e, last, tx, w);
        }
      case ReleaseAll(tx) =>
        ReleaseKeepsRequest(e, last, tx, w);
    }
  }

  /** Throughout the run `t` asks firmly for `r`. */
  ghost predicate FirmRun(states: seq<State>, steps: seq<Step>, t: Tx, r: LockResource)
  {
    && IsRun(states, steps) && StateOk(states[0]) && Firm(EntryAt(states[0].table, r), t, states[0].last)
    && forall k :: 0 <= k < |steps| ==> AsksFirmlyAt(states, steps, t, r, k)
  }

  ghost predicate AsksFirmlyAt(states: seq<State>, steps: seq<Step>, t: Tx, r: LockResource, k: nat)
    requires k < |steps| < |states|
  {
    AsksFirmly(EntryAt(states[k].table, r), steps[k], t, r)
  }

  /** Throughout the run `t` does not give up `r`. */
  ghost predicate HoldsOn(steps: seq<Step>, t: Tx, r: LockResource)
  {
    forall k :: 0 <= k < |steps| ==> HoldsOnAt(steps, t, r, k)
  }

  ghost predicate HoldsOnAt(steps: seq<Step>, t: Tx, r: LockResource, k: nat)
    requires k < |steps|
  {
    !GivesUp(steps[k], t, r)
  }

  /** A transaction that asks firmly is firm in every state; at the start it is, if the table is empty. */
  lemma {:induction false} FirmInEveryState(states: seq<State>, steps: seq<Step>, t: Tx, r: LockResource, k: nat)
    requires FirmRun(states, steps, t, r) && k < |states|
    ensures StateOk(states[k]) && Firm(EntryAt(states[k].table, r), t, states[k].last)
  {
    if k > 0 {
      FirmInEveryState(states, steps, t, r, k - 1);
      assert StepAt(states, steps, k - 1) && AsksFirmlyAt(states, steps, t, r, k - 1);
      TableKeepsFirm(states[k - 1], steps[k - 1], states[k], t, r);
    }
  }

  lemma TableKeepsFirm(a: State, s: Step, b: State, t: Tx, r: LockResource)
    requires StateOk(a) && Takes(a, s, b) && Firm(EntryAt(a.table, r), t, a.last) &&
              AsksFirmly(EntryAt(a.table, r), s, t, r)
    ensures StateOk(b) && Firm(EntryAt(b.table, r), t, b.last)
  {
    StepKeepsStateOk(a, s, b);
    StepAtQueue(a, s, b, r);
    StepKeepsFirm(EntryAt(a.table, r), a.last, s, r, EntryAt(b.table, r), b.last, t);
  }

  /**
   No step but its own release weakens a lock: in every run in which `t` asks firmly and gives
   nothing up, it holds on.
   */
  lemma {:induction false} LocksAreKept(states: seq<State>, steps: seq<Step>, t: Tx, r: LockResource, held: LockMode,
                                        k: nat)
    requires FirmRun(states, steps, t, r) && k < |states|
    requires HoldsOn(steps, t, r)
    requires HoldsAtLeast(EntryAt(states[0].table, r).holders, t, held)
    ensures HoldsAtLeast(EntryAt(states[k].table, r).holders, t, held)
  {
    if k > 0 {
      LocksAreKept(states, steps, t, r, held, k - 1);
      TableKeepsLock(states, steps, t, r, held, k - 1);
    }
  }

  lemma TableKeepsLock(states: seq<State>, steps: seq<Step>, t: Tx, r: LockResource, held: LockMode, k: nat)
    requires FirmRun(states, steps, t, r) && HoldsOn(steps, t, r) && k < |steps|
    requires HoldsAtLeast(EntryAt(states[k].table, r).holders, t, held)
    ensures HoldsAtLeast(EntryAt(states[k + 1].table, r).holders, t, held)
  {
    FirmInEveryState(states, steps, t, r, k);
    var a, s, b := states[k], steps[k], states[k + 1];
    assert StepAt(states, steps, k) && HoldsOnAt(steps, t, r, k);
    StepAtQueue(a, s, b, r);
    StepKeepsLock(EntryAt(a.table, r), a.last, s, r, EntryAt(b.table, r), b.last, t, held);
  }

  /** A request is never lost: in such a run it is waiting or its transaction holds at least what it asked for. */
  lemma {:induction false} RequestsAreServed(states: seq<State>, steps: seq<Step>, r: LockResource, w: LockWaiter,
                                             k: nat)
    requires FirmRun(states, steps, w.tx, r) && k < |states|
    requires HoldsOn(steps, w.tx, r)
    requires Served(EntryAt(states[0].table, r), w)
    ensures Served(EntryAt(states[k].table, r), w)
  {
    if k > 0 {
      RequestsAreServed(states, steps, r, w, k - 1);
      TableKeepsServed(states, steps, r, w, k - 1);
    }
  }

  lemma TableKeepsServed(states: seq<State>, steps: seq<Step>, r: LockResource, w: LockWaiter, k: nat)
    requires FirmRun(states, steps, w.tx, r) && HoldsOn(steps, w.tx, r) && k < |steps|
    requires Served(EntryAt(states[k].table, r), w)
    ensures Served(EntryAt(states[k + 1].table, r), w)
  {
    FirmInEveryState(states, steps, w.tx, r, k);
    var a, s, b := states[k], steps[k], states[k + 1];
    assert StepAt(states, steps, k) && HoldsOnAt(steps, w.tx, r, k);
    StepAtQueue(a, s, b, r);
    StepKeepsServed(EntryAt(a.table, r), a.last, s, r, EntryAt(b.table, r), b.last, w);
  }

  // ---------------------------------------------------------------- nobody overtakes

  /** The lock comes from a request that is older than `v`. */
  ghost predicate FromOlder(e: LockEntry, h: LockHolder, v: LockWaiter)
  {
    exists w :: w in e.waiters && w.tx == h.tx && w.mode == h.mode && w.sequence < v.sequence
  }

  /** What promotion leaves a transaction with was held before or asked for earlier than anything still in the queue. */
  lemma {:induction false} PromotedLocksAreOlder(e: LockEntry, last: nat, h: LockHolder, v: LockWaiter)
    requires Safe(e.holders) && Fifo(e.waiters, last) && h in Promote(e).holders && v in Promote(e).waiters
    ensures v in e.waiters && (h in e.holders || FromOlder(e, h, v))
    decreases |e.waiters|
  {
    if !IsBlocked(e.holders, e.waiters[0].tx, e.waiters[0].mode) {
      var f := e.waiters[0];
      var next := LockEntry(Hold(e.holders, f), e.waiters[1..]);
      HoldKeepsSafe(e.holders, f);
      SuffixIsFifo(e.waiters, 1, last);
      PromotedLocksAreOlder(next, last, h, v);
      assert f in e.waiters && forall w :: w in next.waiters ==> w in e.waiters && f.sequence < w.sequence;
      HoldMeans(e.holders, f, h);
    }
  }

  lemma {:induction false} PromotionAddsNoWaiter(e: LockEntry, w: LockWaiter)
    requires w in Promote(e).waiters
    ensures w in e.waiters
  {
    PromotionTakesAPrefix(e);
  }

  /** While `v` waits, a lock that conflicts with it appears only if it was asked for earlier. */
  lemma StepOvertakesNobody(e: LockEntry, last: nat, s: Step, r: LockResource, e': LockEntry, last': nat, v: LockWaiter,
                            h: LockHolder)
    requires EntryOk(e, last) && StepsAt(e, last, s, r, e', last') && v in e.waiters && v in e'.waiters
    requires h in e'.holders && !Compatible(v.mode, h.mode)
    ensures h in e.holders || FromOlder(e, h, v)
  {
    match s
    case Acquire(tx, q, mode) =>
      if q == r {
        var answer :| Acquires(e, last, tx, mode, answer, e', last');
        GrantedIsCompatible(e, last, tx, mode, answer, e', last', v, h);
      }
    case Release(tx, q) =>
      if q == r {
        ReleasedLocksAreOlder(e, last, tx, h, v);
      }
    case ReleaseAll(tx) =>
      ReleasedLocksAreOlder(e, last, tx, h, v);
  }

  lemma GrantedIsCompatible(e: LockEntry, last: nat, tx: Tx, mode: LockMode, answer: Answer, e': LockEntry, last': nat,
                            v: LockWaiter, h: LockHolder)
    requires Acquires(e, last, tx, mode, answer, e', last') && v in e.waiters && h in e'.holders
    ensures h in e.holders || Compatible(v.mode, h.mode)
  {
    match answer
    case Ok(Granted) =>
      assert h in e.holders || h == LockHolder(tx, mode);
    case Ok(Upgraded(previous, _)) =>
      var i :| 0 <= i < |e.holders| && e.holders[i] == LockHolder(tx, previous)
               && e' == LockEntry(e.holders[i := LockHolder(tx, mode)], e.waiters);
      UpdateMeans(e.holders, i, LockHolder(tx, mode), h);
    case _ =>
  }

  lemma ReleasedLocksAreOlder(e: LockEntry, last: nat, tx: Tx, h: LockHolder, v: LockWaiter)
    requires EntryOk(e, last) && h in AfterRelease(e, tx).holders && v in AfterRelease(e, tx).waiters
    ensures h in e.holders || FromOlder(e, h, v)
  {
    var rest := Without(e, tx);
    if rest != e {
      HoldersWithoutMeans(e.holders, tx);
      WaitersWithoutMeans(e.waiters, tx);
      WithoutIsSafe(e.holders, tx);
      WithoutIsFifo(e.waiters, tx, last);
      PromotedLocksAreOlder(rest, last, h, v);
    }
  }

  /** New requests get new numbers: a waiter with an old number was there before. */
  lemma OldNumbersAreOldRequests(e: LockEntry, last: nat, s: Step, r: LockResource, e': LockEntry, last': nat,
                                 v: LockWaiter)
    requires StepsAt(e, last, s, r, e', last') && v in e'.waiters && v.sequence <= last
    ensures v in e.waiters
  {
    match s
    case Acquire(tx, q, mode) =>
    case Release(tx, q) =>
      WithoutKeepsOld(e, tx, v);
    case ReleaseAll(tx) =>
      WithoutKeepsOld(e, tx, v);
  }

  lemma WithoutKeepsOld(e: LockEntry, tx: Tx, v: LockWaiter)
    ensures v in AfterRelease(e, tx).waiters ==> v in e.waiters
  {
    if v in AfterRelease(e, tx).waiters && Without(e, tx) != e {
      PromotionAddsNoWaiter(Without(e, tx), v);
      WaitersWithoutMeans(e.waiters, tx);
    }
  }

  /**
   Fairness over every run: as long as a request waits, whoever holds a lock that conflicts
   with it held it when the wait began or had asked for it earlier.
   */
  lemma {:induction false} NobodyOvertakes(states: seq<State>, steps: seq<Step>, r: LockResource, v: LockWaiter,
                                           h: LockHolder, k: nat)
    requires IsRun(states, steps) && StateOk(states[0]) && k < |states|
    requires v in EntryAt(states[0].table, r).waiters && v in EntryAt(states[k].table, r).waiters
    requires h in EntryAt(states[k].table, r).holders && !Compatible(v.mode, h.mode)
    ensures h in EntryAt(states[0].table, r).holders || FromOlder(EntryAt(states[0].table, r), h, v)
  {
    if k > 0 {
      RunStaysOk(states, steps, k - 1);
      assert StepAt(states, steps, k - 1);
      FifoNumbers(EntryAt(states[0].table, r), states[0].last, v);
      TableOvertakesNobody(states[k - 1], steps[k - 1], states[k], r, v, h);
      var e := EntryAt(states[k - 1].table, r);
      if h in e.holders {
        NobodyOvertakes(states, steps, r, v, h, k - 1);
      } else {
        var w :| w in e.waiters && w.tx == h.tx && w.mode == h.mode && w.sequence < v.sequence;
        WaiterWasThere(states, steps, r, w, k - 1);
      }
    }
  }

  lemma FifoNumbers(e: LockEntry, last: nat, v: LockWaiter)
    requires e == NO_LOCKS || EntryOk(e, last)
    ensures v in e.waiters ==> v.sequence <= last
  {
  }

  lemma TableOvertakesNobody(a: State, s: Step, b: State, r: LockResource, v: LockWaiter, h: LockHolder)
    requires StateOk(a) && Takes(a, s, b) && v.sequence <= a.last && v in EntryAt(b.table, r).waiters
    requires h in EntryAt(b.table, r).holders && !Compatible(v.mode, h.mode)
    ensures v in EntryAt(a.table, r).waiters
    ensures h in EntryAt(a.table, r).holders || FromOlder(EntryAt(a.table, r), h, v)
  {
    StepAtQueue(a, s, b, r);
    OldNumbersAreOldRequests(EntryAt(a.table, r), a.last, s, r, EntryAt(b.table, r), b.last, v);
    StepOvertakesNobody(EntryAt(a.table, r), a.last, s, r, EntryAt(b.table, r), b.last, v, h);
  }

  lemma {:induction false} RunStaysOk(states: seq<State>, steps: seq<Step>, k: nat)
    requires IsRun(states, steps) && StateOk(states[0]) && k < |states|
    ensures StateOk(states[k]) && states[0].last <= states[k].last
  {
    if k > 0 {
      RunStaysOk(states, steps, k - 1);
      assert StepAt(states, steps, k - 1);
      StepKeepsStateOk(states[k - 1], steps[k - 1], states[k]);
    }
  }

  lemma {:induction false} WaiterWasThere(states: seq<State>, steps: seq<Step>, r: LockResource, w: LockWaiter, k: nat)
    requires IsRun(states, steps) && StateOk(states[0]) && k < |states|
    requires w in EntryAt(states[k].table, r).waiters && w.sequence <= states[0].last
    ensures w in EntryAt(states[0].table, r).waiters
  {
    if k > 0 {
      var a, s, b := states[k - 1], steps[k - 1], states[k];
      RunStaysOk(states, steps, k - 1);
      assert StepAt(states, steps, k - 1);
      StepAtQueue(a, s, b, r);
      OldNumbersAreOldRequests(EntryAt(a.table, r), a.last, s, r, EntryAt(b.table, r), b.last, w);
      WaiterWasThere(states, steps, r, w, k - 1);
    }
  }
}
