/**
 The lock manager: a table of queues and a counter that numbers the requests.
 Its three operations are stated over tables, so that runs of them can be
 reasoned about; the class performs them in place.
 */
module LockManager {
  import opened Common
  import opened LockTable

  datatype LockError = InvalidId | UnsupportedConversion | SequenceOverflow

  datatype AcquireStatus =
    | Granted
    | AlreadyHeld(heldMode: LockMode)
    | Upgraded(previousMode: LockMode, newMode: LockMode)
    | Waiting(sequence: nat, blockers: seq<LockHolder>)
    | WaitingUpgrade(sequence: nat, heldMode: LockMode, requestedMode: LockMode, blockers: seq<LockHolder>)

  type Answer = Result<AcquireStatus, LockError>

  type LockMap = map<LockResource, LockEntry>

  function EntryAt(table: LockMap, r: LockResource): LockEntry
  {
    if r in table then table[r] else NO_LOCKS
  }

  ghost predicate TableOk(table: LockMap, last: nat)
  {
    forall r :: r in table ==> EntryOk(table[r], last)
  }

  // ---------------------------------------------------------------- acquire

  /** What each answer means for the queue. Requests are granted as soon as they may pass and never earlier. */
  ghost predicate Acquires(e: LockEntry, last: nat, tx: Tx, mode: LockMode, answer: Answer, e': LockEntry, last': nat)
  {
    match answer
    case Err(InvalidId) => false
    case Err(UnsupportedConversion) =>
      && Untouched(e, last, e', last')
      && exists i :: 0 <= i < |e.holders| && e.holders[i].tx == tx && !Converts(e.holders[i].mode, mode)
    case Err(SequenceOverflow) =>
      && Untouched(e, last, e', last') && !MayPass(e, tx, mode) && !HasAsked(e, tx, mode) && last == U64_MAX
      && forall h :: h in e.holders && h.tx == tx ==> IsUpgrade(h.mode, mode)
    case Ok(Granted) =>
      && !Holds(e.holders, tx) && MayPass(e, tx, mode) && !HasAsked(e, tx, mode)
      && e' == LockEntry(e.holders + [LockHolder(tx, mode)], e.waiters) && last' == last
    case Ok(AlreadyHeld(held)) =>
      && Untouched(e, last, e', last')
      && LockHolder(tx, held) in e.holders && (held == mode || Covers(held, mode))
    case Ok(Upgraded(previous, now)) =>
      && now == mode && IsUpgrade(previous, mode) && MayPass(e, tx, mode)
      && ConvertedTo(e, tx, previous, mode, e') && last' == last
    case Ok(Waiting(sequence, blockers)) =>
      && !Holds(e.holders, tx)
      && blockers == Blockers(e.holders, tx, mode)
      && Queued(e, last, LockWaiter(tx, mode, sequence), e', last')
    case Ok(WaitingUpgrade(sequence, held, requested, blockers)) =>
      && requested == mode && IsUpgrade(held, mode) && LockHolder(tx, held) in e.holders
      && !MayPass(e, tx, mode)
      && blockers == Blockers(e.holders, tx, mode)
      && Queued(e, last, LockWaiter(tx, mode, sequence), e', last')
  }

  ghost predicate Untouched(e: LockEntry, last: nat, e': LockEntry, last': nat)
  {
    e' == e && last' == last
  }

  predicate Converts(held: LockMode, mode: LockMode)
  {
    held == mode || Covers(held, mode) || IsUpgrade(held, mode)
  }

  /** The one record of `tx` changed from mode `previous` to `mode`. */
  ghost predicate ConvertedTo(e: LockEntry, tx: Tx, previous: LockMode, mode: LockMode, e': LockEntry)
  {
    exists i :: 0 <= i < |e.holders| && e.holders[i] == LockHolder(tx, previous)
                && e' == LockEntry(e.holders[i := LockHolder(tx, mode)], e.waiters)
  }

  ghost predicate HasAsked(e: LockEntry, tx: Tx, mode: LockMode)
  {
    exists i :: 0 <= i < |e.waiters| && e.waiters[i].tx == tx && e.waiters[i].mode == mode
  }

  /** The earliest request of its transaction for its mode. */
  ghost predicate IsFirstOf(waiters: seq<LockWaiter>, w: LockWaiter)
  {
    w in waiters && forall v :: v in waiters && v.tx == w.tx && v.mode == w.mode ==> w.sequence <= v.sequence
  }

  /** The request stands in the queue already, or it may not pass and goes to the end with the next number. */
  ghost predicate Queued(e: LockEntry, last: nat, w: LockWaiter, e': LockEntry, last': nat)
  {
    || (IsFirstOf(e.waiters, w) && Untouched(e, last, e', last'))
    || (!MayPass(e, w.tx, w.mode) && !HasAsked(e, w.tx, w.mode) && w.sequence == last + 1 <= U64_MAX
        && e' == LockEntry(e.holders, e.waiters + [w]) && last' == last + 1)
  }

  /** Every answer leaves the queue safe, in order and with its front blocked. */
  lemma AcquireKeepsEntryOk(e: LockEntry, last: nat, tx: Tx, mode: LockMode, answer: Answer, e': LockEntry, last': nat)
    requires EntryOk(e, last) && Acquires(e, last, tx, mode, answer, e', last')
    ensures EntryOk(e', last') && last <= last'
  {
    match answer
    case Ok(Granted) =>
      assert Find(e.holders, tx) == |e.holders|;
      GrantKeepsSafe(e.holders, tx, mode);
      GrantKeepsFrontBlocked(e, LockHolder(tx, mode));
    case Ok(Upgraded(previous, _)) =>
      var i :| 0 <= i < |e.holders| && e.holders[i] == LockHolder(tx, previous)
               && e' == LockEntry(e.holders[i := LockHolder(tx, mode)], e.waiters);
      ConversionKeepsSafe(e.holders, i, mode);
      UpgradePassesNobody(e, i, mode);
    case Ok(Waiting(sequence, _)) =>
      QueueKeepsEntryOk(e, last, LockWaiter(tx, mode, sequence), e', last');
    case Ok(WaitingUpgrade(sequence, _, _, _)) =>
      QueueKeepsEntryOk(e, last, LockWaiter(tx, mode, sequence), e', last');
    case _ =>
  }

  /** The queue, the counter and the request determine the answer and what becomes of the queue. */
  lemma AnswerIsDetermined(e: LockEntry, last: nat, tx: Tx, mode: LockMode, a: Answer, x: LockEntry, m: nat, b: Answer,
                           y: LockEntry, n: nat)
    requires EntryOk(e, last) && Acquires(e, last, tx, mode, a, x, m) && Acquires(e, last, tx, mode, b, y, n)
    ensures a == b && x == y && m == n
  {
    if Holds(e.holders, tx) {
      var i :| 0 <= i < |e.holders| && e.holders[i].tx == tx;
      assert e.holders[i] in e.holders;
      OneMode(e.holders, i);
      HolderIsDetermined(e, last, tx, mode, i, a, x, m, b, y, n);
    } else {
      NoHolder(e.holders, tx);
      NewcomerIsDetermined(e, last, tx, mode, a, x, m, b, y, n);
    }
  }

  lemma OneMode(holders: seq<LockHolder>, i: nat)
    requires Safe(holders) && i < |holders|
    ensures forall h :: h in holders && h.tx == holders[i].tx ==> h == holders[i]
    ensures forall k :: 0 <= k < |holders| && holders[k].tx == holders[i].tx ==> k == i
  {
  }

  lemma NoHolder(holders: seq<LockHolder>, tx: Tx)
    requires !Holds(holders, tx)
    ensures forall h :: h in holders ==> h.tx != tx
  {
  }

  lemma HolderIsDetermined(e: LockEntry, last: nat, tx: Tx, mode: LockMode, i: nat, a: Answer, x: LockEntry, m: nat,
                           b: Answer, y: LockEntry, n: nat)
    requires Fifo(e.waiters, last) && i < |e.holders| && e.holders[i].tx == tx
    requires forall h :: h in e.holders && h.tx == tx ==> h == e.holders[i]
    requires forall k :: 0 <= k < |e.holders| && e.holders[k].tx == tx ==> k == i
    requires Acquires(e, last, tx, mode, a, x, m) && Acquires(e, last, tx, mode, b, y, n)
    ensures a == b && x == y && m == n
  {
    KindsOfAnswer(e, last, tx, mode, i, a, x, m);
    KindsOfAnswer(e, last, tx, mode, i, b, y, n);
    if a.Ok? && a.value.WaitingUpgrade? && b.Ok? && b.value.WaitingUpgrade? {
      QueuedOnce(e, last, LockWaiter(tx, mode, a.value.sequence), x, m, LockWaiter(tx, mode, b.value.sequence), y, n);
    }
  }

  /** Which answer a holder gets, by its mode and the queue. */
  lemma KindsOfAnswer(e: LockEntry, last: nat, tx: Tx, mode: LockMode, i: nat, a: Answer, x: LockEntry, m: nat)
    requires Fifo(e.waiters, last) && i < |e.holders| && e.holders[i].tx == tx
    requires forall h :: h in e.holders && h.tx == tx ==> h == e.holders[i]
    requires forall k :: 0 <= k < |e.holders| && e.holders[k].tx == tx ==> k == i
    requires Acquires(e, last, tx, mode, a, x, m)
    ensures var held := e.holders[i].mode;
            && (a == Ok(AlreadyHeld(held)) <==> held == mode || Covers(held, mode))
            && (a.Ok? && a.value.AlreadyHeld? ==> a.value.heldMode == held)
            && (a == Err(UnsupportedConversion) <==> !Converts(held, mode))
            && (a == Ok(Upgraded(held, mode)) <==> IsUpgrade(held, mode) && MayPass(e, tx, mode))
            && (a.Ok? && a.value.Upgraded? ==> x == LockEntry(e.holders[i := LockHolder(tx, mode)], e.waiters))
            && (a == Err(SequenceOverflow) <==>
                  IsUpgrade(held, mode) && !MayPass(e, tx, mode) && !HasAsked(e, tx, mode) && last == U64_MAX)
            && (a.Ok? && a.value.WaitingUpgrade? ==> a.value.heldMode == held)
            && !(a.Ok? && (a.value.Granted? || a.value.Waiting?))
  {
    var held := e.holders[i].mode;
    assert e.holders[i] in e.holders;
    AnswersAreSound(held, mode);
  }

  lemma QueuedOnce(e: LockEntry, last: nat, v: LockWaiter, x: LockEntry, m: nat, w: LockWaiter, y: LockEntry, n: nat)
    requires Fifo(e.waiters, last) && v.tx == w.tx && v.mode == w.mode
    requires Queued(e, last, v, x, m) && Queued(e, last, w, y, n)
    ensures v == w && x == y && m == n
  {
  }

  lemma NewcomerIsDetermined(e: LockEntry, last: nat, tx: Tx, mode: LockMode, a: Answer, x: LockEntry, m: nat,
                             b: Answer, y: LockEntry, n: nat)
    requires Fifo(e.waiters, last) && forall h :: h in e.holders ==> h.tx != tx
    requires Acquires(e, last, tx, mode, a, x, m) && Acquires(e, last, tx, mode, b, y, n)
    ensures a == b && x == y && m == n
  {
    if a.Ok? && a.value.Waiting? && b.Ok? && b.value.Waiting? {
      QueuedOnce(e, last, LockWaiter(tx, mode, a.value.sequence), x, m, LockWaiter(tx, mode, b.value.sequence), y, n);
    }
  }

  lemma GrantKeepsFrontBlocked(e: LockEntry, h: LockHolder)
    requires FrontIsBlocked(e)
    ensures FrontIsBlocked(LockEntry(e.holders + [h], e.waiters))
  {
    if e.waiters != [] {
      MoreHoldersBlock(e.holders, e.holders + [h], e.waiters[0].tx, e.waiters[0].mode);
    }
  }

  lemma QueueKeepsEntryOk(e: LockEntry, last: nat, w: LockWaiter, e': LockEntry, last': nat)
    requires EntryOk(e, last) && Queued(e, last, w, e', last')
    ensures EntryOk(e', last') && last <= last'
  {
    if !(IsFirstOf(e.waiters, w) && Untouched(e, last, e', last')) {
      Enqueued(e, last, w);
    }
  }

  lemma LaterNumbersAreOk(e: LockEntry, last: nat, last': nat)
    requires EntryOk(e, last) && last <= last'
    ensures EntryOk(e, last')
  {
  }

  // ---------------------------------------------------------------- runs

  datatype State = State(table: LockMap, last: nat)

  /** One call that gets as far as the table: who makes it, and what it asks for. */
  datatype Step =
    | Acquire(tx: Tx, resource: LockResource, mode: LockMode)
    | Release(tx: Tx, resource: LockResource)
    | ReleaseAll(tx: Tx)

  ghost predicate Takes(a: State, s: Step, b: State)
  {
    match s
    case Acquire(tx, r, mode) => exists answer :: AcquiresAt(a, tx, r, mode, answer, b)
    case Release(tx, r) => b == State(Released(a.table, tx, r), a.last)
    case ReleaseAll(tx) => b == State(ReleasedAll(a.table, tx), a.last)
  }

  ghost predicate AcquiresAt(a: State, tx: Tx, r: LockResource, mode: LockMode, answer: Answer, b: State)
  {
    && Acquires(EntryAt(a.table, r), a.last, tx, mode, answer, EntryAt(b.table, r), b.last)
    && b.table == a.table[r := EntryAt(b.table, r)]
  }

  /** The table after `tx` gave up its records on one resource; an empty queue is dropped. */
  function Released(table: LockMap, tx: Tx, r: LockResource): LockMap
  {
    if r !in table then table
    else if AfterRelease(table[r], tx) == NO_LOCKS then table - {r}
    else table[r := AfterRelease(table[r], tx)]
  }

  /** The table after `tx` gave up everything; only queues that it emptied are dropped. */
  function ReleasedAll(table: LockMap, tx: Tx): LockMap
  {
    map r | r in table && !Empties(table[r], tx) :: AfterRelease(table[r], tx)
  }

  predicate Empties(e: LockEntry, tx: Tx)
  {
    Without(e, tx) != e && AfterRelease(e, tx) == NO_LOCKS
  }

  ghost predicate IsRun(states: seq<State>, steps: seq<Step>)
  {
    && |states| == |steps| + 1
    && forall k :: 0 <= k < |steps| ==> StepAt(states, steps, k)
  }

  ghost predicate StepAt(states: seq<State>, steps: seq<Step>, k: nat)
    requires k < |steps| && |states| == |steps| + 1
  {
    Takes(states[k], steps[k], states[k + 1])
  }

  ghost predicate StateOk(s: State)
  {
    TableOk(s.table, s.last)
  }

  lemma StepKeepsStateOk(a: State, s: Step, b: State)
    requires StateOk(a) && Takes(a, s, b)
    ensures StateOk(b) && a.last <= b.last
  {
    match s
    case Acquire(tx, r, mode) =>
      var answer :| AcquiresAt(a, tx, r, mode, answer, b);
      AcquireKeepsEntryOk(EntryAt(a.table, r), a.last, tx, mode, answer, EntryAt(b.table, r), b.last);
      forall q | q in b.table ensures EntryOk(b.table[q], b.last) {
        if q != r {
          LaterNumbersAreOk(a.table[q], a.last, b.last);
        }
      }
    case Release(tx, r) =>
      forall q | q in b.table ensures EntryOk(b.table[q], b.last) {
        ReleaseKeepsEntryOk(a.table[q], a.last, tx);
      }
    case ReleaseAll(tx) =>
      forall q | q in b.table ensures EntryOk(b.table[q], b.last) {
        ReleaseKeepsEntryOk(a.table[q], a.last, tx);
      }
  }

  /** No queue without records is kept. */
  ghost predicate NoneIsEmpty(table: LockMap)
  {
    forall r :: r in table ==> table[r] != NO_LOCKS
  }

  lemma {:induction false} NoQueueIsLeftEmpty(states: seq<State>, steps: seq<Step>, k: nat)
    requires IsRun(states, steps) && states[0] == State(map[], 0) && k < |states|
    ensures NoneIsEmpty(states[k].table)
  {
    if k > 0 {
      NoQueueIsLeftEmpty(states, steps, k - 1);
      assert StepAt(states, steps, k - 1);
      StepLeavesNoneEmpty(states[k - 1], steps[k - 1], states[k]);
    }
  }

  lemma StepLeavesNoneEmpty(a: State, s: Step, b: State)
    requires NoneIsEmpty(a.table) && Takes(a, s, b)
    ensures NoneIsEmpty(b.table)
  {
    match s
    case Acquire(tx, r, mode) =>
      var answer :| AcquiresAt(a, tx, r, mode, answer, b);
      AcquiredIsNotEmpty(EntryAt(a.table, r), a.last, tx, mode, answer, EntryAt(b.table, r), b.last);
    case Release(tx, r) =>
    case ReleaseAll(tx) =>
      forall r | r in b.table ensures b.table[r] != NO_LOCKS {
        assert !Empties(a.table[r], tx);
      }
  }

  /** Whatever the answer, the queue has a record afterwards: a request that finds none is granted. */
  lemma AcquiredIsNotEmpty(e: LockEntry, last: nat, tx: Tx, mode: LockMode, answer: Answer, e': LockEntry, last': nat)
    requires Acquires(e, last, tx, mode, answer, e', last')
    ensures e' != NO_LOCKS
  {
  }

  /**
   In every run from the empty table: no two transactions hold conflicting locks, no
   transaction has two records, queues are in the order of the requests, and no
   queue waits for nobody.
   */
  lemma {:induction false} EveryRunIsSafe(states: seq<State>, steps: seq<Step>, k: nat)
    requires IsRun(states, steps) && states[0] == State(map[], 0) && k < |states|
    ensures StateOk(states[k])
  {
    if k > 0 {
      EveryRunIsSafe(states, steps, k - 1);
      assert StepAt(states, steps, k - 1);
      StepKeepsStateOk(states[k - 1], steps[k - 1], states[k]);
    }
  }

  // ---------------------------------------------------------------- a run that loses a lock

  /** A request that may pass is granted. */
  lemma Passes(a: State, r: LockResource, e: LockEntry, h: LockHolder)
    requires EntryAt(a.table, r) == e && !Holds(e.holders, h.tx) && MayPass(e, h.tx, h.mode) &&
              !HasAsked(e, h.tx, h.mode)
    ensures Takes(a, Step.Acquire(h.tx, r, h.mode), State(a.table[r := LockEntry(e.holders + [h], e.waiters)], a.last))
  {
    var b := State(a.table[r := LockEntry(e.holders + [h], e.waiters)], a.last);
    assert AcquiresAt(a, h.tx, r, h.mode, Ok(Granted), b);
  }

  /** A request that may not pass goes to the end of the queue. */
  lemma Queues(a: State, r: LockResource, e: LockEntry, w: LockWaiter)
    requires EntryAt(a.table, r) == e && !Holds(e.holders, w.tx) && !MayPass(e, w.tx, w.mode) &&
              !HasAsked(e, w.tx, w.mode)
    requires w.sequence == a.last + 1 <= U64_MAX
    ensures Takes(a, Step.Acquire(w.tx, r, w.mode),
                  State(a.table[r := LockEntry(e.holders, e.waiters + [w])], w.sequence))
  {
    var b := State(a.table[r := LockEntry(e.holders, e.waiters + [w])], w.sequence);
    assert AcquiresAt(a, w.tx, r, w.mode, Ok(Waiting(w.sequence, Blockers(e.holders, w.tx, w.mode))), b);
  }

  lemma FirstIsGranted(r: LockResource, h: LockHolder)
    ensures Takes(State(map[], 0), Step.Acquire(h.tx, r, h.mode), State(map[r := LockEntry([h], [])], 0))
  {
    Passes(State(map[], 0), r, NO_LOCKS, h);
    assert [] + [h] == [h];
  }

  lemma OtherWaits(r: LockResource, h: LockHolder, waiters: seq<LockWaiter>, w: LockWaiter)
    requires Blocks(h, w.tx, w.mode) && 0 < w.sequence <= U64_MAX && !HasAsked(LockEntry([h], waiters), w.tx, w.mode)
    ensures Takes(State(map[r := LockEntry([h], waiters)], w.sequence - 1), Step.Acquire(w.tx, r, w.mode),
                  State(map[r := LockEntry([h], waiters + [w])], w.sequence))
  {
    var e := LockEntry([h], waiters);
    assert Blocks(e.holders[0], w.tx, w.mode);
    Queues(State(map[r := e], w.sequence - 1), r, e, w);
    assert map[r := e][r := LockEntry([h], waiters + [w])] == map[r := LockEntry([h], waiters + [w])];
  }

  /**
   The loss happens in a run: b asks for an exclusive and then for a schema-shared lock while
   a holds the resource, a releases it, and b ends with the schema-shared lock alone.
   */
  lemma LockIsLostInARun(r: LockResource, a: Tx, b: Tx)
    requires r.Valid() && a != 0 && b != 0 && a != b
    ensures var h, x, s := LockHolder(a, SchemaExclusive), LockWaiter(b, Exclusive, 1), LockWaiter(b, SchemaShared, 2);
            var states := [State(map[], 0), State(map[r := LockEntry([h], [])], 0),
                           State(map[r := LockEntry([h], [x])], 1),
                           State(map[r := LockEntry([h], [x, s])], 2),
                           State(map[r := LockEntry([LockHolder(b, SchemaShared)], [])], 2)];
            var steps := [Step.Acquire(a, r, SchemaExclusive), Step.Acquire(b, r, Exclusive),
                          Step.Acquire(b, r, SchemaShared),
                          Step.Release(a, r)];
            IsRun(states, steps)
  {
    var h, x, s := LockHolder(a, SchemaExclusive), LockWaiter(b, Exclusive, 1), LockWaiter(b, SchemaShared, 2);
    FirstIsGranted(r, h);
    OtherWaits(r, h, [], x);
    assert [] + [x] == [x];
    OtherWaits(r, h, [x], s);
    assert [x] + [s] == [x, s];
    LosingRelease(r, a, b);
    RunOfFour(State(map[], 0), State(map[r := LockEntry([h], [])], 0), State(map[r := LockEntry([h], [x])], 1),
              State(map[r := LockEntry([h], [x, s])], 2),
              State(map[r := LockEntry([LockHolder(b, SchemaShared)], [])], 2),
              Step.Acquire(a, r, SchemaExclusive), Step.Acquire(b, r, Exclusive), Step.Acquire(b, r, SchemaShared),
              Step.Release(a, r));
  }

  lemma LosingRelease(r: LockResource, a: Tx, b: Tx)
    requires a != b
    ensures var e := LockEntry([LockHolder(a, SchemaExclusive)],
                               [LockWaiter(b, Exclusive, 1), LockWaiter(b, SchemaShared, 2)]);
            Takes(State(map[r := e], 2), Step.Release(a, r),
                  State(map[r := LockEntry([LockHolder(b, SchemaShared)], [])], 2))
  {
    PromotedLockCanBeLost(a, b);
  }

  lemma RunOfThree(a: State, b: State, c: State, d: State, s: Step, t: Step, u: Step)
    requires Takes(a, s, b) && Takes(b, t, c) && Takes(c, u, d)
    ensures IsRun([a, b, c, d], [s, t, u])
  {
  }

  lemma RunOfFour(a: State, b: State, c: State, d: State, e: State, s: Step, t: Step, u: Step, v: Step)
    requires Takes(a, s, b) && Takes(b, t, c) && Takes(c, u, d) && Takes(d, v, e)
    ensures IsRun([a, b, c, d, e], [s, t, u, v])
  {
  }

  // ---------------------------------------------------------------- the class

  /** The waiters promoted on each resource. */
  type Promotions = map<LockResource, seq<LockWaiter>>

  datatype ReleaseAllSummary = ReleaseAllSummary(affectedResources: nat, releasedHolders: nat, removedWaiters: nat)

  class LockManager {
    var entries: LockMap
    var nextSequence: U64

    ghost predicate Valid()
      reads this
    {
      TableOk(entries, nextSequence)
    }

    constructor ()
      ensures Valid() && entries == map[] && nextSequence == 0
    {
      entries := map[];
      nextSequence := 0;
    }

    /** Grant the request, or queue it; the answer says which. */
    method Acquire(tx: Tx, resource: LockResource, mode: LockMode) returns (answer: Answer)
      requires Valid()
      modifies this
      ensures Valid()
      ensures tx == 0 || !resource.Valid() <==> answer == Err(InvalidId)
      ensures answer == Err(InvalidId) ==> entries == old(entries) && nextSequence == old(nextSequence)
      ensures answer != Err(InvalidId) ==>
                AcquiresAt(State(old(entries), old(nextSequence)), tx, resource, mode, answer,
                           State(entries, nextSequence))
    {
      if tx == 0 || !resource.Valid() {
        return Err(InvalidId);
      }
      var entry := EntryAt(entries, resource);
      ghost var before := State(entries, nextSequence);
      answer, entry := AcquireIn(entry, tx, mode);
      entries := entries[resource := entry];
      assert AcquiresAt(before, tx, resource, mode, answer, State(entries, nextSequence));
      StepKeepsStateOk(before, Step.Acquire(tx, resource, mode), State(entries, nextSequence));
    }

    /** The decision on one queue. */
    method AcquireIn(e: LockEntry, tx: Tx, mode: LockMode) returns (answer: Answer, e': LockEntry)
      requires EntryOk(e, nextSequence)
      modifies this`nextSequence
      ensures answer != Err(InvalidId)
      ensures Acquires(e, old(nextSequence), tx, mode, answer, e', nextSequence)
    {
      var index := Find(e.holders, tx);
      var blockers := Blockers(e.holders, tx, mode);
      var hasOlderWaiter := exists i :: 0 <= i < |e.waiters| && !Compatible(e.waiters[i].mode, mode);
      assert blockers == [] && !hasOlderWaiter <==> MayPass(e, tx, mode);
      if index < |e.holders| {
        var held := e.holders[index].mode;
        if held == mode || Covers(held, mode) {
          return Ok(AlreadyHeld(held)), e;
        }
        if !IsUpgrade(held, mode) {
          return Err(UnsupportedConversion), e;
        }
        if blockers == [] && !hasOlderWaiter {
          e' := LockEntry(e.holders[index := LockHolder(tx, mode)], e.waiters);
          return Ok(Upgraded(held, mode)), e';
        }
        var sequence;
        sequence, e' := Enqueue(e, tx, mode);
        if sequence.None? {
          return Err(SequenceOverflow), e;
        }
        return Ok(WaitingUpgrade(sequence.value, held, mode, blockers)), e';
      }
      var position := FindWaiter(e.waiters, tx, mode);
      if position == |e.waiters| && blockers == [] && !hasOlderWaiter {
        return Ok(Granted), LockEntry(e.holders + [LockHolder(tx, mode)], e.waiters);
      }
      var sequence;
      sequence, e' := Enqueue(e, tx, mode);
      if sequence.None? {
        return Err(SequenceOverflow), e;
      }
      return Ok(Waiting(sequence.value, blockers)), e';
    }

    /** The number of the request if it is queued already; otherwise it is queued under the next one. */
    method Enqueue(e: LockEntry, tx: Tx, mode: LockMode) returns (sequence: Option<nat>, e': LockEntry)
      requires FindWaiter(e.waiters, tx, mode) < |e.waiters| || !MayPass(e, tx, mode)
      requires Fifo(e.waiters, nextSequence)
      modifies this`nextSequence
      ensures sequence.Some? ==> Queued(e, old(nextSequence), LockWaiter(tx, mode, sequence.value), e', nextSequence)
      ensures sequence.None? ==> Untouched(e, old(nextSequence), e', nextSequence) && nextSequence == U64_MAX
      ensures sequence.None? ==> !MayPass(e, tx, mode) && !HasAsked(e, tx, mode)
    {
      var position := FindWaiter(e.waiters, tx, mode);
      if position < |e.waiters| {
        return Some(e.waiters[position].sequence), e;
      }
      if nextSequence == U64_MAX {
        return None, e;
      }
      nextSequence := nextSequence + 1;
      return Some(nextSequence), LockEntry(e.holders, e.waiters + [LockWaiter(tx, mode, nextSequence)]);
    }

    /** Give up every record on one resource and promote who can go on. */
    method Release(tx: Tx, resource: LockResource) returns (r: Result<(bool, seq<LockWaiter>), LockError>)
      requires Valid()
      modifies this`entries
      ensures Valid()
      ensures tx == 0 || !resource.Valid() <==> r.Err?
      ensures r.Err? ==> entries == old(entries)
      ensures r.Ok? ==> entries == Released(old(entries), tx, resource)
      ensures r.Ok? ==> var e := EntryAt(old(entries), resource);
                        && (r.value.0 <==> Holds(e.holders, tx) || Waits(e.waiters, tx))
                        && IsPromotion(e, tx, r.value.1)
    {
      if tx == 0 || !resource.Valid() {
        return Err(InvalidId);
      }
      if resource !in entries {
        return Ok((false, []));
      }
      ghost var before := State(entries, nextSequence);
      var holders, waiters, promoted, rest := ReleaseIn(entries[resource], tx);
      if rest == NO_LOCKS {
        entries := entries - {resource};
      } else {
        entries := entries[resource := rest];
      }
      StepKeepsStateOk(before, Step.Release(tx, resource), State(entries, nextSequence));
      return Ok((holders != 0 || waiters != 0, promoted));
    }

    /** Give up every record everywhere: what remains of the table, and the counts. */
    method ReleaseAll(tx: Tx) returns (r: Result<(ReleaseAllSummary, Promotions), LockError>)
      requires Valid()
      modifies this`entries
      ensures Valid()
      ensures tx == 0 <==> r.Err?
      ensures r.Err? ==> entries == old(entries)
      ensures r.Ok? ==> entries == ReleasedAll(old(entries), tx)
      ensures r.Ok? ==> r.value.0 == Summary(old(entries), old(entries).Keys, tx)
      ensures r.Ok? ==> Reports(old(entries), {}, tx, r.value.1)
    {
      if tx == 0 {
        return Err(InvalidId);
      }
      ghost var before := State(entries, nextSequence);
      var summary, promotions;
      forall q | q in entries ensures OneHolderEach(entries[q], tx) {
        CountHolders(entries[q].holders, tx);
        CountRequests(entries[q].waiters, tx, nextSequence);
      }
      entries, summary, promotions := ReleaseEverywhere(entries, tx);
      StepKeepsStateOk(before, Step.ReleaseAll(tx), State(entries, nextSequence));
      return Ok((summary, promotions));
    }
  }

  /** The loop over all queues, in any order, and the removal of those it emptied. */
  method ReleaseEverywhere(table: LockMap, tx: Tx)
    returns (r: LockMap, summary: ReleaseAllSummary, promotions: Promotions)
    requires forall q :: q in table ==> OneHolderEach(table[q], tx)
    ensures r == ReleasedAll(table, tx)
    ensures summary == Summary(table, table.Keys, tx)
    ensures Reports(table, {}, tx, promotions)
  {
    var pending, emptied := table.Keys, {};
    r, summary, promotions := table, ReleaseAllSummary(0, 0, 0), map[];
    HalfwayStart(table, tx);
    while pending != {}
      invariant Halfway(table, pending, tx, r, emptied, summary)
      invariant Reports(table, pending, tx, promotions)
      decreases pending
    {
      var resource :| resource in pending;
      PendingIsUntouched(table, pending, tx, r, emptied, summary, resource);
      var holders, waiters, promoted, rest := ReleaseIn(r[resource], tx);
      if holders == 0 && waiters == 0 {
        IdleStep(table, pending, tx, r, emptied, summary, resource);
        IdleReport(table, pending, tx, promotions, resource);
        pending := pending - {resource};
        continue;
      }
      BusyStep(table, pending, tx, r, emptied, summary, resource);
      BusyReport(table, pending, tx, promotions, resource, promoted);
      pending := pending - {resource};
      summary := ReleaseAllSummary(summary.affectedResources + 1, summary.releasedHolders + holders,
                                   summary.removedWaiters + waiters);
      r := r[resource := rest];
      promotions := promotions[resource := promoted];
      if rest == NO_LOCKS {
        emptied := emptied + {resource};
      }
    }
    HalfwayEnd(table, tx, r, emptied, summary);
    r := r - emptied;
  }

  /** Of the queues that are not pending, those that `tx` was in, each with the waiters that its release promotes. */
  ghost predicate Reports(table: LockMap, pending: set<LockResource>, tx: Tx, promotions: Promotions)
  {
    && (forall q :: q in promotions <==> q in table && q !in pending && Without(table[q], tx) != table[q])
    && (forall q :: q in promotions ==> IsPromotion(table[q], tx, promotions[q]))
  }

  lemma IdleReport(table: LockMap, pending: set<LockResource>, tx: Tx, promotions: Promotions, q: LockResource)
    requires Reports(table, pending, tx, promotions) && q in table && Without(table[q], tx) == table[q]
    ensures Reports(table, pending - {q}, tx, promotions)
  {
  }

  lemma BusyReport(table: LockMap, pending: set<LockResource>, tx: Tx, promotions: Promotions, q: LockResource,
                   promoted: seq<LockWaiter>)
    requires Reports(table, pending, tx, promotions) && q in table && Without(table[q], tx) != table[q]
    requires IsPromotion(table[q], tx, promoted)
    ensures Reports(table, pending - {q}, tx, promotions[q := promoted])
  {
  }

  ghost predicate IsPromotion(e: LockEntry, tx: Tx, promoted: seq<LockWaiter>)
  {
    promoted + AfterRelease(e, tx).waiters == WaitersWithout(e.waiters, tx)
  }

  /** Removing the records of `tx` from a queue removes at most one holder, and each request once. */
  ghost predicate OneHolderEach(e: LockEntry, tx: Tx)
  {
    && |e.holders| - |HoldersWithout(e.holders, tx)| == (if Holds(e.holders, tx) then 1 else 0)
    && |e.waiters| - |WaitersWithout(e.waiters, tx)| == |RequestsIn(e.waiters, tx)|
  }

  /** All queues but the pending ones are done. */
  ghost predicate Halfway(table: LockMap, pending: set<LockResource>, tx: Tx, r: LockMap, emptied: set<LockResource>,
                          summary: ReleaseAllSummary)
  {
    && pending <= table.Keys
    && var done := table.Keys - pending;
       && r == PartlyReleased(table, done, tx)
       && emptied == EmptiedIn(table, done, tx)
       && summary == Summary(table, done, tx)
  }

  lemma HalfwayStart(table: LockMap, tx: Tx)
    ensures Halfway(table, table.Keys, tx, table, {}, ReleaseAllSummary(0, 0, 0))
  {
    assert table.Keys - table.Keys == {};
    assert PartlyReleased(table, {}, tx) == table;
  }

  lemma PendingIsUntouched(table: LockMap, pending: set<LockResource>, tx: Tx, r: LockMap, emptied: set<LockResource>,
                           summary: ReleaseAllSummary, q: LockResource)
    requires Halfway(table, pending, tx, r, emptied, summary) && q in pending
    ensures q in table && q in r && r[q] == table[q]
  {
  }

  lemma OneLessPending(all: set<LockResource>, pending: set<LockResource>, q: LockResource)
    requires q in pending && pending <= all
    ensures all - (pending - {q}) == (all - pending) + {q}
  {
  }

  lemma IdleStep(table: LockMap, pending: set<LockResource>, tx: Tx, r: LockMap, emptied: set<LockResource>,
                 summary: ReleaseAllSummary, q: LockResource)
    requires Halfway(table, pending, tx, r, emptied, summary) && q in pending && OneHolderEach(table[q], tx)
    requires Without(table[q], tx) == table[q]
    ensures Halfway(table, pending - {q}, tx, r, emptied, summary)
  {
    var done := table.Keys - pending;
    OneLessPending(table.Keys, pending, q);
    SummaryAdds(table, done, q, tx);
    ReleasedOneMore(table, done, q, tx);
  }

  lemma BusyStep(table: LockMap, pending: set<LockResource>, tx: Tx, r: LockMap, emptied: set<LockResource>,
                 summary: ReleaseAllSummary, q: LockResource)
    requires Halfway(table, pending, tx, r, emptied, summary) && q in pending && OneHolderEach(table[q], tx)
    requires Without(table[q], tx) != table[q]
    ensures var e, rest := table[q], AfterRelease(table[q], tx);
            Halfway(table, pending - {q}, tx, r[q := rest], if rest == NO_LOCKS then emptied + {q} else emptied,
                    ReleaseAllSummary(summary.affectedResources + 1,
                                      summary.releasedHolders + |e.holders| - |HoldersWithout(e.holders, tx)|,
                                      summary.removedWaiters + |e.waiters| - |WaitersWithout(e.waiters, tx)|))
  {
    var done := table.Keys - pending;
    OneLessPending(table.Keys, pending, q);
    WithoutMeans(table[q], tx);
    SummaryAdds(table, done, q, tx);
    ReleasedOneMore(table, done, q, tx);
  }

  lemma HalfwayEnd(table: LockMap, tx: Tx, r: LockMap, emptied: set<LockResource>, summary: ReleaseAllSummary)
    requires Halfway(table, {}, tx, r, emptied, summary)
    ensures r - emptied == ReleasedAll(table, tx) && summary == Summary(table, table.Keys, tx)
  {
    assert table.Keys - {} == table.Keys;
    AllReleased(table, tx);
  }

  ghost function PartlyReleased(table: LockMap, done: set<LockResource>, tx: Tx): LockMap
  {
    map r | r in table :: if r in done then AfterRelease(table[r], tx) else table[r]
  }

  ghost function EmptiedIn(table: LockMap, done: set<LockResource>, tx: Tx): set<LockResource>
    requires done <= table.Keys
  {
    set r | r in done && Empties(table[r], tx)
  }

  lemma ReleasedOneMore(table: LockMap, done: set<LockResource>, r: LockResource, tx: Tx)
    requires done <= table.Keys && r in table && r !in done
    ensures PartlyReleased(table, done + {r}, tx) == PartlyReleased(table, done, tx)[r := AfterRelease(table[r], tx)]
    ensures Without(table[r], tx) == table[r] ==>
              PartlyReleased(table, done + {r}, tx) == PartlyReleased(table, done, tx)
    ensures EmptiedIn(table, done + {r}, tx) == if Empties(table[r], tx) then EmptiedIn(table, done, tx) + {r}
              else EmptiedIn(table, done, tx)
  {
  }

  lemma AllReleased(table: LockMap, tx: Tx)
    ensures PartlyReleased(table, table.Keys, tx) - EmptiedIn(table, table.Keys, tx) == ReleasedAll(table, tx)
  {
  }

  /** Take the records of `tx` out of one queue: how many of each kind there were, and who goes on. */
  method ReleaseIn(e: LockEntry, tx: Tx) returns (holders: nat, waiters: nat, promoted: seq<LockWaiter>, r: LockEntry)
    ensures r == AfterRelease(e, tx)
    ensures holders == |e.holders| - |HoldersWithout(e.holders, tx)|
    ensures waiters == |e.waiters| - |WaitersWithout(e.waiters, tx)|
    ensures holders == 0 && waiters == 0 <==> Without(e, tx) == e
    ensures holders == 0 && waiters == 0 <==> !Holds(e.holders, tx) && !Waits(e.waiters, tx)
    ensures IsPromotion(e, tx, promoted)
  {
    var rest := Without(e, tx);
    WithoutMeans(e, tx);
    holders, waiters := |e.holders| - |rest.holders|, |e.waiters| - |rest.waiters|;
    if holders == 0 && waiters == 0 {
      return holders, waiters, [], e;
    }
    promoted, r := PromoteCompatibleWaiters(rest);
  }

  /** The position of the request in the queue, or the length of the queue. */
  function FindWaiter(waiters: seq<LockWaiter>, tx: Tx, mode: LockMode): (i: nat)
    ensures i <= |waiters|
    ensures i < |waiters| ==> waiters[i].tx == tx && waiters[i].mode == mode
    ensures forall j :: 0 <= j < i ==> !(waiters[j].tx == tx && waiters[j].mode == mode)
  {
    if waiters == [] || (waiters[0].tx == tx && waiters[0].mode == mode) then 0
        else 1 + FindWaiter(waiters[1..], tx, mode)
  }

  /** The loop that hands the lock to the front of the queue until somebody is blocked. */
  method PromoteCompatibleWaiters(e: LockEntry) returns (promoted: seq<LockWaiter>, r: LockEntry)
    ensures r == Promote(e)
    ensures promoted + r.waiters == e.waiters
  {
    promoted, r := [], e;
    while r.waiters != []
      invariant Promote(r) == Promote(e)
      invariant promoted + r.waiters == e.waiters
      decreases |r.waiters|
    {
      var waiter := r.waiters[0];
      if IsBlocked(r.holders, waiter.tx, waiter.mode) {
        break;
      }
      PromoteFront(r);
      assert (promoted + [waiter]) + r.waiters[1..] == e.waiters by {
        assert [waiter] + r.waiters[1..] == r.waiters;
        ConcatAssociative(promoted, [waiter], r.waiters[1..]);
      }
      r := LockEntry(Hold(r.holders, waiter), r.waiters[1..]);
      promoted := promoted + [waiter];
    }
  }

  /** Removing records changes the queue exactly when one of the lists gets shorter. */
  lemma WithoutMeans(e: LockEntry, tx: Tx)
    ensures var rest := Without(e, tx);
            && (rest == e <==> |rest.holders| == |e.holders| && |rest.waiters| == |e.waiters|)
            && (rest == e <==> !Holds(e.holders, tx) && !Waits(e.waiters, tx))
  {
    HoldersWithoutMeans(e.holders, tx);
    WaitersWithoutMeans(e.waiters, tx);
  }

  // ---------------------------------------------------------------- counts

  /** The queues that `tx` is in, those it holds, and its requests. */
  ghost function Summary(table: LockMap, resources: set<LockResource>, tx: Tx): ReleaseAllSummary
    requires resources <= table.Keys
  {
    ReleaseAllSummary(|Affected(table, resources, tx)|, |HeldBy(table, resources, tx)|,
                      |Requests(table, resources, tx)|)
  }

  ghost function Affected(table: LockMap, resources: set<LockResource>, tx: Tx): set<LockResource>
    requires resources <= table.Keys
  {
    set r | r in resources && (Holds(table[r].holders, tx) || Waits(table[r].waiters, tx))
  }

  ghost function HeldBy(table: LockMap, resources: set<LockResource>, tx: Tx): set<LockResource>
    requires resources <= table.Keys
  {
    set r | r in resources && Holds(table[r].holders, tx)
  }

  ghost function Requests(table: LockMap, resources: set<LockResource>, tx: Tx): set<(LockResource, LockWaiter)>
    requires resources <= table.Keys
  {
    set r, w | r in resources && w in RequestsIn(table[r].waiters, tx) :: (r, w)
  }

  ghost function RequestsIn(waiters: seq<LockWaiter>, tx: Tx): set<LockWaiter>
  {
    set w | w in waiters && w.tx == tx
  }

  lemma {:induction false} CountRequests(waiters: seq<LockWaiter>, tx: Tx, last: nat)
    requires Fifo(waiters, last)
    ensures |RequestsIn(waiters, tx)| == |waiters| - |WaitersWithout(waiters, tx)|
  {
    if waiters != [] {
      var w, rest := waiters[0], waiters[1..];
      SuffixIsFifo(waiters, 1, last);
      CountRequests(rest, tx, last);
      FrontIsFirst(waiters, last);
      RequestsPrepend(w, rest, tx);
      assert waiters == [w] + rest;
    }
  }

  lemma FrontIsFirst(waiters: seq<LockWaiter>, last: nat)
    requires waiters != [] && Fifo(waiters, last)
    ensures waiters[0] !in waiters[1..]
  {
  }

  lemma RequestsPrepend(w: LockWaiter, rest: seq<LockWaiter>, tx: Tx)
    requires w !in rest
    ensures |RequestsIn([w] + rest, tx)| == |RequestsIn(rest, tx)| + if w.tx == tx then 1 else 0
  {
    assert RequestsIn([w] + rest, tx) == if w.tx == tx then RequestsIn(rest, tx) + {w} else RequestsIn(rest, tx);
  }

  lemma {:induction false} CountHolders(holders: seq<LockHolder>, tx: Tx)
    requires Safe(holders)
    ensures |holders| - |HoldersWithout(holders, tx)| == if Holds(holders, tx) then 1 else 0
  {
    if holders != [] {
      CountHolders(holders[1..], tx);
      if holders[0].tx == tx {
        HoldersWithoutMeans(holders[1..], tx);
        assert HoldersWithout(holders[1..], tx) == holders[1..];
      } else {
        assert Holds(holders, tx) ==> Holds(holders[1..], tx) by {
          if Holds(holders, tx) {
            var i :| 0 <= i < |holders| && holders[i].tx == tx;
            assert holders[1..][i - 1].tx == tx;
          }
        }
      }
    }
  }

  lemma {:induction false} PairCount(r: LockResource, s: set<LockWaiter>)
    ensures |set w | w in s :: (r, w)| == |s|
  {
    if s != {} {
      var x :| x in s;
      PairCount(r, s - {x});
      assert (set w | w in s :: (r, w)) == (set w | w in s - {x} :: (r, w)) + {(r, x)};
    }
  }

  /** One more queue adds its records to the counts. */
  lemma SummaryAdds(table: LockMap, done: set<LockResource>, r: LockResource, tx: Tx)
    requires done <= table.Keys && r in table && r !in done && OneHolderEach(table[r], tx)
    ensures var e, s := table[r], Summary(table, done, tx);
            var holders, waiters :=
                |e.holders| - |HoldersWithout(e.holders, tx)|, |e.waiters| - |WaitersWithout(e.waiters, tx)|;
            Summary(table, done + {r}, tx) ==
            ReleaseAllSummary(
              s.affectedResources + (if holders == 0 && waiters == 0 then 0 else 1),
              s.releasedHolders + holders,
              s.removedWaiters + waiters)
  {
    var e := table[r];
    WithoutMeans(e, tx);
    RequestsAdd(table, done, r, tx);
    HeldByAdds(table, done, r, tx);
    AffectedAdds(table, done, r, tx);
  }

  lemma HeldByAdds(table: LockMap, done: set<LockResource>, r: LockResource, tx: Tx)
    requires done <= table.Keys && r in table && r !in done
    ensures |HeldBy(table, done + {r}, tx)| == |HeldBy(table, done, tx)| + if Holds(table[r].holders, tx) then 1 else 0
  {
    var all, before := HeldBy(table, done + {r}, tx), HeldBy(table, done, tx);
    if Holds(table[r].holders, tx) {
      assert all == before + {r};
    } else {
      assert all == before;
    }
  }

  lemma AffectedAdds(table: LockMap, done: set<LockResource>, r: LockResource, tx: Tx)
    requires done <= table.Keys && r in table && r !in done
    ensures |Affected(table, done + {r}, tx)| ==
            |Affected(table, done, tx)| + if Holds(table[r].holders, tx) || Waits(table[r].waiters, tx) then 1 else 0
  {
    var all, before := Affected(table, done + {r}, tx), Affected(table, done, tx);
    if Holds(table[r].holders, tx) || Waits(table[r].waiters, tx) {
      assert all == before + {r};
    } else {
      assert all == before;
    }
  }

  lemma RequestsAdd(table: LockMap, done: set<LockResource>, r: LockResource, tx: Tx)
    requires done <= table.Keys && r in table && r !in done
    ensures |Requests(table, done + {r}, tx)| == |Requests(table, done, tx)| + |RequestsIn(table[r].waiters, tx)|
  {
    var here := RequestsIn(table[r].waiters, tx);
    PairCount(r, here);
    var pairs := set w | w in here :: (r, w);
    assert Requests(table, done + {r}, tx) == Requests(table, done, tx) + pairs;
    assert Requests(table, done, tx) !! pairs;
  }
}
