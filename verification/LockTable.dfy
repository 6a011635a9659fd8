/**
 The lock table: modes, the queue of one resource, and what the two ways of
 changing it do. A request is granted only past compatible holders and
 waiters; a release hands the lock to the front of the queue.
 */
module LockTable {
  import opened Common

  datatype LockMode = Shared | Exclusive | IntentShared | IntentExclusive | SchemaShared | SchemaExclusive

  predicate Compatible(held: LockMode, requested: LockMode)
  {
    match held
    case Shared => requested in {Shared, IntentShared, SchemaShared}
    case IntentShared => requested in {Shared, IntentShared, IntentExclusive, SchemaShared}
    case IntentExclusive => requested in {IntentShared, IntentExclusive, SchemaShared}
    case SchemaShared => requested in {Shared, IntentShared, IntentExclusive, SchemaShared}
    case Exclusive => false
    case SchemaExclusive => false
  }

  /** A held mode that answers a weaker request of the same transaction. */
  predicate Covers(held: LockMode, requested: LockMode)
  {
    || (held == Exclusive && requested in {Shared, IntentShared, IntentExclusive})
    || (held == IntentExclusive && requested == IntentShared)
    || (held == SchemaExclusive && requested == SchemaShared)
  }

  predicate IsUpgrade(held: LockMode, requested: LockMode)
  {
    || (held == Shared && requested == Exclusive)
    || (held == IntentShared && requested == IntentExclusive)
    || (held == SchemaShared && requested == SchemaExclusive)
  }

  /** Mode `a` keeps out at least what mode `b` keeps out. */
  ghost predicate AtLeast(a: LockMode, b: LockMode)
  {
    forall m :: Compatible(m, a) ==> Compatible(m, b)
  }

  /**
   The matrix in words: an exclusive mode goes with nothing, and of the others only shared and
   intent-exclusive clash.
   */
  lemma MatrixMeans(a: LockMode, b: LockMode)
    ensures Compatible(a, b) <==>
              {a, b} !! {Exclusive, SchemaExclusive} && {a, b} != {Shared, IntentExclusive}
    ensures Compatible(a, b) <==> Compatible(b, a)
  {
  }

  /** A lock is reported as held only for requests that keep out no more, and upgrades never keep out less. */
  lemma AnswersAreSound(held: LockMode, requested: LockMode)
    ensures Covers(held, requested) ==> AtLeast(held, requested)
    ensures IsUpgrade(held, requested) ==> AtLeast(requested, held) && !AtLeast(held, requested)
  {
    assert Compatible(IntentShared, Shared) && Compatible(Shared, IntentShared) && Compatible(Shared, SchemaShared);
  }

  /** Modes come in pairs, a weaker and a stronger one, for data, for intentions and for schemas. */
  datatype Kind = Data | Intent | SchemaKind

  function KindOf(m: LockMode): Kind
  {
    match m
    case Shared => Data
    case Exclusive => Data
    case IntentShared => Intent
    case IntentExclusive => Intent
    case SchemaShared => SchemaKind
    case SchemaExclusive => SchemaKind
  }

  /** Exactly the conversions to the stronger mode of the same kind are supported. */
  lemma UpgradesExactly(held: LockMode, requested: LockMode)
    ensures IsUpgrade(held, requested) <==>
              KindOf(held) == KindOf(requested) && AtLeast(requested, held) && !AtLeast(held, requested)
  {
    AnswersAreSound(held, requested);
    AnswersAreSound(requested, held);
    assert Compatible(Shared, Shared);
  }

  /**
   Exactly the weaker modes of the same kind are covered, and all intentions by a data lock that
   keeps out everything.
   */
  lemma CoversExactly(held: LockMode, requested: LockMode)
    ensures Covers(held, requested) <==>
              || (KindOf(held) == KindOf(requested) && AtLeast(held, requested) && !AtLeast(requested, held))
              || (KindOf(held) == Data && KindOf(requested) == Intent && forall m :: !Compatible(m, held))
  {
    UpgradesExactly(requested, held);
    assert Compatible(Shared, Shared);
  }

  type Tx = U64

  datatype LockHolder = LockHolder(tx: Tx, mode: LockMode)
  datatype LockWaiter = LockWaiter(tx: Tx, mode: LockMode, sequence: nat)
  datatype LockEntry = LockEntry(holders: seq<LockHolder>, waiters: seq<LockWaiter>)

  const NO_LOCKS := LockEntry([], [])

  datatype LockResource =
    | Schema(schemaId: U64)
    | Object(schemaId: U64, objectId: U64)
    | Table(schemaId: U64, tableId: U64)
    | Page(schemaId: U64, tableId: U64, pageId: U64)
    | Row(schemaId: U64, tableId: U64, rowId: U64)
  {
    predicate Valid()
    {
      && schemaId > 0
      && match this
         case Schema(_) => true
         case Object(_, o) => o > 0
         case Table(_, t) => t > 0
         case Page(_, t, p) => t > 0 && p > 0
         case Row(_, t, r) => t > 0 && r > 0
    }
  }

  /** The ids that a resource is named by. */
  function Ids(r: LockResource): seq<U64>
  {
    match r
    case Schema(s) => [s]
    case Object(s, o) => [s, o]
    case Table(s, t) => [s, t]
    case Page(s, t, p) => [s, t, p]
    case Row(s, t, w) => [s, t, w]
  }

  /** Zero is no id. */
  lemma ValidMeansNoZero(r: LockResource)
    ensures r.Valid() <==> 0 !in Ids(r)
  {
    match r
    case Schema(s) =>
    case Object(s, o) => assert Ids(r)[1] == o;
    case Table(s, t) => assert Ids(r)[1] == t;
    case Page(s, t, p) => assert Ids(r)[1] == t && Ids(r)[2] == p;
    case Row(s, t, w) => assert Ids(r)[1] == t && Ids(r)[2] == w;
  }

  // ---------------------------------------------------------------- one queue

  /** The position of the first holder record of `tx`, or the number of holders. */
  function Find(holders: seq<LockHolder>, tx: Tx): (i: nat)
    ensures i <= |holders|
    ensures i < |holders| ==> holders[i].tx == tx
    ensures forall j :: 0 <= j < i ==> holders[j].tx != tx
  {
    if holders == [] || holders[0].tx == tx then 0 else 1 + Find(holders[1..], tx)
  }

  /** `h` belongs to another transaction than `w` and their modes do not go together. */
  predicate Blocks(h: LockHolder, tx: Tx, mode: LockMode)
  {
    h.tx != tx && !Compatible(h.mode, mode)
  }

  predicate IsBlocked(holders: seq<LockHolder>, tx: Tx, mode: LockMode)
  {
    exists i :: 0 <= i < |holders| && Blocks(holders[i], tx, mode)
  }

  function Blockers(holders: seq<LockHolder>, tx: Tx, mode: LockMode): (b: seq<LockHolder>)
    ensures b == [] <==> !IsBlocked(holders, tx, mode)
    ensures forall h :: h in b <==> h in holders && Blocks(h, tx, mode)
  {
    if holders == [] then []
    else
      var rest := Blockers(holders[1..], tx, mode);
      assert holders == [holders[0]] + holders[1..];
      if Blocks(holders[0], tx, mode) then [holders[0]] + rest else rest
  }

  lemma BlockersPrepend(h: LockHolder, rest: seq<LockHolder>, tx: Tx, mode: LockMode)
    ensures Blockers([h] + rest, tx, mode) == (if Blocks(h, tx, mode) then [h] else []) + Blockers(rest, tx, mode)
  {
    assert ([h] + rest)[1..] == rest;
  }

  /** What goes through a list from the front, one by one, treats its parts alike. */
  lemma {:induction false} PartByPart(f: seq<LockHolder> -> seq<LockHolder>, pick: LockHolder -> seq<LockHolder>,
                                      a: seq<LockHolder>, b: seq<LockHolder>)
    requires f([]) == [] && forall h, rest :: f([h] + rest) == pick(h) + f(rest)
    ensures f(a + b) == f(a) + f(b)
  {
    if a == [] {
      assert a + b == b;
    } else {
      PartByPart(f, pick, a[1..], b);
      assert a == [a[0]] + a[1..] && a + b == [a[0]] + (a[1..] + b);
      ConcatAssociative(pick(a[0]), f(a[1..]), f(b));
    }
  }

  /** The blockers come in the order of the holders, and each as often. */
  lemma BlockersAreInOrder(a: seq<LockHolder>, b: seq<LockHolder>, tx: Tx, mode: LockMode)
    ensures Blockers(a + b, tx, mode) == Blockers(a, tx, mode) + Blockers(b, tx, mode)
  {
    var f := (s: seq<LockHolder>) => Blockers(s, tx, mode);
    var pick := (h: LockHolder) => if Blocks(h, tx, mode) then [h] else [];
    forall h, rest ensures f([h] + rest) == pick(h) + f(rest) {
      BlockersPrepend(h, rest, tx, mode);
    }
    PartByPart(f, pick, a, b);
  }

  /** One record for each transaction, and the modes of different transactions go together. */
  ghost predicate Safe(holders: seq<LockHolder>)
  {
    forall i, j :: 0 <= i < j < |holders| ==>
      holders[i].tx != holders[j].tx && Compatible(holders[i].mode, holders[j].mode)
  }

  /** No wakeup is lost: whoever is first in the queue is kept out by somebody. */
  ghost predicate FrontIsBlocked(e: LockEntry)
  {
    e.waiters == [] || IsBlocked(e.holders, e.waiters[0].tx, e.waiters[0].mode)
  }

  /** Waiters stand in the order in which their requests were numbered. */
  ghost predicate Fifo(waiters: seq<LockWaiter>, last: nat)
  {
    && (forall i :: 0 <= i < |waiters| ==> 0 < waiters[i].sequence <= last)
    && (forall i, j :: 0 <= i < j < |waiters| ==> waiters[i].sequence < waiters[j].sequence)
  }

  ghost predicate EntryOk(e: LockEntry, last: nat)
  {
    Safe(e.holders) && FrontIsBlocked(e) && Fifo(e.waiters, last)
  }

  // ---------------------------------------------------------------- granting

  /** Nothing that is held or was asked for earlier stands against the request. */
  ghost predicate MayPass(e: LockEntry, tx: Tx, mode: LockMode)
  {
    && !IsBlocked(e.holders, tx, mode)
    && forall i :: 0 <= i < |e.waiters| ==> Compatible(e.waiters[i].mode, mode)
  }

  lemma GrantKeepsSafe(holders: seq<LockHolder>, tx: Tx, mode: LockMode)
    requires Safe(holders) && Find(holders, tx) == |holders| && !IsBlocked(holders, tx, mode)
    ensures Safe(holders + [LockHolder(tx, mode)])
  {
    var hs := holders + [LockHolder(tx, mode)];
    forall i, j | 0 <= i < j < |hs| ensures hs[i].tx != hs[j].tx && Compatible(hs[i].mode, hs[j].mode) {
      if j == |holders| {
        assert !Blocks(holders[i], tx, mode);
      }
    }
  }

  lemma ConversionKeepsSafe(holders: seq<LockHolder>, i: nat, mode: LockMode)
    requires Safe(holders) && i < |holders| && !IsBlocked(holders, holders[i].tx, mode)
    ensures Safe(holders[i := LockHolder(holders[i].tx, mode)])
  {
    var hs := holders[i := LockHolder(holders[i].tx, mode)];
    forall j, k | 0 <= j < k < |hs| ensures hs[j].tx != hs[k].tx && Compatible(hs[j].mode, hs[k].mode) {
      if j == i {
        assert !Blocks(holders[k], holders[i].tx, mode);
      } else if k == i {
        assert !Blocks(holders[j], holders[i].tx, mode);
      }
    }
  }

  /** What keeps a request out still does so when more is held. */
  lemma MoreHoldersBlock(holders: seq<LockHolder>, more: seq<LockHolder>, tx: Tx, mode: LockMode)
    requires IsBlocked(holders, tx, mode) && forall h :: h in holders && Blocks(h, tx, mode) ==> h in more
    ensures IsBlocked(more, tx, mode)
  {
    var i :| 0 <= i < |holders| && Blocks(holders[i], tx, mode);
    assert holders[i] in more;
  }

  /** An upgrade can pass an empty queue only: what it may pass would have been granted before. */
  lemma UpgradePassesNobody(e: LockEntry, i: nat, mode: LockMode)
    requires Safe(e.holders) && FrontIsBlocked(e) && i < |e.holders| && MayPass(e, e.holders[i].tx, mode)
    requires IsUpgrade(e.holders[i].mode, mode)
    ensures e.waiters == []
  {
  }

  lemma Enqueued(e: LockEntry, last: nat, w: LockWaiter)
    requires EntryOk(e, last) && w.sequence == last + 1
    requires e.waiters == [] ==> IsBlocked(e.holders, w.tx, w.mode)
    ensures EntryOk(LockEntry(e.holders, e.waiters + [w]), last + 1)
  {
  }

  // ---------------------------------------------------------------- promotion

  /** The holders once waiter `w` has its lock: its record is converted in place, or added. */
  function Hold(holders: seq<LockHolder>, w: LockWaiter): seq<LockHolder>
  {
    var i := Find(holders, w.tx);
    if i == |holders| then holders + [LockHolder(w.tx, w.mode)]
    else if holders[i].mode == w.mode || Covers(holders[i].mode, w.mode) then holders
    else holders[i := LockHolder(w.tx, w.mode)]
  }

  /** Everybody else's record stays as it is and where it is; a new record comes last. */
  lemma HoldKeepsPlaces(holders: seq<LockHolder>, w: LockWaiter)
    ensures var hs := Hold(holders, w);
            && |hs| == (if Holds(holders, w.tx) then |holders| else |holders| + 1)
            && (forall j :: 0 <= j < |holders| ==> hs[j].tx == holders[j].tx)
            && (forall j :: 0 <= j < |holders| && holders[j].tx != w.tx ==> hs[j] == holders[j])
            && (|hs| > |holders| ==> hs[|holders|] == LockHolder(w.tx, w.mode))
  {
    var i := Find(holders, w.tx);
    if i < |holders| {
      assert holders[i].tx == w.tx;
    }
  }

  /** The queue after every waiter from the front up to the first blocked one has its lock. */
  function Promote(e: LockEntry): (r: LockEntry)
    ensures |r.waiters| <= |e.waiters|
    decreases |e.waiters|
  {
    if e.waiters == [] || IsBlocked(e.holders, e.waiters[0].tx, e.waiters[0].mode) then e
    else Promote(LockEntry(Hold(e.holders, e.waiters[0]), e.waiters[1..]))
  }

  lemma HoldKeepsSafe(holders: seq<LockHolder>, w: LockWaiter)
    requires Safe(holders) && !IsBlocked(holders, w.tx, w.mode)
    ensures Safe(Hold(holders, w))
  {
    var i := Find(holders, w.tx);
    if i == |holders| {
      GrantKeepsSafe(holders, w.tx, w.mode);
    } else {
      ConversionKeepsSafe(holders, i, w.mode);
    }
  }

  /** Promotion keeps the holders safe and stops only in front of somebody who is blocked. */
  lemma {:induction false} PromotionIsSafe(e: LockEntry)
    requires Safe(e.holders)
    ensures Safe(Promote(e).holders) && FrontIsBlocked(Promote(e))
    decreases |e.waiters|
  {
    if e.waiters != [] && !IsBlocked(e.holders, e.waiters[0].tx, e.waiters[0].mode) {
      HoldKeepsSafe(e.holders, e.waiters[0]);
      PromotionIsSafe(LockEntry(Hold(e.holders, e.waiters[0]), e.waiters[1..]));
    }
  }

  /** The waiters that remain are the end of the queue: nobody is dropped, added or overtaken. */
  lemma {:induction false} PromotionTakesAPrefix(e: LockEntry)
    ensures var n := |e.waiters| - |Promote(e).waiters|;
            Promote(e).waiters == e.waiters[n..]
    decreases |e.waiters|
  {
    if e.waiters != [] && !IsBlocked(e.holders, e.waiters[0].tx, e.waiters[0].mode) {
      var next := LockEntry(Hold(e.holders, e.waiters[0]), e.waiters[1..]);
      PromotionTakesAPrefix(next);
      DropDrop(e.waiters, 1, |next.waiters| - |Promote(next).waiters|);
    }
  }

  lemma SuffixIsFifo(waiters: seq<LockWaiter>, n: nat, last: nat)
    requires n <= |waiters| && Fifo(waiters, last)
    ensures Fifo(waiters[n..], last)
  {
  }

  // ---------------------------------------------------------------- release

  function HoldersWithout(holders: seq<LockHolder>, tx: Tx): (r: seq<LockHolder>)
    ensures |r| <= |holders|
  {
    if holders == [] then []
    else if holders[0].tx == tx then HoldersWithout(holders[1..], tx)
    else [holders[0]] + HoldersWithout(holders[1..], tx)
  }

  function WaitersWithout(waiters: seq<LockWaiter>, tx: Tx): (r: seq<LockWaiter>)
    ensures |r| <= |waiters|
  {
    if waiters == [] then []
    else if waiters[0].tx == tx then WaitersWithout(waiters[1..], tx)
    else [waiters[0]] + WaitersWithout(waiters[1..], tx)
  }

  /** Exactly the records of other transactions remain; the list gets shorter if one was removed. */
  lemma {:induction false} HoldersWithoutMeans(holders: seq<LockHolder>, tx: Tx)
    ensures forall h :: h in HoldersWithout(holders, tx) <==> h in holders && h.tx != tx
    ensures |HoldersWithout(holders, tx)| == |holders| <==> !Holds(holders, tx)
    ensures !Holds(holders, tx) ==> HoldersWithout(holders, tx) == holders
  {
    if holders != [] {
      HoldersWithoutMeans(holders[1..], tx);
      assert holders == [holders[0]] + holders[1..];
      assert Holds(holders, tx) <==> holders[0].tx == tx || Holds(holders[1..], tx) by {
        if Holds(holders[1..], tx) {
          var i :| 0 <= i < |holders[1..]| && holders[1..][i].tx == tx;
          assert holders[i + 1].tx == tx;
        }
        if Holds(holders, tx) {
          var i :| 0 <= i < |holders| && holders[i].tx == tx;
          assert i > 0 ==> holders[1..][i - 1].tx == tx;
        }
      }
    }
  }

  lemma {:induction false} WaitersWithoutMeans(waiters: seq<LockWaiter>, tx: Tx)
    ensures forall w :: w in WaitersWithout(waiters, tx) <==> w in waiters && w.tx != tx
    ensures |WaitersWithout(waiters, tx)| == |waiters| <==> !Waits(waiters, tx)
    ensures !Waits(waiters, tx) ==> WaitersWithout(waiters, tx) == waiters
  {
    if waiters != [] {
      WaitersWithoutMeans(waiters[1..], tx);
      assert waiters == [waiters[0]] + waiters[1..];
      WaitsPrepend(waiters[0], waiters[1..], tx);
    }
  }

  /** The records that remain are in their old order. */
  lemma {:induction false} RemainingAreInOrder(a: seq<LockHolder>, b: seq<LockHolder>, tx: Tx)
    ensures HoldersWithout(a + b, tx) == HoldersWithout(a, tx) + HoldersWithout(b, tx)
  {
    if a == [] {
      assert a + b == b;
    } else {
      RemainingAreInOrder(a[1..], b, tx);
      assert (a + b)[1..] == a[1..] + b;
      ConcatAssociative(if a[0].tx == tx then [] else [a[0]], HoldersWithout(a[1..], tx), HoldersWithout(b, tx));
    }
  }

  function Without(e: LockEntry, tx: Tx): LockEntry
  {
    LockEntry(HoldersWithout(e.holders, tx), WaitersWithout(e.waiters, tx))
  }

  /** The queue after `tx` gives up its records: unchanged if there were none. */
  function AfterRelease(e: LockEntry, tx: Tx): LockEntry
  {
    if Without(e, tx) == e then e else Promote(Without(e, tx))
  }

  lemma {:induction false} WithoutIsSafe(holders: seq<LockHolder>, tx: Tx)
    requires Safe(holders)
    ensures Safe(HoldersWithout(holders, tx))
  {
    if holders != [] {
      var rest := holders[1..];
      WithoutIsSafe(rest, tx);
      HoldersWithoutMeans(rest, tx);
      var kept := HoldersWithout(rest, tx);
      forall j | 0 <= j < |kept| ensures holders[0].tx != kept[j].tx && Compatible(holders[0].mode, kept[j].mode) {
        assert kept[j] in rest;
      }
    }
  }

  lemma {:induction false} WithoutIsFifo(waiters: seq<LockWaiter>, tx: Tx, last: nat)
    requires Fifo(waiters, last)
    ensures Fifo(WaitersWithout(waiters, tx), last)
  {
    if waiters != [] {
      var rest := waiters[1..];
      SuffixIsFifo(waiters, 1, last);
      WithoutIsFifo(rest, tx, last);
      WaitersWithoutMeans(rest, tx);
      var kept := WaitersWithout(rest, tx);
      forall j | 0 <= j < |kept| ensures waiters[0].sequence < kept[j].sequence {
        assert kept[j] in rest;
      }
      FifoPrepend(waiters[0], kept, last);
    }
  }

  lemma FifoPrepend(w: LockWaiter, waiters: seq<LockWaiter>, last: nat)
    requires Fifo(waiters, last) && 0 < w.sequence <= last
    requires forall j :: 0 <= j < |waiters| ==> w.sequence < waiters[j].sequence
    ensures Fifo([w] + waiters, last)
  {
  }

  /** A release leaves a queue that is safe, in order and with its front blocked. */
  lemma ReleaseKeepsEntryOk(e: LockEntry, last: nat, tx: Tx)
    requires EntryOk(e, last)
    ensures EntryOk(AfterRelease(e, tx), last)
  {
    var rest := Without(e, tx);
    if rest != e {
      WithoutIsSafe(e.holders, tx);
      WithoutIsFifo(e.waiters, tx, last);
      PromotionIsSafe(rest);
      PromotionTakesAPrefix(rest);
      SuffixIsFifo(rest.waiters, |rest.waiters| - |Promote(rest).waiters|, last);
    }
  }

  // ---------------------------------------------------------------- who holds what after a release

  predicate Holds(holders: seq<LockHolder>, tx: Tx)
  {
    exists i :: 0 <= i < |holders| && holders[i].tx == tx
  }

  predicate Waits(waiters: seq<LockWaiter>, tx: Tx)
  {
    exists i :: 0 <= i < |waiters| && waiters[i].tx == tx
  }

  /** Promotion gives locks to those who waited and to nobody else, and takes none away. */
  lemma {:induction false} PromotionConserves(e: LockEntry, tx: Tx)
    ensures var n := |e.waiters| - |Promote(e).waiters|;
            Holds(Promote(e).holders, tx) <==> Holds(e.holders, tx) || Waits(e.waiters[..n], tx)
    decreases |e.waiters|
  {
    if e.waiters != [] && !IsBlocked(e.holders, e.waiters[0].tx, e.waiters[0].mode) {
      var w := e.waiters[0];
      var next := LockEntry(Hold(e.holders, w), e.waiters[1..]);
      PromotionConserves(next, tx);
      HoldAdds(e.holders, w, tx);
      var n := |next.waiters| - |Promote(next).waiters|;
      assert e.waiters[..n + 1] == [w] + next.waiters[..n];
      WaitsPrepend(w, next.waiters[..n], tx);
    }
  }

  lemma HoldAdds(holders: seq<LockHolder>, w: LockWaiter, tx: Tx)
    ensures Holds(Hold(holders, w), tx) <==> Holds(holders, tx) || w.tx == tx
  {
    var hs, i := Hold(holders, w), Find(holders, w.tx);
    forall j | 0 <= j < |holders| ensures hs[j].tx == holders[j].tx {
    }
    if i == |holders| {
      assert hs[i].tx == w.tx;
    }
  }

  lemma WaitsPrepend(w: LockWaiter, waiters: seq<LockWaiter>, tx: Tx)
    ensures Waits([w] + waiters, tx) <==> w.tx == tx || Waits(waiters, tx)
  {
    if w.tx == tx {
      assert ([w] + waiters)[0].tx == tx;
    }
    if Waits(waiters, tx) {
      var i :| 0 <= i < |waiters| && waiters[i].tx == tx;
      assert ([w] + waiters)[i + 1].tx == tx;
    }
    if Waits([w] + waiters, tx) {
      var i :| 0 <= i < |[w] + waiters| && ([w] + waiters)[i].tx == tx;
      assert i > 0 ==> waiters[i - 1].tx == tx;
    }
  }

  /** After its release a transaction has no record left, in either role. */
  lemma ReleasedIsGone(e: LockEntry, tx: Tx)
    ensures !Holds(AfterRelease(e, tx).holders, tx) && !Waits(AfterRelease(e, tx).waiters, tx)
  {
    var rest := Without(e, tx);
    HoldersWithoutMeans(e.holders, tx);
    WaitersWithoutMeans(e.waiters, tx);
    NotIn(rest, tx);
    PromotionConserves(rest, tx);
    PromotionTakesAPrefix(rest);
  }

  lemma NotIn(e: LockEntry, tx: Tx)
    requires forall h :: h in e.holders ==> h.tx != tx
    requires forall w :: w in e.waiters ==> w.tx != tx
    ensures !Holds(e.holders, tx) && forall n :: 0 <= n <= |e.waiters| ==>
              !Waits(e.waiters[..n], tx) && !Waits(e.waiters[n..], tx)
  {
    forall i | 0 <= i < |e.holders| ensures e.holders[i].tx != tx {
      assert e.holders[i] in e.holders;
    }
    forall i | 0 <= i < |e.waiters| ensures e.waiters[i].tx != tx {
      assert e.waiters[i] in e.waiters;
    }
  }

  // ---------------------------------------------------------------- how strong a lock stays

  /** The conversions that loosen a lock: the new mode lets in something the held one kept out. */
  predicate Loosens(held: LockMode, requested: LockMode)
  {
    match held
    case Shared => requested in {IntentShared, IntentExclusive, SchemaShared}
    case IntentExclusive => requested in {Shared, SchemaShared}
    case Exclusive => requested == SchemaShared
    case SchemaExclusive => requested in {Shared, IntentShared, IntentExclusive}
    case IntentShared => false
    case SchemaShared => false
  }

  /** Promotion on top of a held lock keeps out what the lock kept out exactly when the pair does not loosen it. */
  lemma PromotionKeepsStrength(holders: seq<LockHolder>, w: LockWaiter)
    requires Holds(holders, w.tx)
    ensures var i := Find(holders, w.tx);
            i < |holders| && (AtLeast(Hold(holders, w)[i].mode, holders[i].mode) <==> !Loosens(holders[i].mode, w.mode))
  {
    var i := Find(holders, w.tx);
    ModeStrength(holders[i].mode, w.mode);
  }

  lemma ModeStrength(held: LockMode, requested: LockMode)
    ensures AtLeast(Converted(held, requested), held) <==> !Loosens(held, requested)
  {
    assert forall m :: Compatible(m, requested) <==> Compatible(requested, m);
    assert Compatible(IntentExclusive, IntentShared) && Compatible(Shared, SchemaShared) && Compatible(Shared, Shared);
    assert Compatible(IntentExclusive, IntentExclusive) && Compatible(Shared, IntentShared) &&
           Compatible(IntentExclusive, SchemaShared);
  }

  /** The mode that a record ends with when a request is promoted on top of it. */
  function Converted(held: LockMode, requested: LockMode): LockMode
  {
    if held == requested || Covers(held, requested) then held else requested
  }

  /**
   No request of `t` up to number `limit` loosens what `t` holds, or what it asked for earlier,
   in this queue. A transaction with one request that is an upgrade, or that has no lock, is firm.
   */
  ghost predicate Firm(e: LockEntry, t: Tx, limit: nat)
  {
    && (forall h, w :: h in e.holders && w in e.waiters && h.tx == t && w.tx == t && w.sequence <= limit ==>
          !Loosens(h.mode, w.mode))
    && (forall v, w ::
          v in e.waiters && w in e.waiters && v.tx == t && w.tx == t && v.sequence < w.sequence <= limit ==>
            !Loosens(v.mode, w.mode))
  }

  /** `tx` holds at least `mode`. */
  ghost predicate HoldsAtLeast(holders: seq<LockHolder>, tx: Tx, mode: LockMode)
  {
    exists h :: h in holders && h.tx == tx && AtLeast(h.mode, mode)
  }

  /** The records after one promotion: those of others, and the converted or new one. */
  lemma HoldMeans(holders: seq<LockHolder>, w: LockWaiter, h: LockHolder)
    requires Safe(holders)
    ensures h.tx != w.tx ==> (h in Hold(holders, w) <==> h in holders)
    ensures h.tx == w.tx ==>
              (h in Hold(holders, w) <==>
               || (!Holds(holders, w.tx) && h.mode == w.mode)
               || exists k :: k in holders && k.tx == w.tx && h.mode == Converted(k.mode, w.mode))
  {
    var hs, i := Hold(holders, w), Find(holders, w.tx);
    if i == |holders| {
      assert hs == holders + [LockHolder(w.tx, w.mode)];
    } else {
      assert holders[i] in holders && hs == holders[i := LockHolder(w.tx, Converted(holders[i].mode, w.mode))];
      assert hs[i] in hs;
      UpdateMeans(holders, i, hs[i], h);
    }
  }

  lemma UpdateMeans<T>(s: seq<T>, i: nat, x: T, y: T)
    requires i < |s|
    ensures y in s[i := x] <==> y == x || exists j :: 0 <= j < |s| && j != i && s[j] == y
  {
    var t := s[i := x];
    assert t[i] == x;
    if j :| 0 <= j < |s| && j != i && s[j] == y {
      assert t[j] == y;
    }
  }

  /** One promotion of a request up to `limit` keeps `t` firm and as strong as it was. */
  lemma HoldKeepsFirm(e: LockEntry, last: nat, t: Tx, limit: nat)
    requires Safe(e.holders) && Fifo(e.waiters, last) && Firm(e, t, limit)
    requires e.waiters != [] && e.waiters[0].sequence <= limit
    ensures Firm(LockEntry(Hold(e.holders, e.waiters[0]), e.waiters[1..]), t, limit)
  {
    var f := e.waiters[0];
    var next := LockEntry(Hold(e.holders, f), e.waiters[1..]);
    assert f in e.waiters && forall w :: w in next.waiters ==> w in e.waiters && f.sequence < w.sequence;
    forall h, w | h in next.holders && w in next.waiters && h.tx == t && w.tx == t && w.sequence <= limit
      ensures !Loosens(h.mode, w.mode)
    {
      HoldMeans(e.holders, f, h);
    }
  }

  lemma HoldKeepsAtLeast(e: LockEntry, t: Tx, limit: nat, mode: LockMode)
    requires Safe(e.holders) && Firm(e, t, limit) && HoldsAtLeast(e.holders, t, mode)
    requires e.waiters != [] && e.waiters[0].sequence <= limit
    ensures HoldsAtLeast(Hold(e.holders, e.waiters[0]), t, mode)
  {
    var f := e.waiters[0];
    var h :| h in e.holders && h.tx == t && AtLeast(h.mode, mode);
    if t == f.tx {
      ModeStrength(h.mode, f.mode);
      var k := LockHolder(t, Converted(h.mode, f.mode));
      HoldMeans(e.holders, f, k);
      assert k in Hold(e.holders, f) && AtLeast(k.mode, mode);
    } else {
      HoldMeans(e.holders, f, h);
    }
  }

  /** Promotion weakens no lock of a transaction whose requests do not loosen each other. */
  lemma {:induction false} PromotionWeakensNobody(e: LockEntry, last: nat, t: Tx, mode: LockMode)
    requires Safe(e.holders) && Fifo(e.waiters, last) && Firm(e, t, last) && HoldsAtLeast(e.holders, t, mode)
    ensures HoldsAtLeast(Promote(e).holders, t, mode)
    decreases |e.waiters|
  {
    if e.waiters != [] && !IsBlocked(e.holders, e.waiters[0].tx, e.waiters[0].mode) {
      HoldKeepsSafe(e.holders, e.waiters[0]);
      HoldKeepsFirm(e, last, t, last);
      HoldKeepsAtLeast(e, t, last, mode);
      SuffixIsFifo(e.waiters, 1, last);
      PromotionWeakensNobody(LockEntry(Hold(e.holders, e.waiters[0]), e.waiters[1..]), last, t, mode);
    }
  }

  lemma {:induction false} PromotionKeepsFirm(e: LockEntry, last: nat, t: Tx)
    requires Safe(e.holders) && Fifo(e.waiters, last) && Firm(e, t, last)
    ensures Firm(Promote(e), t, last)
    decreases |e.waiters|
  {
    if e.waiters != [] && !IsBlocked(e.holders, e.waiters[0].tx, e.waiters[0].mode) {
      HoldKeepsSafe(e.holders, e.waiters[0]);
      HoldKeepsFirm(e, last, t, last);
      SuffixIsFifo(e.waiters, 1, last);
      PromotionKeepsFirm(LockEntry(Hold(e.holders, e.waiters[0]), e.waiters[1..]), last, t);
    }
  }

  /** Whoever is promoted holds what it asked for right away. */
  lemma HoldGives(holders: seq<LockHolder>, w: LockWaiter)
    requires Safe(holders)
    ensures HoldsAtLeast(Hold(holders, w), w.tx, w.mode)
  {
    if Holds(holders, w.tx) {
      var i :| 0 <= i < |holders| && holders[i].tx == w.tx;
      AnswersAreSound(holders[i].mode, w.mode);
      var k := LockHolder(w.tx, Converted(holders[i].mode, w.mode));
      assert holders[i] in holders;
      HoldMeans(holders, w, k);
      assert AtLeast(k.mode, w.mode);
    } else {
      HoldMeans(holders, w, LockHolder(w.tx, w.mode));
    }
  }

  /** A waiter that a release promotes ends with at least the mode it asked for, if its transaction is firm. */
  lemma {:induction false} PromotedHoldWhatTheyAskedFor(e: LockEntry, last: nat, w: LockWaiter)
    requires Safe(e.holders) && Fifo(e.waiters, last) && Firm(e, w.tx, last) && w in e.waiters
    ensures w in Promote(e).waiters || HoldsAtLeast(Promote(e).holders, w.tx, w.mode)
    decreases |e.waiters|
  {
    if !IsBlocked(e.holders, e.waiters[0].tx, e.waiters[0].mode) {
      var f := e.waiters[0];
      var next := LockEntry(Hold(e.holders, f), e.waiters[1..]);
      HoldKeepsSafe(e.holders, f);
      HoldKeepsFirm(e, last, w.tx, last);
      SuffixIsFifo(e.waiters, 1, last);
      if w == f {
        HoldGives(e.holders, f);
        PromotionWeakensNobody(next, last, w.tx, w.mode);
      } else {
        assert e.waiters == [f] + next.waiters;
        PromotedHoldWhatTheyAskedFor(next, last, w);
      }
    }
  }

  /**
   The exact condition for one promotion: it leaves every lock at least as strong as it was
   if and only if it does not loosen the record of the transaction it promotes.
   */
  lemma PromotionLoosensExactly(holders: seq<LockHolder>, w: LockWaiter)
    requires Safe(holders)
    ensures (forall h :: h in holders ==> HoldsAtLeast(Hold(holders, w), h.tx, h.mode)) <==>
            (forall h :: h in holders && h.tx == w.tx ==> !Loosens(h.mode, w.mode))
  {
    forall h | h in holders ensures HoldsAtLeast(Hold(holders, w), h.tx, h.mode) <==>
        h.tx != w.tx || !Loosens(h.mode, w.mode) {
      RecordKeepsStrength(holders, w, h);
    }
  }

  lemma RecordKeepsStrength(holders: seq<LockHolder>, w: LockWaiter, h: LockHolder)
    requires Safe(holders) && h in holders
    ensures HoldsAtLeast(Hold(holders, w), h.tx, h.mode) <==> h.tx != w.tx || !Loosens(h.mode, w.mode)
  {
    if h.tx != w.tx {
      HoldMeans(holders, w, h);
    } else {
      ModeStrength(h.mode, w.mode);
      forall k: LockHolder | k.tx == h.tx ensures k in Hold(holders, w) <==> k.mode == Converted(h.mode, w.mode) {
        HoldMeans(holders, w, k);
      }
      assert LockHolder(h.tx, Converted(h.mode, w.mode)) in Hold(holders, w);
    }
  }

  /** The mode in which `t` holds the resource, if it does. */
  function HeldMode(holders: seq<LockHolder>, t: Tx): Option<LockMode>
  {
    var i := Find(holders, t);
    if i < |holders| then Some(holders[i].mode) else None
  }

  /** What `t` ends with when the given requests are granted one after the other on top of what it holds. */
  function EndsWith(held: Option<LockMode>, granted: seq<LockWaiter>, t: Tx): Option<LockMode>
    decreases |granted|
  {
    if granted == [] then held
    else if granted[0].tx != t then EndsWith(held, granted[1..], t)
    else
      var mode := if held.None? then granted[0].mode else Converted(held.value, granted[0].mode);
      EndsWith(Some(mode), granted[1..], t)
  }

  lemma {:induction false} FindAppended(holders: seq<LockHolder>, h: LockHolder, t: Tx)
    ensures var i := Find(holders, t);
            Find(holders + [h], t) == if i < |holders| || h.tx == t then i else i + 1
  {
    if holders != [] && holders[0].tx != t {
      FindAppended(holders[1..], h, t);
      assert (holders + [h])[1..] == holders[1..] + [h];
    }
  }

  lemma {:induction false} FindUpdated(holders: seq<LockHolder>, i: nat, h: LockHolder, t: Tx)
    requires i < |holders| && holders[i].tx == h.tx
    ensures Find(holders[i := h], t) == Find(holders, t)
  {
    if holders[0].tx != t && i > 0 {
      FindUpdated(holders[1..], i - 1, h, t);
      assert holders[i := h][1..] == holders[1..][i - 1 := h];
    } else if i == 0 {
      assert holders[0 := h][1..] == holders[1..];
    }
  }

  /** One promotion: the mode of the transaction it promotes is converted, all other modes stay. */
  lemma HoldConverts(holders: seq<LockHolder>, w: LockWaiter, t: Tx)
    ensures HeldMode(Hold(holders, w), t) == EndsWith(HeldMode(holders, t), [w], t)
  {
    var i := Find(holders, w.tx);
    assert [w][1..] == [];
    if i == |holders| {
      FindAppended(holders, LockHolder(w.tx, w.mode), t);
    } else {
      FindUpdated(holders, i, LockHolder(w.tx, w.mode), t);
    }
  }

  lemma EndsWithFirst(held: Option<LockMode>, w: LockWaiter, granted: seq<LockWaiter>, t: Tx)
    ensures EndsWith(held, [w] + granted, t) == EndsWith(EndsWith(held, [w], t), granted, t)
  {
    assert ([w] + granted)[1..] == granted && [w][1..] == [];
  }

  /**
   What promotion of a whole queue leaves to each transaction, exactly: what it held, converted
   by those of its requests that are promoted, in their order.
   */
  lemma {:induction false} PromotionConverts(e: LockEntry, t: Tx)
    ensures var n := |e.waiters| - |Promote(e).waiters|;
            HeldMode(Promote(e).holders, t) == EndsWith(HeldMode(e.holders, t), e.waiters[..n], t)
    decreases |e.waiters|
  {
    if e.waiters != [] && !IsBlocked(e.holders, e.waiters[0].tx, e.waiters[0].mode) {
      var w := e.waiters[0];
      var next := LockEntry(Hold(e.holders, w), e.waiters[1..]);
      PromotionConverts(next, t);
      HoldConverts(e.holders, w, t);
      var n := |next.waiters| - |Promote(next).waiters|;
      assert e.waiters[..n + 1] == [w] + next.waiters[..n];
      EndsWithFirst(HeldMode(e.holders, t), w, next.waiters[..n], t);
    }
  }

  lemma HeldModeMeans(holders: seq<LockHolder>, h: LockHolder)
    requires Safe(holders)
    ensures h in holders <==> HeldMode(holders, h.tx) == Some(h.mode)
  {
    var i := Find(holders, h.tx);
    if h in holders {
      var j :| 0 <= j < |holders| && holders[j] == h;
      assert j == i;
    }
  }

  /** A transaction ends with at least a mode if and only if that conversion does. */
  lemma PromotionWeakensExactly(e: LockEntry, t: Tx, mode: LockMode)
    requires Safe(e.holders)
    ensures var n := |e.waiters| - |Promote(e).waiters|;
            var end := EndsWith(HeldMode(e.holders, t), e.waiters[..n], t);
            HoldsAtLeast(Promote(e).holders, t, mode) <==> end.Some? && AtLeast(end.value, mode)
  {
    PromotionConverts(e, t);
    PromotionIsSafe(e);
    var holders := Promote(e).holders;
    forall h: LockHolder | h.tx == t ensures h in holders <==> HeldMode(holders, t) == Some(h.mode) {
      HeldModeMeans(holders, h);
    }
    if HeldMode(holders, t).Some? {
      assert LockHolder(t, HeldMode(holders, t).value) in holders;
    }
  }

  /** A queue whose front is blocked is what promotion leaves. */
  lemma PromotedIsFinal(e: LockEntry)
    requires FrontIsBlocked(e)
    ensures Promote(e) == e
  {
  }

  lemma PromoteFront(e: LockEntry)
    requires e.waiters != [] && !IsBlocked(e.holders, e.waiters[0].tx, e.waiters[0].mode)
    ensures Promote(e) == Promote(LockEntry(Hold(e.holders, e.waiters[0]), e.waiters[1..]))
  {
  }

  /**
   Two queued requests of one transaction can cost it its lock: the exclusive lock that
   the first one brings is replaced by the schema-shared lock of the second one.
   */
  lemma PromotedLockCanBeLost(a: Tx, b: Tx)
    requires a != b
    ensures var e := LockEntry([LockHolder(a, SchemaExclusive)],
                               [LockWaiter(b, Exclusive, 1), LockWaiter(b, SchemaShared, 2)]);
            && EntryOk(e, 2)
            && Hold([], e.waiters[0]) == [LockHolder(b, Exclusive)]
            && AfterRelease(e, a) == LockEntry([LockHolder(b, SchemaShared)], [])
  {
    var x, s := LockWaiter(b, Exclusive, 1), LockWaiter(b, SchemaShared, 2);
    var e := LockEntry([LockHolder(a, SchemaExclusive)], [x, s]);
    assert Blocks(e.holders[0], b, Exclusive);
    assert e.waiters[1..] == [s] && e.waiters[1..][1..] == [];
    assert HoldersWithout(e.holders[1..], a) == [];
    assert WaitersWithout(e.waiters[1..], a) == [s];
    assert Without(e, a) == LockEntry([], [x, s]);
    PromoteFront(LockEntry([], [x, s]));
    assert Hold([], x) == [LockHolder(b, Exclusive)] && [x, s][1..] == [s];
    PromoteFront(LockEntry([LockHolder(b, Exclusive)], [s]));
    assert Hold([LockHolder(b, Exclusive)], s) == [LockHolder(b, SchemaShared)] && [s][1..] == [];
  }
}
