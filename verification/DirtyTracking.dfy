/**
 Dirty-page tracking and the write-ahead fence of the buffer pool. The tracker keeps
 one entry per dirty page with the first and last LSN that dirtied it; a page may be
 flushed, and so cleaned, only once the log is durable up to its last LSN.
 */
module DirtyTracking {
  import opened Common

  type PageId = U64
  type Lsn = U64

  datatype DirtyEntry = DirtyEntry(pageId: PageId, firstDirtyLsn: Lsn, lastDirtyLsn: Lsn)

  datatype TrackerError = InvalidPageId | InvalidDirtyLsn

  type DirtyPages = map<PageId, DirtyEntry>

  // ---------------------------------------------------------------- one operation on the table

  function Marked(pages: DirtyPages, page: PageId, lsn: Lsn): DirtyPages
  {
    if page in pages then
      var e := pages[page];
      pages[page := DirtyEntry(e.pageId,
                               if lsn < e.firstDirtyLsn then lsn else e.firstDirtyLsn,
                               if lsn > e.lastDirtyLsn then lsn else e.lastDirtyLsn)]
    else
      pages[page := DirtyEntry(page, lsn, lsn)]
  }

  /** Flush order: by first dirty LSN, ties broken by page id. */
  predicate Before(a: DirtyEntry, b: DirtyEntry)
  {
    a.firstDirtyLsn < b.firstDirtyLsn || (a.firstDirtyLsn == b.firstDirtyLsn && a.pageId < b.pageId)
  }

  ghost predicate InFlushOrder(s: seq<DirtyEntry>)
  {
    forall i, j :: 0 <= i < j < |s| ==> Before(s[i], s[j])
  }

  /** Every entry sits under its own page id. */
  ghost predicate WellKeyed(pages: DirtyPages)
  {
    forall p :: p in pages ==> pages[p].pageId == p
  }

  class DirtyTracker {
    var dirtyPages: DirtyPages

    ghost predicate Valid()
      reads this
    {
      WellKeyed(dirtyPages)
    }

    constructor ()
      ensures Valid() && dirtyPages == map[]
    {
      dirtyPages := map[];
    }

    method MarkDirty(page: PageId, lsn: Lsn) returns (r: Result<(), TrackerError>)
      requires Valid()
      modifies this
      ensures Valid()
      ensures r == if page == 0 then Err(InvalidPageId) else if lsn == 0 then Err(InvalidDirtyLsn) else Ok(())
      ensures dirtyPages == if r.Ok? then Marked(old(dirtyPages), page, lsn) else old(dirtyPages)
      ensures dirtyPages == After(old(dirtyPages), Event.MarkDirty(page, lsn))
    {
      if page == 0 {
        return Err(InvalidPageId);
      }
      if lsn == 0 {
        return Err(InvalidDirtyLsn);
      }
      if page in dirtyPages {
        var entry := dirtyPages[page];
        if lsn < entry.firstDirtyLsn {
          entry := entry.(firstDirtyLsn := lsn);
        }
        if lsn > entry.lastDirtyLsn {
          entry := entry.(lastDirtyLsn := lsn);
        }
        dirtyPages := dirtyPages[page := entry];
      } else {
        dirtyPages := dirtyPages[page := DirtyEntry(page, lsn, lsn)];
      }
      return Ok(());
    }

    method MarkClean(page: PageId) returns (r: Result<bool, TrackerError>)
      requires Valid()
      modifies this
      ensures Valid()
      ensures r == if page == 0 then Err(InvalidPageId) else Ok(page in old(dirtyPages))
      ensures dirtyPages == if r.Ok? then old(dirtyPages) - {page} else old(dirtyPages)
      ensures dirtyPages == After(old(dirtyPages), Event.MarkClean(page))
    {
      if page == 0 {
        return Err(InvalidPageId);
      }
      var present := page in dirtyPages;
      dirtyPages := dirtyPages - {page};
      return Ok(present);
    }

    /** All entries, each once, in flush order. */
    method FlushCandidates() returns (candidates: seq<DirtyEntry>)
      requires Valid()
      ensures InFlushOrder(candidates)
      ensures forall i, j :: 0 <= i < j < |candidates| ==>
                && candidates[i].firstDirtyLsn <= candidates[j].firstDirtyLsn
                && (candidates[i].firstDirtyLsn == candidates[j].firstDirtyLsn ==>
                      candidates[i].pageId < candidates[j].pageId)
      ensures forall e :: e in candidates <==> e.pageId in dirtyPages && e == dirtyPages[e.pageId]
      ensures |candidates| == |dirtyPages|
    {
      candidates := EntriesInFlushOrder(dirtyPages);
    }
  }

  /** Collect the entries of a table and sort them. */
  method EntriesInFlushOrder(pages: DirtyPages) returns (entries: seq<DirtyEntry>)
    requires WellKeyed(pages)
    ensures InFlushOrder(entries) && Lists(entries, pages, pages.Keys)
  {
    entries := [];
    var rest := pages.Keys;
    ghost var taken: set<PageId> := {};
    while rest != {}
      invariant taken <= pages.Keys && rest == pages.Keys - taken
      invariant InFlushOrder(entries) && Lists(entries, pages, taken)
      decreases |rest|
    {
      var page :| page in rest;
      entries := AddEntry(entries, pages, taken, page);
      rest := rest - {page};
      taken := taken + {page};
    }
    assert taken == pages.Keys;
  }

  /** The list holds the entries of exactly these pages, each once. */
  ghost predicate Lists(s: seq<DirtyEntry>, pages: DirtyPages, ids: set<PageId>)
    requires ids <= pages.Keys
  {
    |s| == |ids| && forall e :: e in s <==> e.pageId in ids && e == pages[e.pageId]
  }

  method AddEntry(s: seq<DirtyEntry>, pages: DirtyPages, ghost ids: set<PageId>, page: PageId)
    returns (r: seq<DirtyEntry>)
    requires WellKeyed(pages) && ids <= pages.Keys && page in pages && page !in ids
    requires InFlushOrder(s) && Lists(s, pages, ids)
    ensures InFlushOrder(r) && Lists(r, pages, ids + {page})
  {
    r := InsertInOrder(s, pages[page]);
  }

  /** The sort step: put one entry at its place in flush order. */
  method InsertInOrder(s: seq<DirtyEntry>, e: DirtyEntry) returns (r: seq<DirtyEntry>)
    requires InFlushOrder(s) && forall x :: x in s ==> x.pageId != e.pageId
    ensures InFlushOrder(r) && |r| == |s| + 1
    ensures forall x :: x in r <==> x == e || x in s
  {
    var i := |s|;
    while i > 0 && Before(e, s[i - 1])
      invariant 0 <= i <= |s|
      invariant i < |s| ==> Before(e, s[i])
    {
      i := i - 1;
    }
    InsertedInOrder(s, e, i);
    r := s[..i] + [e] + s[i..];
  }

  lemma InsertedInOrder(s: seq<DirtyEntry>, e: DirtyEntry, i: nat)
    requires InFlushOrder(s) && forall x :: x in s ==> x.pageId != e.pageId
    requires i <= |s|
    requires i > 0 ==> !Before(e, s[i - 1])
    requires i < |s| ==> Before(e, s[i])
    ensures var r := s[..i] + [e] + s[i..];
            InFlushOrder(r) && forall x :: x in r <==> x == e || x in s
  {
    var r := s[..i] + [e] + s[i..];
    forall j, k | 0 <= j < k < |r| ensures Before(r[j], r[k]) {
      if k <= i && i > 0 {
        assert s[i - 1] in s;
      }
    }
    forall x ensures x in r <==> x == e || x in s {
      assert s == s[..i] + s[i..];
    }
  }

  /** The flush list is determined: two lists in flush order with the same entries are the same list. */
  lemma {:induction false} FlushOrderIsUnique(s: seq<DirtyEntry>, t: seq<DirtyEntry>)
    requires InFlushOrder(s) && InFlushOrder(t)
    requires forall e :: e in s <==> e in t
    ensures s == t
  {
    assert s != [] ==> s[0] in t;
    assert t != [] ==> t[0] in s;
    if s != [] && t != [] {
      HeadIsLeast(s, t);
      HeadIsLeast(t, s);
      assert s[0] == t[0];
      forall e ensures e in s[1..] <==> e in t[1..] {
        TailMembers(s, e);
        TailMembers(t, e);
      }
      FlushOrderIsUnique(s[1..], t[1..]);
      assert s == [s[0]] + s[1..] && t == [t[0]] + t[1..];
    }
  }

  lemma HeadIsLeast(s: seq<DirtyEntry>, t: seq<DirtyEntry>)
    requires s != [] && t != [] && InFlushOrder(t) && s[0] in t
    ensures s[0] == t[0] || Before(t[0], s[0])
  {
    var i :| 0 <= i < |t| && t[i] == s[0];
  }

  lemma TailMembers(s: seq<DirtyEntry>, e: DirtyEntry)
    requires s != [] && InFlushOrder(s)
    ensures e in s[1..] <==> e in s && e != s[0]
  {
    if e in s && e != s[0] {
      var i :| 0 <= i < |s| && s[i] == e;
      assert s[1..][i - 1] == e;
    }
    if e in s[1..] {
      var i :| 0 <= i < |s[1..]| && s[1..][i] == e;
      assert s[i + 1] == e && Before(s[0], s[i + 1]);
    }
  }

  // ---------------------------------------------------------------- the table refines its history

  datatype Event = MarkDirty(page: PageId, lsn: Lsn) | MarkClean(page: PageId)

  predicate Accepted(e: Event)
  {
    e.page != 0 && (e.MarkDirty? ==> e.lsn != 0)
  }

  /** The table after one call. */
  function After(pages: DirtyPages, e: Event): DirtyPages
  {
    if !Accepted(e) then pages
    else match e
      case MarkDirty(page, lsn) => Marked(pages, page, lsn)
      case MarkClean(page) => pages - {page}
  }

  /** The table a fresh tracker holds after a history of calls; rejected calls change nothing. */
  function Replay(history: seq<Event>): DirtyPages
  {
    if history == [] then map[]
    else
      var pages, e := Replay(history[..|history| - 1]), history[|history| - 1];
      After(pages, e)
  }

  /** The LSNs that dirtied `page` since it was last cleaned, oldest first. */
  function MarksSinceClean(history: seq<Event>, page: PageId): seq<Lsn>
  {
    if history == [] then []
    else
      var earlier, e := MarksSinceClean(history[..|history| - 1], page), history[|history| - 1];
      if !Accepted(e) || e.page != page then earlier
      else match e
        case MarkDirty(_, lsn) => earlier + [lsn]
        case MarkClean(_) => []
  }

  ghost predicate IsMin(s: seq<Lsn>, m: Lsn)
  {
    m in s && forall x :: x in s ==> m <= x
  }

  ghost predicate IsMax(s: seq<Lsn>, m: Lsn)
  {
    m in s && forall x :: x in s ==> x <= m
  }

  /**
   After any run of calls a page is in the table exactly when it was marked since it was
   last cleaned, and its entry holds the least and the greatest of those LSNs.
   */
  lemma {:induction false} TrackerRefinesHistory(history: seq<Event>, page: PageId)
    ensures page in Replay(history) <==> MarksSinceClean(history, page) != []
    ensures page in Replay(history) ==>
              var e, marks := Replay(history)[page], MarksSinceClean(history, page);
              e.pageId == page && IsMin(marks, e.firstDirtyLsn) && IsMax(marks, e.lastDirtyLsn)
  {
    if history != [] {
      TrackerRefinesHistory(history[..|history| - 1], page);
    }
  }

  // ---------------------------------------------------------------- the write-ahead fence

  datatype FlushReadiness = Ready | Blocked(page: PageId, firstDirtyLsn: Lsn, lastDirtyLsn: Lsn, maxDurableLsn: Lsn)

  /** What the log tells the pool: its durable LSN and its answer about single LSNs. */
  datatype Observer = Observer(maxDurableLsn: Lsn, isDurable: Lsn -> bool)

  function ClassifyFlushCandidate(e: DirtyEntry, observer: Observer): FlushReadiness
  {
    if observer.isDurable(e.lastDirtyLsn) && observer.maxDurableLsn >= e.lastDirtyLsn then
      Ready
    else
      Blocked(e.pageId, e.firstDirtyLsn, e.lastDirtyLsn, observer.maxDurableLsn)
  }

  /** The production observer answers from a single durable LSN. */
  ghost predicate Consistent(observer: Observer)
  {
    forall l: Lsn :: observer.isDurable(l) <==> l <= observer.maxDurableLsn
  }

  /**
   A page's candidate is ready exactly when the log is durable past every LSN that dirtied
   the page since it was last cleaned. An inconsistent observer can only block more.
   */
  lemma ReadyMeansEveryMarkIsDurable(history: seq<Event>, page: PageId, observer: Observer)
    requires page in Replay(history)
    ensures ClassifyFlushCandidate(Replay(history)[page], observer).Ready? ==>
              forall l :: l in MarksSinceClean(history, page) ==> l <= observer.maxDurableLsn
    ensures Consistent(observer) ==>
              (ClassifyFlushCandidate(Replay(history)[page], observer).Ready? <==>
               forall l :: l in MarksSinceClean(history, page) ==> l <= observer.maxDurableLsn)
    ensures match ClassifyFlushCandidate(Replay(history)[page], observer)
            case Ready => true
            case Blocked(p, first, last, durable) =>
              && p == page && durable == observer.maxDurableLsn
              && IsMin(MarksSinceClean(history, page), first) && IsMax(MarksSinceClean(history, page), last)
  {
    TrackerRefinesHistory(history, page);
  }

  /**
   A run of the pool: calls on the tracker, each with the observer of its moment. The pool
   cleans a page in the table only when its candidate is ready.
   */
  ghost predicate FencedRun(history: seq<Event>, observers: seq<Observer>)
  {
    && |observers| == |history|
    && forall k :: 0 <= k < |history| && history[k].MarkClean? && history[k].page in Replay(history[..k]) ==>
         ClassifyFlushCandidate(Replay(history[..k])[history[k].page], observers[k]).Ready?
  }

  /** The marks before position `k` that a clean at `k` writes out. */
  ghost predicate WrittenBy(history: seq<Event>, m: nat, k: nat)
    requires m < k < |history|
  {
    && Accepted(history[m]) && history[m].MarkDirty?
    && history[k].MarkClean? && history[k].page == history[m].page
    && forall j :: m < j < k ==> history[j] != MarkClean(history[m].page)
  }

  /** Log before data: in every fenced run, when a page is cleaned each mark it still carried is durable. */
  lemma WalBeforeData(history: seq<Event>, observers: seq<Observer>, m: nat, k: nat)
    requires FencedRun(history, observers)
    requires m < k < |history| && WrittenBy(history, m, k)
    ensures history[m].lsn <= observers[k].maxDurableLsn
  {
    var page := history[m].page;
    MarkSurvives(history, m, k);
    assert history[m].lsn in MarksSinceClean(history[..k], page);
    TrackerRefinesHistory(history[..k], page);
    ReadyMeansEveryMarkIsDurable(history[..k], page, observers[k]);
  }

  lemma {:induction false} MarkSurvives(history: seq<Event>, m: nat, k: nat)
    requires m < k <= |history|
    requires Accepted(history[m]) && history[m].MarkDirty?
    requires forall j :: m < j < k ==> history[j] != MarkClean(history[m].page)
    ensures history[m].lsn in MarksSinceClean(history[..k], history[m].page)
  {
    var h := history[..k];
    assert h[..|h| - 1] == history[..k - 1];
    if m + 1 < k {
      MarkSurvives(history, m, k - 1);
    }
  }
}
