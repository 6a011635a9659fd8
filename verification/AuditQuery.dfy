/**
 Inspection of the replayed audit log: a single pass that filters records, skips an offset,
 collects a page of limited size and reports whether more is left.
 */
module AuditQuery {
  import opened Common
  import opened AuditLog

  const MAX_LIMIT: nat := 1_000
  const REDACTED := "[redacted-sensitive-evidence]"

  datatype TraceFamily =
    | Decision | ProcedureInvocation | Wal | Recovery | ManifestCatalog | Protocol
    | SecurityAudit | AdminAudit | Resource | Io | Gpu | Transaction

  datatype LsnRange = LsnRange(startLsn: U64, endLsn: U64)
  {
    predicate Valid()
    {
      startLsn != 0 && endLsn != 0 && startLsn <= endLsn
    }

    predicate Contains(l: U64)
    {
      startLsn <= l <= endLsn
    }
  }

  datatype Filter = Filter(
    traceId: Option<nat>,
    family: Option<TraceFamily>,
    lsnRange: Option<LsnRange>,
    catalogVersion: Option<U64>,
    procedureId: Option<U64>,
    principal: Option<string>)

  datatype Spec = Spec(filter: Filter, limit: nat, offset: nat, includeTotalCount: bool)

  /** The two checks on free text that the pass relies on; the results below hold for any such checks. */
  datatype TextChecks = TextChecks(isBlank: string -> bool, isSensitive: string -> bool)
  {
    function Redacted(s: string): string
    {
      if isSensitive(s) then REDACTED else s
    }
  }

  predicate SpecValid(text: TextChecks, spec: Spec)
  {
    && 0 < spec.limit <= MAX_LIMIT
    && spec.filter.traceId != Some(0)
    && (spec.filter.lsnRange.Some? ==> spec.filter.lsnRange.value.Valid())
    && spec.filter.catalogVersion != Some(0)
    && spec.filter.procedureId != Some(0)
    && (spec.filter.principal.Some? ==> !text.isBlank(spec.filter.principal.value))
  }

  /** A page has one to a thousand rows, and what is asked for is neither zero, an empty range nor blank. */
  lemma SpecIsValidExactly(text: TextChecks, spec: Spec)
    ensures SpecValid(text, spec) <==>
              && 1 <= spec.limit <= 1000
              && Some(0) !in {spec.filter.catalogVersion, spec.filter.procedureId} && spec.filter.traceId != Some(0)
              && (match spec.filter.lsnRange
                  case None => true
                  case Some(range) => 0 < range.startLsn <= range.endLsn)
              && !(spec.filter.principal.Some? && text.isBlank(spec.filter.principal.value))
  {
  }

  /** The journal carries no catalog correlation, and sensitive text is no filter. */
  predicate FilterSupported(text: TextChecks, spec: Spec)
  {
    && (spec.filter.principal.Some? ==> !text.isSensitive(spec.filter.principal.value))
    && spec.filter.catalogVersion.None?
    && spec.filter.procedureId.None?
  }

  datatype Row = Row(
    eventId: U64,
    traceId: nat,
    family: TraceFamily,
    auditFamily: EventFamily,
    sequenceNumber: U64,
    recordLsn: U64,
    durableLsn: U64,
    checksum: U64,
    retention: RetentionBoundary,
    principalId: string,
    eventKind: string)

  function TraceFamilyOf(r: Record): Option<TraceFamily>
  {
    match r.family
    case SecurityDecision => Some(SecurityAudit)
    case AdminDecision | HadrDecision | BackupDecision | RestoreDecision | ForensicDecision | GenericAudit =>
      Some(AdminAudit)
    case AdmissionDecision => Some(Protocol)
    case CatalogDecision => Some(ManifestCatalog)
    case RecoveryDecision =>
      if r.eventKind == "RecoveryStartup" then Some(Recovery)
      else if r.eventKind in {"WalAppend", "WalFlush", "CommitVisible", "RollbackDurable", "CorruptionBoundary"}
      then Some(Wal)
      else None
  }

  /** The row of a record; `None` for an invalid record or an unknown recovery event. */
  function FromReplayRecord(text: TextChecks, r: Record): Option<Row>
  {
    if !r.Valid() || TraceFamilyOf(r).None? then None
    else Some(Row(r.eventId, r.traceId, TraceFamilyOf(r).value, r.family, r.sequenceNumber, r.recordLsn, r.durableLsn,
                  r.checksum, r.retention, text.Redacted(r.principalId), text.Redacted(r.eventKind)))
  }

  predicate Matches(row: Row, filter: Filter)
  {
    && (filter.traceId.Some? ==> row.traceId == filter.traceId.value)
    && (filter.family.Some? ==> row.family == filter.family.value)
    && (filter.lsnRange.Some? ==>
          filter.lsnRange.value.Contains(row.recordLsn) || filter.lsnRange.value.Contains(row.durableLsn))
    && (filter.principal.Some? ==> row.principalId == filter.principal.value)
  }

  /** A row is left out exactly if one of the criteria that are set speaks against it. */
  lemma LeftOutExactly(row: Row, filter: Filter)
    ensures !Matches(row, filter) <==>
              || (filter.traceId.Some? && filter.traceId.value != row.traceId)
              || (filter.family.Some? && filter.family.value != row.family)
              || (filter.lsnRange.Some? && var range := filter.lsnRange.value;
                                           !(range.startLsn <= row.recordLsn <= range.endLsn)
                                           && !(range.startLsn <= row.durableLsn <= range.endLsn))
              || (filter.principal.Some? && filter.principal.value != row.principalId)
  {
  }

  /** A row repeats its record, with sensitive text replaced, and sorts its family into a trace family. */
  lemma RowIsOfRecord(text: TextChecks, r: Record)
    requires FromReplayRecord(text, r).Some?
    ensures var row := FromReplayRecord(text, r).value;
            && row.eventId == r.eventId && row.traceId == r.traceId && row.auditFamily == r.family
            && row.sequenceNumber == r.sequenceNumber && row.checksum == r.checksum && row.retention == r.retention
            && row.recordLsn == r.recordLsn && row.durableLsn == r.durableLsn
            && row.principalId == (if text.isSensitive(r.principalId) then REDACTED else r.principalId)
            && row.eventKind == (if text.isSensitive(r.eventKind) then REDACTED else r.eventKind)
            && (row.family == SecurityAudit <==> r.family == SecurityDecision)
            && (row.family == Protocol <==> r.family == AdmissionDecision)
            && (row.family == ManifestCatalog <==> r.family == CatalogDecision)
            && (row.family in {Recovery, Wal} <==> r.family == RecoveryDecision)
            && (row.family == Recovery <==> r.family == RecoveryDecision && r.eventKind == "RecoveryStartup")
  {
  }

  datatype QueryResult = QueryResult(
    rows: seq<Row>,
    limit: nat,
    offset: nat,
    totalMatchingRows: Option<nat>,
    truncated: bool,
    orderedByEventIdAscending: bool)

  // ---------------------------------------------------------------- specification: filter, then slice

  ghost predicate Readable(text: TextChecks, records: seq<Record>)
  {
    forall i :: 0 <= i < |records| ==> FromReplayRecord(text, records[i]).Some?
  }

  /** All matching rows, in log order. */
  ghost function Matching(text: TextChecks, records: seq<Record>, filter: Filter): seq<Row>
  {
    if records == [] then []
    else
      var front := Matching(text, records[..|records| - 1], filter);
      var row := FromReplayRecord(text, records[|records| - 1]);
      if row.Some? && Matches(row.value, filter) then front + [row.value] else front
  }

  /** The places of the matching records. */
  ghost function MatchingPlaces(text: TextChecks, records: seq<Record>, filter: Filter): seq<nat>
  {
    if records == [] then []
    else
      var n := |records| - 1;
      var row := FromReplayRecord(text, records[n]);
      MatchingPlaces(text, records[..n], filter) + if row.Some? && Matches(row.value, filter) then [n] else []
  }

  /** The row at a place matches the filter. */
  ghost predicate MatchesAt(text: TextChecks, records: seq<Record>, filter: Filter, i: nat)
  {
    && i < |records| && FromReplayRecord(text, records[i]).Some?
    && Matches(FromReplayRecord(text, records[i]).value, filter)
  }

  /** The matching rows are the rows at all places that match, in log order. */
  lemma {:induction false} MatchingIsExact(text: TextChecks, records: seq<Record>, filter: Filter)
    ensures var rows, places := Matching(text, records, filter), MatchingPlaces(text, records, filter);
            && |rows| == |places|
            && (forall i: nat :: i in places <==> MatchesAt(text, records, filter, i))
            && (forall i, j :: 0 <= i < j < |places| ==> places[i] < places[j])
            && (forall i :: 0 <= i < |rows| ==>
                  MatchesAt(text, records, filter, places[i])
                  && rows[i] == FromReplayRecord(text, records[places[i]]).value)
  {
    if records != [] {
      var n := |records| - 1;
      MatchingIsExact(text, records[..n], filter);
      forall i: nat | i < n ensures MatchesAt(text, records, filter, i) <==> MatchesAt(text, records[..n], filter, i) {
        assert records[i] == records[..n][i];
      }
    }
  }

  function Slice<T>(s: seq<T>, offset: nat, limit: nat): seq<T>
  {
    if offset >= |s| then [] else if offset + limit >= |s| then s[offset..] else s[offset..offset + limit]
  }

  ghost predicate EventIdsNeverDecrease(rows: seq<Row>)
  {
    forall i, j :: 0 <= i < j < |rows| ==> rows[i].eventId <= rows[j].eventId
  }

  // ---------------------------------------------------------------- the pass

  /** What the pass carries along. */
  datatype Progress = Progress(skipped: nat, totalMatching: nat, rows: seq<Row>, previousEventId: Option<U64>,
                               ordered: bool)

  /** The pass has seen exactly the matching rows `all`. */
  ghost predicate HasSeen(p: Progress, all: seq<Row>, spec: Spec)
  {
    && p.totalMatching == |all|
    && p.skipped == (if |all| < spec.offset then |all| else spec.offset)
    && p.rows == Slice(all, spec.offset, spec.limit)
    && p.previousEventId == (if all == [] then None else Some(all[|all| - 1].eventId))
    && (p.ordered <==> EventIdsNeverDecrease(all))
  }

  /** One matching row: check the order, count it, skip it or put it on the page. */
  method Add(p: Progress, row: Row, spec: Spec, ghost all: seq<Row>) returns (q: Progress)
    requires HasSeen(p, all, spec)
    ensures HasSeen(q, all + [row], spec)
  {
    OrderOfNext(all, row);
    SliceOfNext(all, row, spec.offset, spec.limit);
    var ordered := p.ordered;
    if p.previousEventId.Some? && row.eventId < p.previousEventId.value {
      ordered := false;
    }
    if p.skipped < spec.offset {
      return Progress(p.skipped + 1, p.totalMatching + 1, p.rows, Some(row.eventId), ordered);
    }
    var rows := p.rows;
    if |rows| < spec.limit {
      rows := rows + [row];
    }
    return Progress(p.skipped, p.totalMatching + 1, rows, Some(row.eventId), ordered);
  }

  method Inspect(text: TextChecks, records: seq<Record>, spec: Spec) returns (r: Option<QueryResult>)
    ensures r.Some? <==> SpecValid(text, spec) && FilterSupported(text, spec) && Readable(text, records)
    ensures r.Some? ==>
              var all := Matching(text, records, spec.filter);
              && r.value.rows == Slice(all, spec.offset, spec.limit)
              && r.value.limit == spec.limit && r.value.offset == spec.offset && |r.value.rows| <= spec.limit <= 1000
              && r.value.totalMatchingRows == (if spec.includeTotalCount then Some(|all|) else None)
              && (r.value.truncated <==> spec.offset + spec.limit < |all|)
              && (r.value.orderedByEventIdAscending <==> EventIdsNeverDecrease(all))
  {
    if !SpecValid(text, spec) || !FilterSupported(text, spec) {
      return None;
    }
    var p := Progress(0, 0, [], None, true);
    for i := 0 to |records|
      invariant Readable(text, records[..i])
      invariant HasSeen(p, Matching(text, records[..i], spec.filter), spec)
    {
      assert records[..i + 1][..i] == records[..i];
      var row := FromReplayRecord(text, records[i]);
      if row.None? {
        return None;
      }
      if Matches(row.value, spec.filter) {
        p := Add(p, row.value, spec, Matching(text, records[..i], spec.filter));
      }
    }
    assert records[..|records|] == records;
    return Some(QueryResult(
      p.rows,
      spec.limit,
      spec.offset,
      if spec.includeTotalCount then Some(p.totalMatching) else None,
      (if p.totalMatching > spec.offset then p.totalMatching - spec.offset else 0) > |p.rows|,
      p.ordered));
  }

  /** Only the last event id has to be remembered to keep the order flag exact. */
  lemma OrderOfNext(rows: seq<Row>, row: Row)
    ensures EventIdsNeverDecrease(rows + [row]) <==>
              EventIdsNeverDecrease(rows) && (rows == [] || rows[|rows| - 1].eventId <= row.eventId)
  {
    var next := rows + [row];
    if EventIdsNeverDecrease(next) {
      assert forall i :: 0 <= i < |rows| ==> next[i] == rows[i];
      assert rows != [] ==> next[|rows| - 1].eventId <= next[|rows|].eventId;
    }
  }

  lemma SliceOfNext<T>(s: seq<T>, x: T, offset: nat, limit: nat)
    ensures Slice(s + [x], offset, limit) ==
            if |s| < offset || |Slice(s, offset, limit)| >= limit then Slice(s, offset, limit)
            else Slice(s, offset, limit) + [x]
  {
  }

  lemma SliceExtends<T>(s: seq<T>, offset: nat, limit: nat)
    requires offset <= |s|
    ensures s[..offset] + Slice(s, offset, limit) == if offset + limit < |s| then s[..offset + limit] else s
  {
  }

  // ---------------------------------------------------------------- paging

  /** The pages a caller reads from `offset` on, each starting behind the last, until one is not truncated. */
  function PagesFrom<T>(all: seq<T>, offset: nat, limit: nat): seq<seq<T>>
    requires limit > 0
    decreases if offset < |all| then |all| - offset else 0
  {
    [Slice(all, offset, limit)] + if offset + limit < |all| then PagesFrom(all, offset + limit, limit) else []
  }

  function Concat<T>(pages: seq<seq<T>>): seq<T>
  {
    if pages == [] then [] else pages[0] + Concat(pages[1..])
  }

  /**
   Reading page after page loses nothing and repeats nothing: the pages concatenate to all
   matching rows, and every page but the last is full.
   */
  lemma {:induction false} PagesCoverEverything<T>(all: seq<T>, offset: nat, limit: nat)
    requires limit > 0 && offset <= |all|
    ensures var pages := PagesFrom(all, offset, limit);
            && Concat(pages) == all[offset..]
            && (forall k :: 0 <= k < |pages| - 1 ==> |pages[k]| == limit)
    decreases |all| - offset
  {
    var first, next := Slice(all, offset, limit), offset + limit;
    if next < |all| {
      PagesCoverEverything(all, next, limit);
      PrependPage(first, PagesFrom(all, next, limit));
      FullPage(all, offset, limit);
    } else {
      PrependPage(first, []);
      assert [first] + [] == [first];
    }
  }

  lemma FullPage<T>(all: seq<T>, offset: nat, limit: nat)
    requires offset + limit < |all|
    ensures all[offset..] == Slice(all, offset, limit) + all[offset + limit..] && |Slice(all, offset, limit)| == limit
  {
  }

  lemma PrependPage<T>(page: seq<T>, pages: seq<seq<T>>)
    ensures Concat([page] + pages) == page + Concat(pages)
  {
    assert ([page] + pages)[1..] == pages;
  }

  /**
   A caller that pages through the log with `Inspect` until a page is not truncated gets every match
   once, in order.
   */
  method InspectAll(text: TextChecks, records: seq<Record>, spec: Spec) returns (r: Option<seq<Row>>)
    ensures r.Some? <==> SpecValid(text, spec) && FilterSupported(text, spec) && Readable(text, records)
    ensures r.Some? ==> r.value == Matching(text, records, spec.filter)
  {
    var rows: seq<Row> := [];
    var offset: nat := 0;
    ghost var all := Matching(text, records, spec.filter);
    while true
      invariant offset <= |all| && rows == all[..offset]
      decreases |all| - offset
    {
      var page := Inspect(text, records, spec.(offset := offset));
      if page.None? {
        return None;
      }
      SliceExtends(all, offset, spec.limit);
      rows := rows + page.value.rows;
      if !page.value.truncated {
        return Some(rows);
      }
      offset := offset + spec.limit;
    }
  }
}
