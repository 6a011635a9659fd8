/**
 The backup I/O scheduler: a physical plan lists hot-store extent ranges followed by
 cold-store segments; the scheduler splits each extent and each cold segment into read
 tasks of bounded size, numbers them, and adds up the bytes with overflow checks.
 */
module IoScheduler {
  import opened Common

  const PAGES_PER_EXTENT: nat := 256
  const NVME: nat := 0
  const HDD: nat := 1

  // ---------------------------------------------------------------- plans

  datatype SegmentPlan = HotStoreScan(start: U64, end: U64) | ColdStoreScan(coldSegmentId: U64, pageCount: U64)
  {
    predicate Valid()
    {
      match this
      case HotStoreScan(start, end) => start < end
      case ColdStoreScan(id, pages) => id != 0 && pages != 0
    }
  }

  datatype Plan = Plan(
    backupId: U64,
    catalogSnapshotLsn: U64,
    segments: seq<SegmentPlan>,
    totalPages: U64,
    traceId: nat,
    createdEpoch: U64)

  /** No hot-store range after a cold segment, wherever the two stand. */
  ghost predicate HotBeforeCold(segments: seq<SegmentPlan>)
  {
    forall i, j :: 0 <= i < j < |segments| && segments[i].ColdStoreScan? ==> segments[j].ColdStoreScan?
  }

  ghost predicate PlanValid(plan: Plan)
  {
    && plan.backupId != 0 && plan.catalogSnapshotLsn != 0 && plan.segments != []
    && plan.totalPages != 0 && plan.traceId != 0 && plan.createdEpoch != 0
    && (forall i :: 0 <= i < |plan.segments| ==> plan.segments[i].Valid())
    && HotBeforeCold(plan.segments)
  }

  method ValidatePlan(plan: Plan) returns (ok: bool)
    ensures ok <==> PlanValid(plan)
  {
    if plan.backupId == 0 || plan.catalogSnapshotLsn == 0 || |plan.segments| == 0
       || plan.totalPages == 0 || plan.traceId == 0 || plan.createdEpoch == 0 {
      return false;
    }
    for i := 0 to |plan.segments|
      invariant forall j :: 0 <= j < i ==> plan.segments[j].Valid()
    {
      if !plan.segments[i].Valid() {
        return false;
      }
    }
    var seenCold := false;
    for i := 0 to |plan.segments|
      invariant seenCold <==> exists j :: 0 <= j < i && plan.segments[j].ColdStoreScan?
      invariant HotBeforeCold(plan.segments[..i])
    {
      match plan.segments[i]
      case HotStoreScan(_, _) =>
        if seenCold {
          return false;
        }
      case ColdStoreScan(_, _) =>
        seenCold := true;
    }
    assert plan.segments[..|plan.segments|] == plan.segments;
    return true;
  }

  // ---------------------------------------------------------------- schedules

  datatype Task = Task(
    taskId: nat,
    segmentId: nat,
    pageStart: nat,
    pageCount: nat,
    priority: nat,
    estimatedIoMs: nat,
    storageTier: nat)

  datatype Schedule = Schedule(tasks: seq<Task>, totalDurationMs: nat, peakThroughputMbps: nat, totalBytes: nat)
  {
    ghost predicate Valid()
    {
      && tasks != [] && totalDurationMs != 0 && peakThroughputMbps != 0 && totalBytes != 0
      && forall i :: 0 <= i < |tasks| ==> tasks[i].segmentId != 0 && tasks[i].pageCount != 0
    }
  }

  /**
   The scheduler's settings. `transferMs` stands for the floating-point quotient of bytes and
   throughput, truncated to whole milliseconds.
   */
  datatype Scheduler = Scheduler(pageSize: U64, nvmeMbps: U64, hddMbps: U64, maxPages: U64,
                                 transferMs: (nat, nat) -> nat)
  {
    /** One millisecond more than the transfer takes; one for a tier without throughput. */
    function EstimateMs(bytes: nat, tier: nat): nat
    {
      if Mbps(tier) > 0 then transferMs(bytes, Mbps(tier)) + 1 else 1
    }

    function Mbps(tier: nat): U64
    {
      if tier == NVME then nvmeMbps else hddMbps
    }

    function PeakMbps(): U64
    {
      if nvmeMbps >= hddMbps then nvmeMbps else hddMbps
    }
  }

  function SaturatingMul(a: nat, b: nat): nat
  {
    if a * b <= U64_MAX then a * b else U64_MAX
  }

  // ---------------------------------------------------------------- specification

  /** One run of pages to read: a hot-store extent or a cold segment. */
  datatype Unit = Unit(segmentId: nat, tier: nat, pages: nat)

  function HotUnits(start: nat, end: nat): seq<Unit>
    decreases end - start
  {
    if start >= end then [] else [Unit(start + 1, NVME, PAGES_PER_EXTENT)] + HotUnits(start + 1, end)
  }

  function SegmentUnits(s: SegmentPlan): seq<Unit>
  {
    match s
    case HotStoreScan(start, end) => HotUnits(start, end)
    case ColdStoreScan(id, pages) => [Unit(id, HDD, pages)]
  }

  function Units(segments: seq<SegmentPlan>): seq<Unit>
  {
    if segments == [] then [] else SegmentUnits(segments[0]) + Units(segments[1..])
  }

  function MakeTask(s: Scheduler, u: Unit, page: nat, count: nat, id: nat): Task
  {
    Task(id, u.segmentId, page, count, u.tier, s.EstimateMs(SaturatingMul(count, s.pageSize), u.tier), u.tier)
  }

  function Min(a: nat, b: nat): nat
  {
    if a <= b then a else b
  }

  /** The tasks of one unit from `page` on, numbered from `id`. */
  function UnitTasks(s: Scheduler, u: Unit, page: nat, id: nat): seq<Task>
    requires s.maxPages > 0
    decreases u.pages - page
  {
    if page >= u.pages then []
    else
      var count := Min(u.pages - page, s.maxPages);
      [MakeTask(s, u, page, count, id)] + UnitTasks(s, u, page + count, id + 1)
  }

  function Tasks(s: Scheduler, units: seq<Unit>, id: nat): seq<Task>
    requires s.maxPages > 0
  {
    if units == [] then []
    else
      var first := UnitTasks(s, units[0], 0, id);
      first + Tasks(s, units[1..], id + |first|)
  }

  function SumBytes(s: Scheduler, tasks: seq<Task>): nat
  {
    if tasks == [] then 0 else SaturatingMul(tasks[0].pageCount, s.pageSize) + SumBytes(s, tasks[1..])
  }

  function SumPages(tasks: seq<Task>): nat
  {
    if tasks == [] then 0 else tasks[0].pageCount + SumPages(tasks[1..])
  }

  function UnitPages(units: seq<Unit>): nat
  {
    if units == [] then 0 else units[0].pages + UnitPages(units[1..])
  }

  function SumMs(tasks: seq<Task>): nat
  {
    if tasks == [] then 0 else tasks[0].estimatedIoMs + SumMs(tasks[1..])
  }

  // ---------------------------------------------------------------- the scheduler

  datatype Progress = Progress(tasks: seq<Task>, taskId: nat, bytes: nat)

  /** The task id and byte counters still fit after these tasks. */
  predicate Fits(s: Scheduler, tasks: seq<Task>, taskId: nat, bytes: nat)
  {
    taskId + |tasks| <= U64_MAX && bytes + SumBytes(s, tasks) <= U64_MAX
  }

  /**
   The splitting loop, shared by both tiers. It terminates for every scheduler because the
   task id grows: with a maximum of zero pages it makes empty tasks until the id overflows.
   */
  method ScanUnit(s: Scheduler, u: Unit, tasks: seq<Task>, taskId: nat, bytes: nat) returns (r: Option<Progress>)
    requires u.pages > 0 && u.pages <= U64_MAX && taskId <= U64_MAX && bytes <= U64_MAX
    ensures r.Some? <==> s.maxPages > 0 && Fits(s, UnitTasks(s, u, 0, taskId), taskId, bytes)
    ensures r.Some? ==> var made := UnitTasks(s, u, 0, taskId);
                        r.value == Progress(tasks + made, taskId + |made|, bytes + SumBytes(s, made))
  {
    var now := Progress(tasks, taskId, bytes);
    ghost var before := now;
    var pagesRemaining: nat, pageOffset: nat := u.pages, 0;
    while pagesRemaining > 0
      invariant now.taskId <= U64_MAX && now.bytes <= U64_MAX
      invariant pageOffset + pagesRemaining == u.pages
      invariant s.maxPages == 0 ==> pagesRemaining == u.pages
      invariant s.maxPages > 0 ==> IsSplitTo(s, u, before, now, pageOffset)
      decreases U64_MAX - now.taskId
    {
      var pagesInTask := Min(pagesRemaining, s.maxPages);
      var bytesInTask := SaturatingMul(pagesInTask, s.pageSize);
      var task := MakeTask(s, u, pageOffset, pagesInTask, now.taskId);
      if s.maxPages > 0 {
        TaskSplitOff(s, u, before, now, pageOffset, task, bytesInTask);
      }
      if now.taskId == U64_MAX || now.bytes + bytesInTask > U64_MAX {
        return None;
      }
      now := Progress(now.tasks + [task], now.taskId + 1, now.bytes + bytesInTask);
      pageOffset := pageOffset + pagesInTask;
      pagesRemaining := pagesRemaining - pagesInTask;
    }
    return Some(now);
  }

  /** What there was with all of the tasks is what there is with the rest of them. */
  ghost predicate Accounts(s: Scheduler, before: Progress, all: seq<Task>, now: Progress, rest: seq<Task>)
  {
    && now.tasks + rest == before.tasks + all
    && now.taskId + |rest| == before.taskId + |all|
    && now.bytes + SumBytes(s, rest) == before.bytes + SumBytes(s, all)
  }

  lemma OneAccounted(s: Scheduler, before: Progress, all: seq<Task>, now: Progress, task: Task, rest: seq<Task>,
                     bytes: nat)
    requires Accounts(s, before, all, now, [task] + rest) && SumBytes(s, [task] + rest) == bytes + SumBytes(s, rest)
    ensures Accounts(s, before, all, Progress(now.tasks + [task], now.taskId + 1, now.bytes + bytes), rest)
    ensures now.taskId == U64_MAX || now.bytes + bytes > U64_MAX ==> !Fits(s, all, before.taskId, before.bytes)
  {
    ConcatAssociative(now.tasks, [task], rest);
  }

  /** The unit has been split up to `page`. */
  ghost predicate IsSplitTo(s: Scheduler, u: Unit, before: Progress, now: Progress, page: nat)
    requires s.maxPages > 0
  {
    Accounts(s, before, UnitTasks(s, u, 0, before.taskId), now, UnitTasks(s, u, page, now.taskId))
  }

  lemma TaskSplitOff(s: Scheduler, u: Unit, before: Progress, now: Progress, page: nat, task: Task, bytes: nat)
    requires s.maxPages > 0 && page < u.pages && IsSplitTo(s, u, before, now, page)
    requires task == MakeTask(s, u, page, Min(u.pages - page, s.maxPages), now.taskId)
    requires bytes == SaturatingMul(task.pageCount, s.pageSize)
    ensures IsSplitTo(s, u, before, Progress(now.tasks + [task], now.taskId + 1, now.bytes + bytes),
                      page + task.pageCount)
    ensures now.taskId == U64_MAX || now.bytes + bytes > U64_MAX ==>
              !Fits(s, UnitTasks(s, u, 0, before.taskId), before.taskId, before.bytes)
  {
    var all, later := UnitTasks(s, u, 0, before.taskId), UnitTasks(s, u, page + task.pageCount, now.taskId + 1);
    assert UnitTasks(s, u, page, now.taskId) == [task] + later
           && SumBytes(s, [task] + later) == bytes + SumBytes(s, later) by {
      NextTask(s, u, page, now.taskId);
    }
    OneAccounted(s, before, all, now, task, later, bytes);
  }

  lemma NextTask(s: Scheduler, u: Unit, page: nat, id: nat)
    requires s.maxPages > 0 && page < u.pages
    ensures var count := Min(u.pages - page, s.maxPages);
            var rest := UnitTasks(s, u, page + count, id + 1);
            && UnitTasks(s, u, page, id) == [MakeTask(s, u, page, count, id)] + rest
            && SumBytes(s, UnitTasks(s, u, page, id)) == SaturatingMul(count, s.pageSize) + SumBytes(s, rest)
  {
    var count := Min(u.pages - page, s.maxPages);
    var rest := UnitTasks(s, u, page + count, id + 1);
    assert ([MakeTask(s, u, page, count, id)] + rest)[1..] == rest;
  }

  /** What has been scheduled so far plus what is pending is always the whole list. */
  ghost predicate Stage(s: Scheduler, units: seq<Unit>, pending: seq<Unit>, tasks: seq<Task>, taskId: nat, bytes: nat)
  {
    if s.maxPages == 0 then pending == units
    else
      var all, rest := Tasks(s, units, 1), Tasks(s, pending, taskId);
      && tasks + rest == all
      && taskId + |rest| == 1 + |all|
      && bytes + SumBytes(s, rest) == SumBytes(s, all)
  }

  /** When a schedule comes back: the exact set of plans, before any byte is added up. */
  ghost predicate Schedulable(s: Scheduler, plan: Plan)
  {
    && PlanValid(plan) && s.maxPages > 0 && s.PeakMbps() > 0
    && var all := Tasks(s, Units(plan.segments), 1);
       |all| < U64_MAX && 0 < SumBytes(s, all) <= U64_MAX
  }

  method SchedulePageScan(s: Scheduler, plan: Plan) returns (r: Option<Schedule>)
    ensures r.Some? <==> Schedulable(s, plan)
    ensures r.Some? ==> var peak := r.value.peakThroughputMbps;
                        r.value.Valid() && s.nvmeMbps <= peak && s.hddMbps <= peak && peak in {s.nvmeMbps, s.hddMbps}
    ensures r.Some? ==> r.value.tasks == Tasks(s, Units(plan.segments), 1)
    ensures r.Some? ==> r.value.totalBytes == SumBytes(s, r.value.tasks)
    ensures r.Some? ==> r.value.totalDurationMs == SumMs(r.value.tasks)
  {
    var valid := ValidatePlan(plan);
    if !valid {
      return None;
    }
    UnitsOfValidPlan(plan);
    var scanned := ScanSegments(s, plan);
    if scanned.None? {
      return None;
    }
    var tasks, totalBytes := scanned.value.tasks, scanned.value.nvmeBytes + scanned.value.hddBytes;
    if totalBytes > U64_MAX {
      return None;
    }
    TasksAreProper(s, Units(plan.segments), 1);
    assert forall t :: 0 <= t < |tasks| ==> Proper(s, tasks[t], 1 + t);
    var schedule := Schedule(tasks, SumMs(tasks), s.PeakMbps(), totalBytes);
    if |schedule.tasks| == 0 || schedule.peakThroughputMbps == 0 || schedule.totalBytes == 0 {
      return None;
    }
    return Some(schedule);
  }

  datatype Totals = Totals(tasks: seq<Task>, taskId: nat, nvmeBytes: nat, hddBytes: nat)

  /** The counters fit and, with what is pending, account for the whole list. */
  ghost predicate OnTrack(s: Scheduler, units: seq<Unit>, pending: seq<Unit>, t: Totals)
  {
    && t.taskId <= U64_MAX && t.nvmeBytes <= U64_MAX && t.hddBytes <= U64_MAX
    && Stage(s, units, pending, t.tasks, t.taskId, t.nvmeBytes + t.hddBytes)
  }

  /** The id and byte counters cannot all stay within 64 bits. */
  ghost predicate Overflows(s: Scheduler, units: seq<Unit>)
  {
    s.maxPages == 0 || |Tasks(s, units, 1)| >= U64_MAX || SumBytes(s, Tasks(s, units, 1)) > U64_MAX
  }

  /** The outer loop over the plan's segments. */
  method ScanSegments(s: Scheduler, plan: Plan) returns (r: Option<Totals>)
    requires PlanValid(plan)
    ensures r.None? ==> Overflows(s, Units(plan.segments))
    ensures r.Some? ==> s.maxPages > 0 && r.value.tasks == Tasks(s, Units(plan.segments), 1)
    ensures r.Some? ==> |r.value.tasks| < U64_MAX
    ensures r.Some? ==> r.value.nvmeBytes + r.value.hddBytes == SumBytes(s, r.value.tasks)
  {
    var t := Totals([], 1, 0, 0);
    ghost var units := Units(plan.segments);
    assert plan.segments[0..] == plan.segments;
    for i := 0 to |plan.segments|
      invariant OnTrack(s, units, Units(plan.segments[i..]), t)
    {
      assert plan.segments[i].Valid();
      assert plan.segments[i..][1..] == plan.segments[i + 1..];
      ghost var later := Units(plan.segments[i + 1..]);
      match plan.segments[i]
      case HotStoreScan(start, end) =>
        r := ScanExtents(s, start, end, units, later, t);
        if r.None? { return; }
        t := r.value;
      case ColdStoreScan(id, pages) =>
        r := ScanOne(s, Unit(id, HDD, pages), units, later, t);
        if r.None? { return; }
        t := r.value;
    }
    UnitsOfValidPlan(plan);
    assert t.tasks + [] == t.tasks;
    return Some(t);
  }

  /** The loop over the extents of one hot-store range. */
  method ScanExtents(s: Scheduler, start: U64, end: U64, ghost units: seq<Unit>, ghost later: seq<Unit>, t: Totals)
    returns (r: Option<Totals>)
    requires start < end && OnTrack(s, units, HotUnits(start, end) + later, t)
    ensures r.None? ==> Overflows(s, units)
    ensures r.Some? ==> OnTrack(s, units, later, r.value)
  {
    var now := t;
    for extent := 0 to end - start
      invariant OnTrack(s, units, HotUnits(start + extent, end) + later, now)
    {
      ghost var rest := HotUnits(start + extent + 1, end) + later;
      ConcatAssociative([Unit(start + extent + 1, NVME, PAGES_PER_EXTENT)], HotUnits(start + extent + 1, end), later);
      r := ScanOne(s, Unit(start + extent + 1, NVME, PAGES_PER_EXTENT), units, rest, now);
      if r.None? { return; }
      now := r.value;
    }
    assert [] + later == later;
    return Some(now);
  }

  /** Split one unit and add its bytes to the counter of its tier. */
  method ScanOne(s: Scheduler, u: Unit, ghost units: seq<Unit>, ghost later: seq<Unit>, t: Totals)
    returns (r: Option<Totals>)
    requires 0 < u.pages <= U64_MAX && OnTrack(s, units, [u] + later, t)
    ensures r.None? ==> Overflows(s, units)
    ensures r.Some? ==> OnTrack(s, units, later, r.value)
  {
    UnitScanned(s, u, units, later, t);
    var made := ScanUnit(s, u, t.tasks, t.taskId, if u.tier == NVME then t.nvmeBytes else t.hddBytes);
    if made.None? {
      return None;
    }
    var Progress(tasks, taskId, bytes) := made.value;
    if u.tier == NVME {
      return Some(Totals(tasks, taskId, bytes, t.hddBytes));
    } else {
      return Some(Totals(tasks, taskId, t.nvmeBytes, bytes));
    }
  }

  /** If the tier's counters fit, the totals stay on track; if not, no order of adding fits. */
  lemma UnitScanned(s: Scheduler, u: Unit, units: seq<Unit>, later: seq<Unit>, t: Totals)
    requires OnTrack(s, units, [u] + later, t)
    ensures s.maxPages > 0 ==>
              var made := UnitTasks(s, u, 0, t.taskId);
              && Stage(s, units, later, t.tasks + made, t.taskId + |made|, t.nvmeBytes + t.hddBytes + SumBytes(s, made))
              && (t.taskId + |made| > U64_MAX || t.nvmeBytes + t.hddBytes + SumBytes(s, made) > U64_MAX ==>
                  Overflows(s, units))
  {
    if s.maxPages > 0 {
      UnitConsumed(s, units, u, later, t.tasks, t.taskId, t.nvmeBytes + t.hddBytes);
    }
  }

  /** Moving the first pending unit's tasks to the scheduled ones keeps the stage. */
  lemma UnitConsumed(s: Scheduler, units: seq<Unit>, u: Unit, later: seq<Unit>, tasks: seq<Task>, taskId: nat,
                     bytes: nat)
    requires s.maxPages > 0 && Stage(s, units, [u] + later, tasks, taskId, bytes)
    ensures var made := UnitTasks(s, u, 0, taskId);
            && Stage(s, units, later, tasks + made, taskId + |made|, bytes + SumBytes(s, made))
            && taskId + |made| <= 1 + |Tasks(s, units, 1)|
            && bytes + SumBytes(s, made) <= SumBytes(s, Tasks(s, units, 1))
  {
    var made := UnitTasks(s, u, 0, taskId);
    var rest := Tasks(s, later, taskId + |made|);
    TasksOfFirst(s, u, later, taskId);
    ConcatAssociative(tasks, made, rest);
    SumBytesConcat(s, made, rest);
  }

  lemma TasksOfFirst(s: Scheduler, u: Unit, later: seq<Unit>, id: nat)
    requires s.maxPages > 0
    ensures var made := UnitTasks(s, u, 0, id); Tasks(s, [u] + later, id) == made + Tasks(s, later, id + |made|)
  {
    assert ([u] + later)[1..] == later;
  }

  lemma {:induction false} SumBytesConcat(s: Scheduler, a: seq<Task>, b: seq<Task>)
    ensures SumBytes(s, a + b) == SumBytes(s, a) + SumBytes(s, b)
  {
    if a == [] {
      assert a + b == b;
    } else {
      SumBytesConcat(s, a[1..], b);
      assert (a + b)[1..] == a[1..] + b;
    }
  }

  // ---------------------------------------------------------------- what the tasks are

  ghost predicate UnitsValid(units: seq<Unit>)
  {
    forall i :: 0 <= i < |units| ==> 0 < units[i].segmentId && 0 < units[i].pages && units[i].tier <= HDD
  }

  /** All NVMe units stand before all HDD units. */
  ghost predicate UnitsOrdered(units: seq<Unit>)
  {
    forall i, j :: 0 <= i < j < |units| ==> units[i].tier <= units[j].tier
  }

  lemma {:induction false} HotUnitsAt(start: nat, end: nat)
    requires start <= end
    ensures |HotUnits(start, end)| == end - start
    ensures forall k :: 0 <= k < end - start ==> HotUnits(start, end)[k] == Unit(start + k + 1, NVME, PAGES_PER_EXTENT)
    decreases end - start
  {
    if start < end {
      HotUnitsAt(start + 1, end);
    }
  }

  lemma {:induction false} UnitsOfSegments(segments: seq<SegmentPlan>)
    requires forall i :: 0 <= i < |segments| ==> segments[i].Valid()
    requires HotBeforeCold(segments)
    ensures UnitsValid(Units(segments)) && UnitsOrdered(Units(segments))
    ensures segments != [] ==> Units(segments) != []
    ensures segments != [] && segments[0].ColdStoreScan? ==> forall i :: 0 <= i < |Units(segments)| ==>
              Units(segments)[i].tier == HDD
  {
    if segments != [] {
      UnitsOfSegments(segments[1..]);
      assert segments[0].Valid();
      match segments[0]
      case HotStoreScan(start, end) => HotUnitsAt(start, end);
      case ColdStoreScan(_, _) =>
        if segments[1..] != [] {
          assert segments[1..][0] == segments[1];
        }
    }
  }

  lemma {:induction false} UnitsSplit(segments: seq<SegmentPlan>, k: nat)
    requires k <= |segments|
    ensures Units(segments) == Units(segments[..k]) + Units(segments[k..])
  {
    if k == 0 {
      assert segments[0..] == segments;
    } else {
      UnitsSplit(segments[1..], k - 1);
      assert segments[..k][1..] == segments[1..][..k - 1] && segments[1..][k - 1..] == segments[k..];
      ConcatAssociative(SegmentUnits(segments[0]), Units(segments[1..][..k - 1]), Units(segments[k..]));
    }
  }

  /**
   The units are the plan: in the place of each segment stand its extents in order, numbered from one, with 256
   pages each on tier 0, or the cold segment itself with its pages on tier 1.
   */
  lemma SegmentIsBlock(segments: seq<SegmentPlan>, k: nat)
    requires k < |segments| && segments[k].Valid()
    ensures var from := |Units(segments[..k])|;
            match segments[k]
            case HotStoreScan(start, end) =>
              && from + (end - start) == |Units(segments[..k + 1])| <= |Units(segments)|
              && forall i :: from <= i < from + (end - start) ==>
                   Units(segments)[i] == Unit(start + (i - from) + 1, 0, 256)
            case ColdStoreScan(id, pages) =>
              from + 1 == |Units(segments[..k + 1])| <= |Units(segments)| && Units(segments)[from] == Unit(id, 1, pages)
  {
    UnitsSplit(segments, k);
    UnitsSplit(segments[..k + 1], k);
    assert segments[..k + 1][..k] == segments[..k] && segments[..k + 1][k..] == [segments[k]];
    assert Units([segments[k]]) == SegmentUnits(segments[k]) + Units([segments[k]][1..]) == SegmentUnits(segments[k]);
    assert Units(segments[k..]) == SegmentUnits(segments[k]) + Units(segments[k..][1..]);
    if segments[k].HotStoreScan? {
      HotUnitsAt(segments[k].start, segments[k].end);
    }
  }

  lemma UnitsOfValidPlan(plan: Plan)
    requires PlanValid(plan)
    ensures Units(plan.segments) != [] && UnitsValid(Units(plan.segments)) && UnitsOrdered(Units(plan.segments))
  {
    UnitsOfSegments(plan.segments);
  }

  /**
   `ts` reads the pages of `u` from `page` to the end: consecutive tasks numbered from `id`,
   all of the maximum size except that the last one may be smaller.
   */
  ghost predicate Tiles(s: Scheduler, u: Unit, page: nat, id: nat, ts: seq<Task>)
  {
    && (ts == [] ==> page >= u.pages)
    && (ts != [] ==> ts[0].pageStart == page && EndOf(ts[|ts| - 1]) == u.pages)
    && (forall j :: 0 <= j < |ts| ==> IsTaskOf(s, u, ts[j], id + j))
    && (forall j :: 0 < j < |ts| ==> Follows(s, ts, j))
  }

  /** Task `j` starts where task `j - 1`, which has the maximum size, ends. */
  ghost predicate Follows(s: Scheduler, ts: seq<Task>, j: nat)
    requires 0 < j < |ts|
  {
    ts[j].pageStart == EndOf(ts[j - 1]) && ts[j - 1].pageCount == s.maxPages
  }

  function EndOf(t: Task): nat
  {
    t.pageStart + t.pageCount
  }

  /** A nonempty task of bounded size on unit `u`. */
  ghost predicate IsTaskOf(s: Scheduler, u: Unit, t: Task, id: nat)
  {
    0 < t.pageCount <= s.maxPages && t == MakeTask(s, u, t.pageStart, t.pageCount, id)
  }

  lemma {:induction false} UnitTasksTile(s: Scheduler, u: Unit, page: nat, id: nat)
    requires s.maxPages > 0 && page <= u.pages
    ensures Tiles(s, u, page, id, UnitTasks(s, u, page, id))
    decreases u.pages - page
  {
    if page < u.pages {
      var count := Min(u.pages - page, s.maxPages);
      UnitTasksTile(s, u, page + count, id + 1);
      PrependTile(s, u, page, id, MakeTask(s, u, page, count, id), UnitTasks(s, u, page + count, id + 1));
    }
  }

  lemma PrependTile(s: Scheduler, u: Unit, page: nat, id: nat, t: Task, rest: seq<Task>)
    requires page < u.pages && IsTaskOf(s, u, t, id) && t.pageStart == page
    requires t.pageCount == Min(u.pages - page, s.maxPages) && Tiles(s, u, EndOf(t), id + 1, rest)
    requires rest != [] ==> EndOf(t) < u.pages
    ensures Tiles(s, u, page, id, [t] + rest)
  {
    var ts := [t] + rest;
    forall j | 0 < j < |ts| ensures Follows(s, ts, j) {
      assert j > 1 ==> Follows(s, rest, j - 1);
    }
    forall j | 0 <= j < |ts| ensures IsTaskOf(s, u, ts[j], id + j) {
      assert j > 0 ==> IsTaskOf(s, u, rest[j - 1], id + 1 + (j - 1));
    }
  }

  /** The tasks of a unit read as many pages as it has. */
  lemma {:induction false} UnitTasksRead(s: Scheduler, u: Unit, page: nat, id: nat)
    requires s.maxPages > 0 && page <= u.pages
    ensures SumPages(UnitTasks(s, u, page, id)) == u.pages - page
    decreases u.pages - page
  {
    if page < u.pages {
      var count := Min(u.pages - page, s.maxPages);
      UnitTasksRead(s, u, page + count, id + 1);
      assert UnitTasks(s, u, page, id)[1..] == UnitTasks(s, u, page + count, id + 1);
    }
  }

  /** The number of tasks is the pages divided by the maximum size, rounded up. */
  lemma {:induction false} UnitTaskCount(s: Scheduler, u: Unit, page: nat, id: nat)
    requires s.maxPages > 0 && page < u.pages
    ensures var n := |UnitTasks(s, u, page, id)|;
            n > 0 && (n - 1) * s.maxPages < u.pages - page <= n * s.maxPages
    decreases u.pages - page
  {
    if page + s.maxPages < u.pages {
      UnitTaskCount(s, u, page + s.maxPages, id + 1);
      var n := |UnitTasks(s, u, page + s.maxPages, id + 1)|;
      assert (n - 1) * s.maxPages + s.maxPages == n * s.maxPages;
      assert n * s.maxPages + s.maxPages == (n + 1) * s.maxPages;
    } else {
      assert UnitTasks(s, u, u.pages, id + 1) == [];
    }
  }

  /** Where the tasks of unit `k` start in the schedule. */
  ghost function BlockStart(s: Scheduler, units: seq<Unit>, k: nat): nat
    requires s.maxPages > 0 && k <= |units|
  {
    |Tasks(s, units[..k], 1)|
  }

  lemma {:induction false} TasksSplit(s: Scheduler, units: seq<Unit>, k: nat, id: nat)
    requires s.maxPages > 0 && k <= |units|
    ensures var front := Tasks(s, units[..k], id);
            Tasks(s, units, id) == front + Tasks(s, units[k..], id + |front|)
  {
    if k == 0 {
      assert units[0..] == units;
    } else {
      var first := UnitTasks(s, units[0], 0, id);
      TasksSplit(s, units[1..], k - 1, id + |first|);
      assert units[..k][1..] == units[1..][..k - 1];
      assert units[1..][k - 1..] == units[k..];
      var middle := Tasks(s, units[1..][..k - 1], id + |first|);
      ConcatAssociative(first, middle, Tasks(s, units[k..], id + |first| + |middle|));
    }
  }

  /**
   Exact tiling: unit `k` gets one block of consecutive tasks that tile its pages. The block
   has as many tasks as the pages divided by the maximum size, rounded up.
   */
  lemma UnitIsTiled(s: Scheduler, units: seq<Unit>, k: nat)
    requires s.maxPages > 0 && k < |units| && units[k].pages > 0
    ensures var all := Tasks(s, units, 1);
            var from, to := BlockStart(s, units, k), BlockStart(s, units, k + 1);
            && from < to <= |all|
            && (to - from - 1) * s.maxPages < units[k].pages <= (to - from) * s.maxPages
            && Tiles(s, units[k], 0, from + 1, all[from..to])
  {
    var u, from := units[k], BlockStart(s, units, k);
    var block := UnitTasks(s, u, 0, 1 + from);
    BlockOfUnit(s, units, k);
    UnitTasksTile(s, u, 0, 1 + from);
    UnitTaskCount(s, u, 0, 1 + from);
  }

  lemma BlockOfUnit(s: Scheduler, units: seq<Unit>, k: nat)
    requires s.maxPages > 0 && k < |units|
    ensures var all, from := Tasks(s, units, 1), BlockStart(s, units, k);
            var block := UnitTasks(s, units[k], 0, 1 + from);
            && BlockStart(s, units, k + 1) == from + |block| <= |all|
            && all[from..from + |block|] == block
  {
    var u, from := units[k], BlockStart(s, units, k);
    var block := UnitTasks(s, u, 0, 1 + from);
    TasksSplit(s, units, k, 1);
    assert units[k..][0] == u;
    SliceOfConcat(Tasks(s, units[..k], 1), block, Tasks(s, units[k..][1..], 1 + from + |block|));
    BlockEnd(s, units, k);
  }

  lemma BlockEnd(s: Scheduler, units: seq<Unit>, k: nat)
    requires s.maxPages > 0 && k < |units|
    ensures BlockStart(s, units, k + 1) ==
              BlockStart(s, units, k) + |UnitTasks(s, units[k], 0, 1 + BlockStart(s, units, k))|
  {
    var u, from := units[k], BlockStart(s, units, k);
    TasksSplit(s, units[..k + 1], k, 1);
    assert units[..k + 1][..k] == units[..k];
    assert units[..k + 1][k..] == [u];
    assert [u][1..] == [];
  }

  /** Every page of every unit is read by exactly one task of its block. */
  lemma PageIsReadOnce(s: Scheduler, units: seq<Unit>, k: nat, page: nat)
    requires s.maxPages > 0 && k < |units| && page < units[k].pages
    ensures var all := Tasks(s, units, 1);
            var from, to := BlockStart(s, units, k), BlockStart(s, units, k + 1);
            from <= to <= |all| && ReadOnce(all[from..to], page)
  {
    var from := BlockStart(s, units, k);
    UnitIsTiled(s, units, k);
    TiledIsReadOnce(s, units[k], from + 1, Tasks(s, units, 1)[from..BlockStart(s, units, k + 1)], page);
  }

  ghost predicate ReadOnce(ts: seq<Task>, page: nat)
  {
    && (exists i :: 0 <= i < |ts| && Reads(ts[i], page))
    && (forall i, j :: 0 <= i < j < |ts| && Reads(ts[i], page) ==> !Reads(ts[j], page))
  }

  lemma TiledIsReadOnce(s: Scheduler, u: Unit, id: nat, ts: seq<Task>, page: nat)
    requires Tiles(s, u, 0, id, ts) && page < u.pages
    ensures ReadOnce(ts, page)
  {
    var i := FindTask(s, u, id, ts, |ts|, page);
    forall i, j | 0 <= i < j < |ts| && Reads(ts[i], page) ensures !Reads(ts[j], page) {
      TasksAreConsecutive(s, u, id, ts, i, j);
    }
  }

  predicate Reads(t: Task, page: nat)
  {
    t.pageStart <= page < EndOf(t)
  }

  lemma {:induction false} FindTask(s: Scheduler, u: Unit, id: nat, ts: seq<Task>, n: nat, page: nat) returns (j: nat)
    requires Tiles(s, u, 0, id, ts) && 0 < n <= |ts| && page < EndOf(ts[n - 1])
    ensures j < n && Reads(ts[j], page)
  {
    if ts[n - 1].pageStart <= page {
      j := n - 1;
    } else {
      assert Follows(s, ts, n - 1);
      j := FindTask(s, u, id, ts, n - 1, page);
    }
  }

  lemma {:induction false} TasksAreConsecutive(s: Scheduler, u: Unit, id: nat, ts: seq<Task>, i: nat, j: nat)
    requires Tiles(s, u, 0, id, ts) && i < j < |ts|
    ensures EndOf(ts[i]) <= ts[j].pageStart
    decreases j - i
  {
    assert Follows(s, ts, j);
    if i + 1 < j {
      TasksAreConsecutive(s, u, id, ts, i, j - 1);
    }
  }

  /** Ids count up from `id`, every task is nonempty and bounded, no page is lost. */
  lemma {:induction false} TasksAreProper(s: Scheduler, units: seq<Unit>, id: nat)
    requires s.maxPages > 0 && UnitsValid(units)
    ensures var all := Tasks(s, units, id);
            && |units| <= |all|
            && AllProper(s, all, id)
            && SumPages(all) == UnitPages(units)
            && (all != [] ==> SumMs(all) > 0)
  {
    if units != [] {
      var u, first := units[0], UnitTasks(s, units[0], 0, id);
      var rest := Tasks(s, units[1..], id + |first|);
      UnitTasksTile(s, u, 0, id);
      UnitTasksRead(s, u, 0, id);
      TasksAreProper(s, units[1..], id + |first|);
      SumPagesConcat(first, rest);
      assert AllProper(s, first + rest, id) by {
        ProperOfTiled(s, u, id, first);
        ProperConcat(s, id, first, rest);
      }
    }
  }

  lemma ProperOfTiled(s: Scheduler, u: Unit, id: nat, ts: seq<Task>)
    requires Tiles(s, u, 0, id, ts) && u.segmentId > 0 && u.tier <= HDD
    ensures AllProper(s, ts, id)
  {
    forall t | 0 <= t < |ts| ensures Proper(s, ts[t], id + t) {
      assert IsTaskOf(s, u, ts[t], id + t);
    }
  }

  lemma ProperConcat(s: Scheduler, id: nat, a: seq<Task>, b: seq<Task>)
    requires AllProper(s, a, id) && AllProper(s, b, id + |a|)
    ensures AllProper(s, a + b, id)
  {
    forall t | 0 <= t < |a + b| ensures Proper(s, (a + b)[t], id + t) {
      assert t >= |a| ==> Proper(s, b[t - |a|], id + |a| + (t - |a|));
    }
  }

  ghost predicate AllProper(s: Scheduler, ts: seq<Task>, id: nat)
  {
    forall t :: 0 <= t < |ts| ==> Proper(s, ts[t], id + t)
  }

  /** All NVMe tasks precede all HDD tasks. */
  lemma {:induction false} TasksFollowTierOrder(s: Scheduler, units: seq<Unit>, id: nat)
    requires s.maxPages > 0 && UnitsValid(units) && UnitsOrdered(units)
    ensures TiersOrdered(Tasks(s, units, id))
    ensures units != [] ==> forall t :: 0 <= t < |Tasks(s, units, id)| ==>
              Tasks(s, units, id)[t].storageTier >= units[0].tier
  {
    if units != [] {
      var u, first := units[0], UnitTasks(s, units[0], 0, id);
      UnitTasksTile(s, u, 0, id);
      TasksFollowTierOrder(s, units[1..], id + |first|);
      forall t | 0 <= t < |first| ensures first[t].storageTier == u.tier {
        assert IsTaskOf(s, u, first[t], id + t);
      }
      assert units[1..] != [] ==> units[0].tier <= units[1..][0].tier;
    }
  }

  ghost predicate Proper(s: Scheduler, t: Task, id: nat)
  {
    && t.taskId == id && t.segmentId > 0 && 0 < t.pageCount <= s.maxPages
    && t.storageTier == t.priority && t.storageTier <= 1
    && var mbps := if t.storageTier == 0 then s.nvmeMbps else s.hddMbps;
       var product := t.pageCount * s.pageSize;
       var bytes := if product <= 0xFFFF_FFFF_FFFF_FFFF then product else 0xFFFF_FFFF_FFFF_FFFF;
       t.estimatedIoMs == 1 + if mbps > 0 then s.transferMs(bytes, mbps) else 0
  }

  ghost predicate TiersOrdered(tasks: seq<Task>)
  {
    forall i, j :: 0 <= i < j < |tasks| ==> tasks[i].storageTier <= tasks[j].storageTier
  }

  /** The durations add up. */
  lemma {:induction false} DurationsAdd(a: seq<Task>, t: Task)
    ensures SumMs(a + [t]) == SumMs(a) + t.estimatedIoMs
  {
    if a != [] {
      DurationsAdd(a[1..], t);
      assert (a + [t])[1..] == a[1..] + [t];
    }
  }

  lemma {:induction false} SumPagesConcat(a: seq<Task>, b: seq<Task>)
    ensures SumPages(a + b) == SumPages(a) + SumPages(b)
  {
    if a == [] {
      assert a + b == b;
    } else {
      SumPagesConcat(a[1..], b);
      assert (a + b)[1..] == a[1..] + b;
    }
  }

  // ---------------------------------------------------------------- conservation

  lemma MulMonotone(a: nat, b: nat, m: nat)
    requires a <= b
    ensures a * m <= b * m
  {
  }

  /**
   The byte total never loses anything: it is page size times pages, except for a schedule of
   one single task whose product is over 64 bits and saturates.
   */
  lemma {:induction false} BytesAreConserved(s: Scheduler, tasks: seq<Task>)
    requires s.pageSize > 0 && forall t :: 0 <= t < |tasks| ==> tasks[t].pageCount > 0
    ensures |tasks| <= SumBytes(s, tasks)
    ensures SumPages(tasks) * s.pageSize <= U64_MAX ==> SumBytes(s, tasks) == SumPages(tasks) * s.pageSize
    ensures SumPages(tasks) * s.pageSize > U64_MAX && |tasks| > 1 ==> SumBytes(s, tasks) > U64_MAX
    ensures SumPages(tasks) * s.pageSize > U64_MAX && |tasks| == 1 ==> SumBytes(s, tasks) == U64_MAX
  {
    if tasks != [] {
      var c, rest := tasks[0].pageCount, tasks[1..];
      BytesAreConserved(s, rest);
      assert SumPages(tasks) * s.pageSize == c * s.pageSize + SumPages(rest) * s.pageSize;
      assert c * s.pageSize >= 1 by { MulMonotone(1, c, s.pageSize); }
    }
  }

  // ---------------------------------------------------------------- closed forms

  /** `pages` divided by `max`, rounded up. */
  function Ceiling(pages: nat, max: nat): nat
    requires max > 0
  {
    (pages + max - 1) / max
  }

  function Extents(start: nat, end: nat): nat
  {
    if start < end then end - start else 0
  }

  /** The number of tasks of a plan: one for each started maximum of pages, in each extent and each cold segment. */
  function PlannedTasks(segments: seq<SegmentPlan>, max: nat): nat
    requires max > 0
  {
    if segments == [] then 0
    else
      (match segments[0]
       case HotStoreScan(start, end) => Extents(start, end) * Ceiling(256, max)
       case ColdStoreScan(_, pages) => Ceiling(pages, max)) + PlannedTasks(segments[1..], max)
  }

  /** The number of pages of a plan: 256 for each extent, and those of the cold segments. */
  function PlannedPages(segments: seq<SegmentPlan>): nat
  {
    if segments == [] then 0
    else
      (match segments[0]
       case HotStoreScan(start, end) => Extents(start, end) * 256
       case ColdStoreScan(_, pages) => pages) + PlannedPages(segments[1..])
  }

  function TaskCount(units: seq<Unit>, max: nat): nat
    requires max > 0
  {
    if units == [] then 0 else Ceiling(units[0].pages, max) + TaskCount(units[1..], max)
  }

  lemma CeilingIs(pages: nat, max: nat, n: nat)
    requires max > 0 && n > 0 && (n - 1) * max < pages <= n * max
    ensures Ceiling(pages, max) == n
  {
    var r := pages + max - 1 - n * max;
    assert (n - 1) * max == n * max - max;
    assert 0 <= r < max;
    QuotientIs(pages + max - 1, max, n, r);
  }

  lemma QuotientIs(x: nat, max: nat, n: nat, r: nat)
    requires max > 0 && x == n * max + r && r < max
    ensures x / max == n
  {
    var q := x / max;
    assert x == q * max + x % max;
    if q < n {
      MulMonotone(q + 1, n, max);
    } else if q > n {
      MulMonotone(n + 1, q, max);
    }
  }

  lemma UnitCount(s: Scheduler, u: Unit, id: nat)
    requires s.maxPages > 0
    ensures |UnitTasks(s, u, 0, id)| == Ceiling(u.pages, s.maxPages)
  {
    if u.pages > 0 {
      UnitTaskCount(s, u, 0, id);
      CeilingIs(u.pages, s.maxPages, |UnitTasks(s, u, 0, id)|);
    } else {
      QuotientIs(s.maxPages - 1, s.maxPages, 0, s.maxPages - 1);
    }
  }

  lemma {:induction false} TasksAreCounted(s: Scheduler, units: seq<Unit>, id: nat)
    requires s.maxPages > 0
    ensures |Tasks(s, units, id)| == TaskCount(units, s.maxPages)
  {
    if units != [] {
      UnitCount(s, units[0], id);
      TasksAreCounted(s, units[1..], id + |UnitTasks(s, units[0], 0, id)|);
    }
  }

  lemma {:induction false} HotUnitsAreCounted(start: nat, end: nat, max: nat)
    requires max > 0
    ensures TaskCount(HotUnits(start, end), max) == Extents(start, end) * Ceiling(PAGES_PER_EXTENT, max)
    ensures UnitPages(HotUnits(start, end)) == Extents(start, end) * PAGES_PER_EXTENT
    decreases end - start
  {
    if start < end {
      HotUnitsAreCounted(start + 1, end, max);
      assert HotUnits(start, end)[1..] == HotUnits(start + 1, end);
      OneMore(Extents(start + 1, end), Ceiling(PAGES_PER_EXTENT, max));
    }
  }

  lemma OneMore(n: nat, k: nat)
    ensures (n + 1) * k == k + n * k
  {
  }

  lemma {:induction false} CountsConcat(a: seq<Unit>, b: seq<Unit>, max: nat)
    requires max > 0
    ensures TaskCount(a + b, max) == TaskCount(a, max) + TaskCount(b, max)
    ensures UnitPages(a + b) == UnitPages(a) + UnitPages(b)
  {
    if a == [] {
      assert a + b == b;
    } else {
      CountsConcat(a[1..], b, max);
      assert (a + b)[1..] == a[1..] + b;
    }
  }

  /** The units of a plan have the planned numbers of tasks and pages. */
  lemma {:induction false} PlanIsCounted(segments: seq<SegmentPlan>, max: nat)
    requires max > 0
    ensures TaskCount(Units(segments), max) == PlannedTasks(segments, max)
    ensures UnitPages(Units(segments)) == PlannedPages(segments)
  {
    if segments != [] {
      PlanIsCounted(segments[1..], max);
      CountsConcat(SegmentUnits(segments[0]), Units(segments[1..]), max);
      match segments[0]
      case HotStoreScan(start, end) =>
        HotUnitsAreCounted(start, end, max);
      case ColdStoreScan(id, pages) =>
        assert [Unit(id, HDD, pages)][1..] == [];
    }
  }

  /** A schedule has as many tasks as the plan's pages need, unit by unit. */
  lemma ScheduleIsCounted(s: Scheduler, segments: seq<SegmentPlan>)
    requires s.maxPages > 0
    ensures |Tasks(s, Units(segments), 1)| == PlannedTasks(segments, s.maxPages)
  {
    TasksAreCounted(s, Units(segments), 1);
    PlanIsCounted(segments, s.maxPages);
  }

  /**
   The exact domain of the scheduler in terms of the plan's numbers: a valid plan, a positive
   maximum, page size and throughput, fewer tasks than ids, and a byte total of at most 64
   bits unless there is only one task. On it the total is the saturated product.
   */
  lemma WhenAScheduleIsReturned(s: Scheduler, plan: Plan)
    ensures Schedulable(s, plan) <==>
              && PlanValid(plan) && s.maxPages > 0 && (s.nvmeMbps > 0 || s.hddMbps > 0) && s.pageSize > 0
              && PlannedTasks(plan.segments, s.maxPages) < U64_MAX
              && (PlannedPages(plan.segments) * s.pageSize <= U64_MAX || PlannedTasks(plan.segments, s.maxPages) == 1)
    ensures Schedulable(s, plan) ==>
              SumBytes(s, Tasks(s, Units(plan.segments), 1)) == SaturatingMul(PlannedPages(plan.segments), s.pageSize)
  {
    if PlanValid(plan) && s.maxPages > 0 {
      var units := Units(plan.segments);
      var all := Tasks(s, units, 1);
      ScheduleIsCounted(s, plan.segments);
      PlanIsCounted(plan.segments, s.maxPages);
      UnitsOfValidPlan(plan);
      TasksAreProper(s, units, 1);
      forall t | 0 <= t < |all| ensures all[t].pageCount > 0 {
        assert Proper(s, all[t], 1 + t);
      }
      if s.pageSize > 0 {
        BytesAreConserved(s, all);
      } else {
        NoBytes(s, all);
      }
    }
  }

  lemma {:induction false} NoBytes(s: Scheduler, tasks: seq<Task>)
    requires s.pageSize == 0
    ensures SumBytes(s, tasks) == 0
  {
    if tasks != [] {
      NoBytes(s, tasks[1..]);
    }
  }
}
