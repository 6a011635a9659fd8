/**
 The write-ahead log archive of a backup: the one-pass check of its segment chain,
 the point-in-time-recovery window of a manifest, and the retention rule for single
 segments. A check that rejects returns only a message, so rejection is modelled
 without a reason.
 */
module WalArchive {
  import opened Common

  type Lsn = U64

  const WAL_FORMAT_VERSION: nat := 1

  // ---------------------------------------------------------------- values and their own checks

  /** The checked successor of an LSN. */
  function TryNext(l: Lsn): Option<Lsn>
  {
    if l == U64_MAX then None else Some(l + 1)
  }

  datatype Range = Range(start: Lsn, endInclusive: Lsn)
  {
    predicate Valid()
    {
      start != 0 && start <= endInclusive
    }

    predicate Contains(l: Lsn)
    {
      start <= l <= endInclusive
    }
  }

  datatype Digest = Digest(sha256: Hash, crc64: U64, byteLen: U64)
  {
    predicate Valid()
    {
      !IsZeroHash(sha256) && crc64 != 0 && byteLen != 0
    }
  }

  datatype Segment = Segment(
    segmentId: U64,
    firstLsn: Lsn,
    lastLsn: Lsn,
    basePreviousLsn: Option<Lsn>,
    recordCount: U64,
    walFormatVersion: nat,
    artifact: Digest)
  {
    predicate Valid()
    {
      && segmentId != 0
      && walFormatVersion == WAL_FORMAT_VERSION
      && recordCount != 0
      && firstLsn != 0 && lastLsn != 0
      && firstLsn <= lastLsn
      && (basePreviousLsn.Some? ==> TryNext(basePreviousLsn.value) == Some(firstLsn))
      && artifact.Valid()
    }

    predicate Contains(l: Lsn)
    {
      firstLsn <= l <= lastLsn
    }
  }

  /** A segment passes if nothing that counts or names is zero, its range is one, and it follows what it names. */
  lemma SegmentIsValidExactly(s: Segment)
    ensures s.Valid() <==>
              && 0 !in {s.segmentId, s.recordCount, s.firstLsn, s.artifact.crc64, s.artifact.byteLen}
              && (exists i :: 0 <= i < 32 && s.artifact.sha256[i] != 0)
              && s.walFormatVersion == 1 && s.firstLsn <= s.lastLsn
              && (s.basePreviousLsn.Some? ==> s.basePreviousLsn.value == s.firstLsn - 1)
  {
  }

  // ---------------------------------------------------------------- the chain check

  /** The archive check: one pass with an expected first LSN and the previous last LSN. */
  method ValidateWalSegmentChain(archive: Range, segments: seq<Segment>) returns (accepted: bool)
    ensures accepted <==> Chained(archive, segments)
  {
    if !archive.Valid() {
      return false;
    }
    if |segments| == 0 {
      return false;
    }
    if segments[0].firstLsn != archive.start {
      assert !Linked(archive, segments, 0);
      return false;
    }
    var expectedFirst := archive.start;
    var previousLast: Option<Lsn> := None;
    for i := 0 to |segments|
      invariant expectedFirst == if i == 0 then archive.start else segments[i - 1].lastLsn + 1
      invariant previousLast == if i == 0 then None else Some(segments[i - 1].lastLsn)
      invariant forall j :: 0 <= j < i ==> Linked(archive, segments, j)
      invariant forall j, k :: 0 <= j < k < i ==> segments[j].segmentId != segments[k].segmentId
    {
      var segment := segments[i];
      if !segment.Valid() || segment.firstLsn != expectedFirst || segment.basePreviousLsn != previousLast {
        assert !Linked(archive, segments, i);
        return false;
      }
      if exists k :: 0 <= k < i && segments[k].segmentId == segment.segmentId {
        return false;
      }
      previousLast := Some(segment.lastLsn);
      var next := TryNext(segment.lastLsn);
      if next.None? {
        assert !Linked(archive, segments, i);
        return false;
      }
      expectedFirst := next.value;
    }
    return segments[|segments| - 1].lastLsn == archive.endInclusive;
  }

  /** What the loop demands of segment `i`; the successor is taken even after the last one. */
  predicate Linked(archive: Range, segments: seq<Segment>, i: nat)
    requires i < |segments|
  {
    && segments[i].Valid()
    && segments[i].lastLsn < U64_MAX
    && (if i == 0 then
          segments[i].firstLsn == archive.start && segments[i].basePreviousLsn == None
        else
          segments[i].firstLsn == segments[i - 1].lastLsn + 1 &&
              segments[i].basePreviousLsn == Some(segments[i - 1].lastLsn))
  }

  /** What the pass accepts, segment by segment. */
  ghost predicate Chained(archive: Range, segments: seq<Segment>)
  {
    && archive.Valid()
    && |segments| > 0
    && (forall i :: 0 <= i < |segments| ==> Linked(archive, segments, i))
    && (forall i, j :: 0 <= i < j < |segments| ==> segments[i].segmentId != segments[j].segmentId)
    && segments[|segments| - 1].lastLsn == archive.endInclusive
  }

  /** LSN `l` lies in exactly one of the segments. */
  ghost predicate InExactlyOne(segments: seq<Segment>, l: Lsn)
  {
    && (exists i :: 0 <= i < |segments| && segments[i].Contains(l))
    && (forall i, j :: 0 <= i < j < |segments| && segments[i].Contains(l) ==> !segments[j].Contains(l))
  }

  ghost predicate InSome(segments: seq<Segment>, l: Lsn)
  {
    exists i :: 0 <= i < |segments| && segments[i].Contains(l)
  }

  /** The segments tile the archive: each archived LSN lies in exactly one, no other LSN in any. */
  ghost predicate Tiles(archive: Range, segments: seq<Segment>)
  {
    && (forall l: Lsn :: archive.Contains(l) ==> InExactlyOne(segments, l))
    && (forall l: Lsn :: !archive.Contains(l) ==> !InSome(segments, l))
  }

  /** What the backup promises, without mentioning how the check walks the list. */
  ghost predicate TilingArchive(archive: Range, segments: seq<Segment>)
  {
    && archive.Valid() && archive.endInclusive < U64_MAX
    && (forall i :: 0 <= i < |segments| ==> segments[i].Valid())
    && (forall i, j :: 0 <= i < j < |segments| ==> segments[i].segmentId != segments[j].segmentId)
    && (forall i :: 0 <= i < |segments| ==>
          segments[i].basePreviousLsn == if i == 0 then None else Some(segments[i - 1].lastLsn))
    && Tiles(archive, segments)
  }

  /** Segments come in LSN order, with nothing between neighbours. */
  lemma {:induction false} ChainIsOrdered(archive: Range, segments: seq<Segment>, i: nat, j: nat)
    requires forall k :: 0 <= k < |segments| ==> Linked(archive, segments, k)
    requires i < j < |segments|
    ensures segments[i].lastLsn < segments[j].firstLsn
    decreases j - i
  {
    assert Linked(archive, segments, j);
    if i + 1 < j {
      ChainIsOrdered(archive, segments, i, j - 1);
      assert Linked(archive, segments, j - 1);
    }
  }

  /** The segment of a chain that holds `l`. */
  lemma {:induction false} FindSegment(archive: Range, segments: seq<Segment>, n: nat, l: Lsn) returns (i: nat)
    requires n > 0 && n <= |segments| && forall k :: 0 <= k < |segments| ==> Linked(archive, segments, k)
    requires archive.start <= l <= segments[n - 1].lastLsn
    ensures i < n && segments[i].Contains(l)
  {
    assert Linked(archive, segments, n - 1);
    if segments[n - 1].firstLsn <= l {
      i := n - 1;
    } else {
      i := FindSegment(archive, segments, n - 1, l);
    }
  }

  lemma ChainTiles(archive: Range, segments: seq<Segment>)
    requires Chained(archive, segments)
    ensures Tiles(archive, segments)
  {
    forall l: Lsn | archive.Contains(l) ensures InExactlyOne(segments, l) {
      var i := FindSegment(archive, segments, |segments|, l);
      AtMostOne(archive, segments, l);
    }
    forall l: Lsn | InSome(segments, l) ensures archive.Contains(l) {
      var i :| 0 <= i < |segments| && segments[i].Contains(l);
      BoundsOfChain(archive, segments, i);
    }
  }

  lemma AtMostOne(archive: Range, segments: seq<Segment>, l: Lsn)
    requires forall k :: 0 <= k < |segments| ==> Linked(archive, segments, k)
    ensures forall i, j :: 0 <= i < j < |segments| && segments[i].Contains(l) ==> !segments[j].Contains(l)
  {
    forall i, j | 0 <= i < j < |segments| && segments[i].Contains(l) ensures !segments[j].Contains(l) {
      ChainIsOrdered(archive, segments, i, j);
    }
  }

  lemma BoundsOfChain(archive: Range, segments: seq<Segment>, i: nat)
    requires Chained(archive, segments) && i < |segments|
    ensures archive.start <= segments[i].firstLsn <= segments[i].lastLsn <= archive.endInclusive
  {
    var n := |segments|;
    assert Linked(archive, segments, 0) && Linked(archive, segments, i) && Linked(archive, segments, n - 1);
    if i > 0 { ChainIsOrdered(archive, segments, 0, i); }
    if i < n - 1 { ChainIsOrdered(archive, segments, i, n - 1); }
  }

  /** The one-pass check accepts exactly the archives whose segments tile the range. */
  lemma ChainCheckMeansTiling(archive: Range, segments: seq<Segment>)
    ensures Chained(archive, segments) <==> TilingArchive(archive, segments)
  {
    if Chained(archive, segments) {
      ChainTiles(archive, segments);
      var n := |segments|;
      assert Linked(archive, segments, n - 1);
      forall i | 0 <= i < n
        ensures segments[i].Valid() && segments[i].basePreviousLsn == if i == 0 then None
                  else Some(segments[i - 1].lastLsn)
      {
        assert Linked(archive, segments, i);
      }
    }
    if TilingArchive(archive, segments) {
      TilingIsChained(archive, segments);
    }
  }

  lemma TilingIsChained(archive: Range, segments: seq<Segment>)
    requires TilingArchive(archive, segments)
    ensures Chained(archive, segments)
  {
    FirstSegmentIsAtStart(archive, segments);
    LastSegmentIsAtEnd(archive, segments);
    forall i | 0 <= i < |segments| ensures Linked(archive, segments, i) {
      EndsAreArchived(archive, segments, i);
      assert segments[i].Valid();
    }
  }

  lemma EndsAreArchived(archive: Range, segments: seq<Segment>, i: nat)
    requires TilingArchive(archive, segments) && i < |segments|
    ensures archive.start <= segments[i].firstLsn <= segments[i].lastLsn <= archive.endInclusive
  {
    var s := segments[i];
    assert s.Valid();
    assert s.Contains(s.firstLsn) && s.Contains(s.lastLsn);
    assert InSome(segments, s.firstLsn) && InSome(segments, s.lastLsn);
  }

  lemma FirstSegmentIsAtStart(archive: Range, segments: seq<Segment>)
    requires TilingArchive(archive, segments)
    ensures |segments| > 0 && segments[0].firstLsn == archive.start
  {
    assert InExactlyOne(segments, archive.start);
    var i :| 0 <= i < |segments| && segments[i].Contains(archive.start);
    EndsAreArchived(archive, segments, i);
    if i > 0 {
      assert segments[i].Valid() && segments[i].basePreviousLsn == Some(segments[i - 1].lastLsn);
      EndsAreArchived(archive, segments, i - 1);
    }
  }

  lemma LastSegmentIsAtEnd(archive: Range, segments: seq<Segment>)
    requires TilingArchive(archive, segments)
    ensures |segments| > 0 && segments[|segments| - 1].lastLsn == archive.endInclusive
  {
    assert InExactlyOne(segments, archive.endInclusive);
    var i :| 0 <= i < |segments| && segments[i].Contains(archive.endInclusive);
    EndsAreArchived(archive, segments, i);
    if i < |segments| - 1 {
      assert segments[i + 1].Valid() && segments[i + 1].basePreviousLsn == Some(segments[i].lastLsn);
      EndsAreArchived(archive, segments, i + 1);
    }
  }

  // ---------------------------------------------------------------- manifests and point-in-time recovery

  datatype ColdSnapshot = ColdSnapshot(
    snapshotId: U64,
    descriptorHash: Hash,
    baseCheckpointLsn: Lsn,
    requiredWalStartLsn: Lsn)
  {
    predicate Valid()
    {
      && snapshotId != 0
      && !IsZeroHash(descriptorHash)
      && baseCheckpointLsn <= requiredWalStartLsn
    }
  }

  datatype Manifest = Manifest(
    backupId: U64,
    databaseId: U64,
    createdEpoch: U64,
    snapshot: ColdSnapshot,
    walArchive: Range,
    manifestCrc: U32)
  {
    predicate Valid()
    {
      && backupId != 0 && databaseId != 0 && createdEpoch != 0 && manifestCrc != 0
      && snapshot.Valid() && walArchive.Valid()
      && snapshot.baseCheckpointLsn <= walArchive.endInclusive
    }
  }

  function ComputePitrWindow(m: Manifest): Option<(Lsn, Lsn)>
  {
    if !m.Valid() then None
    else
      var earliest, latest := m.snapshot.baseCheckpointLsn, m.walArchive.endInclusive;
      if earliest == 0 || latest == 0 || latest < earliest then None else Some((earliest, latest))
  }

  predicate ValidatePitrTarget(m: Manifest, target: Lsn)
  {
    && m.Valid() && target != 0
    && var window := ComputePitrWindow(m);
       window.Some? && window.value.0 <= target <= window.value.1
  }

  /** A manifest passes if nothing that names is zero and its range reaches the base checkpoint. */
  lemma ManifestIsValidExactly(m: Manifest)
    ensures m.Valid() <==>
              && 0 !in {m.backupId, m.databaseId, m.createdEpoch, m.manifestCrc}
              && 0 !in {m.snapshot.snapshotId, m.walArchive.start}
              && (exists i :: 0 <= i < 32 && m.snapshot.descriptorHash[i] != 0)
              && m.walArchive.start <= m.walArchive.endInclusive
              && m.snapshot.baseCheckpointLsn <= m.snapshot.requiredWalStartLsn
              && m.snapshot.baseCheckpointLsn <= m.walArchive.endInclusive
  {
  }

  /** The accepted targets of a valid manifest reach from the base checkpoint to the end of the archive. */
  lemma TargetIsAcceptedExactly(m: Manifest, target: Lsn)
    ensures ValidatePitrTarget(m, target) <==>
              m.Valid() && 0 < m.snapshot.baseCheckpointLsn <= target <= m.walArchive.endInclusive
    ensures ComputePitrWindow(m).Some? <==> m.Valid() && m.snapshot.baseCheckpointLsn > 0
  {
  }

  /** Replaying up to `target` finds every LSN it needs in exactly one archived segment. */
  ghost predicate Replayable(m: Manifest, segments: seq<Segment>, target: Lsn)
  {
    forall l: Lsn :: m.snapshot.requiredWalStartLsn <= l <= target ==> InExactlyOne(segments, l)
  }

  /** The condition the manifest check leaves to its caller. */
  predicate CoversRequiredWal(m: Manifest)
  {
    || m.snapshot.baseCheckpointLsn == 0
    || m.walArchive.endInclusive < m.snapshot.requiredWalStartLsn
    || m.walArchive.start <= m.snapshot.requiredWalStartLsn
  }

  /**
   For a valid manifest and an accepted chain, every target the window check accepts can be
   replayed exactly when the archive starts no later than the WAL the snapshot requires. The
   other two ways out are a window that is empty and a snapshot that needs no archived WAL.
   */
  lemma AcceptedTargetsAreReplayable(m: Manifest, segments: seq<Segment>)
    requires m.Valid() && Chained(m.walArchive, segments)
    ensures (forall t: Lsn :: ValidatePitrTarget(m, t) ==> Replayable(m, segments, t)) <==> CoversRequiredWal(m)
  {
    ChainTiles(m.walArchive, segments);
    var required, end := m.snapshot.requiredWalStartLsn, m.walArchive.endInclusive;
    if CoversRequiredWal(m) {
      forall t: Lsn | ValidatePitrTarget(m, t) ensures Replayable(m, segments, t) {
        assert forall l: Lsn :: required <= l <= t ==> m.walArchive.Contains(l);
      }
    } else {
      assert ValidatePitrTarget(m, end);
      assert !m.walArchive.Contains(required);
      assert !InSome(segments, required);
      assert !InExactlyOne(segments, required);
      assert !Replayable(m, segments, end);
    }
  }

  /** A valid manifest whose window holds a target that cannot be replayed. */
  lemma ManifestCheckLeavesAGap()
    ensures exists m: Manifest, segments: seq<Segment>, target: Lsn ::
              m.Valid() && Chained(m.walArchive, segments) && ValidatePitrTarget(m, target) &&
                  !Replayable(m, segments, target)
  {
    var hash: Hash := seq(32, _ => 1);
    assert hash[0] == 1;
    var digest := Digest(hash, 1, 1);
    var segment := Segment(1, 5, 20, None, 1, WAL_FORMAT_VERSION, digest);
    var snapshot := ColdSnapshot(1, hash, 3, 3);
    var m := Manifest(1, 1, 1, snapshot, Range(5, 20), 1);
    assert Chained(m.walArchive, [segment]);
    AcceptedTargetsAreReplayable(m, [segment]);
  }

  // ---------------------------------------------------------------- finalising a backup

  /** The parts of a physical plan that finalisation reads; `valid` is the plan's own check. */
  datatype PlanSummary = PlanSummary(valid: bool, backupId: U64, catalogSnapshotLsn: Lsn, createdEpoch: U64)

  datatype FinalizedEvent = FinalizedEvent(backupId: U64, finalizedEpoch: U64, pitrStartLsn: Lsn, pitrEndLsn: Lsn)
  {
    predicate Valid()
    {
      backupId != 0 && finalizedEpoch != 0 && pitrStartLsn != 0 && pitrEndLsn != 0 && pitrStartLsn <= pitrEndLsn
    }
  }

  predicate ValidateWalArchive(catalogSnapshotLsn: Lsn, shippedStart: Lsn, shippedEnd: Lsn, segmentCount: U64)
  {
    && catalogSnapshotLsn != 0 && shippedStart != 0 && shippedEnd != 0
    && shippedStart <= shippedEnd
    && shippedStart <= catalogSnapshotLsn <= shippedEnd
    && segmentCount != 0
  }

  function FinalizeBackup(plan: PlanSummary, template: Manifest, shipped: Lsn, segmentCount: U64)
    : (r: Option<(Manifest, FinalizedEvent)>)
  {
    if !plan.valid || !template.Valid()
       || !ValidateWalArchive(plan.catalogSnapshotLsn, template.walArchive.start, shipped, segmentCount)
    then None
    else
      var m := template.(backupId := plan.backupId, walArchive := Range(template.walArchive.start, shipped));
      if !m.Valid() || plan.createdEpoch == U64_MAX then None
      else
        var event := FinalizedEvent(plan.backupId, plan.createdEpoch + 1, m.snapshot.baseCheckpointLsn,
                                    m.walArchive.endInclusive);
        if event.Valid() then Some((m, event)) else None
  }

  /**
   A finalised backup has a usable window, announced in its event: exactly the targets in
   the event's range are accepted, and the archive holds the catalog snapshot. The window
   starts at the snapshot's base checkpoint, not at the catalog snapshot as documented, so
   targets before the archive start are accepted unless the base checkpoint is archived.
   */
  lemma FinalizedWindow(plan: PlanSummary, template: Manifest, shipped: Lsn, segmentCount: U64)
    requires FinalizeBackup(plan, template, shipped, segmentCount).Some?
    ensures var (m, event) := FinalizeBackup(plan, template, shipped, segmentCount).value;
            && (forall t: Lsn :: ValidatePitrTarget(m, t) <==> event.pitrStartLsn <= t <= event.pitrEndLsn)
            && m.walArchive.Contains(plan.catalogSnapshotLsn)
            && ((forall t: Lsn :: ValidatePitrTarget(m, t) ==> m.walArchive.Contains(t)) <==>
                m.walArchive.start <= m.snapshot.baseCheckpointLsn)
  {
    var (m, event) := FinalizeBackup(plan, template, shipped, segmentCount).value;
    assert ValidatePitrTarget(m, event.pitrStartLsn);
  }

  /** When finalisation succeeds, and with which manifest and event. */
  lemma FinalizedExactly(plan: PlanSummary, template: Manifest, shipped: Lsn, segmentCount: U64)
    ensures FinalizeBackup(plan, template, shipped, segmentCount).Some? <==>
              && plan.valid && template.Valid() && segmentCount > 0 && plan.backupId > 0 && plan.createdEpoch < U64_MAX
              && template.walArchive.start <= plan.catalogSnapshotLsn <= shipped
              && 0 < template.snapshot.baseCheckpointLsn <= shipped
    ensures FinalizeBackup(plan, template, shipped, segmentCount).Some? ==>
              var (m, event) := FinalizeBackup(plan, template, shipped, segmentCount).value;
              && m.snapshot == template.snapshot && m.databaseId == template.databaseId
              && m.createdEpoch == template.createdEpoch && m.manifestCrc == template.manifestCrc
              && m.backupId == event.backupId == plan.backupId && event.finalizedEpoch == plan.createdEpoch + 1
              && m.walArchive.start == template.walArchive.start && m.walArchive.endInclusive == shipped
              && event.pitrStartLsn == template.snapshot.baseCheckpointLsn && event.pitrEndLsn == shipped
  {
  }

  /** Finalisation does not close the gap: its own checks accept an archive that misses required WAL. */
  lemma FinalizeLeavesAGap()
    ensures exists plan: PlanSummary, template: Manifest, shipped: Lsn, count: U64 ::
              && FinalizeBackup(plan, template, shipped, count).Some?
              && !CoversRequiredWal(FinalizeBackup(plan, template, shipped, count).value.0)
  {
    var hash: Hash := seq(32, _ => 1);
    assert hash[0] == 1;
    var snapshot := ColdSnapshot(1, hash, 3, 3);
    var template := Manifest(1, 1, 1, snapshot, Range(5, 15), 1);
    var plan := PlanSummary(true, 1, 10, 1);
    assert FinalizeBackup(plan, template, 20, 1).Some?;
  }

  // ---------------------------------------------------------------- retention

  datatype RetentionPolicy = RetentionPolicy(windowStart: Lsn, windowEnd: Lsn, expiresAtEpoch: U64)
  {
    predicate Valid()
    {
      windowStart != 0 && windowEnd != 0 && expiresAtEpoch != 0 && windowStart < windowEnd
    }

    predicate InWindow(l: Lsn)
    {
      windowStart <= l <= windowEnd
    }
  }

  /** Whether a segment is needed for recovery; `None` when policy or range is invalid. */
  function RequiresPitrArtifact(policy: RetentionPolicy, first: Lsn, last: Lsn): Option<bool>
  {
    if !policy.Valid() || first == 0 || last == 0 || first > last then None
    else Some(policy.windowStart <= last && first <= policy.windowEnd)
  }

  ghost predicate Kept(policy: RetentionPolicy, s: Segment)
  {
    RequiresPitrArtifact(policy, s.firstLsn, s.lastLsn) == Some(true)
  }

  /** The segment holds an LSN of the window. */
  ghost predicate MeetsWindow(policy: RetentionPolicy, s: Segment)
  {
    exists l: Lsn :: s.Contains(l) && policy.InWindow(l)
  }

  /** The check answers for every proper range, and says whether the range and the window have an LSN in common. */
  lemma RequiredExactly(policy: RetentionPolicy, first: Lsn, last: Lsn)
    ensures RequiresPitrArtifact(policy, first, last).Some? <==>
              0 < policy.windowStart < policy.windowEnd && policy.expiresAtEpoch > 0 && 0 < first <= last
    ensures RequiresPitrArtifact(policy, first, last).Some? ==>
              var window := Range(policy.windowStart, policy.windowEnd);
              RequiresPitrArtifact(policy, first, last).value <==>
              exists l: Lsn :: Range(first, last).Contains(l) && window.Contains(l)
  {
    if RequiresPitrArtifact(policy, first, last) == Some(true) {
      var l := if policy.windowStart <= first then first else policy.windowStart;
      assert Range(first, last).Contains(l) && Range(policy.windowStart, policy.windowEnd).Contains(l);
    }
  }

  /** The kept segments are the slice `lo..hi`, and they alone hold the window. */
  ghost predicate KeepsWindow(archive: Range, segments: seq<Segment>, policy: RetentionPolicy, lo: nat, hi: nat)
  {
    && lo <= hi <= |segments|
    && (forall i :: 0 <= i < |segments| ==> (Kept(policy, segments[i]) <==> lo <= i < hi))
    && (forall i, l: Lsn :: 0 <= i < |segments| && segments[i].Contains(l) && policy.InWindow(l) ==> lo <= i < hi)
    && (forall i :: lo <= i < hi ==> MeetsWindow(policy, segments[i]))
    && (forall l: Lsn :: archive.Contains(l) && policy.InWindow(l) ==> InExactlyOne(segments[lo..hi], l))
  }

  /** The check decides every segment of an accepted chain, and keeps exactly those that meet the window. */
  lemma KeptMeansMeetsWindow(archive: Range, segments: seq<Segment>, policy: RetentionPolicy, i: nat)
    requires Chained(archive, segments) && policy.Valid() && i < |segments|
    ensures RequiresPitrArtifact(policy, segments[i].firstLsn, segments[i].lastLsn).Some?
    ensures Kept(policy, segments[i]) <==> MeetsWindow(policy, segments[i])
  {
    assert Linked(archive, segments, i);
    if Kept(policy, segments[i]) {
      var l := if segments[i].firstLsn < policy.windowStart then policy.windowStart else segments[i].firstLsn;
      assert segments[i].Contains(l) && policy.InWindow(l);
    }
  }

  /** Retention keeps the window whole: the kept segments form one slice that tiles all of it that is archived. */
  lemma RetentionKeepsWindow(archive: Range, segments: seq<Segment>, policy: RetentionPolicy) returns (lo: nat, hi: nat)
    requires Chained(archive, segments) && policy.Valid()
    ensures KeepsWindow(archive, segments, policy, lo, hi)
  {
    lo, hi := KeptSlice(archive, segments, policy);
    forall i | 0 <= i < |segments|
      ensures Kept(policy, segments[i]) <==> MeetsWindow(policy, segments[i])
    {
      KeptMeansMeetsWindow(archive, segments, policy, i);
    }
    forall l: Lsn | archive.Contains(l) && policy.InWindow(l) ensures InExactlyOne(segments[lo..hi], l) {
      var i := FindSegment(archive, segments, |segments|, l);
      assert segments[lo..hi][i - lo] == segments[i];
      AtMostOne(archive, segments, l);
    }
  }

  /** Where the kept slice starts and ends. */
  lemma KeptSlice(archive: Range, segments: seq<Segment>, policy: RetentionPolicy) returns (lo: nat, hi: nat)
    requires Chained(archive, segments) && policy.Valid()
    ensures lo <= hi <= |segments|
    ensures forall i :: 0 <= i < |segments| ==> (Kept(policy, segments[i]) <==> lo <= i < hi)
  {
    var n := |segments|;
    lo := 0;
    while lo < n && segments[lo].lastLsn < policy.windowStart
      invariant lo <= n && forall i :: 0 <= i < lo ==> segments[i].lastLsn < policy.windowStart
    {
      lo := lo + 1;
    }
    hi := lo;
    while hi < n && segments[hi].firstLsn <= policy.windowEnd
      invariant lo <= hi <= n && forall i :: lo <= i < hi ==> segments[i].firstLsn <= policy.windowEnd
    {
      hi := hi + 1;
    }
    forall i | 0 <= i < n ensures Kept(policy, segments[i]) <==> lo <= i < hi {
      assert Linked(archive, segments, i);
      if lo < i {
        ChainIsOrdered(archive, segments, lo, i);
        assert Linked(archive, segments, lo);
      }
      if hi < i {
        ChainIsOrdered(archive, segments, hi, i);
        assert Linked(archive, segments, hi);
      }
    }
  }

  /**
   What is left after pruning tiles its own range, but the chain check accepts it again
   exactly when nothing was dropped in front: the new first segment still names its
   predecessor, which the check allows of no first segment.
   */
  lemma KeptSliceIsAChainOnlyFromTheStart(archive: Range, segments: seq<Segment>, lo: nat, hi: nat)
    requires Chained(archive, segments) && lo < hi <= |segments|
    ensures var kept, range := segments[lo..hi], Range(segments[lo].firstLsn, segments[hi - 1].lastLsn);
            && Tiles(range, kept)
            && (Chained(range, kept) <==> lo == 0)
  {
    var kept, range := segments[lo..hi], Range(segments[lo].firstLsn, segments[hi - 1].lastLsn);
    assert kept[0] == segments[lo];
    assert Linked(archive, segments, lo);
    if lo > 0 {
      assert !Linked(range, kept, 0);
    } else {
      SliceIsChained(archive, segments, hi);
    }
    SliceTiles(archive, segments, lo, hi);
  }

  lemma SliceIsChained(archive: Range, segments: seq<Segment>, hi: nat)
    requires Chained(archive, segments) && 0 < hi <= |segments|
    ensures Chained(Range(segments[0].firstLsn, segments[hi - 1].lastLsn), segments[..hi])
  {
    var range, kept := Range(segments[0].firstLsn, segments[hi - 1].lastLsn), segments[..hi];
    assert Linked(archive, segments, 0) && Linked(archive, segments, hi - 1);
    if hi > 1 { ChainIsOrdered(archive, segments, 0, hi - 1); }
    forall i | 0 <= i < hi ensures Linked(range, kept, i) {
      assert Linked(archive, segments, i);
    }
  }

  lemma SliceTiles(archive: Range, segments: seq<Segment>, lo: nat, hi: nat)
    requires Chained(archive, segments) && lo < hi <= |segments|
    ensures Tiles(Range(segments[lo].firstLsn, segments[hi - 1].lastLsn), segments[lo..hi])
  {
    var kept, range := segments[lo..hi], Range(segments[lo].firstLsn, segments[hi - 1].lastLsn);
    forall l: Lsn | range.Contains(l) ensures InExactlyOne(kept, l) {
      BoundsOfChain(archive, segments, lo);
      var i := FindSegment(archive, segments, hi, l);
      if i < lo {
        ChainIsOrdered(archive, segments, i, lo);
      }
      assert kept[i - lo] == segments[i];
      AtMostOne(archive, segments, l);
    }
    forall l: Lsn | InSome(kept, l) ensures range.Contains(l) {
      var k :| 0 <= k < |kept| && kept[k].Contains(l);
      assert kept[k] == segments[lo + k];
      if k > 0 { ChainIsOrdered(archive, segments, lo, lo + k); }
      if lo + k < hi - 1 { ChainIsOrdered(archive, segments, lo + k, hi - 1); }
      assert Linked(archive, segments, lo) && Linked(archive, segments, hi - 1);
    }
  }
}
