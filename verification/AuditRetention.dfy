/**
 Retention and compaction of the durable audit log: which records a policy keeps, which
 records an archive proof allows to be pruned, and the checksum evidence a compaction
 report carries about what was kept.
 */
module AuditRetention {
  import opened Common
  import opened AuditLog
  import opened WrappingHash

  datatype Policy = Policy(
    minRecordLsn: Option<U64>,
    minDurableLsn: Option<U64>,
    preserveForensicHold: bool,
    retainBoundaries: seq<RetentionBoundary>)
  {
    predicate Valid()
    {
      minRecordLsn != Some(0) && minDurableLsn != Some(0)
    }

    predicate HasNoExpiryCriteria()
    {
      minRecordLsn.None? && minDurableLsn.None? && retainBoundaries == []
    }

    predicate Retains(r: Record)
    {
      || HasNoExpiryCriteria()
      || (preserveForensicHold && r.retention == ForensicHold)
      || r.retention in retainBoundaries
      || (minRecordLsn.Some? && r.recordLsn >= minRecordLsn.value)
      || (minDurableLsn.Some? && r.durableLsn >= minDurableLsn.value)
    }
  }

  /** `idAcceptable`: the archive id is neither blank nor sensitive. */
  datatype ArchiveProof = ArchiveProof(idAcceptable: bool, firstLsn: U64, lastLsn: U64, checksum: U64)
  {
    predicate Valid()
    {
      idAcceptable && firstLsn != 0 && lastLsn != 0 && firstLsn <= lastLsn && checksum != 0
    }

    predicate Covers(r: Record)
    {
      firstLsn <= r.recordLsn && r.durableLsn <= lastLsn
    }

    predicate Proves(r: Record)
    {
      Covers(r) && checksum == r.checksum
    }
  }

  /** A record expires only under a policy with criteria, and only if it meets none of them. */
  lemma ExpiresExactly(policy: Policy, r: Record)
    ensures !policy.Retains(r) <==>
              && (policy.minRecordLsn.Some? || policy.minDurableLsn.Some? || |policy.retainBoundaries| > 0)
              && !(r.retention == ForensicHold && policy.preserveForensicHold)
              && (forall i :: 0 <= i < |policy.retainBoundaries| ==> policy.retainBoundaries[i] != r.retention)
              && (policy.minRecordLsn.None? || r.recordLsn < policy.minRecordLsn.value)
              && (policy.minDurableLsn.None? || r.durableLsn < policy.minDurableLsn.value)
  {
  }

  datatype BlockReason =
    | PolicyRetainsRecord | HeldForForensics | HeldBySecurityPolicy
    | HeldByCatalogVersion | MissingArchiveProof | ArchiveProofMismatch

  /** The prune decision: `Ok(None)` allows pruning, `Err` rejects the inputs. */
  function EvaluatePrune(policy: Policy, r: Record, proof: Option<ArchiveProof>): Result<Option<BlockReason>, ()>
  {
    if !r.Valid() || !policy.Valid() || (proof.Some? && !proof.value.Valid()) then Err(())
    else
      Ok(match r.retention
         case ForensicHold => Some(HeldForForensics)
         case SecurityPolicy => Some(HeldBySecurityPolicy)
         case WalSegment =>
           if policy.Retains(r) then Some(PolicyRetainsRecord)
           else (match proof
                 case None => Some(MissingArchiveProof)
                 case Some(p) => if p.Covers(r) && p.checksum == r.checksum then None else Some(ArchiveProofMismatch))
         case CatalogVersion =>
           if policy.Retains(r) then Some(PolicyRetainsRecord) else Some(HeldByCatalogVersion))
  }

  /** A record goes in one case only, and every other answer names what holds it. */
  lemma DecisionsAre(policy: Policy, r: Record, proof: Option<ArchiveProof>)
    requires EvaluatePrune(policy, r, proof).Ok?
    ensures var reason := EvaluatePrune(policy, r, proof).value;
            && (reason.None? <==>
                  && r.retention == WalSegment && !policy.Retains(r) && proof.Some?
                  && proof.value.firstLsn <= r.recordLsn && r.durableLsn <= proof.value.lastLsn
                  && proof.value.checksum == r.checksum)
            && (reason == Some(HeldForForensics) <==> r.retention == ForensicHold)
            && (reason == Some(HeldBySecurityPolicy) <==> r.retention == SecurityPolicy)
            && (reason == Some(PolicyRetainsRecord) <==>
                  policy.Retains(r) && r.retention in {WalSegment, CatalogVersion})
            && (reason == Some(HeldByCatalogVersion) <==> !policy.Retains(r) && r.retention == CatalogVersion)
            && (reason == Some(MissingArchiveProof) <==>
                  !policy.Retains(r) && r.retention == WalSegment && proof.None?)
  {
  }

  // ---------------------------------------------------------------- compaction report

  datatype Report = Report(
    scanned: nat,
    retained: nat,
    expired: nat,
    firstRetainedLsn: Option<U64>,
    lastRetainedLsn: Option<U64>,
    checksumEvidence: nat)

  /** What one record contributes to the evidence. */
  function Term(r: Record): nat
  {
    r.checksum + r.recordLsn
  }

  function Terms(records: seq<Record>): (terms: seq<nat>)
    ensures |terms| == |records|
    ensures forall i :: 0 <= i < |records| ==> terms[i] == Term(records[i])
  {
    seq(|records|, i requires 0 <= i < |records| => Term(records[i]))
  }

  function Evidence(records: seq<Record>): nat
  {
    Fold(EVIDENCE64, 0, Terms(records))
  }

  function WrappingMul(a: nat, b: nat): nat
  {
    (a * b) % EVIDENCE64.modulus
  }

  function WrappingAdd(a: nat, b: nat): nat
  {
    (a + b) % EVIDENCE64.modulus
  }

  /** The least LSN of a log, that of its first record. */
  function FirstLsn(records: seq<Record>): (lsn: Option<U64>)
    ensures lsn.None? <==> records == []
    ensures lsn.Some? ==> exists r :: r in records && r.recordLsn == lsn.value
    ensures lsn.Some? && IsLog(records) ==> forall r :: r in records ==> lsn.value <= r.recordLsn
  {
    if records == [] then None else Some(records[0].recordLsn)
  }

  /** The greatest LSN of a log, that of its last record. */
  function LastLsn(records: seq<Record>): (lsn: Option<U64>)
    ensures lsn.None? <==> records == []
    ensures lsn.Some? ==> exists r :: r in records && r.recordLsn == lsn.value
    ensures lsn.Some? && IsLog(records) ==> forall r :: r in records ==> r.recordLsn <= lsn.value
  {
    if records == [] then None else Some(records[|records| - 1].recordLsn)
  }

  method ReportFromRecords(scanned: nat, retained: seq<Record>) returns (r: Option<Report>)
    ensures r.Some? <==> |retained| <= scanned && IsLog(retained)
    ensures r.Some? ==>
              && r.value.scanned == scanned && r.value.retained == |retained|
              && r.value.retained + r.value.expired == r.value.scanned
              && r.value.firstRetainedLsn == FirstLsn(retained) && r.value.lastRetainedLsn == LastLsn(retained)
              && r.value.checksumEvidence == Evidence(retained)
  {
    if |retained| > scanned {
      return None;
    }
    var evidence: nat := 0;
    var previousLsn: nat := 0;
    for i := 0 to |retained|
      invariant IsLog(retained[..i])
      invariant previousLsn == if i == 0 then 0 else retained[i - 1].recordLsn
      invariant evidence == Evidence(retained[..i])
    {
      var record := retained[i];
      if !record.Valid() || record.recordLsn <= previousLsn {
        assert !IsLog(retained);
        return None;
      }
      previousLsn := record.recordLsn;
      EvidenceStep(retained[..i], record);
      assert retained[..i + 1] == retained[..i] + [record];
      evidence := WrappingAdd(WrappingAdd(WrappingMul(evidence, 1_099_511_628_211), record.checksum), record.recordLsn);
    }
    assert retained[..|retained|] == retained;
    return Some(Report(scanned, |retained|, scanned - |retained|, FirstLsn(retained), LastLsn(retained), evidence));
  }

  lemma EvidenceStep(records: seq<Record>, r: Record)
    ensures Evidence(records + [r]) ==
            WrappingAdd(WrappingAdd(WrappingMul(Evidence(records), 1_099_511_628_211), r.checksum), r.recordLsn)
  {
    var e, n := Evidence(records), EVIDENCE64.modulus;
    assert Terms(records + [r])[..|records|] == Terms(records);
    assert Evidence(records + [r]) == (e * 1_099_511_628_211 + Term(r)) % n;
    WrapEarly(e * 1_099_511_628_211, r.checksum, n);
    WrapEarly(e * 1_099_511_628_211 + r.checksum, r.recordLsn, n);
  }

  // ---------------------------------------------------------------- what the evidence proves

  /** The evidence is the sum of (checksum + LSN) times powers of the multiplier, modulo 2^64. */
  lemma EvidenceIsPolynomial(records: seq<Record>)
    ensures Evidence(records) == PowerSum(1_099_511_628_211, [0] + Terms(records)) % 0x1_0000_0000_0000_0000
  {
    FoldIsPolynomial(EVIDENCE64, 0, Terms(records));
  }

  /**
   Replacing one kept record changes the evidence exactly when it changes checksum plus LSN
   modulo 2^64; in particular a changed checksum under the same LSN always shows.
   */
  lemma EvidenceDetectsReplacement(records: seq<Record>, i: nat, r: Record)
    requires i < |records|
    ensures Evidence(records) == Evidence(records[i := r]) <==>
              (records[i].checksum + records[i].recordLsn) % 0x1_0000_0000_0000_0000
              == (r.checksum + r.recordLsn) % 0x1_0000_0000_0000_0000
    ensures r.recordLsn == records[i].recordLsn && r.checksum != records[i].checksum ==>
              Evidence(records) != Evidence(records[i := r])
  {
    assert Terms(records[i := r]) == Terms(records)[i := Term(r)];
    OneTermChanged(EVIDENCE64, 0, Terms(records), i, Term(r));
    if r.recordLsn == records[i].recordLsn && Term(r) % EVIDENCE64.modulus == Term(records[i]) % EVIDENCE64.modulus {
      Difference(Term(r), Term(records[i]), EVIDENCE64.modulus);
      MultipleBelowModulus(r.checksum - records[i].checksum, EVIDENCE64.modulus,
                           Term(r) / EVIDENCE64.modulus - Term(records[i]) / EVIDENCE64.modulus);
    }
  }

  // ---------------------------------------------------------------- compaction

  /** The first proof that matches the record or, if none does, the first one that covers it. */
  ghost predicate IsChoice(r: Record, proofs: seq<ArchiveProof>, i: nat)
    requires i < |proofs|
  {
    if proofs[i].Proves(r) then forall k :: 0 <= k < i ==> !proofs[k].Proves(r)
    else
      && (forall k :: 0 <= k < |proofs| ==> !proofs[k].Proves(r))
      && proofs[i].Covers(r) && forall k :: 0 <= k < i ==> !proofs[k].Covers(r)
  }

  /** Look for a proof that matches the record, else for one that merely covers it. */
  method ArchiveProofFor(r: Record, proofs: seq<ArchiveProof>) returns (proof: Option<ArchiveProof>)
    ensures proof.None? ==> forall p :: p in proofs ==> !p.Covers(r)
    ensures proof.Some? ==> exists i: nat :: i < |proofs| && proof.value == proofs[i] && IsChoice(r, proofs, i)
    ensures (exists p :: p in proofs && p.Proves(r)) <==> proof.Some? && proof.value.Proves(r)
  {
    for i := 0 to |proofs|
      invariant forall k :: 0 <= k < i ==> !proofs[k].Proves(r)
    {
      if proofs[i].Covers(r) && proofs[i].checksum == r.checksum {
        return Some(proofs[i]);
      }
    }
    for i := 0 to |proofs|
      invariant forall k :: 0 <= k < i ==> !proofs[k].Covers(r)
    {
      if proofs[i].Covers(r) {
        return Some(proofs[i]);
      }
    }
    return None;
  }

  /** A record may go: it only guards a WAL segment, the policy lets it expire, and the archive proves it. */
  ghost predicate Prunable(policy: Policy, proofs: seq<ArchiveProof>, r: Record)
  {
    r.retention == WalSegment && !policy.Retains(r) && exists p :: p in proofs && p.Proves(r)
  }

  /** The newest record always stays, so that the log's high-water mark survives. */
  ghost predicate Stays(policy: Policy, proofs: seq<ArchiveProof>, highWater: U64, r: Record)
  {
    r.recordLsn == highWater || !Prunable(policy, proofs, r)
  }

  ghost function Kept(policy: Policy, proofs: seq<ArchiveProof>, highWater: U64, records: seq<Record>): seq<Record>
  {
    if records == [] then []
    else
      var front, last := Kept(policy, proofs, highWater, records[..|records| - 1]), records[|records| - 1];
      if Stays(policy, proofs, highWater, last) then front + [last] else front
  }

  /** How many records go. */
  ghost function Dropped(policy: Policy, proofs: seq<ArchiveProof>, records: seq<Record>): nat
  {
    |set i | 0 <= i < |records| && !Stays(policy, proofs, HighWater(records), records[i])|
  }

  function HighWater(records: seq<Record>): U64
  {
    if records == [] then 0 else records[|records| - 1].recordLsn
  }

  ghost function Compacted(policy: Policy, proofs: seq<ArchiveProof>, records: seq<Record>): seq<Record>
  {
    Kept(policy, proofs, HighWater(records), records)
  }

  ghost predicate InputsValid(policy: Policy, proofs: seq<ArchiveProof>)
  {
    policy.Valid() && forall i :: 0 <= i < |proofs| ==> proofs[i].Valid()
  }

  /** The limits of a policy are no zeroes, and a proof has an id, a range of LSNs and a checksum. */
  lemma InputsAreValidExactly(policy: Policy, proofs: seq<ArchiveProof>)
    ensures InputsValid(policy, proofs) <==>
              && (policy.minRecordLsn.Some? ==> policy.minRecordLsn.value > 0)
              && (policy.minDurableLsn.Some? ==> policy.minDurableLsn.value > 0)
              && forall p :: p in proofs ==> p.idAcceptable && 0 < p.firstLsn <= p.lastLsn && p.checksum > 0
  {
    assert InputsValid(policy, proofs) ==> forall p :: p in proofs ==> p.Valid();
  }

  /** Every record but the newest is looked at, so it has to be valid. */
  ghost predicate Evaluable(records: seq<Record>)
  {
    forall i :: 0 <= i < |records| ==> records[i].recordLsn == HighWater(records) || records[i].Valid()
  }

  method Compact(policy: Policy, proofs: seq<ArchiveProof>, records: seq<Record>)
    returns (r: Option<(seq<Record>, Report)>)
    ensures r.Some? <==> InputsValid(policy, proofs) && Evaluable(records) && IsLog(Compacted(policy, proofs, records))
    ensures InputsValid(policy, proofs) && IsLog(records) ==> r.Some?
    ensures r.Some? ==> r.value.0 == Compacted(policy, proofs, records)
    ensures r.Some? ==> r.value.1 == Report(|records|, |r.value.0|, Dropped(policy, proofs, records),
                                            FirstLsn(r.value.0), LastLsn(r.value.0), Evidence(r.value.0))
    ensures r.Some? ==> LastLsn(r.value.0) == LastLsn(records)
  {
    if !policy.Valid() {
      return None;
    }
    for i := 0 to |proofs|
      invariant forall k :: 0 <= k < i ==> proofs[k].Valid()
    {
      if !proofs[i].Valid() {
        return None;
      }
    }
    var highWater := HighWater(records);
    var retained: seq<Record> := [];
    for i := 0 to |records|
      invariant retained == Kept(policy, proofs, highWater, records[..i])
      invariant |retained| <= i
      invariant forall k :: 0 <= k < i ==> records[k].recordLsn == highWater || records[k].Valid()
    {
      var record := records[i];
      assert records[..i + 1][..i] == records[..i];
      if record.recordLsn == highWater {
        retained := retained + [record];
        continue;
      }
      var proof := ArchiveProofFor(record, proofs);
      var decision := EvaluatePrune(policy, record, proof);
      if decision.Err? {
        return None;
      }
      if decision.value.Some? {
        retained := retained + [record];
      }
    }
    assert records[..|records|] == records;
    KeptIsLog(policy, proofs, highWater, records);
    DroppedAreTheRest(policy, proofs, highWater, records);
    if records != [] {
      LastLsnIsKept(policy, proofs, highWater, records);
    }
    var report := ReportFromRecords(|records|, retained);
    if report.None? {
      return None;
    }
    return Some((retained, report.value));
  }

  lemma {:induction false} KeptIsLog(policy: Policy, proofs: seq<ArchiveProof>, highWater: U64, records: seq<Record>)
    ensures var kept := Kept(policy, proofs, highWater, records);
            && (forall r :: r in kept <==> r in records && Stays(policy, proofs, highWater, r))
            && (IsLog(records) ==> IsLog(kept))
  {
    if records != [] {
      var n := |records| - 1;
      KeptIsLog(policy, proofs, highWater, records[..n]);
      assert records == records[..n] + [records[n]];
      var front := Kept(policy, proofs, highWater, records[..n]);
      forall k | IsLog(records) && 0 <= k < |front| ensures front[k].recordLsn < records[n].recordLsn {
        assert front[k] in records[..n];
      }
    }
  }

  ghost function DroppedPlaces(policy: Policy, proofs: seq<ArchiveProof>, highWater: U64, records: seq<Record>)
    : set<nat>
  {
    set i | 0 <= i < |records| && !Stays(policy, proofs, highWater, records[i])
  }

  lemma PlacesOfNext(policy: Policy, proofs: seq<ArchiveProof>, highWater: U64, records: seq<Record>)
    requires records != []
    ensures var n := |records| - 1;
            DroppedPlaces(policy, proofs, highWater, records) ==
            DroppedPlaces(policy, proofs, highWater, records[..n])
            + if Stays(policy, proofs, highWater, records[n]) then {} else {n}
  {
  }

  /** Kept and dropped records are all records. */
  lemma {:induction false} DroppedAreTheRest(policy: Policy, proofs: seq<ArchiveProof>, highWater: U64,
                                             records: seq<Record>)
    ensures |Kept(policy, proofs, highWater, records)| + |DroppedPlaces(policy, proofs, highWater, records)|
            == |records|
  {
    if records != [] {
      DroppedAreTheRest(policy, proofs, highWater, records[..|records| - 1]);
      PlacesOfNext(policy, proofs, highWater, records);
    }
  }

  /** The last LSN survives. */
  lemma LastLsnIsKept(policy: Policy, proofs: seq<ArchiveProof>, highWater: U64, records: seq<Record>)
    requires records != [] && records[|records| - 1].recordLsn == highWater
    ensures LastLsn(Kept(policy, proofs, highWater, records)) == LastLsn(records)
  {
  }

  /**
   Pruning is safe: on any log, compaction keeps every record the policy retains and the newest
   one, drops only WAL-segment records that an archive proves by range and checksum, and leaves
   a log again.
   */
  lemma CompactionIsSafe(policy: Policy, proofs: seq<ArchiveProof>, records: seq<Record>)
    requires IsLog(records)
    ensures var kept := Compacted(policy, proofs, records);
            && IsLog(kept)
            && (forall r :: r in kept ==> r in records)
            && (forall r :: r in records && policy.Retains(r) ==> r in kept)
            && (records != [] ==> records[|records| - 1] in kept)
            && (forall r :: r in records && r !in kept ==>
                  r.retention == WalSegment && !policy.Retains(r) && exists p :: p in proofs && p.Proves(r))
  {
    KeptIsLog(policy, proofs, HighWater(records), records);
  }

  /** Compacting twice with the same policy and proofs is compacting once. */
  lemma CompactionIsIdempotent(policy: Policy, proofs: seq<ArchiveProof>, records: seq<Record>)
    ensures var kept := Compacted(policy, proofs, records);
            Compacted(policy, proofs, kept) == kept
  {
    var kept, mark := Compacted(policy, proofs, records), HighWater(records);
    KeptIsLog(policy, proofs, mark, records);
    if records != [] {
      LastIsKept(policy, proofs, mark, records);
    }
    AllStay(policy, proofs, mark, kept);
  }

  lemma LastIsKept(policy: Policy, proofs: seq<ArchiveProof>, highWater: U64, records: seq<Record>)
    requires records != [] && records[|records| - 1].recordLsn == highWater
    ensures HighWater(Kept(policy, proofs, highWater, records)) == highWater
  {
  }

  lemma {:induction false} AllStay(policy: Policy, proofs: seq<ArchiveProof>, highWater: U64, records: seq<Record>)
    requires forall r :: r in records ==> Stays(policy, proofs, highWater, r)
    ensures Kept(policy, proofs, highWater, records) == records
  {
    if records != [] {
      var n := |records| - 1;
      assert records == records[..n] + [records[n]];
      AllStay(policy, proofs, highWater, records[..n]);
    }
  }
}
