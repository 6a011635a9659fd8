/**
 Durable audit records, as far as replay inspection and retention look at them.
 */
module AuditLog {
  import opened Common

  datatype EventFamily =
    | SecurityDecision | AdminDecision | AdmissionDecision | CatalogDecision | HadrDecision
    | BackupDecision | RestoreDecision | ForensicDecision | RecoveryDecision | GenericAudit

  datatype RetentionBoundary = WalSegment | CatalogVersion | SecurityPolicy | ForensicHold

  /**
   One replayed record. `bindingValid` is the outcome of the checks on the principal binding,
   the event kind and the policy evidence, none of which the operations below look into.
   */
  datatype Record = Record(
    eventId: U64,
    traceId: nat,
    family: EventFamily,
    sequenceNumber: U64,
    recordLsn: U64,
    durableLsn: U64,
    checksum: U64,
    retention: RetentionBoundary,
    principalId: string,
    eventKind: string,
    bindingValid: bool)
  {
    predicate Valid()
    {
      && eventId != 0 && traceId != 0 && sequenceNumber != 0
      && recordLsn != 0 && recordLsn <= durableLsn && checksum != 0
      && bindingValid
    }
  }

  /** A record is valid if nothing that names or checks it is zero and it lies within what is durable. */
  lemma RecordIsValidExactly(r: Record)
    ensures r.Valid() <==>
              && 0 !in {r.eventId, r.traceId, r.sequenceNumber, r.checksum}
              && 0 < r.recordLsn <= r.durableLsn && r.bindingValid
  {
  }

  /** Valid records in strictly increasing LSN order. */
  ghost predicate IsLog(records: seq<Record>)
  {
    && (forall i :: 0 <= i < |records| ==> records[i].Valid())
    && (forall i, j :: 0 <= i < j < |records| ==> records[i].recordLsn < records[j].recordLsn)
  }
}
