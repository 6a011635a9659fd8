/**
 Checkpoints of a running backup: the checksum over the completed data that a resumed
 backup must reproduce, and the integrity value of the checkpoint itself.
 */
module BackupCheckpoint {
  import opened Common
  import opened WrappingHash

  const U32_MAX: nat := 0xFFFF_FFFF
  const U32_SIZE: nat := 0x1_0000_0000

  datatype Phase = CatalogSnapshot | HotStoreScan | ColdStoreScan | WalArchiveFinalize
  {
    function Code(): nat
    {
      match this
      case CatalogSnapshot => 0
      case HotStoreScan => 1
      case ColdStoreScan => 2
      case WalArchiveFinalize => 3
    }
  }

  datatype Checkpoint = Checkpoint(phase: Phase, lastCompletedPage: U64, checksum: U32, epoch: U64)
  {
    predicate Valid()
    {
      epoch != 0 && checksum != 0
    }
  }

  /** Exclusive-or with all ones, on 32 bits. */
  function Complement(x: U32): U32
  {
    U32_MAX - x
  }

  // ---------------------------------------------------------------- the data checksum

  ghost function DataChecksum(data: seq<Byte>): U32
  {
    ChecksumState(data);
    Complement(Fold(CHECKSUM31, U32_MAX, data))
  }

  lemma ChecksumState(data: seq<Byte>)
    ensures 0 <= Fold(CHECKSUM31, U32_MAX, data) <= U32_MAX
  {
    FoldKeepsDifference(CHECKSUM31, U32_MAX, U32_MAX, data);
  }

  method ComputeDataChecksum(data: seq<Byte>) returns (checksum: U32)
    ensures checksum == DataChecksum(data)
  {
    var crc: nat := U32_MAX;
    for i := 0 to |data|
      invariant crc <= U32_MAX && crc == Fold(CHECKSUM31, U32_MAX, data[..i])
    {
      assert data[..i + 1][..i] == data[..i];
      WrapEarly(crc * 31, data[i], U32_SIZE);
      crc := ((crc * 31) % U32_SIZE + data[i]) % U32_SIZE;
    }
    assert data[..|data|] == data;
    return Complement(crc);
  }

  /** The check a resumed backup makes on the data it has already written. */
  method ValidateChecksumAfterResumption(expected: U32, completed: seq<Byte>) returns (accepted: bool)
    ensures accepted <==> expected == DataChecksum(completed)
  {
    var computed := ComputeDataChecksum(completed);
    return computed == expected;
  }

  /** The checksum is the complement of a polynomial in 31 over the bytes, modulo 2^32. */
  lemma ChecksumIsPolynomial(data: seq<Byte>)
    ensures var start: nat := 0xFFFF_FFFF;
            DataChecksum(data) == 0xFFFF_FFFF - PowerSum(31, [start] + data) % 0x1_0000_0000
  {
    FoldIsPolynomial(CHECKSUM31, U32_MAX, data);
  }

  /** Every change of a single byte is detected, wherever it is. */
  lemma ResumeDetectsOneByte(data: seq<Byte>, i: nat, b: Byte)
    requires i < |data| && b != data[i]
    ensures DataChecksum(data) != DataChecksum(data[i := b])
  {
    OneTermChanged(CHECKSUM31, U32_MAX, data, i, b);
    ByteResidue(data[i]);
    ByteResidue(b);
  }

  lemma ByteResidue(b: Byte)
    ensures b % U32_SIZE == b
  {
  }

  /**
   A change of two neighbouring bytes goes unnoticed exactly when 31 times the first plus the second
   stays the same.
   */
  lemma ResumeMissesNeighbours(front: seq<Byte>, a: Byte, b: Byte, a': Byte, b': Byte, back: seq<Byte>)
    ensures DataChecksum(front + [a, b] + back) == DataChecksum(front + [a', b'] + back) <==> 31 * a + b == 31 * a' + b'
  {
    var h, s := CHECKSUM31, Fold(CHECKSUM31, U32_MAX, front);
    var x, y := Fold(h, s, [a, b]), Fold(h, s, [a', b']);
    FoldConcat(h, U32_MAX, front, [a, b]);
    FoldConcat(h, U32_MAX, front, [a', b']);
    FoldConcat(h, U32_MAX, front + [a, b], back);
    FoldConcat(h, U32_MAX, front + [a', b'], back);
    FoldPair(s, a, b);
    FoldPair(s, a', b');
    FoldKeepsDifference(h, x, y, back);
    PairsAgree(s, a, b, a', b');
  }

  lemma FoldPair(s: nat, a: Byte, b: Byte)
    ensures Fold(CHECKSUM31, s, [a, b]) == Step(CHECKSUM31, 31 * s, 31 * a + b)
  {
    assert [a, b][..1] == [a];
    FoldOne(CHECKSUM31, s, a);
    StepOfResidue(CHECKSUM31, s * 31 + a, b);
    assert (s * 31 + a) * 31 + b == (31 * s) * 31 + (31 * a + b);
  }

  lemma PairsAgree(s: nat, a: Byte, b: Byte, a': Byte, b': Byte)
    ensures Step(CHECKSUM31, 31 * s, 31 * a + b) == Step(CHECKSUM31, 31 * s, 31 * a' + b') <==>
              31 * a + b == 31 * a' + b'
  {
    StepSeesTerm(CHECKSUM31, 31 * s, 31 * a + b, 31 * a' + b');
  }

  // ---------------------------------------------------------------- the checkpoint's own integrity value

  function WrappingAdd(a: nat, b: nat): U32
  {
    (a + b) % U32_SIZE
  }

  method ComputeCheckpointCrc(c: Checkpoint) returns (crc: U32)
    ensures crc == CheckpointCrc(c)
    ensures var code := if c.phase == CatalogSnapshot then 0 else if c.phase == HotStoreScan then 1
                        else if c.phase == ColdStoreScan then 2 else 3;
            (crc + code + c.lastCompletedPage + c.checksum + c.epoch) % 0x1_0000_0000 == 0
  {
    crc := U32_MAX;
    crc := WrappingAdd(crc, c.phase.Code());
    crc := WrappingAdd(crc, c.lastCompletedPage % U32_SIZE);
    crc := WrappingAdd(crc, c.checksum);
    crc := WrappingAdd(crc, c.epoch % U32_SIZE);
    WrappedSum(U32_MAX + c.phase.Code(), c.lastCompletedPage, c.checksum, c.epoch);
    NegatedSum(FieldSum(c));
    crc := Complement(crc);
    SumCancels(FieldSum(c));
  }

  lemma WrappedSum(a: nat, b: nat, c: nat, d: nat)
    ensures WrappingAdd(WrappingAdd(WrappingAdd(a % U32_SIZE, b % U32_SIZE), c), d % U32_SIZE) ==
              (a + b + c + d) % U32_SIZE
  {
    WrapEarly(a, b, U32_SIZE);
    WrapEarly(a + b, c, U32_SIZE);
    WrapEarly(a + b + c, d, U32_SIZE);
  }

  lemma NegatedSum(sum: nat)
    ensures U32_MAX - (U32_MAX + sum) % U32_SIZE == (U32_SIZE - sum % U32_SIZE) % U32_SIZE
  {
    WrapEarly(sum, U32_MAX, U32_SIZE);
  }

  lemma SumCancels(sum: nat)
    ensures ((U32_SIZE - sum % U32_SIZE) % U32_SIZE + sum) % U32_SIZE == 0
  {
    if sum % U32_SIZE != 0 {
      assert U32_SIZE - sum % U32_SIZE + sum == U32_SIZE * (1 + sum / U32_SIZE);
    }
  }

  function FieldSum(c: Checkpoint): nat
  {
    c.phase.Code() + c.lastCompletedPage + c.checksum + c.epoch
  }

  /** The integrity value is the negation of the sum of the fields, modulo 2^32. */
  function CheckpointCrc(c: Checkpoint): U32
  {
    (U32_SIZE - FieldSum(c) % U32_SIZE) % U32_SIZE
  }

  /** Staging a checkpoint: its own check, then the metadata check with the computed integrity value. */
  method PersistBackupCheckpoint(backupId: U64, c: Checkpoint) returns (accepted: bool)
    ensures accepted <==> c.epoch != 0 && c.checksum != 0 && backupId != 0 && FieldSum(c) % 0x1_0000_0000 != 0
  {
    if !c.Valid() {
      return false;
    }
    var metadataCrc := ComputeCheckpointCrc(c);
    if backupId == 0 || !c.Valid() || metadataCrc == 0 {
      return false;
    }
    return true;
  }

  /** So a valid checkpoint of a valid backup can be refused. */
  lemma ValidCheckpointCanBeRefused()
    ensures exists c: Checkpoint :: c.Valid() && FieldSum(c) % U32_SIZE == 0
  {
    var c := Checkpoint(CatalogSnapshot, 0, 0xFFFF_FFFF, 1);
    assert FieldSum(c) == U32_SIZE;
    assert c.Valid() && FieldSum(c) % U32_SIZE == 0;
  }
}
