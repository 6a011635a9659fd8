/**
 Frame headers: ten numbers in 48 octets, most significant octet first, followed by the checksum
 of those octets and a zero field, and the checks of the decoder.
 */
module FrameHeaders {
  import opened Common
  import opened BitWords
  import opened FrameCrc

  const HEADER_LEN: nat := 52
  const CRC_OFFSET: nat := 48

  /** A number in `k` octets, most significant first. */
  function BeOctets(n: nat, k: nat): (bytes: seq<Octet>)
    ensures |bytes| == k
  {
    if k == 0 then [] else BeOctets(n / 256, k - 1) + [BitsOf(n % 256, 8)]
  }

  function CrcOctets(w: Word): (bytes: seq<Octet>)
    ensures |bytes| == 4
  {
    [w[24..32], w[16..24], w[8..16], w[0..8]]
  }

  lemma OctetPower()
    ensures Pow2(8) == 256
  {
    assert Pow2(4) == 16;
  }

  /** The number that octets hold, most significant first. */
  function Value(bytes: seq<Octet>): nat
  {
    if bytes == [] then 0 else 256 * Value(bytes[..|bytes| - 1]) + NumberOf(bytes[|bytes| - 1])
  }

  lemma {:induction false} ValueIsBounded(bytes: seq<Octet>)
    ensures Value(bytes) < Pow256(|bytes|)
  {
    if bytes != [] {
      OctetPower();
      ValueIsBounded(bytes[..|bytes| - 1]);
    }
  }

  lemma ValueAppend(front: seq<Octet>, last: Octet)
    ensures Value(front + [last]) == 256 * Value(front) + NumberOf(last) && NumberOf(last) < 256
  {
    OctetPower();
    assert (front + [last])[..|front|] == front;
  }

  lemma BeOctetsAppend(n: nat, m: nat, k: nat)
    requires m < 256
    ensures BeOctets(256 * n + m, k + 1) == BeOctets(n, k) + [BitsOf(m, 8)]
  {
    assert (256 * n + m) / 256 == n && (256 * n + m) % 256 == m;
  }

  lemma {:induction false} ValueOfBeOctets(n: nat, k: nat)
    requires n < Pow256(k)
    ensures Value(BeOctets(n, k)) == n
  {
    if k > 0 {
      OctetPower();
      NumberOfBitsOf(n % 256, 8);
      ValueOfBeOctets(n / 256, k - 1);
      ValueAppend(BeOctets(n / 256, k - 1), BitsOf(n % 256, 8));
    }
  }

  lemma {:induction false} BeOctetsOfValue(bytes: seq<Octet>)
    ensures BeOctets(Value(bytes), |bytes|) == bytes
  {
    if bytes != [] {
      var front, last := bytes[..|bytes| - 1], bytes[|bytes| - 1];
      BeOctetsOfValue(front);
      LastOctet(front, last);
      FrontAndLast(bytes);
    }
  }

  lemma LastOctet(front: seq<Octet>, last: Octet)
    requires BeOctets(Value(front), |front|) == front
    ensures BeOctets(Value(front + [last]), |front| + 1) == front + [last]
  {
    ValueAppend(front, last);
    OctetOfNumber(last);
    Appended(front, last, Value(front), NumberOf(last), Value(front + [last]));
  }

  lemma OctetOfNumber(o: Octet)
    ensures BitsOf(NumberOf(o), 8) == o
  {
    BitsOfNumberOf(o);
  }

  lemma Appended(front: seq<Octet>, last: Octet, n: nat, m: nat, all: nat)
    requires BeOctets(n, |front|) == front && BitsOf(m, 8) == last && m < 256 && all == 256 * n + m
    ensures BeOctets(all, |front| + 1) == front + [last]
  {
    BeOctetsAppend(n, m, |front|);
  }

  const FOUR_ZEROS: seq<Octet> := [Zeros(8), Zeros(8), Zeros(8), Zeros(8)]

  /** The stored field is the checksum of the rest of the header followed by a zero field. */
  predicate CrcMatches(fields: seq<Octet>, stored: seq<Octet>)
  {
    stored == CrcOctets(Crc32(fields + FOUR_ZEROS))
  }

  /** Header length, version and reserved octets. */
  predicate FixedFieldsMatch(fields: seq<Octet>)
  {
    && |fields| == CRC_OFFSET
    && Value(fields[..2]) == HEADER_LEN && Value(fields[2..4]) == VERSION
    && Value(fields[33..36]) == 0
  }

  const VERSION: nat := 1
  const FRAME_TYPES: set<nat> := {1, 2, 3, 4, 5, 6, 7, 8, 9, 100}

  /** A known frame type, and a transaction marker that is zero or one. */
  predicate ContentsMatch(fields: seq<Octet>)
    requires |fields| == CRC_OFFSET
  {
    Value(fields[4..8]) in FRAME_TYPES && Value(fields[32..33]) <= 1
  }

  /** All checks of the header decoder. */
  predicate HeaderAccepted(header: seq<Octet>)
  {
    && |header| == HEADER_LEN
    && FixedFieldsMatch(header[..CRC_OFFSET])
    && CrcMatches(header[..CRC_OFFSET], header[CRC_OFFSET..])
    && ContentsMatch(header[..CRC_OFFSET])
  }

  lemma CrcOctetsAreInjective(v: Word, w: Word)
    requires CrcOctets(v) == CrcOctets(w)
    ensures v == w
  {
    assert CrcOctets(v)[3] == CrcOctets(w)[3] && CrcOctets(v)[2] == CrcOctets(w)[2];
    assert CrcOctets(v)[1] == CrcOctets(w)[1] && CrcOctets(v)[0] == CrcOctets(w)[0];
    assert v == v[0..8] + v[8..16] + v[16..24] + v[24..32];
    assert w == w[0..8] + w[8..16] + w[16..24] + w[24..32];
  }

  /** A burst in the fields never matches the stored checksum again. */
  lemma BurstMisses(front: seq<Octet>, a: seq<Octet>, b: seq<Octet>, back: seq<Octet>, stored: seq<Octet>)
    requires |a| == |b| <= 4 && a != b
    ensures !(CrcMatches(front + a + back, stored) && CrcMatches(front + b + back, stored))
  {
    BurstChangesCrc(front, a, b, back + FOUR_ZEROS);
    ConcatAssociative(front + a, back, FOUR_ZEROS);
    ConcatAssociative(front + b, back, FOUR_ZEROS);
    if CrcOctets(Crc32(front + a + back + FOUR_ZEROS)) == CrcOctets(Crc32(front + b + back + FOUR_ZEROS)) {
      CrcOctetsAreInjective(Crc32(front + a + back + FOUR_ZEROS), Crc32(front + b + back + FOUR_ZEROS));
    }
  }

  /**
   No burst of up to four octets that stays on one side of the checksum field's start turns an
   accepted header into another accepted header: here before the field, next in it.
   */
  lemma BurstIsRejected(front: seq<Octet>, a: seq<Octet>, b: seq<Octet>, back: seq<Octet>, stored: seq<Octet>)
    requires |a| == |b| <= 4 && a != b
    requires |front| + |a| + |back| == CRC_OFFSET && HeaderAccepted(front + a + back + stored)
    ensures !HeaderAccepted(front + b + back + stored)
  {
    var f, g := front + a + back, front + b + back;
    assert (f + stored)[..CRC_OFFSET] == f && (f + stored)[CRC_OFFSET..] == stored;
    assert (g + stored)[..CRC_OFFSET] == g && (g + stored)[CRC_OFFSET..] == stored;
    BurstMisses(front, a, b, back, stored);
  }

  lemma ChangedFieldIsRejected(fields: seq<Octet>, stored: seq<Octet>, other: seq<Octet>)
    requires |fields| == CRC_OFFSET && stored != other && HeaderAccepted(fields + stored)
    ensures !HeaderAccepted(fields + other)
  {
    assert (fields + stored)[..CRC_OFFSET] == fields && (fields + stored)[CRC_OFFSET..] == stored;
    assert (fields + other)[..CRC_OFFSET] == fields && (fields + other)[CRC_OFFSET..] == other;
  }

  lemma OneFieldOctetIsRejected(fields: seq<Octet>, stored: seq<Octet>, i: nat, o: Octet)
    requires |fields| == CRC_OFFSET && HeaderAccepted(fields + stored)
    requires i < CRC_OFFSET && o != fields[i]
    ensures !HeaderAccepted(fields[i := o] + stored)
  {
    UpdateSplit(fields, i, o);
    assert [fields[i]][0] != [o][0];
    BurstIsRejected(fields[..i], [fields[i]], [o], fields[i + 1..], stored);
  }

  /** So no header that differs from an accepted one in a single octet is accepted. */
  lemma OneOctetIsRejected(header: seq<Octet>, i: nat, o: Octet)
    requires HeaderAccepted(header) && i < HEADER_LEN && o != header[i]
    ensures !HeaderAccepted(header[i := o])
  {
    assert header == header[..CRC_OFFSET] + header[CRC_OFFSET..];
    JoinedOctetIsRejected(header, header[..CRC_OFFSET], header[CRC_OFFSET..], i, o);
  }

  lemma JoinedOctetIsRejected(header: seq<Octet>, fields: seq<Octet>, stored: seq<Octet>, i: nat, o: Octet)
    requires |fields| == CRC_OFFSET && |stored| == HEADER_LEN - CRC_OFFSET && header == fields + stored
    requires i < HEADER_LEN && o != header[i] && HeaderAccepted(header)
    ensures !HeaderAccepted(header[i := o])
  {
    UpdateConcat(fields, stored, i, o);
    if i < CRC_OFFSET {
      OneFieldOctetIsRejected(fields, stored, i, o);
    } else {
      OneStoredOctetIsRejected(fields, stored, i - CRC_OFFSET, o);
    }
  }

  lemma OneStoredOctetIsRejected(fields: seq<Octet>, stored: seq<Octet>, i: nat, o: Octet)
    requires |fields| == CRC_OFFSET && HeaderAccepted(fields + stored)
    requires i < |stored| && o != stored[i]
    ensures !HeaderAccepted(fields + stored[i := o])
  {
    assert stored[i] != stored[i := o][i];
    ChangedFieldIsRejected(fields, stored, stored[i := o]);
  }

  // ---------------------------------------------------------------- bursts across the start of the checksum field

  lemma FourZerosAreZero()
    ensures Padded(FOUR_ZEROS) == Zeros(32)
  {
    FlatOfZeros(FOUR_ZEROS);
  }

  lemma {:induction false} FlatOfZeros(bytes: seq<Octet>)
    requires forall i :: 0 <= i < |bytes| ==> bytes[i] == Zeros(8)
    ensures Flat(bytes) == Zeros(8 * |bytes|)
  {
    if bytes != [] {
      FlatOfZeros(bytes[..|bytes| - 1]);
    }
  }

  lemma XorZeros(w: Word)
    ensures Xor(w, Zeros(32)) == w
  {
  }

  /** Four octets that are all zero. */
  ghost predicate IsZero(z: seq<Octet>)
  {
    |z| == 4 && Padded(z) == Zeros(32)
  }

  /** The state behind a window and four zero octets. */
  lemma WindowAndZeros(start: Word, a: seq<Octet>, z: seq<Octet>)
    requires |a| <= 4 && IsZero(z)
    ensures State(start, a + z) == Steps(Xor(start, Padded(a)), 8 * |a| + 32)
  {
    var s, w := State(start, a), Xor(start, Padded(a));
    assert State(start, a + z) == State(s, z) by { StateConcat(start, a, z); }
    assert State(s, z) == Steps(s, 32) by { ZerosStep(s, z); }
    assert s == Steps(w, 8 * |a|) by { WindowActsAsOneWord(start, a); }
    StepsAdd(w, 8 * |a|, 32);
  }

  lemma ZerosStep(x: Word, z: seq<Octet>)
    requires IsZero(z)
    ensures State(x, z) == Steps(x, 32)
  {
    WindowActsAsOneWord(x, z);
    XorZeros(x);
  }

  lemma StepsAdd(w: Word, j: nat, k: nat)
    ensures Steps(Steps(w, j), k) == Steps(w, j + k)
  {
    IterateAdds(BitStep, w, j, k);
  }

  lemma XorDifference(s: Word, p: Word, q: Word)
    ensures Xor(s, q) == Xor(Xor(s, p), Xor(p, q))
  {
  }

  lemma XorSwap(x: Word, d: Word, c: Word)
    ensures Xor(Xor(x, d), c) == Xor(Xor(x, c), d)
  {
  }

  /** How a change of the last field octets changes the checksum: by the change itself, stepped through. */
  lemma CrcDifference(front: seq<Octet>, a: seq<Octet>, b: seq<Octet>, z: seq<Octet>)
    requires |a| == |b| <= 4 && IsZero(z)
    ensures Crc32(front + b + z) == Xor(Crc32(front + a + z), Steps(Xor(Padded(a), Padded(b)), 8 * |a| + 32))
  {
    ConcatAssociative(front, a, z);
    ConcatAssociative(front, b, z);
    StateConcat(Ones(), front, a + z);
    StateConcat(Ones(), front, b + z);
    StateDifference(State(Ones(), front), a, b, z);
    XorSwap(State(Ones(), front + (a + z)), Steps(Xor(Padded(a), Padded(b)), 8 * |a| + 32), Ones());
  }

  lemma StateDifference(s: Word, a: seq<Octet>, b: seq<Octet>, z: seq<Octet>)
    requires |a| == |b| <= 4 && IsZero(z)
    ensures State(s, b + z) == Xor(State(s, a + z), Steps(Xor(Padded(a), Padded(b)), 8 * |a| + 32))
  {
    var p, q, n := Padded(a), Padded(b), 8 * |a| + 32;
    var x, y := State(s, a + z), State(s, b + z);
    assert x == Steps(Xor(s, p), n) by { WindowAndZeros(s, a, z); }
    assert y == Steps(Xor(s, q), n) by { WindowAndZeros(s, b, z); }
    WordsDiffer(s, p, q, n, x, y);
  }

  lemma WordsDiffer(s: Word, p: Word, q: Word, n: nat, x: Word, y: Word)
    requires x == Steps(Xor(s, p), n) && y == Steps(Xor(s, q), n)
    ensures y == Xor(x, Steps(Xor(p, q), n))
  {
    XorDifference(s, p, q);
    StepsAreLinear(Xor(s, p), Xor(p, q), n);
  }

  lemma EarlyFieldsStay(front: seq<Octet>, a: seq<Octet>, b: seq<Octet>)
    requires |a| == |b| <= 4 && |front| + |a| == CRC_OFFSET
    ensures (front + a)[..36] == (front + b)[..36]
    ensures FixedFieldsMatch(front + a) <==> FixedFieldsMatch(front + b)
    ensures ContentsMatch(front + a) <==> ContentsMatch(front + b)
  {
    var f, g := front + a, front + b;
    assert f[..36] == front[..36] && g[..36] == front[..36];
    assert f[..2] == g[..2] == f[..36][..2] && f[2..4] == g[2..4] == f[..36][2..4];
    assert f[33..36] == g[33..36] == f[..36][33..];
    assert f[4..8] == g[4..8] == f[..36][4..8] && f[32..33] == g[32..33] == f[..36][32..33];
  }

  /**
   The bursts that reach over the start of the checksum field: a change of the last field
   octets passes together with exactly one change of the field, the linear image of the first one.
   */
  lemma StraddlingBurstPasses(front: seq<Octet>, a: seq<Octet>, b: seq<Octet>, stored: seq<Octet>, other: seq<Octet>)
    requires |a| == |b| <= 4 && |front| + |a| == CRC_OFFSET && HeaderAccepted(front + a + stored)
    ensures HeaderAccepted(front + b + other) <==>
            other == CrcOctets(Xor(Crc32(front + a + FOUR_ZEROS), Steps(Xor(Padded(a), Padded(b)), 8 * |a| + 32)))
  {
    var f, g := front + a, front + b;
    assert (f + stored)[..CRC_OFFSET] == f;
    assert |other| == 4 ==> (g + other)[..CRC_OFFSET] == g && (g + other)[CRC_OFFSET..] == other;
    EarlyFieldsStay(front, a, b);
    FourZerosAreZero();
    CrcDifference(front, a, b, FOUR_ZEROS);
  }

  /** The values of a frame header, in order. */
  datatype Header = Header(
    headerLen: nat,
    version: nat,
    frameType: U32,
    requestId: U64,
    sessionId: U64,
    txId: U64,
    txPresent: nat,
    reserved: nat,
    payloadLen: nat,
    flags: nat)

  function Ids(h: Header): (f: seq<Octet>)
    ensures |f| == 29
  {
    BeOctets(h.frameType, 4) + BeOctets(h.requestId, 8) + BeOctets(h.sessionId, 8)
    + BeOctets(h.txId, 8) + BeOctets(h.txPresent, 1)
  }

  function HeaderFields(h: Header): (f: seq<Octet>)
    ensures |f| == CRC_OFFSET
  {
    (BeOctets(h.headerLen, 2) + BeOctets(h.version, 2))
    + (Ids(h) + (BeOctets(h.reserved, 3) + (BeOctets(h.payloadLen, 8) + BeOctets(h.flags, 4))))
  }

  /**
   Fields sealed with their checksum are accepted exactly when they have the fixed values, a known
   type and a marker.
   */
  lemma SealedHeaderIsAccepted(fields: seq<Octet>)
    requires |fields| == CRC_OFFSET
    ensures HeaderAccepted(fields + CrcOctets(Crc32(fields + FOUR_ZEROS))) <==>
              FixedFieldsMatch(fields) && ContentsMatch(fields)
  {
    var stored := CrcOctets(Crc32(fields + FOUR_ZEROS));
    assert (fields + stored)[..CRC_OFFSET] == fields && (fields + stored)[CRC_OFFSET..] == stored;
  }

  lemma Powers()
    ensures Pow256(1) == 256 && Pow256(2) == 0x1_0000 && Pow256(3) == 0x100_0000 && Pow256(4) == 0x1_0000_0000
    ensures Pow256(8) == U64_MAX + 1
  {
    Pow256Values();
  }

  /**
   The decoder in numbers: which octets hold what, and the checksum, high octet first, of the first 48
   octets and four zeroes.
   */
  lemma HeaderIsAcceptedExactly(header: seq<Octet>)
    ensures HeaderAccepted(header) <==>
              && |header| == 52
              && Value(header[..2]) == 52 && Value(header[2..4]) == 1
              && (1 <= Value(header[4..8]) <= 9 || Value(header[4..8]) == 100)
              && Value(header[32..33]) <= 1 && Value(header[33..36]) == 0
              && [header[51], header[50], header[49], header[48]] ==
                 LowFirst(Crc32(header[..48] + [Zeros(8), Zeros(8), Zeros(8), Zeros(8)]))
  {
    if |header| == 52 {
      var fields, stored := header[..48], header[48..];
      FieldsOf(header);
      FieldsMatch(fields);
      ChecksumIs(fields, stored);
    }
  }

  lemma FieldsOf<T>(header: seq<T>)
    requires |header| == 52
    ensures var fields := header[..48];
            && fields[..2] == header[..2] && fields[2..4] == header[2..4] && fields[4..8] == header[4..8]
            && fields[32..33] == header[32..33] && fields[33..36] == header[33..36]
  {
  }

  lemma FieldsMatch(fields: seq<Octet>)
    requires |fields| == 48
    ensures FixedFieldsMatch(fields) && ContentsMatch(fields) <==>
              && Value(fields[..2]) == 52 && Value(fields[2..4]) == 1
              && (1 <= Value(fields[4..8]) <= 9 || Value(fields[4..8]) == 100)
              && Value(fields[32..33]) <= 1 && Value(fields[33..36]) == 0
  {
  }

  lemma ChecksumIs(fields: seq<Octet>, stored: seq<Octet>)
    requires |stored| == 4
    ensures CrcMatches(fields, stored) <==>
              [stored[3], stored[2], stored[1], stored[0]] ==
              LowFirst(Crc32(fields + [Zeros(8), Zeros(8), Zeros(8), Zeros(8)]))
  {
    HighFirst(stored, Crc32(fields + FOUR_ZEROS));
  }

  lemma HighFirst(stored: seq<Octet>, w: Word)
    requires |stored| == 4
    ensures stored == CrcOctets(w) <==> [stored[3], stored[2], stored[1], stored[0]] == LowFirst(w)
  {
  }

  /** The `k` octets from `at` on hold the number `n`. */
  ghost predicate Stores(bytes: seq<Octet>, at: nat, k: nat, n: nat)
  {
    at + k <= |bytes| && Value(bytes[at..at + k]) == n
  }

  /** Where the values of a header stand. */
  ghost predicate HasValues(bytes: seq<Octet>, h: Header)
  {
    && Stores(bytes, 0, 2, h.headerLen) && Stores(bytes, 2, 2, h.version) && Stores(bytes, 4, 4, h.frameType)
    && Stores(bytes, 8, 8, h.requestId) && Stores(bytes, 16, 8, h.sessionId) && Stores(bytes, 24, 8, h.txId)
    && Stores(bytes, 32, 1, h.txPresent) && Stores(bytes, 33, 3, h.reserved)
    && Stores(bytes, 36, 8, h.payloadLen) && Stores(bytes, 44, 4, h.flags)
  }

  ghost predicate Fits(h: Header)
  {
    && h.headerLen < Pow256(2) && h.version < Pow256(2) && h.frameType < Pow256(4) && h.requestId < Pow256(8)
    && h.sessionId < Pow256(8) && h.txId < Pow256(8) && h.txPresent < Pow256(1) && h.reserved < Pow256(3)
    && h.payloadLen < Pow256(8) && h.flags < Pow256(4)
  }

  /** `part` stands in `whole` from `at` on. */
  ghost predicate Stands<T>(whole: seq<T>, at: nat, part: seq<T>)
  {
    at + |part| <= |whole| && whole[at..at + |part|] == part
  }

  lemma FivePieces<T>(a: seq<T>, b: seq<T>, c: seq<T>, d: seq<T>, e: seq<T>)
    ensures var all := a + b + c + d + e;
            && Stands(all, 0, a) && Stands(all, |a|, b) && Stands(all, |a| + |b|, c)
            && Stands(all, |a| + |b| + |c|, d) && Stands(all, |a| + |b| + |c| + |d|, e)
  {
  }

  lemma SixPieces<T>(a: seq<T>, b: seq<T>, c: seq<T>, d: seq<T>, e: seq<T>, f: seq<T>, rest: seq<T>)
    ensures var all := (a + b) + (c + (d + (e + f))) + rest;
            && Stands(all, 0, a) && Stands(all, |a|, b) && Stands(all, |a| + |b|, c)
            && Stands(all, |a| + |b| + |c|, d) && Stands(all, |a| + |b| + |c| + |d|, e)
            && Stands(all, |a| + |b| + |c| + |d| + |e|, f)
  {
    var front := a + b + c + d + e;
    Regrouped(a, b, c, d, e, f, rest);
    FivePieces(a, b, c, d, e);
    Extended(front, f + rest, 0, a);
    Extended(front, f + rest, |a|, b);
    Extended(front, f + rest, |a| + |b|, c);
    Extended(front, f + rest, |a| + |b| + |c|, d);
    Extended(front, f + rest, |a| + |b| + |c| + |d|, e);
    Behind(front, f, rest);
  }

  lemma Regrouped<T>(a: seq<T>, b: seq<T>, c: seq<T>, d: seq<T>, e: seq<T>, f: seq<T>, rest: seq<T>)
    ensures (a + b) + (c + (d + (e + f))) + rest == a + b + c + d + e + (f + rest)
  {
    ConcatAssociative(a + b + c + d + e, f, rest);
    ConcatAssociative(a + b + c + d, e, f);
    ConcatAssociative(a + b + c, d, e + f);
    ConcatAssociative(a + b, c, d + (e + f));
  }

  lemma Behind<T>(front: seq<T>, part: seq<T>, rest: seq<T>)
    ensures Stands(front + (part + rest), |front|, part)
  {
  }

  lemma Extended<T>(whole: seq<T>, rest: seq<T>, at: nat, part: seq<T>)
    requires Stands(whole, at, part)
    ensures Stands(whole + rest, at, part)
  {
  }

  /** A part of a part. */
  lemma StandsIn<T>(whole: seq<T>, from: nat, middle: seq<T>, at: nat, part: seq<T>)
    requires Stands(whole, from, middle) && Stands(middle, at, part)
    ensures Stands(whole, from + at, part)
  {
    SliceOfSlice(whole, from, from + |middle|, at, at + |part|);
  }

  /** A number that stands somewhere is stored there. */
  lemma StoresNumber(bytes: seq<Octet>, at: nat, n: nat, k: nat)
    requires n < Pow256(k) && Stands(bytes, at, BeOctets(n, k))
    ensures Stores(bytes, at, k, n)
  {
    ValueOfBeOctets(n, k);
  }

  lemma IdsStand(h: Header, all: seq<Octet>)
    requires Stands(all, 4, Ids(h))
    ensures Stands(all, 4, BeOctets(h.frameType, 4)) && Stands(all, 8, BeOctets(h.requestId, 8))
    ensures Stands(all, 16, BeOctets(h.sessionId, 8)) && Stands(all, 24, BeOctets(h.txId, 8))
    ensures Stands(all, 32, BeOctets(h.txPresent, 1))
  {
    var code, request, session := BeOctets(h.frameType, 4), BeOctets(h.requestId, 8), BeOctets(h.sessionId, 8);
    var tx, present := BeOctets(h.txId, 8), BeOctets(h.txPresent, 1);
    FivePieces(code, request, session, tx, present);
    StandsIn(all, 4, Ids(h), 0, code);
    StandsIn(all, 4, Ids(h), 4, request);
    StandsIn(all, 4, Ids(h), 12, session);
    StandsIn(all, 4, Ids(h), 20, tx);
    StandsIn(all, 4, Ids(h), 28, present);
  }

  lemma IdsStored(h: Header, all: seq<Octet>)
    requires Fits(h) && Stands(all, 4, Ids(h))
    ensures Stores(all, 4, 4, h.frameType) && Stores(all, 8, 8, h.requestId) && Stores(all, 16, 8, h.sessionId)
    ensures Stores(all, 24, 8, h.txId) && Stores(all, 32, 1, h.txPresent)
  {
    IdsStand(h, all);
    StoresNumber(all, 4, h.frameType, 4);
    StoresNumber(all, 8, h.requestId, 8);
    StoresNumber(all, 16, h.sessionId, 8);
    StoresNumber(all, 24, h.txId, 8);
    StoresNumber(all, 32, h.txPresent, 1);
  }

  lemma ValuesOfHeader(h: Header, rest: seq<Octet>)
    requires Fits(h)
    ensures HasValues(HeaderFields(h) + rest, h)
  {
    var all := HeaderFields(h) + rest;
    SixPieces(BeOctets(h.headerLen, 2), BeOctets(h.version, 2), Ids(h), BeOctets(h.reserved, 3),
              BeOctets(h.payloadLen, 8), BeOctets(h.flags, 4), rest);
    IdsStored(h, all);
    StoresNumber(all, 0, h.headerLen, 2);
    StoresNumber(all, 2, h.version, 2);
    StoresNumber(all, 33, h.reserved, 3);
    StoresNumber(all, 36, h.payloadLen, 8);
    StoresNumber(all, 44, h.flags, 4);
  }

  lemma SeedFits(h: Header)
    requires h.headerLen == 52 && h.version == 1 && h.txId == 701 && h.txPresent == 1
    requires h.reserved == h.flags == 0 && h.payloadLen <= U64_MAX
    ensures Fits(h)
  {
    Powers();
  }

  /** The fields of a header and their checksum. */
  function Sealed(h: Header): (bytes: seq<Octet>)
    ensures |bytes| == 52
  {
    HeaderFields(h) + CrcOctets(Crc32(HeaderFields(h) + FOUR_ZEROS))
  }

  /** The frame has a header of these values that is accepted if its type is known, and then the payload. */
  ghost predicate IsMade(frame: seq<Octet>, h: Header, payload: seq<Octet>)
  {
    && |frame| == 52 + |payload| && frame[52..] == payload && HasValues(frame, h)
    && (HeaderAccepted(frame[..52]) <==> 1 <= h.frameType <= 9 || h.frameType == 100)
    && frame[48..52] == CrcOctets(Crc32(frame[..48] + FOUR_ZEROS))
  }

  /** A header of these values, sealed and followed by a payload. */
  lemma FrameIsMade(h: Header, frame: seq<Octet>, payload: seq<Octet>)
    requires h.headerLen == 52 && h.version == 1 && h.reserved == 0 && h.txPresent <= 1 && Fits(h)
    requires frame == Sealed(h) + payload
    ensures IsMade(frame, h, payload)
  {
    var fields := HeaderFields(h);
    var stored := CrcOctets(Crc32(fields + FOUR_ZEROS));
    FrameParts(fields, stored, payload);
    ValuesOfHeader(h, stored + payload);
    FieldsAreKnown(h);
    SealedHeaderIsAccepted(fields);
  }

  lemma FieldsAreKnown(h: Header)
    requires h.headerLen == 52 && h.version == 1 && h.reserved == 0 && h.txPresent <= 1 && Fits(h)
    ensures FixedFieldsMatch(HeaderFields(h)) && ContentsMatch(HeaderFields(h)) <==>
              1 <= h.frameType <= 9 || h.frameType == 100
  {
    var fields := HeaderFields(h);
    ValuesOfHeader(h, []);
    assert fields + [] == fields;
    StoredIsKnown(fields, h);
  }

  lemma StoredIsKnown(fields: seq<Octet>, h: Header)
    requires |fields| == 48 && HasValues(fields, h)
    requires h.headerLen == 52 && h.version == 1 && h.reserved == 0 && h.txPresent <= 1
    ensures FixedFieldsMatch(fields) && ContentsMatch(fields) <==> 1 <= h.frameType <= 9 || h.frameType == 100
  {
    FieldsMatch(fields);
  }

  /**
   The generator of frames for the decoder: the header with a zero checksum first, then the
   checksum written into its place. The decoder accepts the header if and only if it knows the frame type.
   */
  method RpcProtocolFrameSeed(frameType: U32, payload: seq<Octet>, requestId: U64, sessionId: U64)
    returns (frame: seq<Octet>)
    requires |payload| <= U64_MAX
    ensures |frame| == 52 + |payload| && frame[52..] == payload
    ensures HasValues(frame, Header(52, 1, frameType, requestId, sessionId, 701, 1, 0, |payload|, 0))
    ensures HeaderAccepted(frame[..52]) <==> 1 <= frameType <= 9 || frameType == 100
    ensures frame[48..52] == CrcOctets(Crc32(frame[..48] + FOUR_ZEROS))
  {
    var h := Header(52, 1, frameType, requestId, sessionId, 701, 1, 0, |payload|, 0);
    var fields := HeaderFields(h);
    var crc := RpcFrameCrc32(fields + FOUR_ZEROS);
    frame := fields + CrcOctets(crc) + payload;
    SeedFits(h);
    FrameIsMade(h, frame, payload);
  }

  lemma FrameParts<T>(fields: seq<T>, stored: seq<T>, payload: seq<T>)
    requires |fields| == 48 && |stored| == 4
    ensures var frame := fields + stored + payload;
            && frame == fields + (stored + payload) && frame[..52] == fields + stored
            && frame[..48] == fields && frame[48..52] == stored && frame[52..] == payload
  {
  }
}
