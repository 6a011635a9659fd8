/**
 The frame codec: a header and a payload in one run of octets, the scanner that takes one frame
 off the front of a buffer, and the loop that takes a bounded number of frames off a batch.

 `Holds(bytes, frame)` is the relation the two halves share. The encoder produces octets that hold
 its frame, the scanner finds a frame exactly where one is held, and a batch is read in one way only.
 */
module FrameCodec {
  import opened Common
  import opened BitWords
  import opened FrameCrc
  import opened FrameHeaders
  import opened Records

  const MAX_PAYLOAD: nat := 16 * 1024 * 1024
  const MAX_SCAN_FRAMES: nat := 4096

  type FrameType = t: nat | t in FRAME_TYPES witness 1

  /** A frame. The payload length and the checksum of its header follow from the rest. */
  datatype Frame = Frame(
    frameType: FrameType,
    requestId: U64,
    sessionId: U64,
    txId: Option<U64>,
    flags: U32,
    payload: seq<Octet>)

  // ---------------------------------------------------------------- encoder

  /** The numbers of a frame's header. */
  function HeaderOf(f: Frame): Header
  {
    Header(HEADER_LEN, VERSION, f.frameType, f.requestId, f.sessionId, if f.txId.Some? then f.txId.value else 0,
           if f.txId.Some? then 1 else 0, 0, |f.payload|, f.flags)
  }

  /** All flags are reserved and zero, and the payload is at most 16 MiB. */
  predicate Allowed(f: Frame)
  {
    f.flags == 0 && |f.payload| <= MAX_PAYLOAD
  }

  /** The header sealed with its checksum, and the payload behind it. */
  function Wire(f: Frame): seq<Octet>
  {
    Sealed(HeaderOf(f)) + f.payload
  }

  function Encode(f: Frame): (r: Option<seq<Octet>>)
    ensures r.Some? <==> f.flags == 0 && |f.payload| <= 0x100_0000
  {
    if Allowed(f) then Some(Wire(f)) else None
  }

  // ---------------------------------------------------------------- what octets hold

  /** The octets are one whole frame, and the frame is `f`. Without a marker the transaction id is not looked at. */
  ghost predicate Holds(bytes: seq<Octet>, f: Frame)
  {
    && |bytes| == 52 + |f.payload| && bytes[52..] == f.payload && f.flags == 0 && |f.payload| <= 0x100_0000
    && HeaderAccepted(bytes[..52])
    && HasFields(bytes, f)
  }

  ghost predicate HasFields(bytes: seq<Octet>, f: Frame)
  {
    && Stores(bytes, 4, 4, f.frameType) && Stores(bytes, 8, 8, f.requestId) && Stores(bytes, 16, 8, f.sessionId)
    && Stores(bytes, 32, 1, if f.txId.Some? then 1 else 0)
    && (f.txId.Some? ==> Stores(bytes, 24, 8, f.txId.value))
    && Stores(bytes, 36, 8, |f.payload|) && Stores(bytes, 44, 4, f.flags)
  }

  lemma HeaderFits(f: Frame)
    requires Allowed(f)
    ensures Fits(HeaderOf(f))
  {
    Powers();
  }

  lemma FieldsOfValues(f: Frame, h: Header, bytes: seq<Octet>)
    requires h == HeaderOf(f) && HasValues(bytes, h)
    ensures HasFields(bytes, f)
  {
  }

  lemma MadeIsHeld(f: Frame, h: Header, bytes: seq<Octet>)
    requires Allowed(f) && h == HeaderOf(f) && IsMade(bytes, h, f.payload)
    ensures Holds(bytes, f)
  {
    FieldsOfValues(f, h, bytes);
  }

  lemma WireIsMade(f: Frame, h: Header)
    requires Allowed(f) && h == HeaderOf(f)
    ensures IsMade(Wire(f), h, f.payload)
  {
    HeaderFits(f);
    FrameIsMade(h, Wire(f), f.payload);
  }

  /** What is encoded is held. */
  lemma EncodedIsHeld(f: Frame)
    requires Encode(f).Some?
    ensures Holds(Encode(f).value, f)
  {
    WireIsMade(f, HeaderOf(f));
    MadeIsHeld(f, HeaderOf(f), Wire(f));
  }

  // ---------------------------------------------------------------- scanner

  /** Everything the scanner checks in a header. */
  predicate IsPassable(header: seq<Octet>)
    requires |header| == HEADER_LEN
  {
    HeaderAccepted(header) && Value(header[44..48]) == 0 && Value(header[36..44]) <= MAX_PAYLOAD
  }

  function FrameLen(bytes: seq<Octet>): nat
    requires |bytes| >= HEADER_LEN
  {
    HEADER_LEN + Value(bytes[36..44])
  }

  /** A header that passes every check, and as many octets behind it as it says. */
  predicate IsScannable(bytes: seq<Octet>)
  {
    |bytes| >= HEADER_LEN && IsPassable(bytes[..HEADER_LEN]) && FrameLen(bytes) <= |bytes|
  }

  function TxIdOf(bytes: seq<Octet>): Option<nat>
    requires |bytes| >= HEADER_LEN
  {
    if Value(bytes[32..33]) == 1 then Some(Value(bytes[24..32])) else None
  }

  /** Take one frame off the front of a buffer, with its length. */
  function ScanOne(bytes: seq<Octet>): Option<(Frame, nat)>
  {
    if !IsScannable(bytes) then None
    else
      NumbersFit(bytes);
      Some((Frame(Value(bytes[4..8]), Value(bytes[8..16]), Value(bytes[16..24]), TxIdOf(bytes), Value(bytes[44..48]),
                  bytes[HEADER_LEN..FrameLen(bytes)]),
            FrameLen(bytes)))
  }

  lemma NumbersFit(bytes: seq<Octet>)
    requires IsScannable(bytes)
    ensures Value(bytes[4..8]) in FRAME_TYPES && Value(bytes[8..16]) <= U64_MAX && Value(bytes[16..24]) <= U64_MAX
    ensures Value(bytes[24..32]) <= U64_MAX && Value(bytes[44..48]) == 0 && Value(bytes[32..33]) <= 1
    ensures Value(bytes[36..44]) <= MAX_PAYLOAD
  {
    Powers();
    ValueIsBounded(bytes[8..16]);
    ValueIsBounded(bytes[16..24]);
    ValueIsBounded(bytes[24..32]);
    Checked(bytes);
  }

  lemma Checked(bytes: seq<Octet>)
    requires |bytes| >= 52
    ensures IsPassable(bytes[..52]) <==> HeaderAccepted(bytes[..52]) && Value(bytes[44..48]) == 0
                                         && Value(bytes[36..44]) <= MAX_PAYLOAD
    ensures HeaderAccepted(bytes[..52]) ==> Value(bytes[4..8]) in FRAME_TYPES && Value(bytes[32..33]) <= 1
  {
    SliceOfTake(bytes, 52, 44, 48);
    SliceOfTake(bytes, 52, 36, 44);
    SliceOfTake(bytes, 52, 4, 8);
    SliceOfTake(bytes, 52, 32, 33);
    SliceOfTake(bytes[..52], 48, 4, 8);
    SliceOfTake(bytes[..52], 48, 32, 33);
  }

  lemma StoresInTake(bytes: seq<Octet>, n: nat, at: nat, k: nat, v: nat)
    requires at + k <= n <= |bytes|
    ensures Stores(bytes[..n], at, k, v) <==> Stores(bytes, at, k, v)
  {
    SliceOfTake(bytes, n, at, at + k);
  }

  lemma FieldsInTake(bytes: seq<Octet>, f: Frame, n: nat)
    requires 52 <= n <= |bytes|
    ensures HasFields(bytes[..n], f) <==> HasFields(bytes, f)
  {
    StoresInTake(bytes, n, 4, 4, f.frameType);
    StoresInTake(bytes, n, 8, 8, f.requestId);
    StoresInTake(bytes, n, 16, 8, f.sessionId);
    StoresInTake(bytes, n, 32, 1, if f.txId.Some? then 1 else 0);
    if f.txId.Some? {
      StoresInTake(bytes, n, 24, 8, f.txId.value);
    }
    StoresInTake(bytes, n, 36, 8, |f.payload|);
    StoresInTake(bytes, n, 44, 4, f.flags);
  }

  /** The parts of the first `n` octets are the parts of the buffer. */
  lemma TakeParts<T>(bytes: seq<T>, n: nat)
    requires 52 <= n <= |bytes|
    ensures bytes[..n][..52] == bytes[..52] && bytes[..n][52..] == bytes[52..n]
  {
  }

  lemma ScannedIsHeld(bytes: seq<Octet>)
    requires ScanOne(bytes).Some?
    ensures var (f, n) := ScanOne(bytes).value; n <= |bytes| && Holds(bytes[..n], f)
  {
    var (f, n) := ScanOne(bytes).value;
    TakeParts(bytes, n);
    NumbersFit(bytes);
    Checked(bytes);
    FieldsInTake(bytes, f, n);
  }

  lemma HeldIsScanned(bytes: seq<Octet>, f: Frame, n: nat)
    requires n <= |bytes| && Holds(bytes[..n], f)
    ensures ScanOne(bytes) == Some((f, n))
  {
    TakeParts(bytes, n);
    FieldsInTake(bytes, f, n);
    FieldsAre(bytes, f);
    Checked(bytes);
  }

  lemma FieldsAre(bytes: seq<Octet>, f: Frame)
    requires |bytes| >= 52 && HasFields(bytes, f)
    ensures Value(bytes[4..8]) == f.frameType && Value(bytes[8..16]) == f.requestId
    ensures Value(bytes[16..24]) == f.sessionId && TxIdOf(bytes) == f.txId
    ensures Value(bytes[44..48]) == f.flags && FrameLen(bytes) == 52 + |f.payload|
  {
  }

  /** The scanner answers with `f` and `n` exactly when the first `n` octets hold `f`. */
  lemma ScansWhatIsHeld(bytes: seq<Octet>, f: Frame, n: nat)
    ensures ScanOne(bytes) == Some((f, n)) <==> n <= |bytes| && Holds(bytes[..n], f)
  {
    if ScanOne(bytes).Some? {
      ScannedIsHeld(bytes);
    }
    if n <= |bytes| && Holds(bytes[..n], f) {
      HeldIsScanned(bytes, f, n);
    }
  }

  /** Of two frames none is the beginning of the other, so frames need no separators. */
  lemma FramesAreSelfDelimiting()
    ensures IsCode(Holds) && IsScanner(ScanOne, Holds)
  {
    forall a, f, b, g | Holds(a, f) && Holds(b, g) && a <= b ensures a == b && f == g {
      assert b[..|a|] == a && b[..|b|] == b;
      HeldIsScanned(b, f, |a|);
      HeldIsScanned(b, g, |b|);
    }
    forall bytes, f, n: nat ensures ScanOne(bytes) == Some((f, n)) <==> n <= |bytes| && Holds(bytes[..n], f) {
      ScansWhatIsHeld(bytes, f, n);
    }
  }

  // ---------------------------------------------------------------- batches

  /**
   Take all frames off a batch. The answer is `fs` exactly when the batch is those frames and there are
   at most 4096, and resources run out exactly when 4096 frames are followed by more octets.
   */
  method ScanAll(bytes: seq<Octet>) returns (r: Result<seq<Frame>, ScanError>)
    ensures forall fs :: r == Ok(fs) <==> Splits(Holds, bytes, fs) && |fs| <= 4096
    ensures r == Err(Resource) <==> exists fs, n :: Exceeds(Holds, bytes, 4096, fs, n)
  {
    FramesAreSelfDelimiting();
    r := ScanRecords(ScanOne, Holds, MAX_SCAN_FRAMES, bytes);
  }

  /** A batch of encoded frames comes back as those frames, up to the limit, and runs out of resources beyond it. */
  method RoundTrip(fs: seq<Frame>) returns (r: Result<seq<Frame>, ScanError>)
    requires forall i :: 0 <= i < |fs| ==> Encode(fs[i]).Some?
    ensures r == if |fs| <= 4096 then Ok(fs) else Err(Resource)
  {
    var bytes := Joined(Wire, fs);
    BatchSplits(fs);
    if |fs| > 4096 {
      BatchExceeds(fs);
    }
    r := ScanAll(bytes);
  }

  lemma BatchSplits(fs: seq<Frame>)
    requires forall i :: 0 <= i < |fs| ==> Encode(fs[i]).Some?
    ensures Splits(Holds, Joined(Wire, fs), fs)
  {
    forall i | 0 <= i < |fs| ensures Holds(Wire(fs[i]), fs[i]) {
      EncodedIsHeld(fs[i]);
    }
    JoinedSplits(Wire, Holds, fs);
  }

  lemma BatchExceeds(fs: seq<Frame>)
    requires |fs| > 4096 && Splits(Holds, Joined(Wire, fs), fs)
    ensures exists gs, n :: Exceeds(Holds, Joined(Wire, fs), 4096, gs, n)
  {
    FramesAreSelfDelimiting();
    LongerExceeds(Holds, Joined(Wire, fs), fs, 4096);
  }

  // ---------------------------------------------------------------- from octets to octets

  /** A transaction id is stored only behind its marker. */
  ghost predicate IsCanonical(bytes: seq<Octet>)
  {
    |bytes| >= 52 && (Value(bytes[32..33]) == 0 ==> Value(bytes[24..32]) == 0)
  }

  lemma WireIsCanonical(f: Frame)
    requires Allowed(f)
    ensures IsCanonical(Wire(f))
  {
    WireIsMade(f, HeaderOf(f));
    MadeIsCanonical(f, HeaderOf(f), Wire(f));
  }

  lemma MadeIsCanonical(f: Frame, h: Header, bytes: seq<Octet>)
    requires h == HeaderOf(f) && IsMade(bytes, h, f.payload)
    ensures IsCanonical(bytes)
  {
    assert Stores(bytes, 32, 1, h.txPresent) && Stores(bytes, 24, 8, h.txId);
  }

  lemma SameNumber(a: seq<Octet>, b: seq<Octet>)
    requires |a| == |b| && Value(a) == Value(b)
    ensures a == b
  {
    BeOctetsOfValue(a);
    BeOctetsOfValue(b);
  }

  lemma SameStored(a: seq<Octet>, b: seq<Octet>, at: nat, k: nat, n: nat)
    requires Stores(a, at, k, n) && Stores(b, at, k, n)
    ensures a[at..at + k] == b[at..at + k]
  {
    SameNumber(a[at..at + k], b[at..at + k]);
  }

  ghost predicate SameOn<T>(a: seq<T>, b: seq<T>, from: nat, to: nat)
  {
    from <= to <= |a| && to <= |b| && a[from..to] == b[from..to]
  }

  lemma SameOnBoth<T>(a: seq<T>, b: seq<T>, from: nat, mid: nat, to: nat)
    requires SameOn(a, b, from, mid) && SameOn(a, b, mid, to)
    ensures SameOn(a, b, from, to)
  {
    assert a[from..to] == a[from..mid] + a[mid..to] && b[from..to] == b[from..mid] + b[mid..to];
  }

  lemma AcceptedStores(bytes: seq<Octet>)
    requires |bytes| >= 52 && HeaderAccepted(bytes[..52])
    ensures Stores(bytes, 0, 2, 52) && Stores(bytes, 2, 2, 1) && Stores(bytes, 33, 3, 0)
    ensures bytes[48..52] == CrcOctets(Crc32(bytes[..48] + FOUR_ZEROS))
  {
    var header := bytes[..52];
    assert header[..48] == bytes[..48] && header[48..] == bytes[48..52];
    SliceOfTake(bytes, 48, 0, 2);
    SliceOfTake(bytes, 48, 2, 4);
    SliceOfTake(bytes, 48, 33, 36);
  }

  lemma TxIdStored(bytes: seq<Octet>, f: Frame)
    requires Holds(bytes, f) && IsCanonical(bytes)
    ensures Stores(bytes, 24, 8, if f.txId.Some? then f.txId.value else 0)
  {
    FieldsAre(bytes, f);
  }

  ghost predicate StoresAll(bytes: seq<Octet>, f: Frame)
  {
    && HasFields(bytes, f) && Stores(bytes, 0, 2, 52) && Stores(bytes, 2, 2, 1) && Stores(bytes, 33, 3, 0)
    && Stores(bytes, 24, 8, if f.txId.Some? then f.txId.value else 0)
  }

  /** The first 48 octets of canonical octets follow from the frame. */
  lemma SameFields(a: seq<Octet>, b: seq<Octet>, f: Frame)
    requires Holds(a, f) && Holds(b, f) && IsCanonical(a) && IsCanonical(b)
    ensures SameOn(a, b, 0, 48)
  {
    AcceptedStores(a);
    AcceptedStores(b);
    TxIdStored(a, f);
    TxIdStored(b, f);
    SameIds(a, b, f);
    SameTail(a, b, f);
    SameOnBoth(a, b, 0, 24, 48);
  }

  lemma SameIds(a: seq<Octet>, b: seq<Octet>, f: Frame)
    requires StoresAll(a, f) && StoresAll(b, f)
    ensures SameOn(a, b, 0, 24)
  {
    SameStored(a, b, 0, 2, 52);
    SameStored(a, b, 2, 2, 1);
    SameOnBoth(a, b, 0, 2, 4);
    SameStored(a, b, 4, 4, f.frameType);
    SameOnBoth(a, b, 0, 4, 8);
    SameStored(a, b, 8, 8, f.requestId);
    SameOnBoth(a, b, 0, 8, 16);
    SameStored(a, b, 16, 8, f.sessionId);
    SameOnBoth(a, b, 0, 16, 24);
  }

  lemma SameTail(a: seq<Octet>, b: seq<Octet>, f: Frame)
    requires StoresAll(a, f) && StoresAll(b, f)
    ensures SameOn(a, b, 24, 48)
  {
    SameStored(a, b, 24, 8, if f.txId.Some? then f.txId.value else 0);
    SameStored(a, b, 32, 1, if f.txId.Some? then 1 else 0);
    SameOnBoth(a, b, 24, 32, 33);
    SameStored(a, b, 33, 3, 0);
    SameOnBoth(a, b, 24, 33, 36);
    SameStored(a, b, 36, 8, |f.payload|);
    SameOnBoth(a, b, 24, 36, 44);
    SameStored(a, b, 44, 4, f.flags);
    SameOnBoth(a, b, 24, 44, 48);
  }

  lemma CanonicalIsUnique(a: seq<Octet>, b: seq<Octet>, f: Frame)
    requires Holds(a, f) && Holds(b, f) && IsCanonical(a) && IsCanonical(b)
    ensures a == b
  {
    SameFields(a, b, f);
    AcceptedStores(a);
    AcceptedStores(b);
    SameOnBoth(a, b, 0, 48, 52);
    assert a == a[0..52] + a[52..] && b == b[0..52] + b[52..];
  }

  /** Decoding and encoding again changes nothing exactly if no transaction id is stored without its marker. */
  lemma ReencodedExactly(bytes: seq<Octet>, f: Frame)
    requires Holds(bytes, f)
    ensures Encode(f).Some? && (Encode(f).value == bytes <==> IsCanonical(bytes))
  {
    EncodedIsHeld(f);
    WireIsCanonical(f);
    if IsCanonical(bytes) {
      CanonicalIsUnique(bytes, Wire(f), f);
    }
  }
}
