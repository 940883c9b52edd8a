/** The on-chain relay (`BitcoinHeaderRelay.sol`): a tip that only moves forward along a
    hash-linked chain, and a bounded ring over the accepted history. A revert is an error result
    that changes nothing. The proof verifier and keccak are parameters. */
module Relay {
  import opened Arith
  import opened Words
  import opened Bytes
  import opened Work
  import opened HeaderChain

  datatype PublicValuesV1 = PublicValuesV1(
    schemaVersion: u32, headerVersion: u32, genesisBlockHash: Bytes32, currentBlockHash: Bytes32,
    prevBlockHash: Bytes32, height: u32, cumulativeChainWork: u256, timestamp: u32, nBits: u32, nonce: u32,
    merkleRoot: Bytes32, medianTimePastWindow: Ring)

  datatype HeaderRecord = HeaderRecord(
    schemaVersion: u32, headerVersion: u32, genesisBlockHash: Bytes32, currentBlockHash: Bytes32,
    prevBlockHash: Bytes32, merkleRoot: Bytes32, cumulativeChainWork: u256, height: u32, timestamp: u32,
    nBits: u32, nonce: u32, medianTimePastWindow: Ring)

  const ZERO_HASH: Bytes32 := seq<u8>(32, _ => 0)
  const ZERO_RECORD :=
    HeaderRecord(0, 0, ZERO_HASH, ZERO_HASH, ZERO_HASH, ZERO_HASH, 0, 0, 0, 0, 0, seq<u32>(11, _ => 0))

  function RecordOf(v: PublicValuesV1): HeaderRecord {
    HeaderRecord(
      v.schemaVersion, v.headerVersion, v.genesisBlockHash, v.currentBlockHash, v.prevBlockHash, v.merkleRoot,
      v.cumulativeChainWork, v.height, v.timestamp, v.nBits, v.nonce, v.medianTimePastWindow)
  }

  datatype RelayError =
    | ProofRejected
    | InvalidPublicValuesLength(length: nat)
    | UnsupportedSchemaVersion(version: u32)
    | GenesisHashMismatch(expected: Bytes32, actual: Bytes32)
    | NonIncreasingHeight(currentHeight: u32, newHeight: u32)
    | NonIncreasingChainWork(currentWork: u256, newWork: u256)
    | PrevHashMismatch(expected: Bytes32, actual: Bytes32)
    | OffsetOutOfRange(offset: nat, available: nat)
    | CapacityZero
    | ZeroAddress

  // ---- packed public values ----

  function BeU32(n: u32): (b: seq<u8>)
    ensures |b| == 4
  {
    BeBytes(n, 4)
  }

  function ReadU32(b: seq<u8>, at: nat): (n: u32)
    requires at + 4 <= |b|
    ensures BeU32(n) == b[at..at + 4]
  {
    ReadFits(b[at..at + 4]);
    BeNat(b[at..at + 4])
  }

  function ReadU256(b: seq<u8>, at: nat): (n: u256)
    requires at + 32 <= |b|
    ensures BeBytes(n, 32) == b[at..at + 32]
  {
    ReadFits(b[at..at + 32]);
    BeNat(b[at..at + 32])
  }

  lemma ReadFits(b: seq<u8>)
    ensures |b| == 4 ==> BeNat(b) < TWO_32
    ensures |b| == 32 ==> BeNat(b) < TWO_256
    ensures BeBytes(BeNat(b), |b|) == b
  {
    hide Pow256, BeNat, BeBytes;
    Pow256Values();
    BeNatBound(b);
    BeRoundTripBytes(b);
  }

  lemma ReadsBack(n: nat)
    ensures n < TWO_32 ==> BeNat(BeBytes(n, 4)) == n
    ensures n < TWO_256 ==> BeNat(BeBytes(n, 32)) == n
  {
    hide Pow256, BeNat, BeBytes;
    Pow256Values();
    if n < TWO_32 {
      BeRoundTrip(n, 4);
    }
    if n < TWO_256 {
      BeRoundTrip(n, 32);
    }
  }

  function WindowBytes(ws: seq<u32>): (b: seq<u8>)
    ensures |b| == 4 * |ws|
  {
    if ws == [] then [] else WindowBytes(ws[..|ws| - 1]) + BeU32(ws[|ws| - 1])
  }

  /** The documented packed layout. */
  function PackedBytes(v: PublicValuesV1): (b: seq<u8>)
    ensures |b| == 228
  {
    BeU32(v.schemaVersion) + BeU32(v.headerVersion) + v.genesisBlockHash + v.currentBlockHash + v.prevBlockHash
    + BeU32(v.height) + BeBytes(v.cumulativeChainWork, 32) + BeU32(v.timestamp) + BeU32(v.nBits) + BeU32(v.nonce)
    + v.merkleRoot + WindowBytes(v.medianTimePastWindow)
  }

  /** Every field of a record at its documented place in the packed bytes. */
  ghost predicate FieldsAt(r: HeaderRecord, b: seq<u8>) {
    && |b| == 228
    && b[0..4] == BeBytes(r.schemaVersion, 4) && b[4..8] == BeBytes(r.headerVersion, 4)
    && b[8..40] == r.genesisBlockHash && b[40..72] == r.currentBlockHash && b[72..104] == r.prevBlockHash
    && b[104..108] == BeBytes(r.height, 4) && b[108..140] == BeBytes(r.cumulativeChainWork, 32)
    && b[140..144] == BeBytes(r.timestamp, 4) && b[144..148] == BeBytes(r.nBits, 4)
    && b[148..152] == BeBytes(r.nonce, 4) && b[152..184] == r.merkleRoot
    && forall i :: 0 <= i < 11 ==> b[184 + 4 * i..188 + 4 * i] == BeBytes(r.medianTimePastWindow[i], 4)
  }

  /** The record stored for a summary has every field of its packed bytes. */
  lemma PackedLayout(v: PublicValuesV1)
    ensures FieldsAt(RecordOf(v), PackedBytes(v))
  {
    hide BeBytes, WindowBytes;
    var b := PackedBytes(v);
    assert b[184..228] == WindowBytes(v.medianTimePastWindow);
    forall i | 0 <= i < 11 ensures b[184 + 4 * i..188 + 4 * i] == BeBytes(v.medianTimePastWindow[i], 4) {
      WindowLayout(v.medianTimePastWindow, i);
      assert b[184 + 4 * i..188 + 4 * i] == b[184..228][4 * i..4 * i + 4];
    }
  }

  lemma {:induction false} WindowLayout(ws: seq<u32>, i: nat)
    requires i < |ws|
    ensures WindowBytes(ws)[4 * i..4 * i + 4] == BeBytes(ws[i], 4)
  {
    hide BeBytes;
    var n, b := |ws| - 1, WindowBytes(ws);
    assert b == WindowBytes(ws[..n]) + BeU32(ws[n]);
    if i == n {
    } else {
      WindowLayout(ws[..n], i);
      assert b[..4 * n] == WindowBytes(ws[..n]);
      assert b[4 * i..4 * i + 4] == b[..4 * n][4 * i..4 * i + 4];
    }
  }

  /** `_decodePublicValues`: fields read at a moving offset, the window in a loop. The result is the
      only record whose packed layout is the input. */
  method DecodePublicValues(b: seq<u8>) returns (r: Result<PublicValuesV1, RelayError>)
    ensures r.Err? <==> |b| != 228
    ensures r.Err? ==> r.error == InvalidPublicValuesLength(|b|)
    ensures r.Ok? ==> PackedBytes(r.value) == b
  {
    hide ReadU32, ReadU256, BeU32, BeBytes, WindowBytes;
    if |b| != 228 {
      return Err(InvalidPublicValuesLength(|b|));
    }
    var offset := 0;
    var schemaVersion := ReadU32(b, offset);
    offset := offset + 4;
    var headerVersion := ReadU32(b, offset);
    offset := offset + 4;
    var genesis := b[offset..offset + 32];
    offset := offset + 32;
    var current := b[offset..offset + 32];
    offset := offset + 32;
    var prev := b[offset..offset + 32];
    offset := offset + 32;
    var height := ReadU32(b, offset);
    offset := offset + 4;
    var work := ReadU256(b, offset);
    offset := offset + 32;
    var timestamp := ReadU32(b, offset);
    offset := offset + 4;
    var nBits := ReadU32(b, offset);
    offset := offset + 4;
    var nonce := ReadU32(b, offset);
    offset := offset + 4;
    var merkleRoot := b[offset..offset + 32];
    offset := offset + 32;
    var window := ReadWindow(b, offset);
    var v := PublicValuesV1(schemaVersion, headerVersion, genesis, current, prev, height, work, timestamp, nBits,
                            nonce, merkleRoot, window);
    CutFields(b);
    return Ok(v);
  }

  lemma CutFields(b: seq<u8>)
    requires |b| == 228
    ensures b == b[0..4] + b[4..8] + b[8..40] + b[40..72] + b[72..104] + b[104..108] + b[108..140] + b[140..144]
                 + b[144..148] + b[148..152] + b[152..184] + b[184..228]
  {}

  method ReadWindow(b: seq<u8>, from: nat) returns (ring: Ring)
    requires from + 44 == |b|
    ensures WindowBytes(ring) == b[from..|b|]
  {
    hide ReadU32, BeU32, WindowBytes;
    WindowEmpty();
    var window := new u32[11](_ => 0);
    var offset := from;
    for i := 0 to 11
      invariant offset == from + 4 * i
      invariant WindowBytes(window[..i]) == b[from..offset]
    {
      WindowSnoc(window[..i], ReadU32(b, offset));
      SliceSnoc(b, from, offset, offset + 4);
      window[i] := ReadU32(b, offset);
      assert window[..i + 1] == window[..i] + [window[i]];
      offset := offset + 4;
    }
    assert window[..11] == window[..];
    return window[..];
  }

  lemma WindowEmpty()
    ensures WindowBytes([]) == []
  {}

  lemma SliceSnoc(b: seq<u8>, from: nat, mid: nat, to: nat)
    requires from <= mid <= to <= |b|
    ensures b[from..to] == b[from..mid] + b[mid..to]
  {}

  lemma WindowSnoc(ws: seq<u32>, x: u32)
    ensures WindowBytes(ws + [x]) == WindowBytes(ws) + BeU32(x)
  {
    assert (ws + [x])[..|ws|] == ws;
  }

  /** The packed layout determines every field. */
  lemma PackedBytesInjective(v: PublicValuesV1, w: PublicValuesV1)
    requires PackedBytes(v) == PackedBytes(w)
    ensures v == w
  {
    hide BeU32, BeBytes, WindowBytes;
    var a, b := PackedBytes(v), PackedBytes(w);
    assert a[0..4] == BeU32(v.schemaVersion) && b[0..4] == BeU32(w.schemaVersion);
    assert a[4..8] == BeU32(v.headerVersion) && b[4..8] == BeU32(w.headerVersion);
    assert a[8..40] == v.genesisBlockHash && b[8..40] == w.genesisBlockHash;
    assert a[40..72] == v.currentBlockHash && b[40..72] == w.currentBlockHash;
    assert a[72..104] == v.prevBlockHash && b[72..104] == w.prevBlockHash;
    assert a[104..108] == BeU32(v.height) && b[104..108] == BeU32(w.height);
    assert a[108..140] == BeBytes(v.cumulativeChainWork, 32) && b[108..140] == BeBytes(w.cumulativeChainWork, 32);
    assert a[140..144] == BeU32(v.timestamp) && b[140..144] == BeU32(w.timestamp);
    assert a[144..148] == BeU32(v.nBits) && b[144..148] == BeU32(w.nBits);
    assert a[148..152] == BeU32(v.nonce) && b[148..152] == BeU32(w.nonce);
    assert a[152..184] == v.merkleRoot && b[152..184] == w.merkleRoot;
    assert a[184..228] == WindowBytes(v.medianTimePastWindow) && b[184..228] == WindowBytes(w.medianTimePastWindow);
    SameWord(v.schemaVersion, w.schemaVersion);
    SameWord(v.headerVersion, w.headerVersion);
    SameWord(v.height, w.height);
    SameWord(v.timestamp, w.timestamp);
    SameWord(v.nBits, w.nBits);
    SameWord(v.nonce, w.nonce);
    ReadsBack(v.cumulativeChainWork);
    ReadsBack(w.cumulativeChainWork);
    SameWindow(v.medianTimePastWindow, w.medianTimePastWindow);
  }

  lemma SameWord(m: u32, n: u32)
    ensures BeU32(m) == BeU32(n) ==> m == n
  {
    hide BeBytes;
    ReadsBack(m);
    ReadsBack(n);
  }

  lemma {:induction false} SameWindow(ws: seq<u32>, xs: seq<u32>)
    requires |ws| == |xs| && WindowBytes(ws) == WindowBytes(xs)
    ensures ws == xs
  {
    hide BeU32;
    if ws == [] {
    } else {
      var n := |ws| - 1;
      var a, b := WindowBytes(ws), WindowBytes(xs);
      assert a[..4 * n] == WindowBytes(ws[..n]) && a[4 * n..] == BeU32(ws[n]);
      assert b[..4 * n] == WindowBytes(xs[..n]) && b[4 * n..] == BeU32(xs[n]);
      SameWindow(ws[..n], xs[..n]);
      SameWord(ws[n], xs[n]);
      assert ws == ws[..n] + [ws[n]] && xs == xs[..n] + [xs[n]];
    }
  }

  // ---- the accepted history ----

  /** `_validateSummary` against the history accepted so far. */
  function Verdict(history: seq<HeaderRecord>, genesis: Bytes32, v: PublicValuesV1): Option<RelayError> {
    if v.schemaVersion != 1 then Some(UnsupportedSchemaVersion(v.schemaVersion))
    else if v.genesisBlockHash != genesis then Some(RelayError.GenesisHashMismatch(genesis, v.genesisBlockHash))
    else if history == [] then None
    else
      var tip := history[|history| - 1];
      if v.height <= tip.height then Some(NonIncreasingHeight(tip.height, v.height))
      else if v.cumulativeChainWork <= tip.cumulativeChainWork then
        Some(NonIncreasingChainWork(tip.cumulativeChainWork, v.cumulativeChainWork))
      else if v.prevBlockHash != tip.currentBlockHash then
        Some(PrevHashMismatch(tip.currentBlockHash, v.prevBlockHash))
      else None
  }

  /** What the relay guarantees of the records it accepted, oldest first: one genesis, each naming
      the hash of the one before, heights and cumulative work growing all the way. */
  ghost predicate Chained(history: seq<HeaderRecord>, genesis: Bytes32) {
    && (forall i :: 0 <= i < |history| ==> history[i].schemaVersion == 1 && history[i].genesisBlockHash == genesis)
    && (forall i :: 0 < i < |history| ==> history[i].prevBlockHash == history[i - 1].currentBlockHash)
    && (forall i, j :: 0 <= i < j < |history| ==>
          history[i].height < history[j].height
          && history[i].cumulativeChainWork < history[j].cumulativeChainWork)
  }

  /** Accepting a summary keeps the chain, and every rejection was necessary: a record can be
      appended to a chain exactly when the relay accepts it. */
  lemma AcceptsExactlyChaining(history: seq<HeaderRecord>, genesis: Bytes32, v: PublicValuesV1)
    requires Chained(history, genesis)
    ensures Verdict(history, genesis, v).None? <==> Chained(history + [RecordOf(v)], genesis)
  {
    var longer, n := history + [RecordOf(v)], |history|;
    if Chained(longer, genesis) {
      assert longer[n] == RecordOf(v);
      if n > 0 {
        assert longer[n - 1] == history[n - 1];
      }
    }
  }

  /** Position of the `k`-th newest of `n` records in a ring. */
  function RingSlot(n: nat, k: nat, capacity: nat): (slot: nat)
    requires k < n && capacity > 0
    ensures slot < capacity
  {
    (n - 1 - k) % capacity
  }

  lemma SlotsApart(i: nat, j: nat, capacity: nat)
    requires i < j < i + capacity
    ensures capacity > 0 && i % capacity != j % capacity
  {
    DivMod(i, capacity);
    DivMod(j, capacity);
    if i % capacity == j % capacity {
      Distribute(j / capacity, i / capacity, capacity);
      SmallMultiple(j / capacity - i / capacity, capacity);
    }
  }

  /** The ring holds the newest records, each in the slot of its position. */
  ghost predicate RingHolds(recent: map<nat, HeaderRecord>, history: seq<HeaderRecord>, capacity: nat)
    requires capacity > 0
  {
    forall k :: 0 <= k < |history| && k < capacity ==> SlotHolds(recent, history, capacity, k)
  }

  ghost predicate SlotHolds(recent: map<nat, HeaderRecord>, history: seq<HeaderRecord>, capacity: nat, k: nat)
    requires capacity > 0 && k < |history|
  {
    var slot := RingSlot(|history|, k, capacity);
    slot in recent && recent[slot] == history[|history| - 1 - k]
  }

  lemma RingAccepts(recent: map<nat, HeaderRecord>, history: seq<HeaderRecord>, capacity: nat, r: HeaderRecord)
    requires capacity > 0 && RingHolds(recent, history, capacity)
    ensures RingHolds(recent[|history| % capacity := r], history + [r], capacity)
  {
    var n, longer := |history|, history + [r];
    var written := recent[n % capacity := r];
    forall k | 0 <= k < n + 1 && k < capacity ensures SlotHolds(written, longer, capacity, k) {
      if k > 0 {
        assert SlotHolds(recent, history, capacity, k - 1);
        SlotsApart(n - k, n, capacity);
      }
    }
  }

  /** Heights are 32-bit and strictly increasing, so the count of accepted records never overflows. */
  lemma {:induction false} HistoryIsShort(history: seq<HeaderRecord>, genesis: Bytes32)
    requires Chained(history, genesis)
    ensures history != [] ==> |history| <= history[|history| - 1].height + 1
    ensures |history| <= TWO_32
  {
    if history == [] {
    } else {
      var init := history[..|history| - 1];
      assert forall i :: 0 <= i < |init| ==> init[i] == history[i];
      HistoryIsShort(init, genesis);
    }
  }

  /** The `verifyProof` of the contract at an address: whether it returns. */
  type Verifier = (Bytes32, seq<u8>, seq<u8>) -> bool

  type Address = nat

  /** The event of an accepted submission. */
  datatype HeaderAccepted = HeaderAccepted(
    slot: nat, height: u32, currentBlockHash: Bytes32, prevBlockHash: Bytes32, genesisBlockHash: Bytes32,
    cumulativeChainWork: u256, proofHash: Bytes32)

  /** An event says where a record went and what it and its proof are. */
  ghost predicate EventAt(e: HeaderAccepted, b: seq<u8>, slot: nat, proofHash: Bytes32) {
    && |b| == 228
    && e.slot == slot && e.proofHash == proofHash
    && b[8..40] == e.genesisBlockHash && b[40..72] == e.currentBlockHash && b[72..104] == e.prevBlockHash
    && b[104..108] == BeBytes(e.height, 4) && b[108..140] == BeBytes(e.cumulativeChainWork, 32)
  }

  lemma EventLayout(r: HeaderRecord, b: seq<u8>, slot: nat, proofHash: Bytes32)
    requires FieldsAt(r, b)
    ensures EventAt(EventOf(r, slot, proofHash), b, slot, proofHash)
  {}

  function EventOf(r: HeaderRecord, slot: nat, proofHash: Bytes32): HeaderAccepted {
    HeaderAccepted(slot, r.height, r.currentBlockHash, r.prevBlockHash, r.genesisBlockHash, r.cumulativeChainWork,
                   proofHash)
  }

  /** One event per accepted record, in order, naming the slot it went to. */
  ghost predicate Logged(events: seq<HeaderAccepted>, history: seq<HeaderRecord>, capacity: nat)
    requires capacity > 0
  {
    && |events| == |history|
    && forall i :: 0 <= i < |history| ==> events[i] == EventOf(history[i], i % capacity, events[i].proofHash)
  }

  lemma LogGrows(events: seq<HeaderAccepted>, history: seq<HeaderRecord>, capacity: nat, r: HeaderRecord, proofHash: Bytes32)
    requires capacity > 0 && Logged(events, history, capacity)
    ensures Logged(events + [EventOf(r, |history| % capacity, proofHash)], history + [r], capacity)
  {}

  class BitcoinHeaderRelay {
    const verifier: Verifier
    const keccak: seq<u8> -> Bytes32
    const programKey: Bytes32
    const genesisBlockHash: Bytes32
    const capacity: u256

    var acceptedCount: u256
    var hasTip: bool
    var latestProofHash: Bytes32
    var latestTip: HeaderRecord
    var recentHeaders: map<nat, HeaderRecord>
    var events: seq<HeaderAccepted>

    ghost var history: seq<HeaderRecord>

    ghost predicate Valid()
      reads this
    {
      && capacity > 0
      && acceptedCount == |history| && (hasTip <==> history != [])
      && (hasTip ==> latestTip == history[|history| - 1])
      && Chained(history, genesisBlockHash)
      && RingHolds(recentHeaders, history, capacity)
      && Logged(events, history, capacity)
    }

    constructor (verifier: Verifier, keccak: seq<u8> -> Bytes32, programKey: Bytes32, genesisBlockHash: Bytes32,
                 capacity: u256)
      requires capacity > 0
      ensures Valid() && history == []
      ensures this.verifier == verifier && this.keccak == keccak && this.programKey == programKey
      ensures this.genesisBlockHash == genesisBlockHash && this.capacity == capacity
    {
      this.verifier, this.keccak, this.programKey := verifier, keccak, programKey;
      this.genesisBlockHash, this.capacity := genesisBlockHash, capacity;
      acceptedCount, hasTip, latestProofHash := 0, false, ZERO_HASH;
      latestTip, recentHeaders, events, history := ZERO_RECORD, map[], [], [];
    }

    /** Deployment: the zero address and a relay without room for any record are refused. */
    static method Deploy(address: Address, contracts: Address -> Verifier, keccak: seq<u8> -> Bytes32,
                         programKey: Bytes32, genesisBlockHash: Bytes32, capacity: u256)
      returns (r: Result<BitcoinHeaderRelay, RelayError>)
      ensures r.Err? <==> address == 0 || capacity == 0
      ensures r.Err? ==> r.error == if address == 0 then ZeroAddress else CapacityZero
      ensures r.Ok? ==> fresh(r.value) && r.value.Valid() && r.value.history == [] && r.value.capacity == capacity
                        && r.value.verifier == contracts(address) && r.value.keccak == keccak
                        && r.value.genesisBlockHash == genesisBlockHash && r.value.programKey == programKey
    {
      if address == 0 {
        return Err(ZeroAddress);
      }
      if capacity == 0 {
        return Err(CapacityZero);
      }
      var relay := new BitcoinHeaderRelay(contracts(address), keccak, programKey, genesisBlockHash, capacity);
      return Ok(relay);
    }

    method ValidateSummary(v: PublicValuesV1) returns (error: Option<RelayError>)
      requires Valid()
      ensures error == Verdict(history, genesisBlockHash, v)
      ensures error.None? <==> Chained(history + [RecordOf(v)], genesisBlockHash)
    {
      hide Chained, RingHolds;
      AcceptsExactlyChaining(history, genesisBlockHash, v);
      if v.schemaVersion != 1 {
        return Some(UnsupportedSchemaVersion(v.schemaVersion));
      }
      if v.genesisBlockHash != genesisBlockHash {
        return Some(RelayError.GenesisHashMismatch(genesisBlockHash, v.genesisBlockHash));
      }
      if hasTip {
        if v.height <= latestTip.height {
          return Some(NonIncreasingHeight(latestTip.height, v.height));
        }
        if v.cumulativeChainWork <= latestTip.cumulativeChainWork {
          return Some(NonIncreasingChainWork(latestTip.cumulativeChainWork, v.cumulativeChainWork));
        }
        if v.prevBlockHash != latestTip.currentBlockHash {
          return Some(PrevHashMismatch(latestTip.currentBlockHash, v.prevBlockHash));
        }
      }
      return None;
    }

    /** A submission is appended to the history or changes nothing. */
    method Submit(publicValues: seq<u8>, proofBytes: seq<u8>) returns (r: Result<PublicValuesV1, RelayError>)
      requires Valid()
      modifies this
      ensures Valid()
      ensures r.Ok? <==> verifier(programKey, publicValues, proofBytes)
                         && exists v :: PackedBytes(v) == publicValues
                                        && Chained(old(history) + [RecordOf(v)], genesisBlockHash)
      ensures r.Ok? ==> PackedBytes(r.value) == publicValues
                        && history == old(history) + [RecordOf(r.value)] && latestProofHash == keccak(proofBytes)
                        && events == old(events) + [EventOf(RecordOf(r.value), |old(history)| % capacity,
                                                            keccak(proofBytes))]
      ensures r.Ok? ==> latestTip == history[|history| - 1] && FieldsAt(latestTip, publicValues)
                        && EventAt(events[|events| - 1], publicValues, |old(history)| % capacity, keccak(proofBytes))
      ensures r.Err? ==> unchanged(this)
      ensures r.Err? ==>
                if !verifier(programKey, publicValues, proofBytes) then r.error == ProofRejected
                else if |publicValues| != 228 then r.error == InvalidPublicValuesLength(|publicValues|)
                else exists v :: PackedBytes(v) == publicValues
                                 && Verdict(old(history), genesisBlockHash, v) == Some(r.error)
    {
      hide PackedBytes, Chained, RingHolds, Verdict, Logged, FieldsAt, EventAt;
      if !verifier(programKey, publicValues, proofBytes) {
        return Err(ProofRejected);
      }
      var summary := DecodePublicValues(publicValues);
      if summary.Err? {
        return summary;
      }
      var v := summary.value;
      OnlyDecoding(v, publicValues, history, genesisBlockHash);
      AcceptsExactlyChaining(history, genesisBlockHash, v);
      var error := ValidateSummary(v);
      if error.Some? {
        return Err(error.value);
      }
      HistoryIsShort(history, genesisBlockHash);
      RingAccepts(recentHeaders, history, capacity, RecordOf(v));
      LogGrows(events, history, capacity, RecordOf(v), keccak(proofBytes));
      PackedLayout(v);
      EventLayout(RecordOf(v), publicValues, |history| % capacity, keccak(proofBytes));
      var record := RecordOf(v);
      var slot := acceptedCount % capacity;
      recentHeaders := recentHeaders[slot := record];
      latestTip := record;
      latestProofHash := keccak(proofBytes);
      hasTip := true;
      acceptedCount := acceptedCount + 1;
      history := history + [record];
      events := events + [EventOf(record, slot, latestProofHash)];
      return Ok(v);
    }

    function Available(): nat
      reads this
    {
      if acceptedCount < capacity then acceptedCount else capacity
    }

    /** Offset 0 is the newest accepted record, 1 the one before, and so on. */
    method GetHeaderByOffset(offset: nat) returns (r: Result<HeaderRecord, RelayError>)
      requires Valid()
      ensures r.Ok? <==> offset < |history| && offset < capacity
      ensures r.Ok? ==> r.value == history[|history| - 1 - offset]
      ensures r.Err? ==> r.error == OffsetOutOfRange(offset, Available())
    {
      if offset >= Available() {
        return Err(OffsetOutOfRange(offset, Available()));
      }
      assert SlotHolds(recentHeaders, history, capacity, offset);
      return Ok(recentHeaders[RingSlot(acceptedCount, offset, capacity)]);
    }

    /** The newest `count` records, newest first. */
    method GetRecentHeaders(count: nat) returns (r: Result<seq<HeaderRecord>, RelayError>)
      requires Valid()
      ensures r.Ok? <==> count <= |history| && count <= capacity
      ensures r.Ok? ==> |r.value| == count && forall k :: 0 <= k < count ==> r.value[k] == history[|history| - 1 - k]
      ensures r.Err? ==> r.error == OffsetOutOfRange(count, Available())
    {
      if count > Available() {
        return Err(OffsetOutOfRange(count, Available()));
      }
      var headers: seq<HeaderRecord> := [];
      for i := 0 to count
        invariant |headers| == i && forall k :: 0 <= k < i ==> headers[k] == history[|history| - 1 - k]
      {
        assert SlotHolds(recentHeaders, history, capacity, i);
        headers := headers + [recentHeaders[RingSlot(acceptedCount, i, capacity)]];
      }
      return Ok(headers);
    }
  }

  lemma OnlyDecoding(v: PublicValuesV1, b: seq<u8>, history: seq<HeaderRecord>, genesis: Bytes32)
    requires PackedBytes(v) == b
    ensures (exists w :: PackedBytes(w) == b && Chained(history + [RecordOf(w)], genesis))
            <==> Chained(history + [RecordOf(v)], genesis)
  {
    hide PackedBytes, Chained, RecordOf;
    forall w | PackedBytes(w) == b ensures w == v {
      PackedBytesInjective(v, w);
    }
  }
}
