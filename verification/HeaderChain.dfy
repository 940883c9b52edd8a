/** The header rules of `state.rs` as a function on values: one header at a time, chain work added
    per header, the median recomputed by sorting. The imperative state machine is proved equal to
    this, and the laws about whole runs are proved here and in the modules that import it. */
module HeaderChain {
  import opened Words
  import opened Bytes
  import opened Work
  import opened Retarget
  import opened Median

  const WINDOW_SIZE: nat := 11

  datatype Header = Header(
    version: u32, prevBlockhash: Bytes32, merkleRoot: Bytes32, timestamp: u32, compactTarget: u32, nonce: u32)

  datatype NewHeader = NewHeader(version: u32, merkleRoot: Bytes32, timestamp: u32, nonce: u32)

  function FromHeader(h: Header): NewHeader {
    NewHeader(h.version, h.merkleRoot, h.timestamp, h.nonce)
  }

  function IntoHeader(n: NewHeader, prevBlockhash: Bytes32, compactTarget: u32): Header {
    Header(n.version, prevBlockhash, n.merkleRoot, n.timestamp, compactTarget, n.nonce)
  }

  type Ring = s: seq<u32> | |s| == 11 witness seq(11, _ => 0)

  /** The value of a `State`. */
  datatype Snapshot = Snapshot(
    header: Header,
    blockHash: Bytes32,
    genesisHash: Bytes32,
    currentNbits: u32,
    height: u32,
    chainWork: u256,
    currentWork: u256,
    currentTarget: u256,
    epochStart: u32,
    timestamps: Ring)

  datatype Claim = Claim(genesisHash: Bytes32, tipHash: Bytes32, chainWork: u256, height: u32)

  datatype ContinuationData = ContinuationData(
    currentNbits: u32, currentWork: u256, currentTarget: u256, epochStart: u32, timestamps: Ring)

  function PublicClaim(s: Snapshot): Claim {
    Claim(s.genesisHash, s.blockHash, s.chainWork, s.height)
  }

  function Continuation(s: Snapshot): ContinuationData {
    ContinuationData(s.currentNbits, s.currentWork, s.currentTarget, s.epochStart, s.timestamps)
  }

  datatype ErrorCode = HeaderPayloadLengthInvalid | PowInsufficient | TimestampTooOld | GenesisHashMismatch

  datatype ApplyFailure = ApplyFailure(lastValidState: Snapshot, errorCode: ErrorCode, failureHeight: u32)

  /** What applying headers comes to; `Panicked` is a failed assertion (a wrong median hint or a
      hint count that does not match). */
  datatype Outcome = Applied(state: Snapshot) | Rejected(failure: ApplyFailure) | Panicked

  // ---- one header ----

  function TimestampCount(height: u32): (n: nat)
    ensures 1 <= n <= WINDOW_SIZE
  {
    if height + 1 < WINDOW_SIZE then height + 1 else WINDOW_SIZE
  }

  function CurrentSlot(height: u32): (i: nat)
    ensures i < WINDOW_SIZE
  {
    height % WINDOW_SIZE
  }

  /** The tracked timestamps: the filled part of the ring. */
  function Window(s: Snapshot): (w: seq<u32>)
    ensures |w| == TimestampCount(s.height)
  {
    s.timestamps[..TimestampCount(s.height)]
  }

  function MedianTimePast(s: Snapshot): u32 {
    MedianOf(Window(s))
  }

  /** `height + 1` in 32 bits; overflow wraps, as in a release build. */
  function NextHeight(height: u32): u32 {
    (height + 1) % 0x1_0000_0000
  }

  predicate AtBoundary(height: u32) {
    height % EPOCH_LENGTH == 0
  }

  datatype Difficulty = Difficulty(nbits: u32, target: u256, work: u256)

  function CurrentDifficulty(s: Snapshot): Difficulty {
    Difficulty(s.currentNbits, s.currentTarget, s.currentWork)
  }

  /** Seconds from the epoch start to the tip; negative when the tip's clock is behind. */
  function Elapsed(s: Snapshot): int {
    (s.timestamps[CurrentSlot(s.height)] as int) - s.epochStart
  }

  function EpochDifficulty(s: Snapshot): Difficulty {
    var target := NextTarget(s.currentTarget, Elapsed(s));
    Difficulty(NextBits(s.currentTarget, Elapsed(s)), target, WorkOf(target))
  }

  /** The difficulty the next header must meet. */
  function ActiveDifficulty(s: Snapshot): Difficulty {
    if AtBoundary(NextHeight(s.height)) then EpochDifficulty(s) else CurrentDifficulty(s)
  }

  function NextHeader(s: Snapshot, n: NewHeader): Header {
    IntoHeader(n, s.blockHash, ActiveDifficulty(s).nbits)
  }

  function Extend(s: Snapshot, header: Header, blockHash: Bytes32, d: Difficulty): Snapshot {
    var height := NextHeight(s.height);
    Snapshot(
      header, blockHash, s.genesisHash, d.nbits, height, Wrap256(s.chainWork + d.work), d.work, d.target,
      if AtBoundary(height) then header.timestamp else s.epochStart,
      s.timestamps[height % WINDOW_SIZE := header.timestamp])
  }

  function Step(s: Snapshot, n: NewHeader, hint: u32, hash: Header -> Bytes32): Outcome {
    if hint != MedianTimePast(s) then
      Panicked
    else if n.timestamp <= hint then
      Rejected(ApplyFailure(s, TimestampTooOld, NextHeight(s.height)))
    else
      var d, header := ActiveDifficulty(s), NextHeader(s, n);
      if LeNat(hash(header)) > d.target then
        Rejected(ApplyFailure(s, PowInsufficient, NextHeight(s.height)))
      else
        Applied(Extend(s, header, hash(header), d))
  }

  // ---- runs ----

  /** Headers are applied in order until one is not accepted. */
  function Run(s: Snapshot, hs: seq<NewHeader>, ms: seq<u32>, hash: Header -> Bytes32): Outcome
    requires |hs| == |ms|
    decreases |hs|
  {
    if hs == [] then
      Applied(s)
    else
      var o := Step(s, hs[0], ms[0], hash);
      if o.Applied? then Run(o.state, hs[1..], ms[1..], hash) else o
  }

  /** Continue after an outcome: only a success goes on. */
  function Then(o: Outcome, hs: seq<NewHeader>, ms: seq<u32>, hash: Header -> Bytes32): Outcome
    requires |hs| == |ms|
  {
    if o.Applied? then Run(o.state, hs, ms, hash) else o
  }

  /** `apply_headers`, including its check of the hint count. */
  function Apply(s: Snapshot, hs: seq<NewHeader>, ms: seq<u32>, hash: Header -> Bytes32): Outcome {
    if |hs| != |ms| then Panicked else Run(s, hs, ms, hash)
  }

  /** A batch is any split of it: success, failure and panic all come out the same. */
  lemma {:induction false} RunSplits(s: Snapshot, a: seq<NewHeader>, ma: seq<u32>,
                                    b: seq<NewHeader>, mb: seq<u32>, hash: Header -> Bytes32)
    requires |a| == |ma| && |b| == |mb|
    ensures Run(s, a + b, ma + mb, hash) == Then(Run(s, a, ma, hash), b, mb, hash)
    decreases |a|
  {
    hide Step;
    if a == [] {
      assert a + b == b && ma + mb == mb;
    } else {
      assert (a + b)[1..] == a[1..] + b && (ma + mb)[1..] == ma[1..] + mb;
      var o := Step(s, a[0], ma[0], hash);
      if o.Applied? {
        RunSplits(o.state, a[1..], ma[1..], b, mb, hash);
      }
    }
  }

  lemma RunOne(s: Snapshot, n: NewHeader, m: u32, hash: Header -> Bytes32)
    ensures Run(s, [n], [m], hash) == Step(s, n, m, hash)
  {
    hide Step;
    assert [n][1..] == [] && [m][1..] == [];
  }
}
