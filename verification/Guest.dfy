/** The recursive guest program (`main.rs`) and the chain of its runs. SHA-256 and the proof
    verifier are parameters: runs are linked only by a claim, a digest of the continuation data and
    the verifier key, and the theorem says that this is enough. */
module Guest {
  import opened Words
  import opened Bytes
  import opened Work
  import opened Compact
  import opened HeaderChain
  import opened HeaderState
  import opened ChainLaws
  import opened Wire
  import Sha256

  type Sha = seq<u8> -> Bytes32

  /** Accepts a public-values digest under a verifier key. */
  type Verifier = (KeyDigest, Bytes32) -> bool

  datatype GuestInput = GuestInput(pcs: seq<u8>, state: seq<u8>, headers: seq<u8>, medians: seq<u8>)

  function HeaderHash(sha: Sha): Header -> Bytes32 {
    h => sha(sha(HeaderBytes(h)))
  }

  function ContinuationDigest(s: Snapshot, sha: Sha): Bytes32 {
    sha(ContinuationBytes(Continuation(s)))
  }

  /** The bytes a prior run must have committed for its claim to be extended. */
  function PriorBytes(claim: Claim, s: Snapshot, key: KeyDigest, sha: Sha): (b: seq<u8>)
    ensures |b| == 169
  {
    PvBytes(SuccessPv(claim, ContinuationDigest(s, sha), key))
  }

  /** `verify_prior_proof`; false is a panic. */
  predicate PriorProofHolds(p: ProofCarryingState, s: Snapshot, sha: Sha, verify: Verifier) {
    && p.proof.exitCode == 0
    && sha(PriorBytes(p.claim, s, p.verifierKey, sha)) == p.proof.publicValuesDigest
    && verify(p.verifierKey, p.proof.publicValuesDigest)
  }

  /** Inputs that parse and agree with each other. */
  datatype Parsed = Parsed(pcs: ProofCarryingState, start: Snapshot, headers: seq<NewHeader>, medians: seq<u32>)

  function ParseInput(input: GuestInput): (r: Option<Parsed>)
    ensures r.Some? ==> PublicClaim(r.value.start) == r.value.pcs.claim
    ensures r.Some? ==> |r.value.headers| == |r.value.medians|
  {
    hide *;
    var pcs := ParsePcs(input.pcs);
    if pcs.Err? then None else
    var start := ParseState(input.state);
    if start.Err? || PublicClaim(start.value) != pcs.value.claim then None else
    var headers := ParseNewHeaders(input.headers);
    if headers.Err? then None else
    var medians := ParseMedianHints(input.medians, |headers.value|);
    if medians.Err? then None else
    MedianHintsDecodeExactly(input.medians, |headers.value|, medians.value);
    Some(Parsed(pcs.value, start.value, headers.value, medians.value))
  }

  /** What a run reports about the outcome of its headers. */
  function Report(o: Outcome, key: KeyDigest, sha: Sha): PublicValues
    requires !o.Panicked?
  {
    match o
    case Applied(s) => SuccessValues(PublicClaim(s), ContinuationDigest(s, sha), key)
    case Rejected(f) =>
      var s := f.lastValidState;
      FailureValues(f.errorCode, f.failureHeight, PublicClaim(s), ContinuationDigest(s, sha), key)
  }

  /** Outcome of the headers of a run whose inputs and prior proof hold. */
  function RunOutcome(p: Parsed, sha: Sha): Outcome
    requires |p.headers| == |p.medians|
  {
    Run(p.start, p.headers, p.medians, HeaderHash(sha))
  }

  /** The bytes a run commits; `None` when it panics and commits nothing. */
  function Committed(input: GuestInput, sha: Sha, verify: Verifier): (b: Option<seq<u8>>)
    ensures b.Some? ==> |b.value| == 169
  {
    var p := ParseInput(input);
    if p.None? then None
    else if p.value.pcs.claim.height > 0 && !PriorProofHolds(p.value.pcs, p.value.start, sha, verify) then None
    else
      var o := RunOutcome(p.value, sha);
      if o.Panicked? then None
      else Some(PvBytes(EncodeValues(Report(o, p.value.pcs.verifierKey, sha))))
  }

  /** A run commits exactly when its inputs parse, no hint is wrong, and above height 0 the prior proof
      ended with exit code 0, is about the success its claim and witness stand for, and is accepted. */
  lemma CommitsExactlyWhen(input: GuestInput, sha: Sha, verify: Verifier)
    ensures Committed(input, sha, verify).Some? <==>
              && ParseInput(input).Some?
              && var p := ParseInput(input).value;
                 && !Run(p.start, p.headers, p.medians, HeaderHash(sha)).Panicked?
                 && (p.pcs.claim.height > 0 ==>
                       && p.pcs.proof.exitCode == 0
                       && p.pcs.proof.publicValuesDigest
                          == sha(PvBytes(SuccessPv(p.pcs.claim, sha(ContinuationBytes(Continuation(p.start))),
                                                   p.pcs.verifierKey)))
                       && verify(p.pcs.verifierKey, p.pcs.proof.publicValuesDigest))
  {
    hide Run, ParseInput, PvBytes, ContinuationBytes;
  }

  /** The committed bytes, place by place, from the state after the last accepted header: claim, return
      code, failure height, digest of the continuation data, verifier key. */
  lemma CommittedLayout(input: GuestInput, sha: Sha, verify: Verifier)
    requires Committed(input, sha, verify).Some?
    ensures var b, p := Committed(input, sha, verify).value, ParseInput(input).value;
            var o := Run(p.start, p.headers, p.medians, HeaderHash(sha));
            && !o.Panicked?
            && (o.Applied? ==> ClaimAt(b, o.state, p.pcs.verifierKey, sha) && b[100] == 0 && LeNat(b[101..105]) == 0)
            && (o.Rejected? ==>
                  && ClaimAt(b, o.failure.lastValidState, p.pcs.verifierKey, sha)
                  && LeNat(b[101..105]) == o.failure.failureHeight
                  && b[100] == match o.failure.errorCode
                               case HeaderPayloadLengthInvalid => 1
                               case PowInsufficient => 2
                               case TimestampTooOld => 3
                               case GenesisHashMismatch => 4)
  {
    hide Run, ParseInput, PvBytes, LeBytes, LeNat, ContinuationBytes, WordsBytes;
    var p := ParseInput(input).value;
    var v := EncodeValues(Report(RunOutcome(p, sha), p.pcs.verifierKey, sha));
    PvLayout(v);
    NumberRoundTrips(v.failureHeight, 4);
  }

  /** What a reader parses from committed bytes. */
  lemma CommittedParses(input: GuestInput, sha: Sha, verify: Verifier)
    requires Committed(input, sha, verify).Some?
    ensures var v, p := ParsePublicValues(Committed(input, sha, verify).value), ParseInput(input).value;
            var o := Run(p.start, p.headers, p.medians, HeaderHash(sha));
            !o.Panicked? &&
            var s := Reached(o);
            var claim := Claim(s.genesisHash, s.blockHash, s.chainWork, s.height);
            var digest := sha(ContinuationBytes(Continuation(s)));
            v == Ok(if o.Applied? then SuccessValues(claim, digest, p.pcs.verifierKey)
                    else FailureValues(o.failure.errorCode, o.failure.failureHeight, claim, digest, p.pcs.verifierKey))
  {
    hide Run, ParseInput, PvBytes, ContinuationBytes, ParsePublicValues, EncodeValues;
    var p := ParseInput(input).value;
    var v := Report(RunOutcome(p, sha), p.pcs.verifierKey, sha);
    PublicValuesDecode(PvBytes(EncodeValues(v)), v);
  }

  /** The fields of committed bytes that a success and a failure share. */
  ghost predicate ClaimAt(b: seq<u8>, s: Snapshot, key: KeyDigest, sha: Sha)
    requires |b| == 169
  {
    && b[0..32] == s.genesisHash && b[32..64] == s.blockHash
    && b[64..96] == LeBytes(s.chainWork, 32) && b[96..100] == LeBytes(s.height, 4)
    && b[105..137] == sha(ContinuationBytes(Continuation(s))) && b[137..169] == WordsBytes(key)
  }

  /** Decode the state witness into a mutable state. */
  method StateFromWitness(b: seq<u8>) returns (s: State)
    requires |b| == 296
    ensures s.Valid() && fresh(s) && fresh(s.timestamps) && s.View() == StateFields(b)
  {
    hide LeNat, LeBytes, Val, HeaderBytes, WordsBytes;
    U256Fits(b[152..184]);
    U256Fits(b[184..216]);
    U256Fits(b[216..248]);
    s := new State(ParseHeader(b[0..80]), b[80..112], b[112..144], U32(b[144..148]), U32(b[148..152]),
                   FromLeBytes(b[152..184]), FromLeBytes(b[184..216]), FromLeBytes(b[216..248]),
                   U32(b[248..252]), ParseWords(b[252..296]));
  }

  // ---- the program, over the fixed-length hash functions ----

  /** The one hash function that the four fixed-length ones compute on the lengths they accept. */
  function ShaOf(core: Sha256.Core): Sha {
    m => Sha256.Digest(m, core)
  }

  /** `hash_header`: the double hash of the 80 header bytes. */
  method HashHeader(h: Header, core: Sha256.Core) returns (digest: Bytes32)
    ensures digest == HeaderHash(ShaOf(core))(h)
    ensures digest == Sha256.Digest(Sha256.Digest(HeaderBytes(h), core), core)
  {
    digest := Sha256.Sha256dOf80(HeaderBytes(h), core);
  }

  /** `compute_continuation_digest`: the hash of the 116 bytes of continuation data. */
  method ComputeContinuationDigest(s: Snapshot, core: Sha256.Core) returns (digest: Bytes32)
    ensures digest == ContinuationDigest(s, ShaOf(core))
    ensures digest == Sha256.Digest(ContinuationBytes(Continuation(s)), core)
  {
    digest := Sha256.Sha256Of116(ContinuationBytes(Continuation(s)), core);
  }

  /** `verify_prior_proof`: rebuild the 169 bytes the prior run must have committed, and compare their
      hash with the one the proof is about. */
  method VerifyPriorProof(p: ProofCarryingState, s: Snapshot, core: Sha256.Core, verify: Verifier) returns (ok: bool)
    ensures ok == PriorProofHolds(p, s, ShaOf(core), verify)
    ensures ok ==> p.proof.exitCode == 0 && verify(p.verifierKey, p.proof.publicValuesDigest)
  {
    hide PvBytes, ContinuationBytes, Sha256.Digest;
    if p.proof.exitCode != 0 {
      return false;
    }
    var digest := ComputeContinuationDigest(s, core);
    var bytes := PvToBytes(SuccessPv(p.claim, digest, p.verifierKey));
    var publicValuesHash := Sha256.Sha256Of169(bytes, core);
    if publicValuesHash != p.proof.publicValuesDigest {
      return false;
    }
    return verify(p.verifierKey, p.proof.publicValuesDigest);
  }

  /** The guest program: parse, check the witness against the claim, verify the prior proof unless
      starting from height 0, apply the headers, commit once. */
  method RunGuest(input: GuestInput, core: Sha256.Core, verify: Verifier) returns (committed: Option<seq<u8>>)
    ensures committed == Committed(input, ShaOf(core), verify)
  {
    hide PvBytes, StateFields, PcsFields, ParseHeaderList, ParseWords, Run, State.View, PriorProofHolds,
         ContinuationDigest, HeaderHash, ShaOf, Sha256.Digest;
    var pcs := ParsePcs(input.pcs);
    if pcs.Err? || |input.state| != 296 {
      return None;
    }
    var state := StateFromWitness(input.state);
    if PublicClaim(state.View()) != pcs.value.claim {
      return None;
    }
    var headers := ParseNewHeaders(input.headers);
    if headers.Err? {
      return None;
    }
    var medians := ParseMedianHints(input.medians, |headers.value|);
    if medians.Err? {
      return None;
    }
    if pcs.value.claim.height > 0 {
      var holds := VerifyPriorProof(pcs.value, state.View(), core, verify);
      if !holds {
        return None;
      }
    }

    var key := pcs.value.verifierKey;
    var outcome := state.ApplyHeaders(headers.value, medians.value, HeaderHash(ShaOf(core)));
    match outcome
    case Panic => return None;
    case Failure(f) =>
      var digest := ComputeContinuationDigest(f.lastValidState, core);
      var bytes := PvToBytes(FailurePv(PublicClaim(f.lastValidState), f.errorCode, f.failureHeight, digest, key));
      return Some(bytes);
    case Success =>
      var digest := ComputeContinuationDigest(state.View(), core);
      var bytes := PvToBytes(SuccessPv(PublicClaim(state.View()), digest, key));
      return Some(bytes);
  }

  // ---- chains of runs ----

  /** One execution of the guest and the verifier it faced. */
  datatype GuestRun = GuestRun(input: GuestInput, verify: Verifier)

  function CommittedBy(r: GuestRun, sha: Sha): Option<seq<u8>> {
    Committed(r.input, sha, r.verify)
  }

  /** Under the guest's own key, a verifier accepts only digests of what some earlier run of the
      guest committed. Nothing is assumed about other keys. */
  ghost predicate Sound(runs: seq<GuestRun>, key: KeyDigest, sha: Sha) {
    forall i, d :: 0 <= i < |runs| && runs[i].verify(key, d) ==> EarlierCommit(runs, i, d, sha)
  }

  ghost predicate EarlierCommit(runs: seq<GuestRun>, i: nat, d: Bytes32, sha: Sha)
    requires i <= |runs|
  {
    exists j :: 0 <= j < i && CommittedBy(runs[j], sha).Some? && sha(CommittedBy(runs[j], sha).value) == d
  }

  /** The strings a run hashes to link it to its neighbours: above height 0 those of its prior proof,
      the continuation data it ends in, and the committed bytes, which its own proof is about. */
  ghost function Hashed(r: GuestRun, sha: Sha): set<seq<u8>> {
    var p := ParseInput(r.input);
    if p.None? then {}
    else
      (if p.value.start.height == 0 then {}
       else {ContinuationBytes(Continuation(p.value.start)),
             PriorBytes(p.value.pcs.claim, p.value.start, p.value.pcs.verifierKey, sha)})
      + (var o := RunOutcome(p.value, sha);
         if o.Panicked? then {} else {ContinuationBytes(Continuation(Reached(o)))})
      + (var b := CommittedBy(r, sha); if b.None? then {} else {b.value})
  }

  /** No two different strings among those hashed by these runs share a digest. */
  ghost predicate NoCollision(runs: seq<GuestRun>, sha: Sha) {
    forall i, j | 0 <= i < |runs| && 0 <= j < |runs| :: NoCollisionBetween(runs[i], runs[j], sha)
  }

  ghost predicate NoCollisionBetween(r: GuestRun, q: GuestRun, sha: Sha) {
    forall x, y | x in Hashed(r, sha) && y in Hashed(q, sha) :: sha(x) == sha(y) ==> x == y
  }

  /** A trusted start and one list of headers applied to it. */
  datatype Lineage = Lineage(anchor: Snapshot, headers: seq<NewHeader>, medians: seq<u32>)

  ghost predicate Explains(l: Lineage, o: Outcome, genesisHash: Bytes32, sha: Sha) {
    && l.anchor.height == 0 && l.anchor.genesisHash == genesisHash
    && |l.headers| == |l.medians|
    && SameOutcome(Run(l.anchor, l.headers, l.medians, HeaderHash(sha)), o)
  }

  /** The parsed input of a run that committed. */
  ghost function Inputs(r: GuestRun, sha: Sha): (p: Parsed)
    requires CommittedBy(r, sha).Some?
    ensures PublicClaim(p.start) == p.pcs.claim && |p.headers| == |p.medians|
    ensures !RunOutcome(p, sha).Panicked?
  {
    ParseInput(r.input).value
  }

  // ---- honest inputs ----

  function EncodeInput(p: Parsed): GuestInput {
    GuestInput(PcsBytes(p.pcs), StateBytes(p.start), NewHeadersBytes(p.headers), WordsBytes(p.medians))
  }

  /** The four input buffers parse, and agree with each other, exactly when they are the encoding of
      a state, its own claim, and as many hints as headers. */
  lemma InputParsesExactly(input: GuestInput, p: Parsed)
    ensures ParseInput(input) == Some(p) <==>
              input == EncodeInput(p) && PublicClaim(p.start) == p.pcs.claim && |p.headers| == |p.medians|
  {
    hide ParsePcs, ParseState, ParseNewHeaders, ParseMedianHints, PcsBytes, StateBytes, NewHeadersBytes, WordsBytes,
         PublicClaim;
    PcsDecodesExactly(input.pcs, p.pcs);
    StateDecodesExactly(input.state, p.start);
    NewHeadersDecodeExactly(input.headers, p.headers);
    MedianHintsDecodeExactly(input.medians, |p.headers|, p.medians);
  }

  /** What an honest prover feeds the next run: the last state and a proof of the bytes committed. */
  function NextInput(s: Snapshot, key: KeyDigest, committed: seq<u8>, hs: seq<NewHeader>, ms: seq<u32>, sha: Sha)
    : Parsed
  {
    var proof := Proof(sha(committed), 0, [0, 0, 0]);
    Parsed(ProofCarryingState(PublicClaim(s), key, proof), s, hs, ms)
  }

  /** Completeness: after a run that succeeded, whatever headers come next, a run on honestly encoded
      inputs with a proof the verifier accepts commits the report of those headers applied to the
      state the first run ended in; it commits nothing only when a hint is wrong. */
  lemma HonestRunContinues(r: GuestRun, verify: Verifier, hs: seq<NewHeader>, ms: seq<u32>, sha: Sha)
    requires CommittedBy(r, sha).Some? && RunOutcome(Inputs(r, sha), sha).Applied? && |hs| == |ms|
    requires verify(Inputs(r, sha).pcs.verifierKey, sha(CommittedBy(r, sha).value))
    ensures var s, key := RunOutcome(Inputs(r, sha), sha).state, Inputs(r, sha).pcs.verifierKey;
            var next := EncodeInput(NextInput(s, key, CommittedBy(r, sha).value, hs, ms, sha));
            var o := Run(s, hs, ms, HeaderHash(sha));
            Committed(next, sha, verify)
            == if o.Panicked? then None else Some(PvBytes(EncodeValues(Report(o, key, sha))))
  {
    hide Run, ParseInput, EncodeInput, PvBytes, ContinuationBytes, PublicClaim;
    var s, key := RunOutcome(Inputs(r, sha), sha).state, Inputs(r, sha).pcs.verifierKey;
    var p := NextInput(s, key, CommittedBy(r, sha).value, hs, ms, sha);
    InputParsesExactly(EncodeInput(p), p);
    assert PriorProofHolds(p.pcs, p.start, sha, verify);
  }

  /** Any height-0 state may be claimed as a start: whatever headers follow, some input commits the
      report of applying them to it, whichever key it names and whatever the verifier says. */
  lemma AnyAnchorCommits(l: Lineage, key: KeyDigest, verify: Verifier, sha: Sha) returns (input: GuestInput)
    requires l.anchor.height == 0 && |l.headers| == |l.medians|
    ensures var o := Run(l.anchor, l.headers, l.medians, HeaderHash(sha));
            Committed(input, sha, verify)
            == if o.Panicked? then None else Some(PvBytes(EncodeValues(Report(o, key, sha))))
  {
    hide Run, ParseInput, EncodeInput, PvBytes, ContinuationBytes;
    var unused := Proof(seq<u8>(32, _ => 0), 0, [0, 0, 0]);
    var p := Parsed(ProofCarryingState(PublicClaim(l.anchor), key, unused), l.anchor, l.headers, l.medians);
    input := EncodeInput(p);
    InputParsesExactly(input, p);
  }

  // ---- lineages ----

  /** Extending a lineage of the prior run by the headers of this one. */
  lemma LineageExtends(l: Lineage, prior: Snapshot, p: Parsed, sha: Sha)
    requires |p.headers| == |p.medians|
    requires Explains(l, Applied(prior), p.start.genesisHash, sha)
    requires PublicClaim(prior) == PublicClaim(p.start) && Continuation(prior) == Continuation(p.start)
    ensures Explains(Lineage(l.anchor, l.headers + p.headers, l.medians + p.medians),
                     RunOutcome(p, sha), p.start.genesisHash, sha)
  {
    hide Step, Run;
    var hash := HeaderHash(sha);
    var o := Run(l.anchor, l.headers, l.medians, hash);
    RunSplits(l.anchor, l.headers, l.medians, p.headers, p.medians, hash);
    ClaimAndContinuationDetermine(o.state, p.start);
    ClaimAndContinuationSuffice(o.state, p.start, p.headers, p.medians, hash);
  }

  /** The prior proof of a run names an earlier run: it succeeded under the same key, with the claim
      and the continuation data this run starts from. */
  lemma PriorRun(runs: seq<GuestRun>, i: nat, sha: Sha) returns (j: nat)
    requires i < |runs| && CommittedBy(runs[i], sha).Some?
    requires Sound(runs, Inputs(runs[i], sha).pcs.verifierKey, sha) && NoCollision(runs, sha)
    requires Inputs(runs[i], sha).start.height > 0
    ensures j < i && CommittedBy(runs[j], sha).Some?
    ensures Inputs(runs[j], sha).pcs.verifierKey == Inputs(runs[i], sha).pcs.verifierKey
    ensures var o, start := RunOutcome(Inputs(runs[j], sha), sha), Inputs(runs[i], sha).start;
            o.Applied? && PublicClaim(o.state) == PublicClaim(start) && Continuation(o.state) == Continuation(start)
  {
    hide PvBytes, ContinuationBytes, Run, ParseInput, Report;
    var p := Inputs(runs[i], sha);
    var key, digest := p.pcs.verifierKey, p.pcs.proof.publicValuesDigest;
    assert runs[i].verify(key, digest);
    assert EarlierCommit(runs, i, digest, sha);
    j :| 0 <= j < i && CommittedBy(runs[j], sha).Some? && sha(CommittedBy(runs[j], sha).value) == digest;
    assert NoCollisionBetween(runs[j], runs[i], sha);
    assert CommittedBy(runs[j], sha).value in Hashed(runs[j], sha);
    SameEnd(runs[j], runs[i], sha);
  }

  /** When the bytes one run committed are those the prior proof of another is about, the first
      succeeded under the same key, in the claim and the continuation data the second starts from. */
  lemma SameEnd(q: GuestRun, r: GuestRun, sha: Sha)
    requires CommittedBy(q, sha).Some? && CommittedBy(r, sha).Some? && NoCollisionBetween(q, r, sha)
    requires Inputs(r, sha).start.height > 0
    requires var p := Inputs(r, sha); CommittedBy(q, sha).value == PriorBytes(p.pcs.claim, p.start, p.pcs.verifierKey, sha)
    ensures Inputs(q, sha).pcs.verifierKey == Inputs(r, sha).pcs.verifierKey
    ensures var o, start := RunOutcome(Inputs(q, sha), sha), Inputs(r, sha).start;
            o.Applied? && PublicClaim(o.state) == PublicClaim(start) && Continuation(o.state) == Continuation(start)
  {
    hide PvBytes, ContinuationBytes, Run, ParseInput;
    var p, o := Inputs(r, sha), RunOutcome(Inputs(q, sha), sha);
    var v := Report(o, Inputs(q, sha).pcs.verifierKey, sha);
    var w := SuccessValues(p.pcs.claim, ContinuationDigest(p.start, sha), p.pcs.verifierKey);
    PublicValuesInjective(v, w);
    var x, y := ContinuationBytes(Continuation(o.state)), ContinuationBytes(Continuation(p.start));
    assert x in Hashed(q, sha) && y in Hashed(r, sha);
    assert x == y;
    ContinuationBytesInjective(Continuation(o.state), Continuation(p.start));
  }

  // ---- the chain behind a run ----

  /** Indices of runs that all committed under one key. */
  ghost predicate Committing(runs: seq<GuestRun>, js: seq<nat>, key: KeyDigest, sha: Sha) {
    forall k :: 0 <= k < |js| ==> CommittedUnder(runs, js[k], key, sha)
  }

  ghost predicate CommittedUnder(runs: seq<GuestRun>, j: nat, key: KeyDigest, sha: Sha) {
    j < |runs| && CommittedBy(runs[j], sha).Some? && Inputs(runs[j], sha).pcs.verifierKey == key
  }

  ghost predicate StartsAtZero(runs: seq<GuestRun>, j: nat, key: KeyDigest, sha: Sha) {
    CommittedUnder(runs, j, key, sha) && Inputs(runs[j], sha).start.height == 0
  }

  /** Run `b` starts with the claim and the continuation data in which the earlier run `a` succeeded. */
  ghost predicate Continues(runs: seq<GuestRun>, a: nat, b: nat, key: KeyDigest, sha: Sha)
    requires CommittedUnder(runs, a, key, sha) && CommittedUnder(runs, b, key, sha)
  {
    var o, start := RunOutcome(Inputs(runs[a], sha), sha), Inputs(runs[b], sha).start;
    && a < b && o.Applied?
    && PublicClaim(o.state) == PublicClaim(start) && Continuation(o.state) == Continuation(start)
  }

  /** The runs that led to run `i`: the first starts at height 0, each continues the one before, all
      committed under the same key, and the last is `i`. */
  ghost predicate ChainTo(runs: seq<GuestRun>, js: seq<nat>, i: nat, key: KeyDigest, sha: Sha) {
    && Committing(runs, js, key, sha)
    && js != [] && js[|js| - 1] == i
    && StartsAtZero(runs, js[0], key, sha)
    && forall k :: 0 < k < |js| ==> Continues(runs, js[k - 1], js[k], key, sha)
  }

  /** The headers of the runs, one batch after the other. */
  ghost function HeadersOf(runs: seq<GuestRun>, js: seq<nat>, key: KeyDigest, sha: Sha): seq<NewHeader>
    requires Committing(runs, js, key, sha)
  {
    if js == [] then [] else
      HeadersOf(runs, js[..|js| - 1], key, sha) + Inputs(runs[js[|js| - 1]], sha).headers
  }

  ghost function MediansOf(runs: seq<GuestRun>, js: seq<nat>, key: KeyDigest, sha: Sha): seq<u32>
    requires Committing(runs, js, key, sha)
  {
    if js == [] then [] else
      MediansOf(runs, js[..|js| - 1], key, sha) + Inputs(runs[js[|js| - 1]], sha).medians
  }

  /** The state the first run started from and the concatenated headers of all of them. */
  ghost function LineageOf(runs: seq<GuestRun>, js: seq<nat>, i: nat, key: KeyDigest, sha: Sha): Lineage
    requires ChainTo(runs, js, i, key, sha)
  {
    assert CommittedUnder(runs, js[0], key, sha);
    Lineage(Inputs(runs[js[0]], sha).start, HeadersOf(runs, js, key, sha), MediansOf(runs, js, key, sha))
  }

  /** A chain of one run. */
  lemma ChainStarts(runs: seq<GuestRun>, i: nat, key: KeyDigest, sha: Sha)
    requires StartsAtZero(runs, i, key, sha)
    ensures ChainTo(runs, [i], i, key, sha)
    ensures var p := Inputs(runs[i], sha); LineageOf(runs, [i], i, key, sha) == Lineage(p.start, p.headers, p.medians)
  {
    hide CommittedBy, Inputs, Continues, HeadersOf, MediansOf;
    HeadersGrow(runs, [], i, key, sha);
    NoHeadersOf(runs, key, sha);
    assert [] + [i] == [i];
  }

  lemma NoHeadersOf(runs: seq<GuestRun>, key: KeyDigest, sha: Sha)
    ensures HeadersOf(runs, [], key, sha) == [] && MediansOf(runs, [], key, sha) == []
  {}

  lemma HeadersGrow(runs: seq<GuestRun>, js: seq<nat>, i: nat, key: KeyDigest, sha: Sha)
    requires Committing(runs, js, key, sha) && CommittedUnder(runs, i, key, sha)
    ensures Committing(runs, js + [i], key, sha)
    ensures HeadersOf(runs, js + [i], key, sha) == HeadersOf(runs, js, key, sha) + Inputs(runs[i], sha).headers
    ensures MediansOf(runs, js + [i], key, sha) == MediansOf(runs, js, key, sha) + Inputs(runs[i], sha).medians
  {
    hide CommittedBy, Inputs;
    assert (js + [i])[..|js|] == js;
  }

  /** A chain grows by a run that continues it, and its lineage by the headers of that run. */
  lemma ChainGrows(runs: seq<GuestRun>, js: seq<nat>, j: nat, i: nat, key: KeyDigest, sha: Sha)
    requires ChainTo(runs, js, j, key, sha) && CommittedUnder(runs, i, key, sha)
    requires Continues(runs, j, i, key, sha)
    ensures ChainTo(runs, js + [i], i, key, sha)
    ensures var l, p := LineageOf(runs, js, j, key, sha), Inputs(runs[i], sha);
            LineageOf(runs, js + [i], i, key, sha) == Lineage(l.anchor, l.headers + p.headers, l.medians + p.medians)
  {
    hide CommittedBy, Inputs, Continues, HeadersOf, MediansOf;
    HeadersGrow(runs, js, i, key, sha);
  }

  /** Every run that commits anything has a chain of runs behind it, back to one from height 0, and
      reports the outcome of the concatenated headers of that chain applied, in one go, to the state
      the first of them started from. */
  lemma {:induction false} EveryRunIsOneRun(runs: seq<GuestRun>, i: nat, key: KeyDigest, sha: Sha)
    returns (js: seq<nat>)
    requires CommittedUnder(runs, i, key, sha)
    requires Sound(runs, key, sha) && NoCollision(runs, sha)
    ensures ChainTo(runs, js, i, key, sha)
    ensures var p := Inputs(runs[i], sha);
            Explains(LineageOf(runs, js, i, key, sha), RunOutcome(p, sha), p.start.genesisHash, sha)
    decreases i
  {
    hide Run, ParseInput, Sound, NoCollision, CommittedBy, ChainTo, LineageOf;
    var p := Inputs(runs[i], sha);
    if p.start.height == 0 {
      js := [i];
      ChainStarts(runs, i, key, sha);
      ClaimAndContinuationSuffice(p.start, p.start, p.headers, p.medians, HeaderHash(sha));
    } else {
      var j := PriorRun(runs, i, sha);
      var before := EveryRunIsOneRun(runs, j, key, sha);
      ReachedKeepsGenesis(Inputs(runs[j], sha), sha);
      LineageExtends(LineageOf(runs, before, j, key, sha), RunOutcome(Inputs(runs[j], sha), sha).state, p, sha);
      ChainGrows(runs, before, j, i, key, sha);
      js := before + [i];
    }
  }

  function ClaimOf(v: PublicValues): Claim {
    if v.SuccessValues? then v.claim else v.lastValidClaim
  }

  /** Public values committed by any run, however long its chain of prior proofs, under a key whose
      verifier is sound: they are the report of one application of the chain's concatenated headers
      to a height-0 state with the claimed genesis hash, a success and a failure alike. */
  lemma CommittedValuesAreOneRun(runs: seq<GuestRun>, i: nat, v: PublicValues, sha: Sha) returns (js: seq<nat>)
    requires i < |runs| && CommittedBy(runs[i], sha).Some?
    requires ParsePublicValues(CommittedBy(runs[i], sha).value) == Ok(v)
    requires Sound(runs, v.key, sha) && NoCollision(runs, sha)
    ensures ChainTo(runs, js, i, v.key, sha)
    ensures var l := LineageOf(runs, js, i, v.key, sha);
            && l.anchor.height == 0 && l.anchor.genesisHash == ClaimOf(v).genesisHash
            && |l.headers| == |l.medians|
            && var o := Run(l.anchor, l.headers, l.medians, HeaderHash(sha));
               !o.Panicked? && Report(o, v.key, sha) == v
  {
    hide Run, ParseInput, Sound, NoCollision, ParsePublicValues, PvBytes, ChainTo, LineageOf, ContinuationBytes;
    var p := Inputs(runs[i], sha);
    var o := RunOutcome(p, sha);
    var w := Report(o, p.pcs.verifierKey, sha);
    PublicValuesDecode(PvBytes(EncodeValues(w)), w);
    assert v == w;
    js := EveryRunIsOneRun(runs, i, v.key, sha);
    ReachedKeepsGenesis(p, sha);
    var l := LineageOf(runs, js, i, v.key, sha);
    SameReport(Run(l.anchor, l.headers, l.medians, HeaderHash(sha)), o, v.key, sha);
  }

  lemma SameReport(a: Outcome, b: Outcome, key: KeyDigest, sha: Sha)
    requires SameOutcome(a, b) && !b.Panicked?
    ensures !a.Panicked? && Report(a, key, sha) == Report(b, key, sha)
  {
    hide ContinuationBytes;
  }

  lemma ReachedKeepsGenesis(p: Parsed, sha: Sha)
    requires |p.headers| == |p.medians| && !RunOutcome(p, sha).Panicked?
    ensures Reached(RunOutcome(p, sha)).genesisHash == p.start.genesisHash
  {
    ReachedGenesis(p.start, p.headers, p.medians, HeaderHash(sha));
  }

  lemma {:induction false} ReachedGenesis(s: Snapshot, hs: seq<NewHeader>, ms: seq<u32>, hash: Header -> Bytes32)
    requires |hs| == |ms| && !Run(s, hs, ms, hash).Panicked?
    ensures Reached(Run(s, hs, ms, hash)).genesisHash == s.genesisHash
    decreases |hs|
  {
    hide MedianTimePast, LeNat, ActiveDifficulty, Wrap256;
    if hs == [] || !Step(s, hs[0], ms[0], hash).Applied? {
    } else {
      ReachedGenesis(Step(s, hs[0], ms[0], hash).state, hs[1..], ms[1..], hash);
    }
  }

  /** From an anchor with coherent caches, an explained claim carries real work: its chain work is
      the anchor's plus the work of the headers, which link from the anchor and meet their targets. */
  lemma ExplainedClaimCarriesWork(l: Lineage, s: Snapshot, sha: Sha)
    requires Explains(l, Applied(s), s.genesisHash, sha) && Coherent(l.anchor)
    ensures var a := Accepted(l.anchor, l.headers, l.medians, HeaderHash(sha));
            && |a| == |l.headers| && Linked(l.anchor.blockHash, a, HeaderHash(sha))
            && s.chainWork == Wrap256(l.anchor.chainWork + HeaderWork(a))
            && s.height == |a| % 0x1_0000_0000
            && s.blockHash == TipHash(l.anchor.blockHash, a, HeaderHash(sha))
            && Coherent(s)
  {
    hide Run, Accepted, Linked, HeaderWork, Coherent, TipHash, Wrap256;
    RunLaws(l.anchor, l.headers, l.medians, HeaderHash(sha));
    CoherentIgnoresHeader(Run(l.anchor, l.headers, l.medians, HeaderHash(sha)).state, s);
  }

  lemma CoherentIgnoresHeader(a: Snapshot, b: Snapshot)
    requires SameButHeader(a, b) && Coherent(a)
    ensures Coherent(b)
  {
    hide ExpandOf, WorkOf;
  }
}
