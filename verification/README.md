# Verified model of zkpow

zkpow proves Bitcoin header chains incrementally: a guest program checks the proof of its own prior run,
applies new headers to a state, and commits a claim about the tip. This project models the code those
claims rest on and proves what they mean.

How the modules build on each other:

- `Arith`, `Words`, `Bytes`: nonlinear facts, four-limb integers, little- and big-endian bytes.
- `Limbs`, `Work`, `Compact`, `Retarget`: the 256-bit difficulty arithmetic. Every limb or byte loop is
  proved equal to a short function on numbers, and the properties are proved about those functions.
- `Median`, `HeaderChain`, `HeaderState`: the header rules as a function on values (`Step`, `Run`), and the
  class `State` whose fields are updated in place and whose chain work is deferred. `ApplyHeaders` is
  proved equal to `Run`, so every law of `Run` is a law of the imperative code.
- `ChainLaws`, `History`: laws of whole runs, and an independent statement of the rules over the full list
  of headers since height 0 (no ring, no caches, no running sums) that the state machine is proved to match.
- `Database`, `Bisect`: rebuilding a state from stored rows against replaying them; the divergence search.
- `Wire`, `Sha256`, `Guest`: byte formats, the hand-padded hash functions, and the recursive protocol.
- `Relay`, `Allocation`: the Solidity relay and the allocation counters.

Conventions:

- Header hash, SHA-256 `extend`/`compress`, keccak and the proof verifiers are parameters. `cycle_track` is
  the identity.
- A failed assertion, `expect` or `panic!` is an outcome of its own (`Panicked`, `Panic`, `None`,
  `SimulationPanic`), or is proved unreachable: the `expect` in `prepare_new_epoch`, those on the work of a
  decoded target, and the replay panic of the bisection.
- Heights are 32-bit and wrap, as in a release build. Laws that need it say that the height does not wrap.
- 64-bit limbs keep explicit carries and borrows; `Val` is the number they stand for.

Where the code differs from what is said about it, or a natural property fails:

- The work of target 0 is 2^256, whose quotient bit 256 has no place in the limbs: the stored work is 0
  (`Work.WorkIsExactUnlessZero`). Chain work therefore does not grow strictly over arbitrary runs:
  `ChainLaws.WorkCanStall` gives an accepted header that leaves it unchanged, and `ChainLaws.StepRaisesWork`
  and `ChainLaws.RunRaisesWork` say exactly when it grows.
- `HeaderChainPublicValues::parse` ignores the failure height of a success, though the layout comment says
  it is 0. Such bytes parse but do not re-encode to themselves (`Wire.SuccessHidesFailureHeight`);
  `Wire.PublicValuesDecode` says exactly when they do.
- Rebuild and replay agree for a genesis row carrying 0x1d00ffff. For any other genesis row they can differ
  in the first epoch only, because one expands the stored compact target and the other starts from the
  easiest target. `Database.RebuildCanDiffer` gives two rows on which they do, and
  `Database.RebuildAgreesExactly` the exact condition.
- `submit` requires a summary to name the current tip as its predecessor and also to be higher, by any
  amount; the chain law of the relay is about accepted records, not about consecutive blocks.

## Model

| member | source | states |
|---|---|---|
| Words.Compare | crates/core/src/types.rs:65-78 | Comparing limbs from the top orders the numbers they stand for; equal only for identical limbs |
| Words.LimbsAreUnique | crates/core/src/types.rs:9-20 | Different limb arrays never stand for the same number |
| Words.WrapAbsorbs | crates/core/src/lib.rs:811-828 | Wrapping an intermediate sum does not change a wrapped total, which is what lets chain work be added late |
| Bytes.ToLeBytes | crates/core/src/types.rs:45-54 | The four copied limbs are the 32 little-endian digits of the number |
| Bytes.FromLeBytes | crates/core/src/types.rs:34-43 | Limbs sliced from 32 bytes stand for the number those bytes spell |
| Bytes.LeRoundTrip | crates/core/src/types.rs:34-54 | Decoding the little-endian bytes of a number that fits gives it back |
| Bytes.LeRoundTripBytes | crates/core/src/types.rs:34-54 | Encoding what any bytes decode to gives the bytes back |
| LimbArithmetic.AddWork | crates/core/src/lib.rs:811-828 | Limb addition with carries is addition modulo 2^256 |
| LimbArithmetic.MulWork | crates/core/src/lib.rs:830-849 | Limb multiplication by a 32-bit count is multiplication modulo 2^256 |
| LimbArithmetic.SubAssign | crates/core/src/lib.rs:853-890 | In-place subtraction modulo 2^256; the returned borrow is set exactly when the subtrahend is larger |
| LimbArithmetic.IncrementTarget | crates/core/src/lib.rs:893-912 | Adds one; the only error is 2^256 - 1 |
| LimbArithmetic.ShlOneWithCarry | crates/core/src/lib.rs:916-927 | Doubles in place; the returned bit is exactly the part that no longer fits 256 bits |
| Work.WorkFromTarget | crates/core/src/lib.rs:935-962 | The 257-step long division gives floor(2^256 / (target + 1)) modulo 2^256, also when the shifted remainder needs 257 bits; 2^256 - 1 is the only error |
| Work.DivideBit | crates/core/src/lib.rs:942-958 | One turn of the loop keeps quotient * divisor + remainder equal to the dividend prefix and stores the quotient bits found so far, all but bit 256 |
| Work.DivideStep | crates/core/src/lib.rs:942-958 | The division identity survives a step on numbers, whether or not the divisor is subtracted |
| Work.WorkIsExactUnlessZero | crates/core/src/lib.rs:935-962 | Stored work is the exact quotient and positive for every target but 0, and 0 for target 0 whose quotient is 2^256 |
| Work.WorkIsAntitone | crates/core/src/lib.rs:930-962 | Among positive targets an easier one never carries more work |
| Compact.TargetToBits | crates/core/src/lib.rs:742-772 | The byte-scanning encoder yields the size and mantissa defined by the number's byte length and top three bytes |
| Compact.TargetFromBits | crates/core/src/lib.rs:776-801 | The byte-placing decoder yields mantissa * 256^(size - 3) with bytes past the 32nd dropped |
| Compact.NormClearsLowBytes | crates/core/src/lib.rs:742-801 | Encode then decode clears exactly the low bytes that do not fit a 23-bit mantissa |
| Compact.NormIsFloor | crates/core/src/lib.rs:742-801 | Encode then decode is the largest value any 32-bit compact form can give that is not above the target |
| Compact.NormIsMonotone | crates/core/src/lib.rs:742-801 | The round trip keeps order |
| Compact.NormFixesExpansions | crates/core/src/lib.rs:742-801 | Every decoded target survives another round trip; the round trip is idempotent |
| Compact.CompactIsCanonical | crates/core/src/lib.rs:742-772 | The encoder never sets the sign bit, never wastes a leading byte and never drops a byte on expansion |
| Compact.CanonicalExactly | crates/core/src/lib.rs:742-801 | Decode then encode gives a compact form back exactly when it is zero or such a form |
| Compact.ExpansionShape | crates/core/src/lib.rs:776-801 | Any compact form, however odd its size byte, decodes to a 23-bit number times a power of 256 |
| Compact.ExpansionIsNeverMax | crates/core/src/lib.rs:776-801 | No compact form decodes to 2^256 - 1, so the work of a decoded target always exists |
| Retarget.CalculateNextTargetRequired | crates/core/src/lib.rs:966-1002 | The limb multiply, short division, cap and normalisation compute the adjustment as a function of old target and elapsed time, which may be negative |
| Retarget.ScaleLimbs | crates/core/src/lib.rs:976-983 | The in-place multiply is multiplication modulo 2^256 |
| Retarget.DivideLimbs | crates/core/src/lib.rs:985-990 | The in-place division from the top limb is floor division of the whole number |
| Retarget.NothingIsLost | crates/core/src/lib.rs:966-1002 | Up to the easiest target nothing overflows: the result is norm(min(floor(old * clamp(elapsed) / 1209600), easiest)) |
| Retarget.RetargetByElapsed | crates/core/src/lib.rs:966-1002 | From 302400 to 4838400 seconds the target scales with elapsed / 1209600; at or below it is divided by 4, at or above multiplied by 4; capped and normalised |
| Retarget.BitsAreOfTarget | crates/core/src/lib.rs:994-1000 | The two results belong together: the compact form is the encoding of the target |
| Retarget.EpochTimespans | crates/core/src/lib.rs:43-55 | 2016 blocks of 600 seconds make the expected timespan, and the bounds are a quarter and four times it |
| Retarget.RetargetIsMonotone | crates/core/src/lib.rs:966-1002 | A larger old target or a longer epoch never gives a harder target |
| Retarget.RetargetIsBounded | crates/core/src/lib.rs:966-1002 | The new target lies between norm(floor(old / 4)) and min(4 * old, easiest) |
| Retarget.OnTimeKeepsTarget | crates/core/src/lib.rs:966-1002 | An epoch of exactly 1209600 seconds leaves a normalised target alone |
| Retarget.NextTargetCapped | crates/core/src/lib.rs:992-1000 | From any old target at all the result never exceeds the easiest target |
| Retarget.GenesisBits | crates/core/src/lib.rs:58-65 | 0x1d00ffff decodes to the easiest target, and is what that target encodes to |
| Median.SortSorts | crates/core/src/lib.rs:1034-1044 | The reference sort is sorted and a permutation |
| Median.MedianRank | crates/core/src/state.rs:116-148 | The upper median is below a bound exactly when more than half the window is |
| Median.CountingAcceptsMedian | crates/core/src/state.rs:116-148 | The rank test accepts a value exactly when it is element len / 2 of the sorted window (BIP 113, section Specification), whatever the duplicates |
| Median.MedianIgnoresOrder | crates/core/src/state.rs:116-148 | The median of the ring does not depend on where the ring starts |
| HeaderState.State.MedianTimePastHinted | crates/core/src/state.rs:116-148 | One counting pass accepts exactly the median of the tracked timestamps |
| HeaderState.State.PrepareNewEpoch | crates/core/src/state.rs:100-113 | The next epoch's difficulty, from any state; its `expect` cannot fire |
| HeaderState.State.ApplyChainWorkRun | crates/core/src/state.rs:150-157 | Adds run work times run count modulo 2^256, also for an empty run |
| HeaderState.RunGrows | crates/core/src/state.rs:252-257 | Counting one more header in a pending run adds exactly its work to the flushed total |
| HeaderState.CountFits | crates/core/src/state.rs:220-257 | A pending run never outlives an epoch, so its 32-bit count cannot overflow |
| HeaderState.CheckProofOfWork | crates/core/src/lib.rs:805-809 | A hash passes exactly when it is at most the target as a little-endian number |
| HeaderState.State.ApplyNext | crates/core/src/state.rs:177-269 | One loop turn with pending work is one step of the header rules on the flushed state, both failure exits and the panic included |
| HeaderState.State.ApplyHeaders | crates/core/src/state.rs:160-276 | The batch loop equals applying the rules header by header: same state, or same last valid state, error code and absolute failure height, with all deferred work flushed |
| HeaderChain.RunSplits | crates/core/src/state.rs:160-276 | A batch equals any split of it, for success, failure and panic |
| ChainLaws.StepLaws | crates/core/src/state.rs:187-268 | An accepted header keeps caches coherent, adds its own work, links to the tip, meets its target and is later than the median |
| ChainLaws.AcceptedFields | crates/core/src/state.rs:236-269 | The state after an accepted header, field by field: which fields come from the prover, which from the chain, and the one ring slot written |
| ChainLaws.EpochRule | crates/core/src/state.rs:220-269 | Difficulty and epoch start change exactly at heights divisible by 2016: there to the adjusted difficulty and the header's own timestamp |
| ChainLaws.RunLaws | crates/core/src/state.rs:160-276 | From a coherent state every reached and last valid state is coherent; chain work is start plus the work of the accepted headers modulo 2^256; these link and meet their targets; a failure height is absolute |
| ChainLaws.StepRaisesWork | crates/core/src/state.rs:220-269 | An accepted header raises chain work exactly when the target it meets is positive and the sum stays below 2^256 |
| ChainLaws.RunRaisesWork | crates/core/src/state.rs:160-276 | Every accepted header of a run raises chain work exactly when all their targets are positive and the total stays below 2^256 |
| ChainLaws.WorkCanStall | crates/core/src/state.rs:220-269 | A coherent state with compact target 0 that accepts a header and keeps its chain work |
| ChainLaws.StepKeepsMedian | crates/core/src/state.rs:197-260 | One accepted header never lowers the median, from any state |
| ChainLaws.SixHeadersRaiseMedian | crates/core/src/state.rs:197-260 | Six accepted headers raise the median strictly, while the window fills and after the ring wraps |
| ChainLaws.RunAdvancesMedian | crates/core/src/state.rs:197-260 | Along any accepted run the median never decreases and is strictly larger after six or more headers |
| ChainLaws.ClaimAndContinuationDetermine | crates/core/src/lib.rs:389-399 | Claim and continuation data fix the whole state but for its stored header |
| ChainLaws.StepIgnoresHeader | crates/core/src/state.rs:187-269 | No check reads the stored header, and an accepted header overwrites it |
| ChainLaws.ClaimAndContinuationSuffice | crates/core/src/lib.rs:374-399 | States equal on claim and continuation data have the same claims, continuation data and errors for every header list, and are equal in full after one accepted header |
| History.MedianIsRecent | crates/core/src/state.rs:60-70 | The median over the ring is the median of the last eleven headers of the full history, or of all when there are fewer |
| History.DifficultyMatches | crates/core/src/state.rs:220-234 | The difficulty the state demands is the one the full history requires |
| History.StepMatchesRules | crates/core/src/state.rs:187-268 | Given the true median, a header is accepted exactly when it is valid on the full history; otherwise the reported error is the first rule it breaks, at its own height |
| History.ReplayIsRebuild | crates/core/src/state.rs:160-276 | A header list is accepted as given exactly when it validly extends the history, and then the state is the compression of the longer history |
| Database.LoadHeaderBatchWitness | crates/host/src/util/db.rs:164-209 | Header and hint i carry the version, merkle root, timestamp, nonce and median of row i of the query |
| Database.QueryIsRange | crates/host/src/util/db.rs:103-151 | A query returns exactly the rows in its height range, gaps skipped, by increasing height |
| Database.GenesisStateFromRecord | crates/host/src/util/db.rs:223-246 | Stops exactly when the configured hash is not the row's; otherwise the anchor with the easiest target |
| Database.LoadWindow | crates/host/src/util/db.rs:248-263 | Each slot gets the timestamp of the one height in the window that belongs to it, or zero when that row is missing |
| Database.StateFromDbAtHeight | crates/host/src/util/db.rs:248-280 | From any table, stops exactly when the row or the one that opened its epoch is missing, or the genesis hash is wrong; otherwise the state those rows describe |
| Database.RebuiltIsStateOf | crates/host/src/util/db.rs:248-280 | Without gaps that state is the compression of the full stored history |
| Database.AppliedIsStateOf | crates/core/src/state.rs:220-268 | Any accepted header, whatever its hint, takes the state of a history to the state of the longer one, the cached target carried along until a boundary |
| Database.ReplayReaches | crates/host/src/util/db.rs:223-280 | What replay reaches at each height from any genesis row: the rebuilt state, except that the first epoch keeps the easiest target |
| Database.RebuildIsReplay | crates/host/src/util/db.rs:223-280 | When rows hold an accepted run from a genesis carrying 0x1d00ffff, the state rebuilt at any height equals the replayed one in every field |
| Database.RebuildAgreesExactly | crates/host/src/util/db.rs:223-280 | For any genesis row the two agree exactly at height 0, from height 2016 on, or when that row's compact target decodes to the easiest target |
| Database.RebuildCanDiffer | crates/host/src/util/db.rs:223-280 | Two rows of an accepted run, genesis carrying 0x1d00fffe, on which rebuild and replay differ at height 1 |
| Database.MainnetGenesisIsCoherent | crates/host/src/util/db.rs:223-246 | The anchor of a genesis row carrying 0x1d00ffff is coherent, so the run laws hold of every replay from it |
| Bisect.FindFirstDivergingState | crates/host/src/pipeline/batch.rs:189-240 | The index found diverges while its predecessor, if any, matches, and is the first divergence when divergence persists; the state returned is the one after that header; no more headers are replayed than the batch has |
| Bisect.ReplayStatesThrough | crates/host/src/pipeline/batch.rs:242-258 | Extends the replayed states up to the target without replaying any header twice; its panic is unreachable once the whole batch has applied |
| Bisect.SimulateExpectedState | crates/host/src/pipeline/batch.rs:140-187 | Panics exactly when the batch does not apply, agrees exactly when its last claim is the stored one, and otherwise reports a divergence whose predecessor matches, the first one when divergence persists |
| Wire.MedianHintsDecodeExactly | crates/core/src/input.rs:122-150 | A hint payload parses to a list exactly when it is the encoding of that list and has the expected count |
| Wire.SerializeMedianHints | crates/core/src/input.rs:122-130 | The appending loop produces the encoding |
| Wire.WordsLayout | crates/core/src/input.rs:122-130 | Word i of a list sits at byte 4i |
| Wire.NewHeadersDecodeExactly | crates/core/src/input.rs:98-121 | A header payload parses to a list exactly when it is its encoding; a rejected length is reported with the next whole multiple of 44 |
| Wire.SerializeNewHeaders | crates/core/src/input.rs:98-106 | The appending loop produces the encoding |
| Wire.NewHeadersLayout | crates/core/src/input.rs:98-106 | Header i of a list sits at byte 44i |
| Wire.NewHeaderRoundTrips | crates/core/src/lib.rs:295-305 | The 44-byte new header decodes to itself |
| Wire.NewHeaderLayout | crates/core/src/lib.rs:272-305 | Offset of each field in the 44 bytes |
| Wire.HeaderLayout | crates/core/src/lib.rs:73-97 | Offset of each field in the 80 bytes that are hashed |
| Wire.HeaderRoundTrips | crates/core/src/lib.rs:86-98 | The 80-byte header decodes to itself |
| Wire.ClaimDecodesExactly | crates/core/src/lib.rs:337-360 | Bytes parse to a claim exactly when they are its 100-byte encoding |
| Wire.ClaimLayout | crates/core/src/lib.rs:337-346 | Offset of each field in the 100 bytes |
| Wire.ClaimToBytes | crates/core/src/lib.rs:337-346 | Copying the fields to their places produces that encoding |
| Wire.ContinuationDecodesExactly | crates/core/src/lib.rs:400-434 | Bytes parse to continuation data exactly when they are its 116-byte encoding |
| Wire.ContinuationLayout | crates/core/src/lib.rs:389-412 | Where each field of a state, ring slots included, sits in the 116 hashed bytes |
| Wire.ContinuationBytesInjective | crates/core/src/lib.rs:400-412 | Different continuation data never share an encoding |
| Wire.ContinuationToBytes | crates/core/src/lib.rs:400-412 | Copying fields and timestamps to their places produces that encoding |
| Wire.PvDecodesExactly | crates/core/src/lib.rs:575-615 | Bytes parse to minimal public values exactly when they are their 169-byte encoding |
| Wire.PvLayout | crates/core/src/lib.rs:504-588 | Offset of each field in the 169 bytes, as documented |
| Wire.ReturnCodes | crates/core/src/lib.rs:442-480 | Numbers of the four errors; any byte above 4 is refused and named |
| Wire.PvToBytes | crates/core/src/lib.rs:575-588 | Copying the fields to their documented places produces that encoding |
| Wire.ReadDecodesExactly | crates/core/src/lib.rs:651-677 | Which minimal public values read as a given success or failure, the failure height of a success being ignored |
| Wire.PublicValuesDecode | crates/core/src/lib.rs:534-677 | Committed public values read back as what was committed; bytes that read as a value re-encode to themselves exactly when it is a failure or the failure height is 0 |
| Wire.SuccessHidesFailureHeight | crates/core/src/lib.rs:651-677 | Success bytes with failure height 1 parse as the success and are not its encoding |
| Wire.PublicValuesInjective | crates/core/src/lib.rs:534-588 | Public values with equal bytes are equal, so a success never shares an encoding with a failure |
| Wire.PcsDecodesExactly | crates/core/src/input.rs:152-208 | Bytes parse to a proof-carrying state exactly when they are its 168-byte encoding |
| Wire.PcsLayout | crates/core/src/input.rs:152-208 | Offset of each field in the 168 bytes |
| Wire.StateLayout | crates/core/src/state.rs:38-80 | Offset of each field of the 296-byte state witness, without padding |
| Wire.StateDecodesExactly | crates/core/src/state.rs:71-80 | Bytes parse to a state exactly when they are its encoding |
| Wire.LengthsAreChecked | crates/core/src/lib.rs:208-217 | Every fixed-length parser refuses exactly the other lengths and reports expected and actual |
| Guest.RunGuest | crates/guest/src/main.rs:101-161 | The program, calling the fixed-length hash functions, commits the encoded report of its headers' outcome exactly when its inputs parse, the witness matches the claim and, above height 0, the prior proof holds; otherwise it commits nothing |
| Guest.CommitsExactlyWhen | crates/guest/src/main.rs:57-161 | A run commits exactly when inputs parse, no hint is wrong and, above height 0, the exit code is 0, the digest is that of the prior success and the verifier accepts |
| Guest.CommittedLayout | crates/guest/src/main.rs:136-161 | Committed bytes place by place from the state after the last accepted header: claim, return code, absolute failure height, digest, key |
| Guest.CommittedParses | crates/guest/src/main.rs:136-161 | What those bytes parse to, for a success and for each failure |
| Guest.HashHeader | crates/guest/src/main.rs:31-36 | The double hash of the 80-byte header is the protocol's header hash under the generic digest |
| Guest.ComputeContinuationDigest | crates/guest/src/main.rs:39-44 | The 116-byte hash is the protocol's continuation digest |
| Guest.VerifyPriorProof | crates/guest/src/main.rs:57-99 | Passes exactly when the exit code is 0, the digest is that of the success the prior run must have committed, and the verifier accepts it |
| Guest.ParseInput | crates/guest/src/main.rs:101-127 | Accepted inputs have a witness with the claim of the proof-carrying state and one hint per header |
| Guest.InputParsesExactly | crates/guest/src/main.rs:101-127 | The four input buffers are accepted exactly when they encode a state, its own claim, headers, and as many hints |
| Guest.StateFromWitness | crates/guest/src/main.rs:109-111 | The mutable state built from the witness has exactly the values the bytes encode |
| Guest.PriorRun | crates/guest/src/main.rs:57-99 | A verified prior proof names an earlier run that succeeded under the same key with the claim and continuation data this run starts from |
| Guest.HonestRunContinues | crates/guest/src/main.rs:57-161 | After any successful run, honestly encoded inputs with a proof the verifier accepts always yield a run that commits the report of the new headers, unless a hint is wrong |
| Guest.LineageExtends | crates/guest/src/main.rs:101-161 | Appending this run's headers to those of the prior run gives this run's outcome |
| Guest.EveryRunIsOneRun | crates/guest/src/main.rs:57-161 | Behind every committing run stands a chain of earlier runs under the same key, each continuing the one before and the first from height 0; the outcome is that of the concatenated headers of the chain applied at once to the state the first one started from |
| Guest.CommittedValuesAreOneRun | crates/guest/src/main.rs:57-161 | Committed public values, success or failure, are the report of that single application, with the claimed genesis hash, given a sound verifier for the committed key and no collision among the strings hashed |
| Guest.ChainGrows | crates/guest/src/main.rs:101-161 | A chain extends by a run that continues it, and its headers by the headers of that run |
| Guest.AnyAnchorCommits | crates/guest/src/main.rs:101-161 | Conversely, the report of applying any headers to any height-0 state is committed on some input, under any key |
| Guest.ExplainedClaimCarriesWork | crates/guest/src/main.rs:136-161 | From a coherent anchor such a claim carries the anchor's work plus that of headers that link from the anchor and meet their targets |
| Guest.ReachedGenesis | crates/core/src/state.rs:160-276 | No run, accepted or rejected, changes the genesis hash |
| Sha256.PadLayout | crates/guest/src/sha256.rs:63-243 | Every byte of the padded message, from FIPS 180-4 section 5.1.1 |
| Sha256.DataWord | crates/guest/src/sha256.rs:63-243 | A word inside the message, parsed as section 5.2.1 of FIPS 180-4 says |
| Sha256.PadWord | crates/guest/src/sha256.rs:63-243 | A word past the message is the end marker, zero or the bit length |
| Sha256.WordIsBigEndian | crates/guest/src/sha256.rs:44-56 | A message word is the big-endian number of its four bytes |
| Sha256.FirstBlockIs | crates/guest/src/sha256.rs:118-141 | The first sixteen hand-placed words are block 0 of the padded message |
| Sha256.SecondBlockOf169Is | crates/guest/src/sha256.rs:142-163 | The next sixteen are block 1 |
| Sha256.ThirdBlockOf169Is | crates/guest/src/sha256.rs:164-183 | The last sixteen, with the end marker beside byte 168 and bit length 0x548, are block 2 |
| Sha256.SecondBlockOf116Is | crates/guest/src/sha256.rs:219-243 | The last sixteen words of the 116-byte form, with end marker and bit length 0x3a0, are block 1 |
| Sha256.HashHasStateWords | crates/guest/src/sha256.rs:23-42 | Word i of the digest, read big-endian, is the low 32 bits of state word i |
| Sha256.InitialWordsAreRoots | crates/guest/src/sha256.rs:16-18 | The initial words are the first 32 fractional bits of the square roots of the first eight primes (FIPS 180-4 section 5.3.3) |
| Sha256.Sha256Of80 | crates/guest/src/sha256.rs:63-88 | Equals the generic padded block fold over the same extend and compress, on every 80-byte input; digest words are those of the final state |
| Sha256.Sha256Of32 | crates/guest/src/sha256.rs:94-110 | The same for every 32-byte input |
| Sha256.Sha256Of169 | crates/guest/src/sha256.rs:118-184 | The same for every 169-byte input |
| Sha256.Sha256Of116 | crates/guest/src/sha256.rs:196-243 | The same for every 116-byte input |
| Sha256.Sha256dOf80 | crates/guest/src/sha256.rs:187-189 | The header hash is the generic digest applied twice |
| Relay.DecodePublicValues | contracts/src/BitcoinHeaderRelay.sol:159-192 | Rejects exactly the lengths other than 228; otherwise the record whose packed layout is the input |
| Relay.PackedBytesInjective | contracts/src/BitcoinHeaderRelay.sol:159-192 | The packed layout determines every field, so that record is the only one |
| Relay.PackedLayout | contracts/src/BitcoinHeaderRelay.sol:96-110 | The stored record has every field at its offset of the packed bytes, the eleven timestamps included |
| Relay.AcceptsExactlyChaining | contracts/src/BitcoinHeaderRelay.sol:194-212 | A summary is accepted exactly when appending it keeps one genesis, hash links, and height and work strictly increasing between every two records |
| Relay.SlotsApart | contracts/src/BitcoinHeaderRelay.sol:96-114 | Positions less than the capacity apart never share a ring slot |
| Relay.RingAccepts | contracts/src/BitcoinHeaderRelay.sol:96-120 | Writing the next slot keeps each of the newest records in its place |
| Relay.HistoryIsShort | contracts/src/BitcoinHeaderRelay.sol:114-118 | At most 2^32 records are ever accepted, so the 256-bit count cannot overflow |
| Relay.BitcoinHeaderRelay.Deploy | contracts/src/BitcoinHeaderRelay.sol:78-86 | Refuses exactly the zero address and capacity zero, in that order; otherwise an empty relay bound to the verifier at the address |
| Relay.BitcoinHeaderRelay.Submit | contracts/src/BitcoinHeaderRelay.sol:90-127 | Accepts exactly when the verifier does and the bytes encode a record that keeps the chain; then the history grows by the record whose every field stands at its offset in those bytes and one event names it, its slot and proof hash; otherwise nothing changes and the error names the first failed check |
| Relay.BitcoinHeaderRelay.ValidateSummary | contracts/src/BitcoinHeaderRelay.sol:194-212 | The checks against the stored tip alone pass exactly when the summary keeps the chain law over the whole accepted history; the error is the first check that fails |
| Relay.BitcoinHeaderRelay.GetHeaderByOffset | contracts/src/BitcoinHeaderRelay.sol:142-147 | Offset k reads the k-th newest accepted record, exactly for k below both the number accepted and the capacity |
| Relay.BitcoinHeaderRelay.GetRecentHeaders | contracts/src/BitcoinHeaderRelay.sol:150-157 | The newest records, newest first, exactly for counts up to both the number accepted and the capacity |
| Allocation.StepAccounts | crates/memory-usage/src/allocation.rs:33-46 | Every atomic step keeps the largest total so far either published or in flight |
| Allocation.RunAccounts | crates/memory-usage/src/allocation.rs:33-46 | In every interleaving live is the net of all recorded sizes and the largest total is accounted for |
| Allocation.PeakIsHighest | crates/memory-usage/src/allocation.rs:33-46 | Peak never overstates, and whenever no thread is between its two steps peak is the largest live has ever been |
| Allocation.AllocationTracker.RecordAlloc | crates/memory-usage/src/allocation.rs:33-36 | Live grows by the size and peak to at least live; uninterrupted, the two atomic operations are the two steps of the interleaved model |
| Allocation.AllocationTracker.RecordDealloc | crates/memory-usage/src/allocation.rs:38-40 | Live shrinks by the size: one step of that model, leaving peak alone |
| Allocation.AllocationTracker.RecordRealloc | crates/memory-usage/src/allocation.rs:42-46 | Live changes by new minus old size and peak is at least live; uninterrupted, these are the two steps of the model |

## Left out

- SP1 proving, Groth16 wrapping, CUDA, prover caching, configuration, logging and presentation: foreign calls and I/O.
- SHA-256 compression and message schedule, keccak and the proof verifiers: parameters. Nothing is assumed of them
  beyond what a theorem's `requires` says.
- Guest.CommittedValuesAreOneRun: verifier soundness is assumed for the committed key only, and collision freedom
  only among the strings that the given runs hash, since no function from all strings to 32 bytes is injective. The
  runs may include some outside the chain, whose strings are then covered as well. Nothing is said of the anchor
  beyond its height and genesis hash: the guest trusts the witness of a height-0 start, cached difficulty and ring
  included, as `Guest.AnyAnchorCommits` states.
- Guest.RunGuest: the double hash of headers reaches `ApplyHeaders` as a function; `Guest.HashHeader` computes it.
- HeaderState.State.ApplyHeaders: height overflow wraps, as in a release build; a debug build would panic there.
  After a panic nothing is said about the fields. The check for an empty window, which the height already rules
  out, has no counterpart.
- ChainLaws.RunAdvancesMedian: for runs that do not wrap the height, as at a wrap the window starts over.
- Alignment checks and pointer casts of the zero-copy parsers: fields are read from bytes in their fixed order.
- Database rows: SQL itself, the decoding of columns and the separately stored block hash. Rows are a table keyed
  by height, and the claim stored at a height is a function parameter of `Bisect`.
- Batch preparation around the simulation: the previous proof file, the choice of the start state and the report
  text. The caller has already refused an empty batch.
- Retarget.CalculateNextTargetRequired: its multiply and divide loops are methods of their own, working in place
  on the same array.
- Sha256.Sha256Of169: the words of each unrolled block are listed in one sequence that fills the array, each named by
  the four consecutive bytes it is made of. The same holds of Sha256.Sha256Of116.
- Relay getters of a raw slot and of the latest tip: they return stored fields as they are.
- Allocation.RunAccounts: counters are unbounded rather than 64-bit. The allocator wrapper, which calls the tracker
  after the allocation it wraps, is not modelled.
