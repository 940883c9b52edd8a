/** The header rules over the full list of headers since height 0, with no ring, no cached target
    and no running state, and the proof that the state machine is a faithful compression of them. */
module History {
  import opened Arith
  import opened Words
  import opened Bytes
  import opened Work
  import opened Compact
  import opened Retarget
  import opened Median
  import opened HeaderChain
  import opened ChainLaws

  // ---- the rules on full history ----

  /** Timestamps of the last eleven headers, or of all when there are fewer. */
  function Recent(c: seq<Header>): (w: seq<u32>)
    ensures |w| == if |c| < WINDOW_SIZE then |c| else WINDOW_SIZE
  {
    var n := if |c| < WINDOW_SIZE then |c| else WINDOW_SIZE;
    seq<u32>(n, i requires 0 <= i < n => TimeAt(c, |c| - n + i))
  }

  function TimeAt(c: seq<Header>, i: nat): u32
    requires i < |c|
  {
    c[i].timestamp
  }

  function EpochStartHeight(h: nat): (e: nat)
    ensures e <= h
  {
    h / EPOCH_LENGTH * EPOCH_LENGTH
  }

  function Last(c: seq<Header>): Header
    requires c != []
  {
    c[|c| - 1]
  }

  /** The compact target the header at height `|c|` must carry. */
  function RequiredBits(c: seq<Header>): u32
    requires c != []
  {
    if |c| % EPOCH_LENGTH == 0
    then NextBits(ExpandOf(Last(c).compactTarget),
                  (Last(c).timestamp as int) - c[EpochStartHeight(|c| - 1)].timestamp)
    else Last(c).compactTarget
  }

  /** `h` is a valid header on top of the headers `c`. */
  ghost predicate ValidNext(c: seq<Header>, h: Header, hash: Header -> Bytes32)
    requires c != []
  {
    && h.prevBlockhash == hash(Last(c))
    && h.compactTarget == RequiredBits(c)
    && MedianOf(Recent(c)) < h.timestamp
    && LeNat(hash(h)) <= ExpandOf(h.compactTarget)
  }

  ghost predicate ValidExtension(c: seq<Header>, added: seq<Header>, hash: Header -> Bytes32)
    requires c != []
    decreases |added|
  {
    added == [] || (ValidNext(c, added[0], hash) && ValidExtension(c + [added[0]], added[1..], hash))
  }

  // ---- the state a history stands for ----

  /** Latest height up to `e` whose ring slot is `j`; negative when there is none. */
  function LatestAt(e: int, j: nat): int {
    e - (e - j) % 11
  }

  lemma LatestAtStep(e: int, j: nat)
    requires j < WINDOW_SIZE
    ensures LatestAt(e + 1, j) == if (e + 1) % 11 == j then e + 1 else LatestAt(e, j)
    ensures e - 10 <= LatestAt(e, j) <= e
  {
    ModSteps(e - j);
    SlotHit(e + 1, j);
  }

  lemma ModSteps(x: int)
    ensures (x + 1) % 11 == if x % 11 == 10 then 0 else x % 11 + 1
  {}

  lemma SlotHit(e: int, j: nat)
    requires j < 11
    ensures e % 11 == j <==> (e - j) % 11 == 0
  {}

  function RingOf(c: seq<Header>): Ring {
    seq(11, j requires 0 <= j < 11 => SlotValue(c, 0, |c| - 1, j))
  }

  /** What slot `j` holds when the headers from height `start` to `e` have been written in order. */
  function SlotValue(c: seq<Header>, start: nat, e: int, j: nat): u32
    requires e < |c| && j < WINDOW_SIZE
  {
    LatestAtStep(e, j);
    if LatestAt(e, j) >= start then c[LatestAt(e, j)].timestamp else 0
  }

  function StateOf(c: seq<Header>, genesisHash: Bytes32, chainWork: u256, hash: Header -> Bytes32): Snapshot
    requires c != [] && |c| <= TWO_32
  {
    var target := ExpandOf(Last(c).compactTarget);
    Snapshot(
      Last(c), hash(Last(c)), genesisHash, Last(c).compactTarget, |c| - 1, chainWork, WorkOf(target), target,
      c[EpochStartHeight(|c| - 1)].timestamp, RingOf(c))
  }

  /** While it fills, the ring is the list of timestamps. */
  lemma RingIsPrefix(c: seq<Header>)
    requires 0 < |c| <= WINDOW_SIZE
    ensures RingOf(c)[..|c|] == Recent(c)
  {
    hide SlotValue, TimeAt;
    forall i | 0 <= i < |c| ensures RingOf(c)[i] == Recent(c)[i] {
      SlotOfPrefix(c, i);
    }
  }

  lemma SlotOfPrefix(c: seq<Header>, i: nat)
    requires i < |c| <= WINDOW_SIZE
    ensures SlotValue(c, 0, |c| - 1, i) == TimeAt(c, i)
  {
    LatestAtStep(|c| - 1, i);
  }

  /** Once full, the ring is the last eleven timestamps, rotated. */
  lemma RingIsRotation(c: seq<Header>)
    requires |c| >= WINDOW_SIZE
    ensures multiset(RingOf(c)) == multiset(Recent(c))
  {
    hide SlotValue, TimeAt;
    forall i | 0 <= i < 11 ensures Recent(c)[i] == RingOf(c)[(|c| + i) % 11] {
      SlotOfRecent(c, i);
    }
    RotationPermutes(RingOf(c), Recent(c), |c|);
  }

  lemma RotationPermutes(ring: Ring, recent: Ring, n: nat)
    requires forall i :: 0 <= i < 11 ==> recent[i] == ring[(n + i) % 11]
    ensures multiset(ring) == multiset(recent)
  {
    var r := n % 11;
    forall i | 0 <= i < 11 ensures recent[i] == (ring[r..] + ring[..r])[i] {
      assert recent[i] == ring[(n + i) % 11];
    }
    assert recent == ring[r..] + ring[..r];
    assert ring == ring[..r] + ring[r..];
  }

  lemma SlotOfRecent(c: seq<Header>, i: nat)
    requires |c| >= WINDOW_SIZE && i < 11
    ensures SlotValue(c, 0, |c| - 1, (|c| + i) % 11) == TimeAt(c, |c| - 11 + i)
  {
    LatestOfRecent(|c|, i);
    hide LatestAt;
  }

  lemma LatestOfRecent(n: nat, i: nat)
    requires i < 11
    ensures LatestAt(n - 1, (n + i) % 11) == n - 11 + i
  {
    var q, r := (n + i) / 11, (n + i) % 11;
    assert n - 1 - r == 11 * q - 1 - i == 11 * (q - 1) + (10 - i);
    QuotientIs(n - 1 - r, q - 1, 11, 10 - i);
  }

  lemma MedianIsRecent(c: seq<Header>, g: Bytes32, w: u256, hash: Header -> Bytes32)
    requires c != [] && |c| <= TWO_32
    ensures MedianTimePast(StateOf(c, g, w, hash)) == MedianOf(Recent(c))
  {
    hide MedianOf, Recent, RingOf, ExpandOf, WorkOf;
    if |c| < WINDOW_SIZE {
      RingIsPrefix(c);
    } else {
      RingIsRotation(c);
      var ring := RingOf(c);
      assert ring[..11] == ring;
      MedianIgnoresOrder(ring, Recent(c));
    }
  }

  lemma RingGrows(c: seq<Header>, h: Header)
    requires c != []
    ensures RingOf(c + [h]) == RingOf(c)[|c| % WINDOW_SIZE := h.timestamp]
  {
    var ring, grown := RingOf(c), RingOf(c + [h]);
    forall j | 0 <= j < 11 ensures grown[j] == ring[|c| % WINDOW_SIZE := h.timestamp][j] {
      LatestAtStep(|c| - 1, j);
    }
  }

  lemma EpochStartGrows(c: seq<Header>, h: Header)
    requires c != []
    ensures (c + [h])[EpochStartHeight(|c|)].timestamp
         == if |c| % EPOCH_LENGTH == 0 then h.timestamp else c[EpochStartHeight(|c| - 1)].timestamp
  {}

  /** Difficulty required of the next header, read off the compressed state. */
  lemma DifficultyMatches(c: seq<Header>, g: Bytes32, w: u256, hash: Header -> Bytes32)
    requires c != [] && |c| < TWO_32
    ensures var d, bits := ActiveDifficulty(StateOf(c, g, w, hash)), RequiredBits(c);
            d == Difficulty(bits, ExpandOf(bits), WorkOf(ExpandOf(bits)))
  {
    TipSlot(c);
    hide RingOf, ExpandOf, WorkOf, EpochStartHeight, ActiveDifficulty, RequiredBits, Last;
    var s := StateOf(c, g, w, hash);
    assert NextHeight(s.height) == |c|;
    assert Elapsed(s) == (Last(c).timestamp as int) - c[EpochStartHeight(|c| - 1)].timestamp;
    DifficultyUnfolds(c, s, hash);
  }

  lemma DifficultyUnfolds(c: seq<Header>, s: Snapshot, hash: Header -> Bytes32)
    requires c != [] && NextHeight(s.height) == |c| < TWO_32
    requires s.currentNbits == Last(c).compactTarget
    requires s.currentTarget == ExpandOf(s.currentNbits) && s.currentWork == WorkOf(s.currentTarget)
    requires Elapsed(s) == (Last(c).timestamp as int) - c[EpochStartHeight(|c| - 1)].timestamp
    ensures var d, bits := ActiveDifficulty(s), RequiredBits(c);
            d == Difficulty(bits, ExpandOf(bits), WorkOf(ExpandOf(bits)))
  {
    hide ExpandOf, WorkOf, NextBits, Elapsed, EpochStartHeight, NextHeight, Last;
  }

  lemma TipSlot(c: seq<Header>)
    requires c != []
    ensures RingOf(c)[(|c| - 1) % WINDOW_SIZE] == Last(c).timestamp
  {
    LatestAtStep(|c| - 2, (|c| - 1) % 11);
  }

  lemma ExtendIsStateOf(c: seq<Header>, h: Header, g: Bytes32, w: u256, hash: Header -> Bytes32)
    requires c != [] && |c| < TWO_32
    ensures var target := ExpandOf(h.compactTarget);
            Extend(StateOf(c, g, w, hash), h, hash(h), Difficulty(h.compactTarget, target, WorkOf(target)))
            == StateOf(c + [h], g, Wrap256(w + WorkOf(target)), hash)
  {
    RingGrows(c, h);
    EpochStartGrows(c, h);
    assert Last(c + [h]) == h && NextHeight(|c| - 1) == |c|;
    hide RingOf, ExpandOf, WorkOf, Wrap256, EpochStartHeight, NextHeight, Last;
  }

  /** One header: with the true median as hint, the state machine accepts exactly the headers valid
      on the full history, arrives at the state of the longer history, and otherwise reports why. */
  lemma StepMatchesRules(c: seq<Header>, g: Bytes32, w: u256, n: NewHeader, hash: Header -> Bytes32)
    requires c != [] && |c| < TWO_32
    ensures var s, h := StateOf(c, g, w, hash), IntoHeader(n, hash(Last(c)), RequiredBits(c));
            Step(s, n, MedianOf(Recent(c)), hash)
            == if ValidNext(c, h, hash)
               then Applied(StateOf(c + [h], g, Wrap256(w + WorkOf(ExpandOf(h.compactTarget))), hash))
               else Rejected(ApplyFailure(
                      s, if n.timestamp <= MedianOf(Recent(c)) then TimestampTooOld else PowInsufficient, |c|))
  {
    MedianIsRecent(c, g, w, hash);
    DifficultyMatches(c, g, w, hash);
    ExtendIsStateOf(c, IntoHeader(n, hash(Last(c)), RequiredBits(c)), g, w, hash);
    assert StateOf(c, g, w, hash).blockHash == hash(Last(c)) && NextHeight(StateOf(c, g, w, hash).height) == |c|;
    hide MedianOf, Recent, MedianTimePast, RequiredBits, ActiveDifficulty, StateOf, Extend, ExpandOf, WorkOf,
         LeNat, Wrap256, NextHeight, Last;
  }

  // ---- whole chains ----

  function News(c: seq<Header>): (hs: seq<NewHeader>)
    ensures |hs| == |c|
  {
    seq(|c|, i requires 0 <= i < |c| => FromHeader(c[i]))
  }

  /** The true medians to hint when the headers `added` are appended to `c`. */
  function Hints(c: seq<Header>, added: seq<Header>): (ms: seq<u32>)
    requires c != []
    ensures |ms| == |added|
    decreases |added|
  {
    if added == [] then [] else [MedianOf(Recent(c))] + Hints(c + [added[0]], added[1..])
  }

  /** The state machine accepts the headers of a list, as that list, exactly when the list extends
      the history validly; and then replaying it gives the state rebuilt from the longer history. */
  lemma {:induction false} ReplayIsRebuild(c: seq<Header>, added: seq<Header>, g: Bytes32, w: u256, hash: Header -> Bytes32)
    requires c != [] && |c| + |added| <= TWO_32
    ensures var s := StateOf(c, g, w, hash);
            var o := Run(s, News(added), Hints(c, added), hash);
            && (ValidExtension(c, added, hash) <==>
                  o.Applied? && Accepted(s, News(added), Hints(c, added), hash) == added)
            && (ValidExtension(c, added, hash) ==>
                  o.state == StateOf(c + added, g, Wrap256(w + HeaderWork(added)), hash))
    decreases |added|
  {
    hide Step, StateOf, ValidNext, WorkOf, ExpandOf, Wrap256, MedianOf, Recent, RequiredBits;
    if added == [] {
      assert c + added == c;
      WrapIs(w, 0, w);
    } else {
      var h, rest := added[0], added[1..];
      var s, w' := StateOf(c, g, w, hash), Wrap256(w + WorkOf(ExpandOf(h.compactTarget)));
      NewsCons(added);
      StepAsListed(c, g, w, h, hash);
      assert c + added == c + [h] + rest;
      WrapAbsorbs(HeaderWork(rest), w + WorkOf(ExpandOf(h.compactTarget)));
      if ValidNext(c, h, hash) {
        ReplayIsRebuild(c + [h], rest, g, w', hash);
      }
    }
  }

  lemma NewsCons(added: seq<Header>)
    requires added != []
    ensures News(added)[0] == FromHeader(added[0]) && News(added)[1..] == News(added[1..])
  {}

  /** Offering the fields of a full header: it is accepted as that header exactly when valid. */
  lemma StepAsListed(c: seq<Header>, g: Bytes32, w: u256, h: Header, hash: Header -> Bytes32)
    requires c != [] && |c| < TWO_32
    ensures var o := Step(StateOf(c, g, w, hash), FromHeader(h), MedianOf(Recent(c)), hash);
            if ValidNext(c, h, hash)
            then o == Applied(StateOf(c + [h], g, Wrap256(w + WorkOf(ExpandOf(h.compactTarget))), hash))
                 && o.state.header == h
            else !o.Applied? || o.state.header != h
  {
    StepMatchesRules(c, g, w, FromHeader(h), hash);
    HeaderOfState(c, IntoHeader(FromHeader(h), hash(Last(c)), RequiredBits(c)), g, hash);
    HeaderOfState(c, h, g, hash);
    hide Step, StateOf, WorkOf, ExpandOf, Wrap256, MedianOf, Recent, RequiredBits, LeNat, Last;
  }

  lemma HeaderOfState(c: seq<Header>, h: Header, g: Bytes32, hash: Header -> Bytes32)
    requires |c| < TWO_32
    ensures forall w: u256 :: StateOf(c + [h], g, w, hash).header == h
  {
    hide ExpandOf, WorkOf, RingOf;
  }
}
