/** Laws about whole runs of the header state machine: cached difficulty stays coherent, chain
    work is conserved, accepted headers link and meet their own target, median time advances, and
    the claim with the continuation data is all that the future depends on. */
module ChainLaws {
  import opened Words
  import opened Bytes
  import opened Work
  import opened Compact
  import opened Retarget
  import opened Median
  import opened HeaderChain

  /** The cached target and work are those of the compact form, within the easiest target. */
  ghost predicate Coherent(s: Snapshot) {
    && s.currentTarget == ExpandOf(s.currentNbits) <= GENESIS_TARGET
    && s.currentWork == WorkOf(s.currentTarget)
  }

  /** The full headers a run accepts. */
  ghost function Accepted(s: Snapshot, hs: seq<NewHeader>, ms: seq<u32>, hash: Header -> Bytes32): (a: seq<Header>)
    requires |hs| == |ms|
    ensures |a| <= |hs|
    decreases |hs|
  {
    if hs == [] then [] else
      var o := Step(s, hs[0], ms[0], hash);
      if o.Applied? then [o.state.header] + Accepted(o.state, hs[1..], ms[1..], hash) else []
  }

  /** The state after the last accepted header: the final state or the last valid one. */
  ghost function Reached(o: Outcome): Snapshot
    requires !o.Panicked?
  {
    if o.Applied? then o.state else o.failure.lastValidState
  }

  /** Work of the headers by their own compact targets. */
  ghost function HeaderWork(a: seq<Header>): nat {
    if a == [] then 0 else WorkOf(ExpandOf(a[0].compactTarget)) + HeaderWork(a[1..])
  }

  /** Each header names the hash of the one before and meets the target it states. */
  ghost predicate Linked(tip: Bytes32, a: seq<Header>, hash: Header -> Bytes32)
    decreases |a|
  {
    a == [] ||
    (&& a[0].prevBlockhash == tip
     && LeNat(hash(a[0])) <= ExpandOf(a[0].compactTarget)
     && Linked(hash(a[0]), a[1..], hash))
  }

  ghost function TipHash(tip: Bytes32, a: seq<Header>, hash: Header -> Bytes32): Bytes32 {
    if a == [] then tip else hash(a[|a| - 1])
  }

  lemma EpochDifficultyCoherent(s: Snapshot)
    ensures var d := EpochDifficulty(s);
            && d.target == ExpandOf(d.nbits) <= GENESIS_TARGET
            && d.work == WorkOf(d.target)
  {
    NextTargetCapped(s.currentTarget, Elapsed(s));
    hide WorkOf, ExpandOf, NextBits;
  }

  /** One accepted header. */
  lemma StepLaws(s: Snapshot, n: NewHeader, m: u32, hash: Header -> Bytes32)
    requires Coherent(s) && Step(s, n, m, hash).Applied?
    ensures var t := Step(s, n, m, hash).state;
            && Coherent(t)
            && t.genesisHash == s.genesisHash
            && t.height == NextHeight(s.height)
            && t.chainWork == Wrap256(s.chainWork + WorkOf(ExpandOf(t.header.compactTarget)))
            && t.header.prevBlockhash == s.blockHash
            && t.blockHash == hash(t.header)
            && LeNat(t.blockHash) <= ExpandOf(t.header.compactTarget)
            && FromHeader(t.header) == n
            && m == MedianTimePast(s) < n.timestamp
  {
    EpochDifficultyCoherent(s);
    hide WorkOf, ExpandOf, Wrap256, LeNat, EpochDifficulty, MedianTimePast;
  }

  /** The state after an accepted header, field by field: the prover's four fields with the tip hash and
      the compact target in force, one slot of the ring, and one header's work. */
  lemma AcceptedFields(s: Snapshot, n: NewHeader, m: u32, hash: Header -> Bytes32)
    requires Step(s, n, m, hash).Applied?
    ensures var t := Step(s, n, m, hash).state;
            && t.header.version == n.version && t.header.merkleRoot == n.merkleRoot
            && t.header.timestamp == n.timestamp && t.header.nonce == n.nonce
            && t.header.prevBlockhash == s.blockHash && t.header.compactTarget == t.currentNbits
            && t.blockHash == hash(t.header) && LeNat(t.blockHash) <= t.currentTarget
            && t.genesisHash == s.genesisHash
            && t.height == (s.height + 1) % 0x1_0000_0000
            && t.chainWork == Wrap256(s.chainWork + t.currentWork)
            && t.timestamps == s.timestamps[t.height % 11 := n.timestamp]
  {
    hide LeNat, MedianTimePast, ActiveDifficulty, Wrap256;
  }

  /** Difficulty and epoch start move only at heights that are multiples of 2016, and there by the time
      from the epoch's first timestamp to the tip's. */
  lemma EpochRule(s: Snapshot, n: NewHeader, m: u32, hash: Header -> Bytes32)
    requires Step(s, n, m, hash).Applied?
    ensures var t := Step(s, n, m, hash).state;
            t.height % 2016 != 0 ==>
              && t.currentNbits == s.currentNbits && t.currentTarget == s.currentTarget
              && t.currentWork == s.currentWork && t.epochStart == s.epochStart
    ensures var t := Step(s, n, m, hash).state;
            var elapsed := (s.timestamps[s.height % 11] as int) - s.epochStart;
            t.height % 2016 == 0 ==>
              && t.currentTarget == NextTarget(s.currentTarget, elapsed)
              && t.currentNbits == CompactOf(t.currentTarget)
              && t.currentWork == WorkOf(t.currentTarget) && t.epochStart == n.timestamp
  {
    BitsAreOfTarget(s.currentTarget, Elapsed(s));
    hide LeNat, MedianTimePast, NextTarget, NextBits, CompactOf, WorkOf, Wrap256;
  }

  /** What a run of `n` headers from `s` that accepts the headers `a` keeps, whether it is accepted
      in full or stopped by a bad header: the caches stay coherent, the work added is the work of
      the accepted headers, these link and meet their targets, and a failure height is absolute. */
  ghost predicate RunKeeps(s: Snapshot, o: Outcome, a: seq<Header>, n: nat, hash: Header -> Bytes32)
    requires !o.Panicked?
  {
    var t := Reached(o);
    && Coherent(t)
    && t.genesisHash == s.genesisHash
    && t.height == (s.height + |a|) % 0x1_0000_0000
    && t.chainWork == Wrap256(s.chainWork + HeaderWork(a))
    && t.blockHash == TipHash(s.blockHash, a, hash)
    && Linked(s.blockHash, a, hash)
    && (o.Applied? <==> |a| == n)
    && (o.Rejected? ==> o.failure.failureHeight == (s.height + |a| + 1) % 0x1_0000_0000)
  }

  lemma {:induction false} RunLaws(s: Snapshot, hs: seq<NewHeader>, ms: seq<u32>, hash: Header -> Bytes32)
    requires |hs| == |ms| && Coherent(s) && !Run(s, hs, ms, hash).Panicked?
    ensures RunKeeps(s, Run(s, hs, ms, hash), Accepted(s, hs, ms, hash), |hs|, hash)
    decreases |hs|
  {
    hide Step, Coherent, RunKeeps;
    if hs == [] {
      KeepsAtStop(s, Applied(s), 0, hash);
    } else {
      var o := Step(s, hs[0], ms[0], hash);
      if o.Applied? {
        var t := o.state;
        StepLaws(s, hs[0], ms[0], hash);
        RunLaws(t, hs[1..], ms[1..], hash);
        KeepsAfterStep(s, t, Run(t, hs[1..], ms[1..], hash), Accepted(t, hs[1..], ms[1..], hash), |hs| - 1, hash);
      } else {
        RejectFacts(s, hs[0], ms[0], hash);
        KeepsAtStop(s, o, |hs|, hash);
      }
    }
  }

  lemma RejectFacts(s: Snapshot, n: NewHeader, m: u32, hash: Header -> Bytes32)
    ensures var o := Step(s, n, m, hash);
            o.Rejected? ==> o.failure.lastValidState == s && o.failure.failureHeight == NextHeight(s.height)
  {
    hide MedianTimePast, LeNat, Extend, ActiveDifficulty;
  }

  lemma KeepsAtStop(s: Snapshot, o: Outcome, n: nat, hash: Header -> Bytes32)
    requires Coherent(s) && !o.Panicked? && Reached(o) == s && (o.Applied? <==> n == 0)
    requires o.Rejected? ==> o.failure.failureHeight == NextHeight(s.height)
    ensures RunKeeps(s, o, [], n, hash)
  {
    hide Coherent, Wrap256;
    WrapIs(s.chainWork, 0, s.chainWork);
  }

  lemma KeepsAfterStep(s: Snapshot, t: Snapshot, o: Outcome, b: seq<Header>, n: nat, hash: Header -> Bytes32)
    requires !o.Panicked? && RunKeeps(t, o, b, n, hash)
    requires t.genesisHash == s.genesisHash && t.height == NextHeight(s.height)
    requires t.chainWork == Wrap256(s.chainWork + WorkOf(ExpandOf(t.header.compactTarget)))
    requires t.header.prevBlockhash == s.blockHash && t.blockHash == hash(t.header)
    requires LeNat(t.blockHash) <= ExpandOf(t.header.compactTarget)
    ensures RunKeeps(s, o, [t.header] + b, n + 1, hash)
  {
    hide Coherent, WorkOf, ExpandOf, Wrap256, LeNat, Reached, HeaderWork, Linked, TipHash;
    WrapAbsorbs(HeaderWork(b), s.chainWork + WorkOf(ExpandOf(t.header.compactTarget)));
    ConsHeader(s.blockHash, t.header, b, hash);
    HeightsAdd(s.height, |b|);
  }

  lemma ConsHeader(tip: Bytes32, h: Header, b: seq<Header>, hash: Header -> Bytes32)
    ensures var a := [h] + b;
            && HeaderWork(a) == WorkOf(ExpandOf(h.compactTarget)) + HeaderWork(b)
            && TipHash(tip, a, hash) == TipHash(hash(h), b, hash)
            && (Linked(tip, a, hash) <==>
                  h.prevBlockhash == tip && LeNat(hash(h)) <= ExpandOf(h.compactTarget) && Linked(hash(h), b, hash))
  {
    hide WorkOf, ExpandOf, LeNat;
    var a := [h] + b;
    assert a[1..] == b;
    assert b != [] ==> a[|a| - 1] == b[|b| - 1];
  }

  lemma HeightsAdd(h: u32, n: nat)
    ensures (NextHeight(h) + n) % 0x1_0000_0000 == (h + (n + 1)) % 0x1_0000_0000
    ensures (NextHeight(h) + n + 1) % 0x1_0000_0000 == (h + (n + 1) + 1) % 0x1_0000_0000
  {
    if h == 0xffff_ffff {
      assert NextHeight(h) == 0;
      DropWrap(n);
      DropWrap(n + 1);
    } else {
      assert NextHeight(h) == h + 1;
    }
  }

  lemma DropWrap(n: nat)
    ensures (0x1_0000_0000 + n) % 0x1_0000_0000 == n % 0x1_0000_0000
  {}

  // ---- median time past ----

  /** A header's timestamp enters the window; everything else in it was there before. */
  lemma WindowStep(s: Snapshot, n: NewHeader, m: u32, hash: Header -> Bytes32, bound: nat)
    requires Step(s, n, m, hash).Applied?
    ensures var t := Step(s, n, m, hash).state;
            && m == MedianTimePast(s) < n.timestamp
            && t.height == NextHeight(s.height)
            && t.timestamps == s.timestamps[t.height % WINDOW_SIZE := n.timestamp]
            && (bound <= n.timestamp ==>
                  || CountBelow(Window(t), bound) == 0
                  || (CountBelow(Window(t), bound) <= CountBelow(Window(s), bound) && |Window(s)| <= |Window(t)|))
  {
    hide LeNat, MedianOf, ActiveDifficulty, CountBelow;
    var t := Step(s, n, m, hash).state;
    var v, w := Window(s), Window(t);
    if bound <= n.timestamp {
      if t.height == 0 {
        assert w == [n.timestamp];
        CountOne(n.timestamp, bound);
      } else if |v| < |w| {
        assert w == v + [n.timestamp];
        CountConcat(v, [n.timestamp], bound);
        CountOne(n.timestamp, bound);
      } else {
        var i := t.height % WINDOW_SIZE;
        assert w == v[i := n.timestamp];
        CountUpdate(v, i, n.timestamp, bound);
      }
    }
  }

  /** One accepted header never lowers the median. */
  lemma StepKeepsMedian(s: Snapshot, n: NewHeader, m: u32, hash: Header -> Bytes32)
    requires Step(s, n, m, hash).Applied?
    ensures MedianTimePast(s) <= MedianTimePast(Step(s, n, m, hash).state)
  {
    var t := Step(s, n, m, hash).state;
    WindowStep(s, n, m, hash, m);
    hide Step, MedianOf, CountBelow;
    MedianRank(Window(s), m);
    MedianRank(Window(t), m);
  }

  function SlotAfter(h0: nat, j: nat): (i: nat)
    ensures i < WINDOW_SIZE
  {
    (h0 + j) % WINDOW_SIZE
  }

  /** The slots of the headers accepted since height `h0` hold timestamps at or above a bound. */
  ghost predicate Fresh(t: Snapshot, h0: nat, bound: nat) {
    forall j :: 1 <= j <= t.height - h0 ==> t.timestamps[SlotAfter(h0, j)] >= bound
  }

  lemma {:induction false} RunFresh(h0: nat, s: Snapshot, hs: seq<NewHeader>, ms: seq<u32>,
                                   hash: Header -> Bytes32, bound: nat)
    requires |hs| == |ms| && Run(s, hs, ms, hash).Applied?
    requires h0 <= s.height && s.height + |hs| <= h0 + 6 && s.height + |hs| < TWO_32
    requires Fresh(s, h0, bound) && bound <= MedianTimePast(s) + 1
    ensures var t := Run(s, hs, ms, hash).state;
            t.height == s.height + |hs| && Fresh(t, h0, bound)
    decreases |hs|
  {
    hide Step, MedianTimePast;
    if hs == [] {
    } else {
      var t := Step(s, hs[0], ms[0], hash).state;
      WindowStep(s, hs[0], ms[0], hash, bound);
      StepKeepsMedian(s, hs[0], ms[0], hash);
      assert t.height == s.height + 1;
      RunFresh(h0, t, hs[1..], ms[1..], hash, bound);
    }
  }

  /** Six accepted headers fill more than half of any window with later timestamps. */
  lemma SixHeadersRaiseMedian(s: Snapshot, hs: seq<NewHeader>, ms: seq<u32>, hash: Header -> Bytes32)
    requires |hs| == |ms| == 6 && Run(s, hs, ms, hash).Applied? && s.height + 6 < TWO_32
    ensures MedianTimePast(s) < MedianTimePast(Run(s, hs, ms, hash).state)
  {
    var bound := (MedianTimePast(s) as nat) + 1;
    var t, h := Run(s, hs, ms, hash).state, s.height as nat;
    RunFresh(h, s, hs, ms, hash, bound);
    hide Run, MedianOf, CountBelow;
    var w := Window(t);
    var slots := SixSlots(h);
    assert forall i :: i in slots ==> i < |w| && w[i] >= bound;
    CountAvoids(w, bound, slots);
    MedianRank(w, bound);
  }

  /** Six consecutive heights occupy six different slots of the filled part of the ring. */
  function SixSlots(h: nat): (slots: set<nat>)
    ensures |slots| == 6
    ensures forall i :: i in slots ==> exists j :: 1 <= j <= 6 && i == SlotAfter(h, j)
    ensures forall i :: i in slots ==> i < h + 7 && i < WINDOW_SIZE
  {
    SlotsDiffer(h);
    {SlotAfter(h, 1), SlotAfter(h, 2), SlotAfter(h, 3), SlotAfter(h, 4), SlotAfter(h, 5), SlotAfter(h, 6)}
  }

  lemma SlotsDiffer(h: nat)
    ensures forall i, j :: 1 <= i < j <= 6 ==> SlotAfter(h, i) != SlotAfter(h, j)
    ensures forall j :: 1 <= j <= 6 ==> SlotAfter(h, j) <= h + j
  {}

  /** Median time past never decreases along an accepted run, and is strictly larger once six
      headers have been accepted. */
  lemma {:induction false} RunAdvancesMedian(s: Snapshot, hs: seq<NewHeader>, ms: seq<u32>, hash: Header -> Bytes32)
    requires |hs| == |ms| && Run(s, hs, ms, hash).Applied? && s.height + |hs| < TWO_32
    ensures var t := Run(s, hs, ms, hash).state;
            && MedianTimePast(s) <= MedianTimePast(t)
            && (|hs| >= 6 ==> MedianTimePast(s) < MedianTimePast(t))
    decreases |hs|
  {
    hide Step, MedianTimePast;
    if hs == [] {
    } else if |hs| >= 6 {
      assert hs == hs[..6] + hs[6..] && ms == ms[..6] + ms[6..];
      RunSplits(s, hs[..6], ms[..6], hs[6..], ms[6..], hash);
      var six := Run(s, hs[..6], ms[..6], hash).state;
      SixHeadersRaiseMedian(s, hs[..6], ms[..6], hash);
      HeightAfter(s, hs[..6], ms[..6], hash);
      RunAdvancesMedian(six, hs[6..], ms[6..], hash);
    } else {
      var t := Step(s, hs[0], ms[0], hash).state;
      StepKeepsMedian(s, hs[0], ms[0], hash);
      HeightAfterOne(s, hs[0], ms[0], hash);
      RunAdvancesMedian(t, hs[1..], ms[1..], hash);
    }
  }

  lemma HeightAfterOne(s: Snapshot, n: NewHeader, m: u32, hash: Header -> Bytes32)
    requires Step(s, n, m, hash).Applied?
    ensures Step(s, n, m, hash).state.height == NextHeight(s.height)
  {
    hide MedianTimePast, LeNat, ActiveDifficulty, Wrap256;
  }

  lemma {:induction false} HeightAfter(s: Snapshot, hs: seq<NewHeader>, ms: seq<u32>, hash: Header -> Bytes32)
    requires |hs| == |ms| && Run(s, hs, ms, hash).Applied? && s.height + |hs| < TWO_32
    ensures Run(s, hs, ms, hash).state.height == s.height + |hs|
    decreases |hs|
  {
    hide Step;
    if hs == [] {
    } else {
      HeightAfterOne(s, hs[0], ms[0], hash);
      HeightAfter(Step(s, hs[0], ms[0], hash).state, hs[1..], ms[1..], hash);
    }
  }

  // ---- what the future depends on ----

  /** Equal claims and equal continuation data leave only the stored header open. */
  ghost predicate SameButHeader(a: Snapshot, b: Snapshot) {
    a.(header := b.header) == b
  }

  lemma ClaimAndContinuationDetermine(a: Snapshot, b: Snapshot)
    ensures PublicClaim(a) == PublicClaim(b) && Continuation(a) == Continuation(b) <==> SameButHeader(a, b)
  {}

  /** Outcomes an observer of claims, continuation data and error reports cannot tell apart. */
  ghost predicate SameOutcome(o: Outcome, p: Outcome) {
    || (o.Panicked? && p.Panicked?)
    || (o.Applied? && p.Applied? && SameButHeader(o.state, p.state))
    || (o.Rejected? && p.Rejected?
        && SameButHeader(o.failure.lastValidState, p.failure.lastValidState)
        && o.failure.errorCode == p.failure.errorCode
        && o.failure.failureHeight == p.failure.failureHeight)
  }

  lemma StepIgnoresHeader(a: Snapshot, b: Snapshot, n: NewHeader, m: u32, hash: Header -> Bytes32)
    requires SameButHeader(a, b)
    ensures SameOutcome(Step(a, n, m, hash), Step(b, n, m, hash))
    ensures Step(a, n, m, hash).Applied? ==> Step(a, n, m, hash) == Step(b, n, m, hash)
  {
    hide MedianOf, LeNat, NextBits, NextTarget, WorkOf, Wrap256;
    assert Window(a) == Window(b);
    assert ActiveDifficulty(a) == ActiveDifficulty(b);
  }

  /** Two states with the same claim and continuation data have the same future: every header list
      gives the same claims, continuation data and errors, and from the first accepted header on
      the states are equal in full. */
  lemma {:induction false} ClaimAndContinuationSuffice(
      a: Snapshot, b: Snapshot, hs: seq<NewHeader>, ms: seq<u32>, hash: Header -> Bytes32)
    requires |hs| == |ms| && PublicClaim(a) == PublicClaim(b) && Continuation(a) == Continuation(b)
    ensures SameOutcome(Run(a, hs, ms, hash), Run(b, hs, ms, hash))
    ensures hs != [] && Run(a, hs, ms, hash).Applied? ==> Run(a, hs, ms, hash) == Run(b, hs, ms, hash)
    ensures Accepted(a, hs, ms, hash) != [] ==> Run(a, hs, ms, hash) == Run(b, hs, ms, hash)
  {
    hide Step;
    ClaimAndContinuationDetermine(a, b);
    if hs != [] {
      StepIgnoresHeader(a, b, hs[0], ms[0], hash);
    }
  }

  // ---- when chain work grows ----

  /** An accepted header raises the chain work exactly when the target it meets is positive and the
      sum stays below 2^256. */
  lemma StepRaisesWork(s: Snapshot, n: NewHeader, m: u32, hash: Header -> Bytes32)
    requires Coherent(s) && Step(s, n, m, hash).Applied?
    ensures var d := ActiveDifficulty(s);
            Step(s, n, m, hash).state.chainWork > s.chainWork
            <==> d.target > 0 && s.chainWork + d.work < TWO_256
  {
    hide *;
    StepAddsWork(s, n, m, hash);
    DifficultyIsCoherent(s);
    WorkIsExactUnlessZero(ActiveDifficulty(s).target);
    SumRaises(s.chainWork, ActiveDifficulty(s).work);
  }

  lemma StepAddsWork(s: Snapshot, n: NewHeader, m: u32, hash: Header -> Bytes32)
    requires Step(s, n, m, hash).Applied?
    ensures Step(s, n, m, hash).state.chainWork == Wrap256(s.chainWork + ActiveDifficulty(s).work)
  {
    hide MedianTimePast, LeNat, Wrap256, ActiveDifficulty;
  }

  lemma DifficultyIsCoherent(s: Snapshot)
    requires Coherent(s)
    ensures ActiveDifficulty(s).work == WorkOf(ActiveDifficulty(s).target)
  {
    EpochDifficultyCoherent(s);
    hide WorkOf, ExpandOf, EpochDifficulty;
  }

  lemma SumRaises(w: u256, added: u256)
    ensures Wrap256(w + added) > w <==> added > 0 && w + added < TWO_256
    ensures w + added < TWO_256 ==> Wrap256(w + added) == w + added
  {
    if w + added < TWO_256 {
      WrapIs(w + added, 0, w + added);
    } else {
      WrapIs(w + added, 1, w + added - TWO_256);
    }
  }

  /** Every header a run accepts raises the chain work it is added to. */
  ghost predicate EachRaises(s: Snapshot, hs: seq<NewHeader>, ms: seq<u32>, hash: Header -> Bytes32)
    requires |hs| == |ms|
    decreases |hs|
  {
    hs != [] && Step(s, hs[0], ms[0], hash).Applied? ==>
      var t := Step(s, hs[0], ms[0], hash).state;
      t.chainWork > s.chainWork && EachRaises(t, hs[1..], ms[1..], hash)
  }

  ghost predicate PositiveTargets(a: seq<Header>) {
    forall h :: h in a ==> ExpandOf(h.compactTarget) > 0
  }

  /** Chain work grows with every accepted header of a run exactly when every one of them meets a
      positive target and the total stays below 2^256. */
  lemma {:induction false} RunRaisesWork(s: Snapshot, hs: seq<NewHeader>, ms: seq<u32>, hash: Header -> Bytes32)
    requires |hs| == |ms| && Coherent(s)
    ensures var a := Accepted(s, hs, ms, hash);
            EachRaises(s, hs, ms, hash) <==> PositiveTargets(a) && (a == [] || s.chainWork + HeaderWork(a) < TWO_256)
    decreases |hs|
  {
    hide Step, Coherent, WorkOf, ExpandOf, ActiveDifficulty;
    if hs == [] || !Step(s, hs[0], ms[0], hash).Applied? {
    } else {
      var t := Step(s, hs[0], ms[0], hash).state;
      StepLaws(s, hs[0], ms[0], hash);
      StepRaisesWork(s, hs[0], ms[0], hash);
      RunRaisesWork(t, hs[1..], ms[1..], hash);
      StepCarriesDifficulty(s, hs[0], ms[0], hash);
      RaisesCons(s, t, Accepted(t, hs[1..], ms[1..], hash));
    }
  }

  /** The stored header of an accepted step names the difficulty it was accepted at. */
  lemma StepCarriesDifficulty(s: Snapshot, n: NewHeader, m: u32, hash: Header -> Bytes32)
    requires Coherent(s) && Step(s, n, m, hash).Applied?
    ensures var d, target := ActiveDifficulty(s), ExpandOf(Step(s, n, m, hash).state.header.compactTarget);
            d.target == target && d.work == WorkOf(target)
  {
    EpochDifficultyCoherent(s);
    hide WorkOf, ExpandOf, Wrap256, LeNat, EpochDifficulty, MedianTimePast;
  }

  lemma RaisesCons(s: Snapshot, t: Snapshot, b: seq<Header>)
    requires t.chainWork == Wrap256(s.chainWork + WorkOf(ExpandOf(t.header.compactTarget)))
    ensures var a, work := [t.header] + b, WorkOf(ExpandOf(t.header.compactTarget));
            && HeaderWork(a) == work + HeaderWork(b)
            && (PositiveTargets(a) <==> ExpandOf(t.header.compactTarget) > 0 && PositiveTargets(b))
            && (s.chainWork + work < TWO_256 ==> t.chainWork == s.chainWork + work)
            && (b == [] ==> HeaderWork(b) == 0)
  {
    hide WorkOf, ExpandOf, Wrap256;
    assert ([t.header] + b)[1..] == b;
    SumRaises(s.chainWork, WorkOf(ExpandOf(t.header.compactTarget)));
  }

  // ---- a run on which it does not ----

  function ZeroHash(): Bytes32 { LeBytes(0, 32) }

  function HashesToZero(h: Header): Bytes32 { ZeroHash() }

  lemma ZeroHashValue()
    ensures LeNat(ZeroHash()) == 0
  {
    hide LeBytes, LeNat, Pow256;
    LeRoundTrip(0, 32);
  }

  function PlainHeader(time: u32, bits: u32): Header {
    Header(0, ZeroHash(), ZeroHash(), time, bits, 0)
  }

  lemma MedianOfOne(x: u32)
    ensures MedianOf([x]) == x
  {
    assert Sort([x][..0]) == [];
  }

  /** A coherent state of target 0 accepts a header and keeps its chain work. */
  lemma WorkCanStall() returns (s: Snapshot, n: NewHeader)
    ensures Coherent(s) && s.currentNbits == 0
    ensures var o := Step(s, n, 0, HashesToZero); o.Applied? && o.state.chainWork == s.chainWork
  {
    hide LeNat, LeBytes, WorkOf, ExpandOf, Wrap256, MedianOf, EpochDifficulty, Extend;
    s := Snapshot(PlainHeader(0, 0), ZeroHash(), ZeroHash(), 0, 0, 0, 0, 0, 0, [0, 0, 0, 0, 0, 0, 0, 0, 0, 0, 0]);
    n := FromHeader(PlainHeader(1, 0));
    ZeroExpands();
    WorkIsExactUnlessZero(0);
    ZeroHashValue();
    MedianOfOne(0);
    assert Window(s) == [0];
    assert Step(s, n, 0, HashesToZero).Applied?;
    StepAddsWork(s, n, 0, HashesToZero);
    SumRaises(0, 0);
  }

  lemma ZeroExpands()
    ensures ExpandOf(0) == 0
  {
    SmallExpansion(0, Pow256(3));
  }
}
