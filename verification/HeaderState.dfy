/** The imperative state machine of `state.rs`: fields updated in place, limbs for the 256-bit
    values, an array for the timestamp ring, and chain work deferred over runs of equal work. */
module HeaderState {
  import opened Words
  import opened Bytes
  import opened LimbArithmetic
  import opened Work
  import opened Retarget
  import opened Median
  import opened HeaderChain

  datatype ApplyResult = Success | Failure(failure: ApplyFailure) | Panic

  /** Chain work not yet added: `count` headers of work `work` each. */
  datatype PendingRun = PendingRun(work: Option<Limbs>, count: u32)

  const NO_PENDING := PendingRun(None, 0)

  /** The state a snapshot stands for once its pending work is added. */
  ghost function Flushed(s: Snapshot, p: PendingRun): Snapshot {
    if p.work.None? then s else s.(chainWork := Wrap256(s.chainWork + Val(p.work.value) * p.count))
  }

  /** One more header's work. */
  ghost function Added(s: Snapshot, work: u256): Snapshot {
    s.(chainWork := Wrap256(s.chainWork + work))
  }

  /** A run never outlives an epoch, so its count stays small whatever the batch. */
  ghost predicate PendingFits(p: PendingRun, height: u32) {
    && p.count <= height % EPOCH_LENGTH + 1
    && (p.work.None? ==> p.count == 0)
  }

  /** Between boundaries the height inside the epoch grows by one, wrap-around included, so a run
      that survives to the next header is still shorter than the epoch. */
  lemma CountFits(p: PendingRun, height: u32)
    requires PendingFits(p, height)
    ensures !AtBoundary(NextHeight(height)) ==> p.count <= NextHeight(height) % EPOCH_LENGTH < EPOCH_LENGTH
  {
    if height == 0xffff_ffff {
      assert NextHeight(height) == 0;
    } else {
      NextInEpoch(height);
    }
  }

  lemma NextInEpoch(h: nat)
    ensures (h + 1) % 2016 == if h % 2016 == 2015 then 0 else h % 2016 + 1
  {}

  /** Extending a run by one header of the same work. */
  lemma RunGrows(s: Snapshot, p: PendingRun)
    requires p.work.Some? && p.count < 0xffff_ffff
    ensures Flushed(s, p.(count := p.count + 1)).chainWork
         == Wrap256(Flushed(s, p).chainWork + Val(p.work.value))
  {
    hide Wrap256, Val;
    WrapAbsorbs(Val(p.work.value), s.chainWork + Val(p.work.value) * p.count);
    assert Val(p.work.value) * (p.count + 1) == Val(p.work.value) * p.count + Val(p.work.value);
  }

  /** Deferred work is invisible to every check a header goes through. */
  lemma FlushedLooksTheSame(s: Snapshot, p: PendingRun)
    ensures MedianTimePast(Flushed(s, p)) == MedianTimePast(s)
    ensures ActiveDifficulty(Flushed(s, p)) == ActiveDifficulty(s)
    ensures EpochDifficulty(Flushed(s, p)) == EpochDifficulty(s)
    ensures Flushed(s, p) == s.(chainWork := Flushed(s, p).chainWork)
  {
    hide MedianOf, NextBits, NextTarget, WorkOf;
  }

  /** A state with an accepted header recorded and its chain work untouched. */
  ghost function Assigned(s: Snapshot, height: u32, header: Header, blockHash: Bytes32, d: Difficulty): Snapshot {
    Snapshot(
      header, blockHash, s.genesisHash, d.nbits, height, s.chainWork, d.work, d.target,
      if AtBoundary(height) then header.timestamp else s.epochStart,
      s.timestamps[height % WINDOW_SIZE := header.timestamp])
  }

  /** Recording the header and counting it in the pending run together extend the state. */
  lemma AssignedIsExtended(before: Snapshot, joined: Snapshot, p: PendingRun,
                           header: Header, blockHash: Bytes32, d: Difficulty)
    requires Flushed(joined, p) == Added(before, d.work)
    ensures Flushed(Assigned(joined, NextHeight(before.height), header, blockHash, d), p)
         == Extend(before, header, blockHash, d)
  {
    hide Val, Wrap256;
  }

  /** A header hash, read as a little-endian number, is at most the target. */
  method CheckProofOfWork(hash: Bytes32, target: Limbs) returns (ok: bool)
    ensures ok <==> LeNat(hash) <= Val(target)
  {
    hide LeNat, Val;
    var order := Compare(FromLeBytes(hash), target);
    return !order.Greater?;
  }

  lemma StepPanics(s: Snapshot, n: NewHeader, m: u32, hash: Header -> Bytes32)
    requires m != MedianTimePast(s)
    ensures Step(s, n, m, hash) == Panicked
  {}

  lemma StepTooOld(s: Snapshot, n: NewHeader, hash: Header -> Bytes32)
    requires n.timestamp <= MedianTimePast(s)
    ensures Step(s, n, MedianTimePast(s), hash) == Rejected(ApplyFailure(s, TimestampTooOld, NextHeight(s.height)))
  {}

  lemma StepChecksWork(s: Snapshot, n: NewHeader, hash: Header -> Bytes32)
    requires n.timestamp > MedianTimePast(s)
    ensures var d := ActiveDifficulty(s);
            var header := IntoHeader(n, s.blockHash, d.nbits);
            Step(s, n, MedianTimePast(s), hash)
            == if LeNat(hash(header)) > d.target
               then Rejected(ApplyFailure(s, PowInsufficient, NextHeight(s.height)))
               else Applied(Extend(s, header, hash(header), d))
  {
    hide MedianTimePast, ActiveDifficulty, LeNat, Extend, NextHeight;
  }

  class State {
    var header: Header
    var blockHash: Bytes32
    var genesisHash: Bytes32
    var currentNbits: u32
    var height: u32
    var chainWork: Limbs
    var currentWork: Limbs
    var currentTarget: Limbs
    var epochStart: u32
    const timestamps: array<u32>

    ghost predicate Valid()
    {
      timestamps.Length == 11
    }

    /** The value of this state; also what `clone` hands out. */
    function View(): (s: Snapshot)
      requires Valid()
      reads this, timestamps
    {
      Snapshot(header, blockHash, genesisHash, currentNbits, height, Val(chainWork), Val(currentWork),
               Val(currentTarget), epochStart, timestamps[..])
    }

    constructor (header: Header, blockHash: Bytes32, genesisHash: Bytes32, currentNbits: u32, height: u32,
                 chainWork: Limbs, currentWork: Limbs, currentTarget: Limbs, epochStart: u32, ring: Ring)
      ensures Valid() && fresh(timestamps)
      ensures View() == Snapshot(header, blockHash, genesisHash, currentNbits, height, Val(chainWork),
                                 Val(currentWork), Val(currentTarget), epochStart, ring)
    {
      this.header, this.blockHash, this.genesisHash := header, blockHash, genesisHash;
      this.currentNbits, this.height, this.chainWork := currentNbits, height, chainWork;
      this.currentWork, this.currentTarget, this.epochStart := currentWork, currentTarget, epochStart;
      this.timestamps := new u32[11](i requires 0 <= i < 11 => ring[i]);
      new;
      assert timestamps[..] == ring;
    }

    /** A separate state of the same value. */
    method Clone() returns (c: State)
      requires Valid()
      ensures c.Valid() && fresh(c) && fresh(c.timestamps) && c.View() == View()
    {
      c := new State(header, blockHash, genesisHash, currentNbits, height, chainWork, currentWork,
                     currentTarget, epochStart, timestamps[..]);
    }

    /** The difficulty of the next epoch. Whatever the state, the new target is capped, so the
        `expect` on this result cannot fire. */
    method PrepareNewEpoch(previous: u32) returns (r: Result<(u32, Limbs, Limbs), TargetError>)
      requires Valid() && previous == timestamps[CurrentSlot(height)]
      ensures r.Ok? && Difficulty(r.value.0, Val(r.value.1), Val(r.value.2)) == EpochDifficulty(View())
    {
      hide NextBits, NextTarget, WorkOf, Val;
      var nbits, target := CalculateNextTargetRequired(currentTarget, epochStart, previous);
      NextTargetCapped(Val(currentTarget), (previous as int) - epochStart);
      var work := WorkFromTarget(target);
      match work
      case Ok(w) => return Ok((nbits, target, w));
      case Err(e) => assert false;
    }

    /** One pass over the window, counting; it accepts exactly the median. */
    method MedianTimePastHinted(claimed: u32) returns (ok: bool)
      requires Valid()
      ensures ok <==> claimed == MedianTimePast(View())
    {
      var windowLen := TimestampCount(height);
      ghost var w := timestamps[..windowLen];
      var medianIndex := windowLen / 2;
      var less, equal, greater := 0, 0, 0;
      for i := 0 to windowLen
        invariant less == CountBelow(w[..i], claimed)
        invariant less + equal == CountBelow(w[..i], (claimed as nat) + 1)
        invariant less + equal + greater == i
      {
        assert w[..i + 1][..i] == w[..i];
        if timestamps[i] < claimed {
          less := less + 1;
        } else if timestamps[i] > claimed {
          greater := greater + 1;
        } else {
          equal := equal + 1;
        }
      }
      assert w[..windowLen] == w == Window(View());
      CountingAcceptsMedian(w, claimed);
      return less + equal + greater == windowLen && less <= medianIndex && less + equal > medianIndex;
    }

    method ApplyChainWorkRun(runWork: Limbs, runCount: u32)
      modifies this`chainWork
      ensures Val(chainWork) == Wrap256(old(Val(chainWork)) + Val(runWork) * runCount)
    {
      hide Val, Wrap256;
      if runCount > 0 {
        var accumulated := MulWork(runWork, runCount);
        WrapAbsorbs(Val(chainWork), Val(runWork) * runCount);
        chainWork := AddWork(chainWork, accumulated);
      } else {
        WrapIs(Val(chainWork), 0, Val(chainWork));
      }
    }

    /** Add the pending run, if any, and forget it. */
    method FlushPending(p: PendingRun) returns (cleared: PendingRun)
      requires Valid()
      modifies this`chainWork
      ensures View() == old(Flushed(View(), p))
      ensures cleared == NO_PENDING
    {
      if p.work.Some? {
        ApplyChainWorkRun(p.work.value, p.count);
      }
      return NO_PENDING;
    }

    /** One turn of the `apply_headers` loop. */
    method ApplyNext(n: NewHeader, claimed: u32, hash: Header -> Bytes32, pending: PendingRun)
      returns (r: ApplyResult, rest: PendingRun)
      requires Valid() && PendingFits(pending, height)
      modifies this, timestamps
      ensures match Step(old(Flushed(View(), pending)), n, claimed, hash)
              case Applied(s) => r == Success && Flushed(View(), rest) == s && PendingFits(rest, height)
              case Rejected(f) => r == Failure(f) && View() == f.lastValidState
              case Panicked => r == Panic
    {
      hide Val, Wrap256, ActiveDifficulty, LeNat, MedianTimePast, Assigned, Extend, NextHeight, Flushed, Added, Step;
      ghost var before := Flushed(View(), pending);
      FlushedLooksTheSame(View(), pending);
      assert before.height == height && before.blockHash == blockHash;
      hide State.View;
      rest := pending;
      var candidateHeight := NextHeight(height);
      var previousTimestamp := timestamps[CurrentSlot(height)];
      var timestampSlot := candidateHeight % WINDOW_SIZE;

      var accepted := MedianTimePastHinted(claimed);
      if !accepted {
        StepPanics(before, n, claimed, hash);
        return Panic, rest;
      }

      if n.timestamp <= claimed {
        StepTooOld(before, n, hash);
        rest := FlushPending(rest);
        return Failure(ApplyFailure(View(), TimestampTooOld, candidateHeight)), rest;
      }

      var activeNbits, activeTarget, activeWork;
      activeNbits, activeTarget, activeWork, rest := SelectDifficulty(candidateHeight, previousTimestamp, rest);

      var newHeader := IntoHeader(n, blockHash, activeNbits);
      var newHash := hash(newHeader);
      var enough := CheckProofOfWork(newHash, activeTarget);
      StepChecksWork(before, n, hash);
      if !enough {
        rest := FlushPending(rest);
        return Failure(ApplyFailure(View(), PowInsufficient, candidateHeight)), rest;
      }

      rest := JoinRun(rest, activeWork);
      ghost var joined := View();
      AssignState(candidateHeight, timestampSlot, newHeader, newHash, activeNbits, activeTarget, activeWork);
      ghost var d := Difficulty(activeNbits, Val(activeTarget), Val(activeWork));
      AssignedIsExtended(before, joined, rest, newHeader, newHash, d);
      return Success, rest;
    }

    /** Record an accepted header. */
    method AssignState(candidateHeight: u32, slot: nat, newHeader: Header, newHash: Bytes32,
                       nbits: u32, target: Limbs, work: Limbs)
      requires Valid() && slot == candidateHeight % WINDOW_SIZE
      modifies this, timestamps
      ensures View() == Assigned(old(View()), candidateHeight, newHeader, newHash,
                                 Difficulty(nbits, Val(target), Val(work)))
      ensures height == candidateHeight
    {
      hide Val;
      height := candidateHeight;
      timestamps[slot] := newHeader.timestamp;
      currentNbits, currentTarget, currentWork := nbits, target, work;
      if AtBoundary(candidateHeight) {
        epochStart := newHeader.timestamp;
      }
      header := newHeader;
      blockHash := newHash;
      assert timestamps[..] == old(timestamps[..])[slot := newHeader.timestamp];
    }

    /** The difficulty the candidate must meet; a boundary flushes the pending run first. */
    method SelectDifficulty(candidateHeight: u32, previousTimestamp: u32, pending: PendingRun)
      returns (nbits: u32, target: Limbs, work: Limbs, rest: PendingRun)
      requires Valid() && PendingFits(pending, height)
      requires candidateHeight == NextHeight(height) && previousTimestamp == timestamps[CurrentSlot(height)]
      modifies this`chainWork
      ensures Difficulty(nbits, Val(target), Val(work)) == old(ActiveDifficulty(View()))
      ensures Flushed(View(), rest) == old(Flushed(View(), pending))
      ensures View() == old(View()).(chainWork := Val(chainWork))
      ensures rest.count <= candidateHeight % EPOCH_LENGTH < 2016 && (rest.work.None? ==> rest.count == 0)
    {
      CountFits(pending, height);
      hide Val, Wrap256, EpochDifficulty, NextHeight;
      FlushedLooksTheSame(View(), pending);
      nbits, target, work, rest := currentNbits, currentTarget, currentWork, pending;
      if AtBoundary(candidateHeight) {
        rest := FlushPending(rest);
        var prepared := PrepareNewEpoch(previousTimestamp);
        nbits, target, work := prepared.value.0, prepared.value.1, prepared.value.2;
      }
    }

    /** Count one more header of work `work`, flushing first if the pending run differs. */
    method JoinRun(pending: PendingRun, work: Limbs) returns (rest: PendingRun)
      requires Valid() && pending.count < 2016
      requires pending.work.None? ==> pending.count == 0
      modifies this`chainWork
      ensures rest.work == Some(work) && (rest.count == pending.count + 1 || rest.count == 1)
      ensures Flushed(View(), rest)
           == Added(old(Flushed(View(), pending)), Val(work))
    {
      hide Val, Wrap256;
      rest := pending;
      if rest.work != Some(work) {
        rest := FlushPending(rest);
        rest := PendingRun(Some(work), 0);
        WrapIs(Val(chainWork), 0, Val(chainWork));
      }
      RunGrows(View(), rest);
      rest := rest.(count := rest.count + 1);
    }

    /** Apply a batch of headers with their claimed medians. */
    method ApplyHeaders(headers: seq<NewHeader>, medianHints: seq<u32>, hash: Header -> Bytes32)
      returns (r: ApplyResult)
      requires Valid()
      modifies this, timestamps
      ensures match Apply(old(View()), headers, medianHints, hash)
              case Applied(s) => r == Success && View() == s
              case Rejected(f) => r == Failure(f) && View() == f.lastValidState
              case Panicked => r == Panic
    {
      hide Val, Wrap256, Step;
      if |headers| != |medianHints| {
        return Panic;
      }
      var pending := NO_PENDING;
      for i := 0 to |headers|
        invariant PendingFits(pending, height)
        invariant Run(old(View()), headers, medianHints, hash)
               == Run(Flushed(View(), pending), headers[i..], medianHints[i..], hash)
      {
        assert headers[i..][1..] == headers[i + 1..] && medianHints[i..][1..] == medianHints[i + 1..];
        var step, rest := ApplyNext(headers[i], medianHints[i], hash, pending);
        if step != Success {
          return step;
        }
        pending := rest;
      }
      pending := FlushPending(pending);
      return Success;
    }
  }
}
