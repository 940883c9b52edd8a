/** Batch preparation in `batch.rs`: simulate the batch on the host, and when the result disagrees
    with the database, bisect over lazily replayed states for where it went wrong. The database is
    the claim it stores at each height. */
module Bisect {
  import opened Words
  import opened Bytes
  import opened HeaderChain
  import opened HeaderState

  datatype Simulation =
    | Agrees(expected: Snapshot)
    | Diverges(index: nat, actual: Snapshot)
    | SimulationPanic

  /** State after the first `k` headers of a batch that applies. */
  ghost function After(s: Snapshot, hs: seq<NewHeader>, ms: seq<u32>, k: nat, hash: Header -> Bytes32): Snapshot
    requires |hs| == |ms| && k <= |hs| && Run(s, hs, ms, hash).Applied?
  {
    PrefixApplies(s, hs, ms, k, hash);
    Run(s, hs[..k], ms[..k], hash).state
  }

  lemma PrefixApplies(s: Snapshot, hs: seq<NewHeader>, ms: seq<u32>, k: nat, hash: Header -> Bytes32)
    requires |hs| == |ms| && k <= |hs| && Run(s, hs, ms, hash).Applied?
    ensures Run(s, hs[..k], ms[..k], hash).Applied?
  {
    assert hs == hs[..k] + hs[k..] && ms == ms[..k] + ms[k..];
    RunSplits(s, hs[..k], ms[..k], hs[k..], ms[k..], hash);
  }

  lemma AfterStep(s: Snapshot, hs: seq<NewHeader>, ms: seq<u32>, k: nat, hash: Header -> Bytes32)
    requires |hs| == |ms| && k < |hs| && Run(s, hs, ms, hash).Applied?
    ensures Run(After(s, hs, ms, k, hash), [hs[k]], [ms[k]], hash) == Applied(After(s, hs, ms, k + 1, hash))
  {
    hide Run, Step;
    PrefixApplies(s, hs, ms, k + 1, hash);
    Snoc(hs, k);
    Snoc(ms, k);
    RunSplits(s, hs[..k], ms[..k], [hs[k]], [ms[k]], hash);
  }

  lemma Snoc<T>(s: seq<T>, k: nat)
    requires k < |s|
    ensures s[..k + 1] == s[..k] + [s[k]]
  {}

  /** The replayed claim after header `k` differs from the stored one. */
  ghost predicate DivergesAt(s: Snapshot, hs: seq<NewHeader>, ms: seq<u32>, hash: Header -> Bytes32,
                             first: nat, db: nat -> Claim, k: nat)
    requires |hs| == |ms| && k < |hs| && Run(s, hs, ms, hash).Applied?
  {
    PublicClaim(After(s, hs, ms, k + 1, hash)) != db(first + k)
  }

  /** A divergence, once there, stays to the end of the batch. */
  ghost predicate Persists(s: Snapshot, hs: seq<NewHeader>, ms: seq<u32>, hash: Header -> Bytes32,
                           first: nat, db: nat -> Claim)
    requires |hs| == |ms| && Run(s, hs, ms, hash).Applied?
  {
    forall i, j | 0 <= i < j < |hs| ::
      DivergesAt(s, hs, ms, hash, first, db, i) ==> DivergesAt(s, hs, ms, hash, first, db, j)
  }

  /** The batch diverges from header `index` on and matches before. */
  ghost predicate DivergesFrom(s: Snapshot, hs: seq<NewHeader>, ms: seq<u32>, hash: Header -> Bytes32,
                               first: nat, db: nat -> Claim, index: nat)
    requires |hs| == |ms| && Run(s, hs, ms, hash).Applied?
  {
    forall i :: 0 <= i < |hs| ==> (DivergesAt(s, hs, ms, hash, first, db, i) <==> i >= index)
  }

  /** When divergence persists, an index that diverges after one that matches is the first. */
  lemma FoundIsFirst(s: Snapshot, hs: seq<NewHeader>, ms: seq<u32>, hash: Header -> Bytes32,
                     first: nat, db: nat -> Claim, index: nat)
    requires |hs| == |ms| && index < |hs| && Run(s, hs, ms, hash).Applied?
    requires DivergesAt(s, hs, ms, hash, first, db, index)
    requires index > 0 ==> !DivergesAt(s, hs, ms, hash, first, db, index - 1)
    ensures Persists(s, hs, ms, hash, first, db) ==> DivergesFrom(s, hs, ms, hash, first, db, index)
  {
    hide DivergesAt, Run;
  }

  /** The states replayed so far are those after each header in turn, and `s` is at the last. */
  ghost predicate Replayed(base: Snapshot, hs: seq<NewHeader>, ms: seq<u32>, hash: Header -> Bytes32,
                           states: seq<Snapshot>, s: Snapshot)
    requires |hs| == |ms| && Run(base, hs, ms, hash).Applied?
  {
    && |states| <= |hs|
    && s == After(base, hs, ms, |states|, hash)
    && forall k :: 0 <= k < |states| ==> states[k] == After(base, hs, ms, k + 1, hash)
  }

  /** Replay one header at a time until the state after `target` is known. Nothing is replayed
      twice, and since the whole batch applies no single header can fail. */
  method ReplayStatesThrough(state: State, replayed: seq<Snapshot>, headers: seq<NewHeader>, hints: seq<u32>,
                             target: nat, hash: Header -> Bytes32, ghost base: Snapshot)
    returns (states: seq<Snapshot>, ghost applied: nat)
    requires state.Valid() && |headers| == |hints| && target < |headers|
    requires Run(base, headers, hints, hash).Applied?
    requires Replayed(base, headers, hints, hash, replayed, state.View())
    modifies state, state.timestamps
    ensures Replayed(base, headers, hints, hash, states, state.View())
    ensures replayed <= states && |states| == (if |replayed| <= target then target + 1 else |replayed|)
    ensures applied == |states| - |replayed|
  {
    hide Run, Apply, After, Replayed, State.View;
    ReplayedLength(base, headers, hints, hash, replayed, state.View());
    states, applied := replayed, 0;
    while |states| <= target
      invariant Replayed(base, headers, hints, hash, states, state.View())
      invariant replayed <= states && |states| <= (if |replayed| <= target then target + 1 else |replayed|)
      invariant applied == |states| - |replayed|
    {
      var index := |states|;
      ReplayedGrows(base, headers, hints, hash, states, state.View());
      ApplyOne(state.View(), headers[index], hints[index], hash);
      var r := state.ApplyHeaders([headers[index]], [hints[index]], hash);
      assert r == Success;
      states := states + [state.View()];
      applied := applied + 1;
    }
  }

  lemma ReplayedLength(base: Snapshot, hs: seq<NewHeader>, ms: seq<u32>, hash: Header -> Bytes32,
                       states: seq<Snapshot>, s: Snapshot)
    requires |hs| == |ms| && Run(base, hs, ms, hash).Applied? && Replayed(base, hs, ms, hash, states, s)
    ensures |states| <= |hs|
  {
    hide Run;
  }

  lemma ReplayedGrows(base: Snapshot, hs: seq<NewHeader>, ms: seq<u32>, hash: Header -> Bytes32,
                      states: seq<Snapshot>, s: Snapshot)
    requires |hs| == |ms| && Run(base, hs, ms, hash).Applied? && Replayed(base, hs, ms, hash, states, s)
    requires |states| < |hs|
    ensures var o := Run(s, [hs[|states|]], [ms[|states|]], hash);
            o.Applied? && Replayed(base, hs, ms, hash, states + [o.state], o.state)
  {
    hide Run, After;
    AfterStep(base, hs, ms, |states|, hash);
  }

  lemma ApplyOne(s: Snapshot, n: NewHeader, m: u32, hash: Header -> Bytes32)
    ensures Apply(s, [n], [m], hash) == Run(s, [n], [m], hash)
  {
    hide Run;
  }

  /** Binary search for a header whose replayed claim differs while its predecessor's matches. */
  method FindFirstDivergingState(current: State, headers: seq<NewHeader>, hints: seq<u32>, first: nat,
                                 db: nat -> Claim, hash: Header -> Bytes32)
    returns (index: nat, actual: Snapshot, ghost applied: nat)
    requires current.Valid() && headers != [] && |headers| == |hints|
    requires Run(current.View(), headers, hints, hash).Applied?
    requires DivergesAt(current.View(), headers, hints, hash, first, db, |headers| - 1)
    ensures index < |headers|
    ensures actual == After(current.View(), headers, hints, index + 1, hash)
    ensures DivergesAt(current.View(), headers, hints, hash, first, db, index)
    ensures index > 0 ==> !DivergesAt(current.View(), headers, hints, hash, first, db, index - 1)
    ensures Persists(current.View(), headers, hints, hash, first, db) ==>
              DivergesFrom(current.View(), headers, hints, hash, first, db, index)
    ensures applied <= |headers|
  {
    hide Run, After, State.View, PublicClaim, Persists, DivergesFrom;
    ghost var base := current.View();
    var replayState := current.Clone();
    var replayed: seq<Snapshot> := [];
    NothingReplayed(base, headers, hints, hash);
    var lo, hi := 0, |headers| - 1;
    applied := 0;
    ghost var more: nat;
    while lo < hi
      invariant 0 <= lo <= hi < |headers|
      invariant replayState.Valid() && fresh(replayState) && fresh(replayState.timestamps)
      invariant Replayed(base, headers, hints, hash, replayed, replayState.View())
      invariant applied == |replayed|
      invariant DivergesAt(base, headers, hints, hash, first, db, hi)
      invariant lo > 0 ==> !DivergesAt(base, headers, hints, hash, first, db, lo - 1)
    {
      var mid := lo + (hi - lo) / 2;
      replayed, more := ReplayStatesThrough(replayState, replayed, headers, hints, mid, hash, base);
      applied := applied + more;
      if PublicClaim(replayed[mid]) == db(first + mid) {
        lo := mid + 1;
      } else {
        hi := mid;
      }
    }
    replayed, more := ReplayStatesThrough(replayState, replayed, headers, hints, lo, hash, base);
    applied := applied + more;
    FoundIsFirst(base, headers, hints, hash, first, db, lo);
    return lo, replayed[lo], applied;
  }

  lemma NothingReplayed(base: Snapshot, hs: seq<NewHeader>, ms: seq<u32>, hash: Header -> Bytes32)
    requires |hs| == |ms| && Run(base, hs, ms, hash).Applied?
    ensures Replayed(base, hs, ms, hash, [], base)
  {
    hide Step;
    assert hs[..0] == [] && ms[..0] == [];
  }

  /** Simulate the batch and compare its last claim with the database; bisect a difference. */
  method SimulateExpectedState(current: State, headers: seq<NewHeader>, hints: seq<u32>, first: nat, end: nat,
                               db: nat -> Claim, hash: Header -> Bytes32)
    returns (r: Simulation)
    requires current.Valid() && headers != [] && |headers| == |hints| && end + 1 == first + |headers|
    ensures r.SimulationPanic? <==> !Run(current.View(), headers, hints, hash).Applied?
    ensures r.Agrees? ==> Run(current.View(), headers, hints, hash) == Applied(r.expected)
                          && PublicClaim(r.expected) == db(end)
    ensures r.Diverges? ==>
              && r.index < |headers|
              && r.actual == After(current.View(), headers, hints, r.index + 1, hash)
              && PublicClaim(r.actual) != db(first + r.index)
              && (r.index > 0 ==> PublicClaim(After(current.View(), headers, hints, r.index, hash)) == db(first + r.index - 1))
    ensures r.Diverges? && Persists(current.View(), headers, hints, hash, first, db) ==>
              DivergesFrom(current.View(), headers, hints, hash, first, db, r.index)
    ensures Run(current.View(), headers, hints, hash).Applied? ==>
              (r.Diverges? <==> PublicClaim(Run(current.View(), headers, hints, hash).state) != db(end))
  {
    hide Run, After, State.View, PublicClaim, Persists, DivergesFrom;
    ghost var base := current.View();
    ApplyIsRun(base, headers, hints, hash);
    var state := current.Clone();
    var outcome := state.ApplyHeaders(headers, hints, hash);
    if outcome != Success {
      return SimulationPanic;
    }
    AfterAll(base, headers, hints, hash);
    if PublicClaim(state.View()) == db(end) {
      return Agrees(state.View());
    }
    var index, actual, _ := FindFirstDivergingState(current, headers, hints, first, db, hash);
    return Diverges(index, actual);
  }

  lemma ApplyIsRun(s: Snapshot, hs: seq<NewHeader>, ms: seq<u32>, hash: Header -> Bytes32)
    requires |hs| == |ms|
    ensures Apply(s, hs, ms, hash) == Run(s, hs, ms, hash)
  {
    hide Run;
  }

  lemma AfterAll(s: Snapshot, hs: seq<NewHeader>, ms: seq<u32>, hash: Header -> Bytes32)
    requires |hs| == |ms| && Run(s, hs, ms, hash).Applied?
    ensures After(s, hs, ms, |hs|, hash) == Run(s, hs, ms, hash).state
  {
    hide Run;
    assert hs[..|hs|] == hs && ms[..|ms|] == ms;
  }
}
