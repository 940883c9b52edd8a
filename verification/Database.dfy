/** Rebuilding a state from stored header rows (`db.rs`) and its agreement with replaying them.
    The database is a table keyed by height, gaps allowed; a missing row or a failed assertion,
    which stops the program, is `None`. */
module Database {
  import opened Words
  import opened Bytes
  import opened Work
  import opened Compact
  import opened Retarget
  import opened Median
  import opened HeaderChain
  import opened HeaderState
  import opened ChainLaws
  import opened History

  datatype Row = Row(header: Header, chainWork: Limbs, medianTimePast: u32)

  type Table = map<nat, Row>

  datatype HeaderRecord = HeaderRecord(height: nat, header: Header, chainWork: Limbs, medianTimePast: u32)

  function RecordAt(rows: Table, height: nat): HeaderRecord
    requires height in rows
  {
    HeaderRecord(height, rows[height].header, rows[height].chainWork, rows[height].medianTimePast)
  }

  function Headers(records: seq<HeaderRecord>): (c: seq<Header>)
    ensures |c| == |records|
  {
    seq(|records|, i requires 0 <= i < |records| => records[i].header)
  }

  function Medians(records: seq<HeaderRecord>): (ms: seq<u32>)
    ensures |ms| == |records|
  {
    seq<u32>(|records|, i requires 0 <= i < |records| => records[i].medianTimePast)
  }

  // ---- queries ----

  /** The rows with `start <= height < start + count`, in order of height. */
  function LoadHeaderRecords(rows: Table, start: nat, count: nat): (records: seq<HeaderRecord>) {
    if count == 0 then
      []
    else
      var before := LoadHeaderRecords(rows, start, count - 1);
      var height := start + count - 1;
      if height in rows then before + [RecordAt(rows, height)] else before
  }

  function LoadHeaderRecord(rows: Table, height: nat): Option<HeaderRecord> {
    var found := LoadHeaderRecords(rows, height, 1);
    if found == [] then None else Some(found[0])
  }

  lemma LoadsTheRow(rows: Table, height: nat)
    ensures LoadHeaderRecord(rows, height) == if height in rows then Some(RecordAt(rows, height)) else None
  {
    assert LoadHeaderRecords(rows, height, 0) == [];
  }

  /** A query returns exactly the rows in its range, by increasing height. */
  lemma {:induction false} QueryIsRange(rows: Table, start: nat, count: nat)
    ensures var found := LoadHeaderRecords(rows, start, count);
            && (forall i, j :: 0 <= i < j < |found| ==> found[i].height < found[j].height)
            && (forall r :: r in found <==>
                  start <= r.height < start + count && r.height in rows && r == RecordAt(rows, r.height))
  {
    if count == 0 {
    } else {
      QueryIsRange(rows, start, count - 1);
      var before := LoadHeaderRecords(rows, start, count - 1);
      assert forall i :: 0 <= i < |before| ==> before[i] in before;
    }
  }

  /** The private witness of a batch: prover-chosen fields and medians, row by row. */
  method LoadHeaderBatchWitness(rows: Table, start: nat, count: nat)
    returns (headers: seq<NewHeader>, hints: seq<u32>)
    ensures var found := LoadHeaderRecords(rows, start, count);
            headers == News(Headers(found)) && hints == Medians(found)
    ensures var found := LoadHeaderRecords(rows, start, count);
            && |headers| == |hints| == |found|
            && forall i :: 0 <= i < |found| ==>
                 var h := found[i].header;
                 headers[i] == NewHeader(h.version, h.merkleRoot, h.timestamp, h.nonce)
                 && hints[i] == found[i].medianTimePast
  {
    var found := LoadHeaderRecords(rows, start, count);
    headers, hints := [], [];
    for i := 0 to |found|
      invariant headers == News(Headers(found))[..i]
      invariant hints == Medians(found)[..i]
    {
      headers := headers + [FromHeader(found[i].header)];
      hints := hints + [found[i].medianTimePast];
    }
  }

  // ---- rebuilding a state ----

  function GenesisState(genesis: HeaderRecord, genesisHash: Bytes32, hash: Header -> Bytes32): Snapshot {
    Snapshot(
      genesis.header, hash(genesis.header), genesisHash, genesis.header.compactTarget,
      genesis.height % 0x1_0000_0000, Val(genesis.chainWork), WorkOf(GENESIS_TARGET), GENESIS_TARGET,
      genesis.header.timestamp, [genesis.header.timestamp, 0, 0, 0, 0, 0, 0, 0, 0, 0, 0])
  }

  method GenesisStateFromRecord(genesis: HeaderRecord, genesisHash: Bytes32, hash: Header -> Bytes32)
    returns (s: Option<State>)
    ensures s.None? <==> hash(genesis.header) != genesisHash
    ensures s.Some? ==> s.value.Valid() && s.value.View() == GenesisState(genesis, genesisHash, hash)
  {
    hide WorkOf, Val, Poly;
    var blockHash := hash(genesis.header);
    if blockHash != genesisHash {
      return None;
    }
    GenesisTargetValue();
    var work := WorkFromTarget(GENESIS_LIMBS);
    var timestamps := new u32[11](_ => 0);
    timestamps[0] := genesis.header.timestamp;
    assert timestamps[..] == [genesis.header.timestamp, 0, 0, 0, 0, 0, 0, 0, 0, 0, 0];
    var state := new State(genesis.header, blockHash, genesisHash, genesis.header.compactTarget,
                           genesis.height % 0x1_0000_0000, genesis.chainWork, work.value, GENESIS_LIMBS,
                           genesis.header.timestamp, timestamps[..]);
    return Some(state);
  }

  /** What slot `j` of the ring at height `e` gets from the rows from height `start` on. */
  function SlotFrom(rows: Table, start: nat, e: int, j: nat): u32 {
    var h := LatestAt(e, j);
    if start <= h && h in rows then rows[h].header.timestamp else 0
  }

  /** Timestamps of the last eleven heights, each in its slot; a missing row leaves zero. */
  function RingAt(rows: Table, height: nat): Ring {
    seq(11, j requires 0 <= j < 11 => SlotFrom(rows, 0, height, j))
  }

  /** The state `state_from_db_at_height` stands for: the genesis record at height 0, and above it
      the stored row, the expansion of its compact target, the row that opened its epoch and the ring. */
  function Rebuilt(rows: Table, height: u32, genesisHash: Bytes32, hash: Header -> Bytes32): Snapshot
    requires height in rows && EpochStartHeight(height) in rows
  {
    if height == 0 then
      GenesisState(RecordAt(rows, 0), genesisHash, hash)
    else
      var header := rows[height].header;
      var target := ExpandOf(header.compactTarget);
      Snapshot(
        header, hash(header), genesisHash, header.compactTarget, height, Val(rows[height].chainWork),
        WorkOf(target), target, rows[EpochStartHeight(height)].header.timestamp, RingAt(rows, height))
  }

  /** The ring after writing each record's timestamp into the slot of its height. */
  ghost function Written(ring: Ring, records: seq<HeaderRecord>): Ring {
    if records == [] then
      ring
    else
      var r := records[|records| - 1];
      Written(ring, records[..|records| - 1])[r.height % 11 := r.header.timestamp]
  }

  /** Writing a window of at most eleven heights fills every slot as the ring has it. */
  lemma {:induction false} WindowFills(rows: Table, ring: Ring, start: nat, count: nat, last: int)
    requires count <= 11 && last == start + count - 1 && forall j :: 0 <= j < 11 ==> ring[j] == 0
    ensures var filled := Written(ring, LoadHeaderRecords(rows, start, count));
            forall j :: 0 <= j < 11 ==> filled[j] == SlotFrom(rows, start, last, j)
  {
    if count == 0 {
      forall j | 0 <= j < 11 ensures SlotFrom(rows, start, last, j) == 0 {
        LatestAtStep(last, j);
      }
    } else {
      WindowFills(rows, ring, start, count - 1, last - 1);
      var before := LoadHeaderRecords(rows, start, count - 1);
      var found := LoadHeaderRecords(rows, start, count);
      if last in rows {
        assert found == before + [RecordAt(rows, last)] && found[..|found| - 1] == before;
      }
      hide LatestAt, SlotFrom, LoadHeaderRecords;
      forall j | 0 <= j < 11 ensures Written(ring, found)[j] == SlotFrom(rows, start, last, j) {
        SlotMoves(rows, start, last, j);
        assert Written(ring, before)[j] == SlotFrom(rows, start, last - 1, j);
      }
    }
  }

  /** How a slot changes when the window ends one height later. */
  lemma SlotMoves(rows: Table, start: nat, e: nat, j: nat)
    requires start <= e < start + 11 && j < 11
    ensures SlotFrom(rows, start, e, j)
         == if e % 11 != j then SlotFrom(rows, start, e - 1, j)
            else if e in rows then rows[e].header.timestamp
            else 0
    ensures e % 11 == j ==> SlotFrom(rows, start, e - 1, j) == 0
  {
    LatestAtStep(e - 1, j);
    if e % 11 == j {
      SlotHeldBefore(e, j);
    }
  }

  lemma SlotHeldBefore(e: int, j: nat)
    requires j < 11 && e % 11 == j
    ensures LatestAt(e - 1, j) == e - 11
  {
    SlotHit(e, j);
    ModSteps(e - 1 - j);
  }

  /** The timestamps of the rows in the window ending at `height`, each in its slot. */
  method LoadWindow(rows: Table, height: u32) returns (ring: Ring)
    ensures ring == RingAt(rows, height)
  {
    hide SlotFrom, Written, LoadHeaderRecords;
    var windowCount := TimestampCount(height);
    var windowStart := height + 1 - windowCount;
    var window := LoadHeaderRecords(rows, windowStart, windowCount);
    var timestamps := new u32[11](_ => 0);
    ghost var empty: Ring := timestamps[..];
    WrittenNothing(empty);
    for i := 0 to |window|
      invariant timestamps[..] == Written(empty, window[..i])
    {
      WrittenNext(empty, window[..i + 1]);
      assert window[..i + 1][..i] == window[..i];
      timestamps[window[i].height % WINDOW_SIZE] := window[i].header.timestamp;
    }
    assert window[..|window|] == window;
    WindowFills(rows, empty, windowStart, windowCount, height);
    WindowIsRing(rows, height);
    ring := timestamps[..];
    assert forall j :: 0 <= j < 11 ==> RingAt(rows, height)[j] == SlotFrom(rows, 0, height, j);
    assert ring == RingAt(rows, height);
  }

  lemma WrittenNothing(ring: Ring)
    ensures Written(ring, []) == ring
  {}

  lemma WrittenNext(ring: Ring, records: seq<HeaderRecord>)
    requires records != []
    ensures var r := records[|records| - 1];
            Written(ring, records) == Written(ring, records[..|records| - 1])[r.height % 11 := r.header.timestamp]
  {}

  /** Nothing below the window shows in the ring. */
  lemma WindowIsRing(rows: Table, height: u32)
    ensures forall j :: 0 <= j < 11 ==>
              SlotFrom(rows, height + 1 - TimestampCount(height), height, j) == SlotFrom(rows, 0, height, j)
  {
    forall j | 0 <= j < 11
      ensures SlotFrom(rows, height + 1 - TimestampCount(height), height, j) == SlotFrom(rows, 0, height, j)
    {
      LatestAtStep(height, j);
    }
  }

  /** Read the current row, the row that opened its epoch, and the rows of its window. */
  method StateFromDbAtHeight(rows: Table, height: u32, genesisHash: Bytes32, hash: Header -> Bytes32)
    returns (s: Option<State>)
    ensures s.Some? <==> && height in rows && EpochStartHeight(height) in rows
                         && (height == 0 ==> hash(rows[0].header) == genesisHash)
    ensures s.Some? ==> s.value.Valid() && s.value.View() == Rebuilt(rows, height, genesisHash, hash)
  {
    hide WorkOf, Val, ExpandOf, RingAt, LoadHeaderRecord, EpochStartHeight, GenesisState;
    LoadsTheRow(rows, height);
    LoadsTheRow(rows, EpochStartHeight(height));
    if height == 0 {
      EpochOfGenesis();
      var genesis := LoadHeaderRecord(rows, 0);
      if genesis.None? {
        return None;
      }
      s := GenesisStateFromRecord(genesis.value, genesisHash, hash);
      return;
    }

    var current := LoadHeaderRecord(rows, height);
    if current.None? {
      return None;
    }
    var epochStart := LoadHeaderRecord(rows, EpochStartHeight(height));
    if epochStart.None? {
      return None;
    }
    var timestamps := LoadWindow(rows, height);
    var header := current.value.header;
    var target := TargetFromBits(header.compactTarget);
    ExpansionIsNeverMax(header.compactTarget);
    var work := WorkFromTarget(target);
    var state := new State(header, hash(header), genesisHash, header.compactTarget, height,
                           current.value.chainWork, work.value, target, epochStart.value.header.timestamp,
                           timestamps);
    return Some(state);
  }

  lemma EpochOfGenesis()
    ensures EpochStartHeight(0) == 0
  {}

  // ---- rebuild and replay ----

  /** Every height below `n` has a row. */
  ghost predicate Dense(rows: Table, n: nat) {
    forall h :: 0 <= h < n ==> h in rows
  }

  /** The stored headers from height 0 to `h`. */
  ghost function Stored(rows: Table, h: nat): (c: seq<Header>)
    requires Dense(rows, h + 1)
    ensures |c| == h + 1
  {
    seq(h + 1, i requires 0 <= i < h + 1 => rows[i].header)
  }

  /** Without gaps, rebuilding gives the compression of the stored headers with the stored work. */
  lemma RebuiltIsStateOf(rows: Table, h: u32, genesisHash: Bytes32, hash: Header -> Bytes32)
    requires Dense(rows, h + 1) && h > 0
    ensures Rebuilt(rows, h, genesisHash, hash)
         == StateOf(Stored(rows, h), genesisHash, Val(rows[h].chainWork), hash)
  {
    var c := Stored(rows, h);
    forall j | 0 <= j < 11 ensures RingAt(rows, h)[j] == RingOf(c)[j] {
      LatestAtStep(h, j);
    }
    assert RingAt(rows, h) == RingOf(c);
    assert Last(c) == rows[h].header && c[EpochStartHeight(h)] == rows[EpochStartHeight(h)].header;
    hide RingAt, RingOf, Val, WorkOf, ExpandOf, EpochStartHeight, Last;
  }

  /** Replay the first `n` rows above genesis with the stored medians as hints. */
  ghost function Replay(rows: Table, n: nat, genesisHash: Bytes32, hash: Header -> Bytes32): Outcome
    requires 0 in rows
  {
    var batch := LoadHeaderRecords(rows, 1, n);
    Run(GenesisState(RecordAt(rows, 0), genesisHash, hash), News(Headers(batch)), Medians(batch), hash)
  }

  /** Up to height `top` the rows record an accepted run: header and cumulative work of each state it
      goes through. */
  ghost predicate HoldsRun(rows: Table, top: u32, genesisHash: Bytes32, hash: Header -> Bytes32) {
    && Dense(rows, top + 1) && hash(rows[0].header) == genesisHash
    && forall n :: 1 <= n <= top ==> RowMatches(rows, n, genesisHash, hash)
  }

  ghost predicate RowMatches(rows: Table, n: nat, genesisHash: Bytes32, hash: Header -> Bytes32)
    requires Dense(rows, n + 1)
  {
    var o := Replay(rows, n, genesisHash, hash);
    o.Applied? && o.state.header == rows[n].header && o.state.chainWork == Val(rows[n].chainWork)
  }

  lemma ReplayStep(rows: Table, n: nat, genesisHash: Bytes32, hash: Header -> Bytes32)
    requires 0 in rows && 0 < n && n in rows
    ensures var o := Replay(rows, n - 1, genesisHash, hash);
            Replay(rows, n, genesisHash, hash)
            == if o.Applied? then Step(o.state, FromHeader(rows[n].header), rows[n].medianTimePast, hash) else o
  {
    hide Step, GenesisState;
    var a := LoadHeaderRecords(rows, 1, n - 1);
    assert LoadHeaderRecords(rows, 1, n) == a + [RecordAt(rows, n)];
    var hs, ms := News(Headers(a)), Medians(a);
    var n1, m1 := FromHeader(rows[n].header), rows[n].medianTimePast;
    assert News(Headers(a + [RecordAt(rows, n)])) == hs + [n1] && Medians(a + [RecordAt(rows, n)]) == ms + [m1];
    var s := GenesisState(RecordAt(rows, 0), genesisHash, hash);
    RunSplits(s, hs, ms, [n1], [m1], hash);
    var o := Run(s, hs, ms, hash);
    if o.Applied? {
      RunOne(o.state, n1, m1, hash);
    }
  }

  /** A state whose cached target is `target`, whatever its compact form says. */
  function WithTarget(s: Snapshot, target: u256): Snapshot {
    s.(currentTarget := target, currentWork := WorkOf(target))
  }

  /** Any accepted header takes the compression of a history, cached target aside, to that of the
      longer history. The cached target is carried along until a boundary derives it from the new
      compact form. */
  lemma AppliedIsStateOf(c: seq<Header>, g: Bytes32, w: u256, cached: u256, n: NewHeader, m: u32, hash: Header -> Bytes32)
    requires c != [] && |c| < TWO_32 && Step(WithTarget(StateOf(c, g, w, hash), cached), n, m, hash).Applied?
    ensures var t := Step(WithTarget(StateOf(c, g, w, hash), cached), n, m, hash).state;
            var target := if AtBoundary(|c|) then ExpandOf(t.header.compactTarget) else cached;
            && t == WithTarget(StateOf(c + [t.header], g, t.chainWork, hash), target)
            && (!AtBoundary(|c|) ==> t.header.compactTarget == Last(c).compactTarget)
  {
    hide RingOf, ExpandOf, WorkOf, Wrap256, EpochStartHeight, Last, LeNat, MedianTimePast, NextBits, Elapsed;
    var s := WithTarget(StateOf(c, g, w, hash), cached);
    var h := NextHeader(s, n);
    assert NextHeight(s.height) == |c|;
    RingGrows(c, h);
    EpochStartGrows(c, h);
    LastOfSnoc(c, h);
  }

  lemma LastOfSnoc(c: seq<Header>, h: Header)
    ensures Last(c + [h]) == h
  {}

  /** The genesis record is the compression of a one-header history with the easiest target cached. */
  lemma GenesisIsStateOf(row: HeaderRecord, genesisHash: Bytes32, hash: Header -> Bytes32)
    requires row.height == 0 && hash(row.header) == genesisHash
    ensures GenesisState(row, genesisHash, hash)
         == WithTarget(StateOf([row.header], genesisHash, Val(row.chainWork), hash), GENESIS_TARGET)
  {
    hide ExpandOf, WorkOf, Val;
    var c := [row.header];
    forall j | 0 <= j < 11 ensures RingOf(c)[j] == if j == 0 then row.header.timestamp else 0 {
      LatestAtStep(0, j);
    }
    assert RingOf(c) == [row.header.timestamp, 0, 0, 0, 0, 0, 0, 0, 0, 0, 0];
    hide RingOf;
  }

  /** A genesis row carrying 0x1d00ffff gives a state with coherent caches, so all the laws of runs
      from coherent states hold of replay. */
  lemma MainnetGenesisIsCoherent(row: HeaderRecord, genesisHash: Bytes32, hash: Header -> Bytes32)
    requires row.header.compactTarget == GENESIS_NBITS
    ensures Coherent(GenesisState(row, genesisHash, hash))
  {
    GenesisBits();
    hide ExpandOf, WorkOf;
  }

  /** The target replay has cached at height `h`: the easiest one through the first epoch. */
  function CachedTarget(rows: Table, h: nat): u256
    requires h in rows
  {
    if h < EPOCH_LENGTH then GENESIS_TARGET else ExpandOf(rows[h].header.compactTarget)
  }

  /** What replay reaches at any height, whatever the genesis row says: the compression of the stored
      headers, except that the first epoch keeps the easiest target. Its headers carry the compact
      target of the genesis row. */
  lemma {:induction false} ReplayReaches(rows: Table, top: u32, h: nat, genesisHash: Bytes32, hash: Header -> Bytes32)
    requires HoldsRun(rows, top, genesisHash, hash) && h <= top
    ensures Replay(rows, h, genesisHash, hash)
         == Applied(WithTarget(StateOf(Stored(rows, h), genesisHash, Val(rows[h].chainWork), hash),
                               CachedTarget(rows, h)))
    ensures h < EPOCH_LENGTH ==> rows[h].header.compactTarget == rows[0].header.compactTarget
    decreases h
  {
    hide Step, StateOf, GenesisState, Replay, ExpandOf, Val, WithTarget, AtBoundary, RowMatches, HoldsRun,
         CachedTarget, Stored;
    HoldsAt(rows, top, h, genesisHash, hash);
    if h == 0 {
      ReplayNothing(rows, genesisHash, hash);
      GenesisIsStateOf(RecordAt(rows, 0), genesisHash, hash);
      FirstStored(rows);
    } else {
      ReplayReaches(rows, top, h - 1, genesisHash, hash);
      ReplayExtends(rows, h, CachedTarget(rows, h - 1), genesisHash, hash);
      CachedTargetMoves(rows, h);
    }
  }

  lemma HoldsAt(rows: Table, top: u32, h: nat, genesisHash: Bytes32, hash: Header -> Bytes32)
    requires HoldsRun(rows, top, genesisHash, hash) && h <= top
    ensures Dense(rows, h + 1) && hash(rows[0].header) == genesisHash
    ensures h > 0 ==> RowMatches(rows, h, genesisHash, hash)
  {
    hide Replay;
  }

  lemma FirstStored(rows: Table)
    requires 0 in rows
    ensures Stored(rows, 0) == [rows[0].header] && CachedTarget(rows, 0) == GENESIS_TARGET
  {}

  /** The cached target is carried along inside an epoch and derived at a boundary. */
  lemma CachedTargetMoves(rows: Table, h: u32)
    requires h > 0 && Dense(rows, h + 1)
    requires !AtBoundary(h) ==> rows[h].header.compactTarget == rows[h - 1].header.compactTarget
    ensures CachedTarget(rows, h)
         == if AtBoundary(h) then ExpandOf(rows[h].header.compactTarget) else CachedTarget(rows, h - 1)
    ensures h < EPOCH_LENGTH ==> !AtBoundary(h)
  {
    hide ExpandOf;
  }

  /** One more row of an accepted run. */
  lemma ReplayExtends(rows: Table, h: nat, cached: u256, genesisHash: Bytes32, hash: Header -> Bytes32)
    requires 0 < h < TWO_32 && Dense(rows, h + 1) && RowMatches(rows, h, genesisHash, hash)
    requires Replay(rows, h - 1, genesisHash, hash)
          == Applied(WithTarget(StateOf(Stored(rows, h - 1), genesisHash, Val(rows[h - 1].chainWork), hash), cached))
    ensures Replay(rows, h, genesisHash, hash)
         == Applied(WithTarget(StateOf(Stored(rows, h), genesisHash, Val(rows[h].chainWork), hash),
                               if AtBoundary(h) then ExpandOf(rows[h].header.compactTarget) else cached))
    ensures !AtBoundary(h) ==> rows[h].header.compactTarget == rows[h - 1].header.compactTarget
  {
    hide Step, StateOf, Replay, ExpandOf, Val, WithTarget, AtBoundary, Stored, Last, FromHeader;
    StoredGrows(rows, h);
    ReplayStep(rows, h, genesisHash, hash);
    AppliedIsStateOf(Stored(rows, h - 1), genesisHash, Val(rows[h - 1].chainWork), cached,
                     FromHeader(rows[h].header), rows[h].medianTimePast, hash);
  }

  lemma StoredGrows(rows: Table, h: nat)
    requires 0 < h && Dense(rows, h + 1)
    ensures var c := Stored(rows, h - 1);
            |c| == h && Last(c) == rows[h - 1].header && Stored(rows, h) == c + [rows[h].header]
  {}

  /** Rebuild equals replay: when the rows hold an accepted run from a genesis carrying 0x1d00ffff,
      the state rebuilt at any height is, field by field, the state replay reaches. */
  lemma RebuildIsReplay(rows: Table, h: u32, genesisHash: Bytes32, hash: Header -> Bytes32)
    requires HoldsRun(rows, h, genesisHash, hash)
    requires rows[0].header.compactTarget == GENESIS_NBITS
    ensures Replay(rows, h, genesisHash, hash) == Applied(Rebuilt(rows, h, genesisHash, hash))
  {
    hide Replay, Rebuilt, ExpandOf;
    GenesisBits();
    RebuildAgreesExactly(rows, h, genesisHash, hash);
  }

  /** For any genesis row, rebuild and replay agree exactly at genesis, from the second epoch on, and
      everywhere when the genesis row carries the easiest target: replay starts from that target
      whatever the row says, while rebuilding expands the stored compact form. */
  lemma RebuildAgreesExactly(rows: Table, h: u32, genesisHash: Bytes32, hash: Header -> Bytes32)
    requires HoldsRun(rows, h, genesisHash, hash)
    ensures Replay(rows, h, genesisHash, hash) == Applied(Rebuilt(rows, h, genesisHash, hash))
            <==> h == 0 || h >= EPOCH_LENGTH || ExpandOf(rows[0].header.compactTarget) == GENESIS_TARGET
  {
    hide Step, Replay, GenesisState, ExpandOf, WorkOf, RingOf, RingAt, EpochStartHeight;
    if h == 0 {
      ReplayNothing(rows, genesisHash, hash);
    } else {
      ReplayReaches(rows, h, h, genesisHash, hash);
      RebuiltIsStateOf(rows, h, genesisHash, hash);
      hide Rebuilt;
    }
  }

  lemma ReplayNothing(rows: Table, genesisHash: Bytes32, hash: Header -> Bytes32)
    requires 0 in rows
    ensures Replay(rows, 0, genesisHash, hash) == Applied(GenesisState(RecordAt(rows, 0), genesisHash, hash))
  {
    hide GenesisState;
    assert LoadHeaderRecords(rows, 1, 0) == [];
  }

  // ---- a run on which the two differ ----

  /** Two rows of an accepted run whose genesis row carries 0x1d00fffe: at height 1 replay still has
      the easiest target, rebuilding the one of the row. */
  lemma RebuildCanDiffer() returns (rows: Table)
    ensures HoldsRun(rows, 1, ZeroHash(), HashesToZero)
    ensures rows[0].header.compactTarget == 0x1d00_fffe
    ensures Replay(rows, 1, ZeroHash(), HashesToZero) != Applied(Rebuilt(rows, 1, ZeroHash(), HashesToZero))
  {
    hide *;
    var work := FromLeBytes(LeBytes(WorkOf(GENESIS_TARGET), 32));
    LimbsOfNumber(WorkOf(GENESIS_TARGET), work);
    rows := map[0 := Row(PlainHeader(0, 0x1d00_fffe), [0, 0, 0, 0], 0), 1 := Row(PlainHeader(1, 0x1d00_fffe), work, 0)];
    DifferingRun(rows);
    LowerThanGenesis();
    RebuildAgreesExactly(rows, 1, ZeroHash(), HashesToZero);
    PlainHeaderBits();
  }

  lemma PlainHeaderBits()
    ensures PlainHeader(0, 0x1d00_fffe).compactTarget == 0x1d00_fffe && 1 < EPOCH_LENGTH
  {}

  lemma DifferingRun(rows: Table)
    requires rows.Keys == {0, 1} && rows[0] == Row(PlainHeader(0, 0x1d00_fffe), [0, 0, 0, 0], 0)
    requires rows[1].header == PlainHeader(1, 0x1d00_fffe) && rows[1].medianTimePast == 0
    requires Val(rows[1].chainWork) == WorkOf(GENESIS_TARGET)
    ensures HoldsRun(rows, 1, ZeroHash(), HashesToZero)
  {
    hide Replay, Val, WorkOf, PlainHeader, LeBytes, Step, GenesisState;
    ReplayNothing(rows, ZeroHash(), HashesToZero);
    ReplayStep(rows, 1, ZeroHash(), HashesToZero);
    NextIsAccepted(RecordAt(rows, 0));
    assert RowMatches(rows, 1, ZeroHash(), HashesToZero);
  }

  lemma LimbsOfNumber(n: u256, x: Limbs)
    requires x == FromLeBytes(LeBytes(n, 32))
    ensures Val(x) == n
  {
    hide LeNat, LeBytes, Pow256, Val;
    Pow256Values();
    LeRoundTrip(n, 32);
  }

  /** A header one second after genesis is accepted when every hash is zero. */
  lemma NextIsAccepted(row: HeaderRecord)
    requires row == HeaderRecord(0, PlainHeader(0, 0x1d00_fffe), [0, 0, 0, 0], 0)
    ensures var next := PlainHeader(1, 0x1d00_fffe);
            var o := Step(GenesisState(row, ZeroHash(), HashesToZero), FromHeader(next), 0, HashesToZero);
            && o.Applied? && o.state.header == next
            && o.state.chainWork == WorkOf(GENESIS_TARGET)
  {
    hide Val, WorkOf, Wrap256, EpochDifficulty, MedianOf, LeNat, LeBytes, Extend;
    var s, next := GenesisState(row, ZeroHash(), HashesToZero), PlainHeader(1, 0x1d00_fffe);
    assert Window(s) == [0];
    MedianOfOne(0);
    ZeroHashValue();
    var o := Step(s, FromHeader(next), 0, HashesToZero);
    assert o.Applied?;
    StepAddsWork(s, FromHeader(next), 0, HashesToZero);
    AcceptedHeader(s, FromHeader(next), 0, HashesToZero);
    ZeroLimbs();
    SumRaises(0, WorkOf(GENESIS_TARGET));
  }

  lemma ZeroLimbs()
    ensures Val([0, 0, 0, 0]) == 0
  {}

  lemma AcceptedHeader(s: Snapshot, n: NewHeader, m: u32, hash: Header -> Bytes32)
    requires Step(s, n, m, hash).Applied?
    ensures Step(s, n, m, hash).state.header == IntoHeader(n, s.blockHash, ActiveDifficulty(s).nbits)
  {
    hide MedianTimePast, LeNat, Wrap256, ActiveDifficulty;
  }

  /** 0x1d00fffe expands to less than the easiest target. */
  lemma LowerThanGenesis()
    ensures ExpandOf(0x1d00_fffe) != GENESIS_TARGET
  {
    GenesisBits();
    Pow256Values();
    hide Pow256, Wrap256;
    Pow256Adds(24, 2);
    assert (0x1d00_fffe as nat) / 0x100_0000 == 29 && (0x1d00_fffe as nat) % 0x80_0000 == 0xfffe;
    WrapIs(0xfffe * Pow256(26), 0, 0xfffe * Pow256(26));
    WrapIs(0xffff * Pow256(26), 0, 0xffff * Pow256(26));
  }
}
