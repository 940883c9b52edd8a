/** The allocation tracker (`allocation.rs`): two atomics changed by separate steps that threads may
    interleave in any way. Counters are unbounded here; a total past 63 bits is not modelled. */
module Allocation {
  type Thread = nat

  /** Live and peak bytes, and for each thread between its `fetch_add` and its `fetch_max` the live
      total it is about to report. */
  datatype Tracker = Tracker(live: int, peak: int, inFlight: map<Thread, int>)

  /** One atomic step of some thread. */
  datatype Event =
    | BeginAlloc(thread: Thread, size: nat)
    | BeginRealloc(thread: Thread, oldSize: nat, newSize: nat)
    | Publish(thread: Thread)
    | Dealloc(thread: Thread, size: nat)

  const FRESH := Tracker(0, 0, map[])

  /** A thread publishes only what it has in flight, and starts nothing else before. */
  predicate Enabled(s: Tracker, e: Event) {
    e.Publish? <==> e.thread in s.inFlight
  }

  function Delta(e: Event): int {
    match e
    case BeginAlloc(_, size) => size as int
    case BeginRealloc(_, oldSize, newSize) => (newSize as int) - oldSize
    case Publish(_) => 0
    case Dealloc(_, size) => -(size as int)
  }

  function Max(a: int, b: int): int { if a >= b then a else b }

  function Step(s: Tracker, e: Event): Tracker
    requires Enabled(s, e)
  {
    var live := s.live + Delta(e);
    match e
    case BeginAlloc(t, _) => Tracker(live, s.peak, s.inFlight[t := live])
    case BeginRealloc(t, _, _) => Tracker(live, s.peak, s.inFlight[t := live])
    case Publish(t) => Tracker(live, Max(s.peak, s.inFlight[t]), s.inFlight - {t})
    case Dealloc(_, _) => Tracker(live, s.peak, s.inFlight)
  }

  ghost predicate Possible(s: Tracker, es: seq<Event>)
    decreases |es|
  {
    es == [] || (Enabled(s, es[0]) && Possible(Step(s, es[0]), es[1..]))
  }

  ghost function Run(s: Tracker, es: seq<Event>): Tracker
    requires Possible(s, es)
    decreases |es|
  {
    if es == [] then s else Run(Step(s, es[0]), es[1..])
  }

  /** Net of all recorded sizes. */
  ghost function Net(es: seq<Event>): int {
    if es == [] then 0 else Delta(es[0]) + Net(es[1..])
  }

  /** Largest total at any moment of a history of changes from `live`. */
  ghost function Highest(live: int, es: seq<Event>): int
    decreases |es|
  {
    if es == [] then live else Max(live, Highest(live + Delta(es[0]), es[1..]))
  }

  /** `top` is the largest total so far: nothing recorded exceeds it, and it is either published or
      still in flight in some thread. */
  ghost predicate Accounted(s: Tracker, top: int) {
    && s.live <= top && s.peak <= top
    && (forall t :: t in s.inFlight ==> s.inFlight[t] <= top)
    && (s.peak == top || exists t :: t in s.inFlight && s.inFlight[t] == top)
  }

  lemma StepAccounts(s: Tracker, e: Event, top: int)
    requires Enabled(s, e) && Accounted(s, top)
    ensures Accounted(Step(s, e), Max(top, Step(s, e).live))
  {
    var n := Step(s, e);
    if s.peak != top {
      var t :| t in s.inFlight && s.inFlight[t] == top;
      if e.Publish? && e.thread == t {
      } else {
        assert t in n.inFlight && n.inFlight[t] == top;
      }
    }
    if e.BeginAlloc? || e.BeginRealloc? {
      assert e.thread in n.inFlight && n.inFlight[e.thread] == n.live;
    }
  }

  /** In every interleaving live is the net of what was recorded, and the largest total ever reached
      is the published peak or still in flight. */
  lemma {:induction false} RunAccounts(s: Tracker, es: seq<Event>, top: int)
    requires Possible(s, es) && Accounted(s, top)
    ensures Run(s, es).live == s.live + Net(es)
    ensures Accounted(Run(s, es), Max(top, Highest(s.live, es)))
    decreases |es|
  {
    hide Accounted, Step;
    if es == [] {
      LiveAtMost(s, top);
    } else {
      StepAccounts(s, es[0], top);
      StepLive(s, es[0]);
      LiveAtMost(s, top);
      RunAccounts(Step(s, es[0]), es[1..], Max(top, Step(s, es[0]).live));
      HighestStarts(Step(s, es[0]).live, es[1..]);
    }
  }

  lemma LiveAtMost(s: Tracker, top: int)
    requires Accounted(s, top)
    ensures s.live <= top
  {}

  lemma StepLive(s: Tracker, e: Event)
    requires Enabled(s, e)
    ensures Step(s, e).live == s.live + Delta(e)
  {}

  lemma HighestStarts(live: int, es: seq<Event>)
    ensures Highest(live, es) >= live
  {}

  /** From a fresh tracker: live is exact always, peak never overstates, and whenever no thread is
      between its two steps peak is exactly the largest total live has ever had. */
  lemma PeakIsHighest(es: seq<Event>)
    requires Possible(FRESH, es)
    ensures var s := Run(FRESH, es);
            && s.live == Net(es)
            && s.peak <= Highest(0, es)
            && (s.inFlight == map[] ==> s.peak == Highest(0, es))
  {
    RunAccounts(FRESH, es, 0);
    HighestStarts(0, es);
  }

  // ---- the tracker object ----

  class AllocationTracker {
    var liveBytes: int
    var peakBytes: int

    constructor ()
      ensures liveBytes == 0 && peakBytes == 0
    {
      liveBytes, peakBytes := 0, 0;
    }

    /** `live_bytes.fetch_add`: the value before. */
    method FetchAddLive(delta: int) returns (before: int)
      modifies this`liveBytes
      ensures before == old(liveBytes) && liveBytes == old(liveBytes) + delta
    {
      before := liveBytes;
      liveBytes := liveBytes + delta;
    }

    /** `peak_bytes.fetch_max`. */
    method FetchMaxPeak(value: int)
      modifies this`peakBytes
      ensures peakBytes == Max(old(peakBytes), value)
    {
      if value > peakBytes {
        peakBytes := value;
      }
    }

    /** With no other thread in between, the two steps of a record are the two events. */
    method RecordAlloc(thread: Thread, size: nat)
      modifies this
      ensures var s := old(Tracker(liveBytes, peakBytes, map[]));
              Tracker(liveBytes, peakBytes, map[]) == Step(Step(s, BeginAlloc(thread, size)), Publish(thread))
      ensures liveBytes == old(liveBytes) + size
      ensures peakBytes == if liveBytes > old(peakBytes) then liveBytes else old(peakBytes)
    {
      var before := FetchAddLive(size);
      FetchMaxPeak(before + size);
    }

    method RecordDealloc(thread: Thread, size: nat)
      modifies this`liveBytes
      ensures Tracker(liveBytes, peakBytes, map[])
           == Step(old(Tracker(liveBytes, peakBytes, map[])), Dealloc(thread, size))
      ensures liveBytes == old(liveBytes) - size
    {
      var _ := FetchAddLive(-(size as int));
    }

    method RecordRealloc(thread: Thread, oldSize: nat, newSize: nat)
      modifies this
      ensures var s := old(Tracker(liveBytes, peakBytes, map[]));
              Tracker(liveBytes, peakBytes, map[])
              == Step(Step(s, BeginRealloc(thread, oldSize, newSize)), Publish(thread))
      ensures liveBytes == old(liveBytes) + newSize - oldSize
      ensures peakBytes == if liveBytes > old(peakBytes) then liveBytes else old(peakBytes)
    {
      var delta: int := (newSize as int) - oldSize;
      var before := FetchAddLive(delta);
      FetchMaxPeak(before + delta);
    }
  }
}
