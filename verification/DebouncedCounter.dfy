/**
 The debounced edge counter of WeatherMeters/DebouncedFallingEdgeCounter.cpp: 32-bit wrap-around
 time against a debouncer with unbounded time, and the interrupt against the reader of the count.
 */
module DebouncedCounter {
  import opened Bytes

  /** Timer readings, times and counts are unsigned 32-bit numbers. */
  const WRAP: nat := 0x1_0000_0000

  type word = x: nat | x < WRAP

  /** Unsigned subtraction. */
  function Minus(a: word, b: word): (r: word) { (a - b) % WRAP }

  /** The timer reading at a true time. */
  function Reading(time: int): (r: word) { time % WRAP }

  /** An edge, or a call that refreshes the timers, at a true time. */
  datatype Event = Edge(time: nat) | Refresh(time: nat)

  datatype State = State(last: word, count: word)

  /** What the two handlers do to m_LastFallingEdgeTime and m_FallingEdgeCount. */
  function Step(s: State, ignore: word, e: Event): (r: State) {
    match e
    case Edge(t) => if Minus(Reading(t), s.last) >= ignore then State(Reading(t), (s.count + 1) % WRAP) else s
    case Refresh(t) => if Minus(Reading(t), s.last) > ignore then s.(last := Minus(Reading(t), ignore)) else s
  }

  predicate Accepts(s: State, ignore: word, e: Event) {
    e.Edge? && Minus(Reading(e.time), s.last) >= ignore
  }

  class Counter {
    const ignoreTime: word
    var lastFallingEdgeTime: word
    var fallingEdgeCount: word

    function Abs(): (s: State)
      reads this
    {
      State(lastFallingEdgeTime, fallingEdgeCount)
    }

    constructor (ignoreTime: word, now: nat)
      ensures this.ignoreTime == ignoreTime
      ensures Abs() == State(Minus(Reading(now), ignoreTime), 0)
    {
      this.ignoreTime := ignoreTime;
      lastFallingEdgeTime := Minus(Reading(now), ignoreTime);
      fallingEdgeCount := 0;
    }

    method FallingEdgeISR(now: nat)
      modifies this
      ensures Abs() == Step(old(Abs()), ignoreTime, Edge(now))
    {
      var currentTime := Reading(now);
      if Minus(currentTime, lastFallingEdgeTime) >= ignoreTime {
        fallingEdgeCount := (fallingEdgeCount + 1) % WRAP;
        lastFallingEdgeTime := currentTime;
      }
    }

    method RefreshTimers(now: nat)
      modifies this
      ensures Abs() == Step(old(Abs()), ignoreTime, Refresh(now))
    {
      var currentTime := Reading(now);
      if Minus(currentTime, lastFallingEdgeTime) > ignoreTime {
        lastFallingEdgeTime := Minus(currentTime, ignoreTime);
      }
    }

    method GetCountAndZero(now: nat) returns (count: word)
      modifies this
      ensures count == old(fallingEdgeCount)
      ensures Abs() == Step(old(Abs()), ignoreTime, Refresh(now)).(count := 0)
    {
      RefreshTimers(now);
      count := fallingEdgeCount;
      fallingEdgeCount := 0;
    }
  }

  // ----- unbounded time -----

  /** The times of the edges that the counter accepts over a run. */
  function AcceptedEdges(s: State, ignore: word, run: seq<Event>): (r: seq<nat>)
    decreases |run|
  {
    if run == [] then []
    else (if Accepts(s, ignore, run[0]) then [run[0].time] else []) +
         AcceptedEdges(Step(s, ignore, run[0]), ignore, run[1..])
  }

  /** The count after a run. */
  function CountAfter(s: State, ignore: word, run: seq<Event>): (r: word)
    decreases |run|
  {
    if run == [] then s.count else CountAfter(Step(s, ignore, run[0]), ignore, run[1..])
  }

  /** A debouncer that never wraps: an edge counts when the last one that counted is far enough back.
      Refreshing does nothing to it. */
  function IdealEdges(last: Option<nat>, ignore: nat, run: seq<Event>): (r: seq<nat>)
    decreases |run|
  {
    if run == [] then []
    else if run[0].Edge? && (last.None? || run[0].time - last.value >= ignore) then
      [run[0].time] + IdealEdges(Some(run[0].time), ignore, run[1..])
    else IdealEdges(last, ignore, run[1..])
  }

  /** Calls come in time order, less than 2^32 minus the ignore time apart. */
  predicate Timely(now: nat, ignore: word, run: seq<Event>)
    decreases |run|
  {
    run == [] || (now <= run[0].time < now + 0x1_0000_0000 - ignore && Timely(run[0].time, ignore, run[1..]))
  }

  lemma SubtractReadings(t: int, last: int)
    requires 0 <= t - last < WRAP
    ensures Minus(Reading(t), Reading(last)) == t - last
  {
    assert (t % WRAP - last % WRAP - (t - last)) % WRAP == 0;
  }

  lemma ReadingBefore(t: int, ignore: word)
    ensures Minus(Reading(t), ignore) == Reading(t - ignore)
  {
    assert (t % WRAP - ignore - (t - ignore)) % WRAP == 0;
  }

  /** The true time that the register stands for, and how it stands to the last edge that counted. */
  predicate Tracks(s: State, last: int, now: nat, ideal: Option<nat>, ignore: word) {
    s.last == Reading(last) && 0 <= now - last <= ignore &&
    (ideal.None? ==> now - last == ignore || last + ignore <= now) &&
    (ideal.Some? ==> last == ideal.value || (last + ignore <= now && ideal.value + ignore <= now))
  }

  /** One event: the same decision is made, and the register tracks on. */
  lemma TracksStep(s: State, last: int, now: nat, ideal: Option<nat>, ignore: word, e: Event) returns (last': int)
    requires Tracks(s, last, now, ideal, ignore) && now <= e.time < now + WRAP - ignore
    ensures Accepts(s, ignore, e) <==> e.Edge? && (ideal.None? || e.time - ideal.value >= ignore)
    ensures Tracks(Step(s, ignore, e), last', e.time, if Accepts(s, ignore, e) then Some(e.time) else ideal, ignore)
  {
    var t := e.time;
    SubtractReadings(t, last);
    ReadingBefore(t, ignore);
    hide Minus, Reading;
    last' := last;
    if Accepts(s, ignore, e) {
      last' := t;
    } else if e.Refresh? && t - last > ignore {
      last' := t - ignore;
    }
  }

  lemma {:induction false} RunsAgree(s: State, last: int, now: nat, ideal: Option<nat>, ignore: word, run: seq<Event>)
    requires Tracks(s, last, now, ideal, ignore) && Timely(now, ignore, run)
    ensures AcceptedEdges(s, ignore, run) == IdealEdges(ideal, ignore, run)
    ensures CountAfter(s, ignore, run) == (s.count + |IdealEdges(ideal, ignore, run)|) % WRAP
    decreases |run|
  {
    hide Step, Tracks, Accepts;
    if run != [] {
      var e := run[0];
      assert now <= e.time < now + WRAP - ignore && Timely(e.time, ignore, run[1..]);
      hide Timely;
      var last' := TracksStep(s, last, now, ideal, ignore, run[0]);
      var ideal' := if Accepts(s, ignore, run[0]) then Some(run[0].time) else ideal;
      RunsAgree(Step(s, ignore, run[0]), last', run[0].time, ideal', ignore, run[1..]);
      CountStep(s, ignore, e, |IdealEdges(ideal', ignore, run[1..])|);
    }
  }

  /** An edge and n more, counted modulo 2^32. */
  lemma CountStep(s: State, ignore: word, e: Event, n: nat)
    ensures (Step(s, ignore, e).count + n) % WRAP == (s.count + (if Accepts(s, ignore, e) then 1 + n else n)) % WRAP
  {
  }

  /** Refreshes do not change which edges an unbounded debouncer counts. */
  function EdgesOnly(run: seq<Event>): (r: seq<Event>) {
    if run == [] then [] else (if run[0].Edge? then [run[0]] else []) + EdgesOnly(run[1..])
  }

  lemma {:induction false} IdealIgnoresRefreshes(last: Option<nat>, ignore: nat, run: seq<Event>)
    ensures IdealEdges(last, ignore, EdgesOnly(run)) == IdealEdges(last, ignore, run)
    decreases |run|
  {
    if run != [] {
      var rest := EdgesOnly(run[1..]);
      if run[0].Edge? {
        assert EdgesOnly(run)[1..] == rest;
        IdealIgnoresRefreshes(Some(run[0].time), ignore, run[1..]);
      } else {
        assert EdgesOnly(run) == rest;
      }
      IdealIgnoresRefreshes(last, ignore, run[1..]);
    }
  }

  /** Consecutive times are at least the ignore time apart, the first one from an earlier edge. */
  predicate Spaced(last: Option<nat>, ignore: nat, times: seq<nat>)
    decreases |times|
  {
    times == [] || ((last.None? || times[0] - last.value >= ignore) && Spaced(Some(times[0]), ignore, times[1..]))
  }

  lemma {:induction false} IdealIsSpaced(last: Option<nat>, ignore: nat, run: seq<Event>)
    ensures Spaced(last, ignore, IdealEdges(last, ignore, run))
    decreases |run|
  {
    if run != [] {
      IdealIsSpaced(Some(run[0].time), ignore, run[1..]);
      IdealIsSpaced(last, ignore, run[1..]);
      var r := IdealEdges(last, ignore, run);
      if run[0].Edge? && (last.None? || run[0].time - last.value >= ignore) {
        assert r[1..] == IdealEdges(Some(run[0].time), ignore, run[1..]);
      }
    }
  }

  /**
   The main result: over every timely run from construction on, the wrap-around counter accepts
   exactly the edges that the unbounded debouncer accepts with or without the refreshes, they are at
   least the ignore time apart, and the count is their number.
   */
  lemma DebounceOverWrapAround(ignore: word, start: nat, run: seq<Event>)
    requires Timely(start, ignore, run)
    ensures var s := State(Minus(Reading(start), ignore), 0);
            AcceptedEdges(s, ignore, run) == IdealEdges(None, ignore, EdgesOnly(run)) &&
            Spaced(None, ignore, AcceptedEdges(s, ignore, run)) &&
            CountAfter(s, ignore, run) == |AcceptedEdges(s, ignore, run)| % WRAP
  {
    var s := State(Minus(Reading(start), ignore), 0);
    assert s.last == Reading(start - ignore);
    RunsAgree(s, start - ignore, start, None, ignore, run);
    IdealIgnoresRefreshes(None, ignore, run);
    IdealIsSpaced(None, ignore, run);
  }

  /** One decision without the timeliness condition: it is wrong exactly when at least a whole wrap
      has passed and what is left of the time modulo 2^32 falls short of the ignore time. */
  lemma DecisionExact(last: int, t: int, ignore: word)
    requires last <= t
    ensures (Minus(Reading(t), Reading(last)) >= ignore <==> t - last >= ignore) <==>
            !(t - last >= WRAP && (t - last) % WRAP < ignore)
  {
    assert (t % WRAP - last % WRAP - (t - last)) % WRAP == 0;
    assert Minus(Reading(t), Reading(last)) == (t - last) % WRAP;
  }

  /** Two edges exactly one wrap apart: the second one is dropped. */
  lemma LateEdgeIsDropped()
    ensures AcceptedEdges(State(Minus(Reading(0), 1000), 0), 1000, [Edge(0), Edge(WRAP)]) == [0]
    ensures IdealEdges(None, 1000, [Edge(0), Edge(WRAP)]) == [0, WRAP]
  {
    var s := State(Minus(Reading(0), 1000), 0);
    var run := [Edge(0), Edge(WRAP)];
    assert run[1..] == [Edge(WRAP)] && run[1..][1..] == [];
    assert Minus(Reading(0), s.last) == 1000;
    assert Step(s, 1000, Edge(0)) == State(0, 1);
    assert Minus(Reading(WRAP), 0) == 0;
    assert AcceptedEdges(State(0, 1), 1000, run[1..]) == [];
    assert IdealEdges(Some(0), 1000, run[1..]) == [WRAP];
  }

  // ----- GetCountAndZero with the interrupt between its steps -----

  /** The reader between its calls, or holding the count it has read and not yet zeroed. */
  datatype Reader = Idle | Holding(current: nat)

  datatype Shared = Shared(count: nat, reader: Reader, returned: nat)

  datatype Action = CountEdge | ReadCount | ZeroCount

  /** The atomic steps; a step that the reader cannot take leaves the state as it is. */
  function Act(s: Shared, a: Action): (r: Shared) {
    match a
    case CountEdge => s.(count := s.count + 1)
    case ReadCount => if s.reader.Idle? then s.(reader := Holding(s.count)) else s
    case ZeroCount => if s.reader.Holding? then Shared(0, Idle, s.returned + s.reader.current) else s
  }

  function ActAll(s: Shared, actions: seq<Action>): (r: Shared)
    decreases |actions|
  {
    if actions == [] then s else ActAll(Act(s, actions[0]), actions[1..])
  }

  function EdgesIn(actions: seq<Action>): (n: nat) {
    if actions == [] then 0 else (if actions[0].CountEdge? then 1 else 0) + EdgesIn(actions[1..])
  }

  /** The edges counted after a read and before the zeroing that ends it. */
  function LostEdges(s: Shared, actions: seq<Action>): (n: nat)
    requires Consistent(s)
    decreases |actions|
  {
    if actions == [] then 0
    else
      (if actions[0].ZeroCount? && s.reader.Holding? then s.count - s.reader.current else 0) +
      LostEdges(Act(s, actions[0]), actions[1..])
  }

  predicate Consistent(s: Shared) { s.reader.Holding? ==> s.reader.current <= s.count }

  /** Conservation for every interleaving: each accepted edge was returned, is still counted, or was
      lost between a read and its zeroing. */
  lemma {:induction false} EdgeConservation(s: Shared, actions: seq<Action>)
    requires Consistent(s)
    ensures var e := ActAll(s, actions);
            Consistent(e) && s.returned + s.count + EdgesIn(actions) == e.returned + e.count + LostEdges(s, actions)
    decreases |actions|
  {
    if actions != [] { EdgeConservation(Act(s, actions[0]), actions[1..]); }
  }

  /** No interrupt comes between a read and the zeroing behind it. */
  predicate Undisturbed(s: Shared, actions: seq<Action>)
    decreases |actions|
  {
    actions == [] ||
    ((s.reader.Holding? && actions[0].CountEdge? ==> ZeroCount !in actions) &&
     Undisturbed(Act(s, actions[0]), actions[1..]))
  }

  /** No edge is lost if and only if every window between a read and its zeroing is undisturbed. */
  lemma {:induction false} NothingLostExactly(s: Shared, actions: seq<Action>)
    requires Consistent(s) && (s.reader.Holding? ==> s.reader.current == s.count || ZeroCount !in actions)
    ensures LostEdges(s, actions) == 0 <==> Undisturbed(s, actions)
    decreases |actions|
  {
    if actions != [] {
      var s' := Act(s, actions[0]);
      assert forall a :: a in actions[1..] ==> a in actions;
      assert actions == [actions[0]] + actions[1..];
      if s.reader.Holding? && actions[0].CountEdge? && ZeroCount in actions {
        HeldCountGrows(s', actions[1..]);
      } else {
        NothingLostExactly(s', actions[1..]);
      }
    }
  }

  lemma {:induction false} HeldCountGrows(s: Shared, actions: seq<Action>)
    requires s.reader.Holding? && s.reader.current < s.count && ZeroCount in actions
    ensures LostEdges(s, actions) > 0
    decreases |actions|
  {
    if !actions[0].ZeroCount? {
      assert actions == [actions[0]] + actions[1..];
      HeldCountGrows(Act(s, actions[0]), actions[1..]);
    }
  }
}
