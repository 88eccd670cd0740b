/** The lock-free drop reporter, one atomic operation per step. */
module DropReporter {
  import opened Common
  import opened Counting
  import opened Runs

  /** Thirty seconds in nanoseconds. */
  const INTERVAL := 30_000_000_000
  const TWO63 := 0x8000_0000_0000_0000
  const TWO64 := 0x1_0000_0000_0000_0000

  /** Two's-complement wrap-around of a 64-bit signed integer. */
  function Wrap(x: int): int {
    var m := x % TWO64;
    if m < TWO63 then m else m - TWO64
  }

  /** The marker computed from a clock reading, in nanoseconds since start; time.Since saturates at TWO63 - 1. */
  function Marker(reading: int): int { Wrap(reading + 1) }

  /** No line was ever logged, or the last one is an interval old. */
  predicate Due(last: int, elapsed: int) { last == 0 || Wrap(elapsed - last) >= INTERVAL }

  // ----- the concurrent system

  /** Where one recordDrop call stands, and the values it holds. */
  datatype Call =
    | Entered
    | Counted
    | Timed(elapsed: int)
    | Racing(elapsed: int, last: int)
    | Won
    | Took(count: int)
    | Returned

  /** The shared atomics and clock, every call, and what has happened: increments, 64-bit overflows of the
      counter, the markers stored by successful swaps, and the counts logged. */
  datatype State = State(
    dropped: int,
    lastLog: int,
    clock: int,
    calls: seq<Call>,
    adds: int,
    overflows: int,
    markers: seq<int>,
    lines: seq<int>)

  function Init(clock: int): State { State(0, 0, clock, [], 0, 0, [], []) }

  datatype Action =
    | Tick(to: int)
    | Enter
    | Add(i: nat)
    | ReadClock(i: nat)
    | Load(i: nat)
    | CompareAndSwap(i: nat)
    | TakeCount(i: nat)
    | Log(i: nat)

  predicate Enabled(s: State, a: Action) {
    match a
    case Tick(to) => s.clock <= to < TWO63
    case Enter => true
    case Add(i) => i < |s.calls| && s.calls[i].Entered?
    case ReadClock(i) => i < |s.calls| && s.calls[i].Counted?
    case Load(i) => i < |s.calls| && s.calls[i].Timed?
    case CompareAndSwap(i) => i < |s.calls| && s.calls[i].Racing?
    case TakeCount(i) => i < |s.calls| && s.calls[i].Won?
    case Log(i) => i < |s.calls| && s.calls[i].Took?
  }

  function Apply(s: State, a: Action): State
    requires Enabled(s, a)
  {
    match a
    case Tick(to) => s.(clock := to)
    case Enter => s.(calls := s.calls + [Entered])
    case Add(i) =>
      s.(dropped := (s.dropped + 1) % TWO64, overflows := s.overflows + (s.dropped + 1) / TWO64,
         adds := s.adds + 1, calls := s.calls[i := Counted])
    case ReadClock(i) => s.(calls := s.calls[i := Timed(Marker(s.clock))])
    case Load(i) =>
      var e := s.calls[i].elapsed;
      s.(calls := s.calls[i := if Due(s.lastLog, e) then Racing(e, s.lastLog) else Returned])
    case CompareAndSwap(i) =>
      var Racing(e, last) := s.calls[i];
      if s.lastLog == last then s.(lastLog := e, markers := s.markers + [e], calls := s.calls[i := Won])
      else s.(calls := s.calls[i := Returned])
    case TakeCount(i) => s.(dropped := 0, calls := s.calls[i := Took(s.dropped)])
    case Log(i) => s.(lines := s.lines + [s.calls[i].count], calls := s.calls[i := Returned])
  }

  function Step(s: State, a: Action): State { if Enabled(s, a) then Apply(s, a) else s }

  /** Any schedule is a run: an action that is not enabled when its turn comes does nothing. */
  function Exec(s: State, acts: seq<Action>): State {
    Run(Step, s, acts)
  }

  // ----- what every step keeps

  function Held(c: Call): int { if c.Took? then c.count else 0 }

  function Winning(c: Call): int { if c.Won? || c.Took? then 1 else 0 }

  function Total(lines: seq<int>): int { Sum(lines, (n: int) => n) }

  /** Increments are exactly the counts logged, held by a winner, and still in the counter. */
  predicate Conserved(s: State) {
    Total(s.lines) + Sum(s.calls, Held) + s.dropped + s.overflows * TWO64 == s.adds
    && s.overflows >= 0 && 0 <= s.dropped < TWO64
    && Total(s.lines) >= 0 && forall i :: 0 <= i < |s.calls| ==> Held(s.calls[i]) >= 0
  }

  /** Every winner logs at most the one line of the marker it stored. */
  predicate OneLinePerMarker(s: State) {
    |s.lines| + Sum(s.calls, Winning) == |s.markers|
  }

  lemma SumsMove(s: State, a: Action, weight: Call -> int)
    requires Enabled(s, a) && !a.Tick? && !a.Enter?
    ensures a.i < |s.calls| && a.i < |Apply(s, a).calls|
    ensures Sum(Apply(s, a).calls, weight) ==
            Sum(s.calls, weight) - weight(s.calls[a.i]) + weight(Apply(s, a).calls[a.i])
  {
    SumUpdate(s.calls, a.i, Apply(s, a).calls[a.i], weight);
  }

  lemma CountsKept(s: State, a: Action)
    requires Conserved(s) && Enabled(s, a)
    ensures Conserved(Apply(s, a))
  {
    if a.Enter? {
      SumAppend(s.calls, Entered, Held);
    } else if !a.Tick? {
      SumsMove(s, a, Held);
      if a.Log? { SumAppend(s.lines, s.calls[a.i].count, (n: int) => n); }
    }
  }

  lemma LinesKept(s: State, a: Action)
    requires OneLinePerMarker(s) && Enabled(s, a)
    ensures OneLinePerMarker(Apply(s, a))
  {
    if a.Enter? {
      SumAppend(s.calls, Entered, Winning);
    } else if !a.Tick? {
      SumsMove(s, a, Winning);
    }
  }

  lemma {:induction false} ConservationOverRuns(clock: int, acts: seq<Action>)
    ensures Conserved(Exec(Init(clock), acts)) && OneLinePerMarker(Exec(Init(clock), acts))
  {
    if acts == [] {
    } else {
      var prev, a := Exec(Init(clock), acts[..|acts| - 1]), acts[|acts| - 1];
      ConservationOverRuns(clock, acts[..|acts| - 1]);
      if Enabled(prev, a) {
        CountsKept(prev, a);
        LinesKept(prev, a);
      }
    }
  }

  predicate Quiet(s: State) { forall i :: 0 <= i < |s.calls| ==> s.calls[i].Returned? }

  lemma {:induction false} QuietHoldsNothing(calls: seq<Call>)
    requires forall i :: 0 <= i < |calls| ==> calls[i].Returned?
    ensures Sum(calls, Held) == 0 && Sum(calls, Winning) == 0
  {
    if calls == [] {
    } else {
      QuietHoldsNothing(calls[..|calls| - 1]);
    }
  }

  function Uncounted(c: Call): int { if c.Entered? then 1 else 0 }

  lemma {:induction false} AddsPerCall(clock: int, acts: seq<Action>)
    ensures var s := Exec(Init(clock), acts); s.adds + Sum(s.calls, Uncounted) == |s.calls|
  {
    if acts == [] {
    } else {
      var prev, a := Exec(Init(clock), acts[..|acts| - 1]), acts[|acts| - 1];
      AddsPerCall(clock, acts[..|acts| - 1]);
      if a.Enter? {
        SumAppend(prev.calls, Entered, Uncounted);
      } else if !a.Tick? && Enabled(prev, a) {
        SumsMove(prev, a, Uncounted);
      }
    }
  }

  lemma {:induction false} QuietIsCounted(calls: seq<Call>)
    requires forall i :: 0 <= i < |calls| ==> calls[i].Returned?
    ensures Sum(calls, Uncounted) == 0
  {
    if calls == [] {
    } else {
      QuietIsCounted(calls[..|calls| - 1]);
    }
  }

  /** Once every call has returned, the logged counts and the counter add up to the calls made: no drop is lost. */
  lemma NoDropIsLost(clock: int, acts: seq<Action>)
    requires Quiet(Exec(Init(clock), acts))
    requires |Exec(Init(clock), acts).calls| < TWO64
    ensures var s := Exec(Init(clock), acts);
            Total(s.lines) + s.dropped == |s.calls| && |s.lines| == |s.markers|
  {
    var s := Exec(Init(clock), acts);
    ConservationOverRuns(clock, acts);
    AddsPerCall(clock, acts);
    QuietHoldsNothing(s.calls);
    QuietIsCounted(s.calls);
  }

  // ----- the rate bound

  predicate Spread(ms: seq<int>) {
    && (forall k :: 0 <= k < |ms| ==> 0 < ms[k])
    && forall k {:trigger ms[k]} :: 0 < k < |ms| ==> ms[k] - ms[k - 1] >= INTERVAL
  }

  predicate Fits(c: Call, clock: int) {
    match c
    case Timed(e) => 0 < e <= clock + 1
    case Racing(e, last) => 0 < e <= clock + 1 && last >= 0 && (last == 0 || e - last >= INTERVAL)
    case _ => true
  }

  /** While the clock has not saturated, markers are positive, spaced, and the last one is the stored one. */
  predicate Spaced(s: State) {
    && 0 <= s.clock < TWO63 - 1
    && s.lastLog == (if s.markers == [] then 0 else s.markers[|s.markers| - 1])
    && 0 <= s.lastLog <= s.clock + 1
    && Spread(s.markers)
    && forall i :: 0 <= i < |s.calls| ==> Fits(s.calls[i], s.clock)
  }

  /** On unsaturated readings the 64-bit arithmetic is exact. */
  lemma NoWrap(elapsed: int, last: int)
    requires 0 <= last < TWO63 && 0 < elapsed < TWO63
    ensures Wrap(elapsed) == elapsed && Wrap(elapsed - last) == elapsed - last
  {
  }

  lemma CallsStayFit(s: State, a: Action, i: nat)
    requires Spaced(s) && Enabled(s, a) && Apply(s, a).clock < TWO63 - 1
    requires i < |Apply(s, a).calls|
    ensures Fits(Apply(s, a).calls[i], Apply(s, a).clock)
  {
    if i < |s.calls| {
      assert Fits(s.calls[i], s.clock);
      if a == ReadClock(i) {
        NoWrap(s.clock + 1, 0);
      } else if a == Load(i) {
        NoWrap(s.calls[i].elapsed, s.lastLog);
      }
    }
  }

  lemma MarkersStaySpread(s: State, i: nat)
    requires Spaced(s) && Enabled(s, CompareAndSwap(i)) && s.lastLog == s.calls[i].last
    ensures Spread(s.markers + [s.calls[i].elapsed])
  {
    var Racing(e, last) := s.calls[i];
    assert Fits(s.calls[i], s.clock);
    var ms := s.markers + [e];
    forall k | 0 < k < |ms| ensures ms[k] - ms[k - 1] >= INTERVAL {
      if k < |s.markers| {
        assert ms[k] == s.markers[k] && ms[k - 1] == s.markers[k - 1];
      } else {
        assert s.markers[k - 1] == last > 0;
      }
    }
  }

  lemma SpacingKept(s: State, a: Action)
    requires Spaced(s) && Enabled(s, a) && Apply(s, a).clock < TWO63 - 1
    ensures Spaced(Apply(s, a))
  {
    forall i | 0 <= i < |Apply(s, a).calls| ensures Fits(Apply(s, a).calls[i], Apply(s, a).clock) {
      CallsStayFit(s, a, i);
    }
    if a.CompareAndSwap? {
      assert Fits(s.calls[a.i], s.clock);
      if s.lastLog == s.calls[a.i].last {
        MarkersStaySpread(s, a.i);
      }
    }
  }

  lemma {:induction false} SpacedOverRuns(clock: int, acts: seq<Action>)
    requires 0 <= clock && Exec(Init(clock), acts).clock < TWO63 - 1
    ensures Spaced(Exec(Init(clock), acts))
  {
    if acts == [] {
    } else {
      var prev, a := Exec(Init(clock), acts[..|acts| - 1]), acts[|acts| - 1];
      SpacedOverRuns(clock, acts[..|acts| - 1]);
      if Enabled(prev, a) { SpacingKept(prev, a); }
    }
  }

  lemma {:induction false} SpacedMarkersSpread(ms: seq<int>, j: nat, k: nat)
    requires Spread(ms) && j <= k < |ms|
    ensures ms[k] - ms[j] >= (k - j) * INTERVAL
  {
    if j == k {
    } else {
      SpacedMarkersSpread(ms, j, k - 1);
    }
  }

  /** No two successful swaps store the same marker (so a stale Load can never win: no ABA), any two stored
      markers are an interval apart per swap between them, and at most one line per interval is logged. */
  lemma RateBound(clock: int, acts: seq<Action>)
    requires 0 <= clock && Exec(Init(clock), acts).clock < TWO63 - 1
    ensures var s := Exec(Init(clock), acts);
            && (forall j, k :: 0 <= j < k < |s.markers| ==> s.markers[k] - s.markers[j] >= (k - j) * INTERVAL)
            && INTERVAL == 30_000_000_000
            && |s.lines| <= |s.markers|
            && (s.markers != [] ==>
                  var t := s.markers[|s.markers| - 1] - 1;
                  0 <= t <= s.clock && |s.lines| <= 1 + t / INTERVAL)
  {
    var s := Exec(Init(clock), acts);
    SpacedOverRuns(clock, acts);
    ConservationOverRuns(clock, acts);
    SumBounds(s.calls, Winning, 1);
    forall j, k | 0 <= j < k < |s.markers| ensures s.markers[k] - s.markers[j] >= (k - j) * INTERVAL {
      SpacedMarkersSpread(s.markers, j, k);
    }
    if s.markers != [] {
      SpacedMarkersSpread(s.markers, 0, |s.markers| - 1);
    }
  }

  /** A successful swap raises the marker exactly when the winner's clock reading was not saturated. */
  lemma SwapRaisesMarker(last: int, reading: int)
    requires 0 <= last < TWO63 && 0 <= reading < TWO63 && Due(last, Marker(reading))
    ensures Marker(reading) > last <==> reading < TWO63 - 1
  {
  }

  // ----- a frozen clock

  /** What holds while the clock reads the same value forever, saturated or not. */
  predicate Latched(s: State, clock: int) {
    && s.clock == clock
    && ((s.lastLog == 0 && s.markers == []) || (s.lastLog == Marker(clock) && s.markers == [Marker(clock)]))
    && forall i :: 0 <= i < |s.calls| ==>
         match s.calls[i]
         case Timed(e) => e == Marker(clock)
         case Racing(e, last) => e == Marker(clock) && last == 0
         case Won => s.markers != []
         case Took(_) => s.markers != []
         case Returned => s.markers != []
         case _ => true
  }

  predicate NoTicks(acts: seq<Action>) { forall k :: 0 <= k < |acts| ==> !acts[k].Tick? }

  lemma {:induction false} LatchedOverRuns(clock: int, acts: seq<Action>)
    requires 0 <= clock < TWO63 && NoTicks(acts)
    ensures Latched(Exec(Init(clock), acts), clock)
  {
    if acts == [] {
    } else {
      LatchedOverRuns(clock, acts[..|acts| - 1]);
    }
  }

  /** A reporter whose clock is frozen logs one line for its first callers and never another. */
  lemma FrozenClockLogsOnce(clock: int, acts: seq<Action>)
    requires 0 <= clock < TWO63 && NoTicks(acts)
    ensures var s := Exec(Init(clock), acts);
            && |s.lines| <= 1
            && (Quiet(s) && s.calls != [] ==> |s.lines| == 1)
  {
    var s := Exec(Init(clock), acts);
    LatchedOverRuns(clock, acts);
    ConservationOverRuns(clock, acts);
    SumBounds(s.calls, Winning, 1);
    if Quiet(s) && s.calls != [] {
      assert s.calls[0].Returned?;
      QuietHoldsNothing(s.calls);
    }
  }

  // ----- the code of one call

  function Alone(dropped: int, lastLog: int, reading: int): (int, int, Option<int>) {
    var d := (dropped + 1) % TWO64;
    if Due(lastLog, Marker(reading)) then (0, Marker(reading), Some(d)) else (d, lastLog, None)
  }

  class Reporter {
    var dropped: int
    var lastLog: int

    constructor ()
      ensures dropped == 0 && lastLog == 0
    {
      dropped, lastLog := 0, 0;
    }

    /** One call that nobody interleaves with; reading is what the clock reads since start. */
    method RecordDrop(reading: int) returns (line: Option<int>)
      modifies this
      ensures (dropped, lastLog, line) == Alone(old(dropped), old(lastLog), reading)
    {
      dropped := (dropped + 1) % TWO64;
      var elapsed := Wrap(reading + 1);
      var last := lastLog;
      if last != 0 && Wrap(elapsed - last) < INTERVAL {
        return None;
      }
      lastLog := elapsed;
      var count := dropped;
      dropped := 0;
      return Some(count);
    }
  }

  /** The steps of call i, one after the other. */
  function SoloSteps(s: State, i: nat): seq<Action> {
    if Due(s.lastLog, Marker(s.clock)) then [Add(i), ReadClock(i), Load(i), CompareAndSwap(i), TakeCount(i), Log(i)]
    else [Add(i), ReadClock(i), Load(i)]
  }

  lemma LoadedAlone(s: State, i: nat)
    requires i < |s.calls| && s.calls[i] == Entered
    ensures var e := Marker(s.clock);
            Step(Step(Step(s, Add(i)), ReadClock(i)), Load(i)) ==
            s.(dropped := (s.dropped + 1) % TWO64, overflows := s.overflows + (s.dropped + 1) / TWO64,
               adds := s.adds + 1,
               calls := s.calls[i := if Due(s.lastLog, e) then Racing(e, s.lastLog) else Returned])
  {
    var s1 := Apply(s, Add(i));
    var s2 := Apply(s1, ReadClock(i));
    assert s2.calls == s.calls[i := Timed(Marker(s.clock))];
  }

  lemma LoggedAlone(s: State, i: nat)
    requires i < |s.calls| && s.calls[i].Racing? && s.calls[i].last == s.lastLog
    ensures Step(Step(Step(s, CompareAndSwap(i)), TakeCount(i)), Log(i)) ==
            s.(dropped := 0, lastLog := s.calls[i].elapsed, markers := s.markers + [s.calls[i].elapsed],
               lines := s.lines + [s.dropped], calls := s.calls[i := Returned])
  {
    var s1 := Apply(s, CompareAndSwap(i));
    var s2 := Apply(s1, TakeCount(i));
    assert s2.calls == s.calls[i := Took(s.dropped)];
  }

  /** The sequential code is the concurrent system when one call takes all its steps in a row. */
  lemma AloneIsARun(s: State, i: nat)
    requires i < |s.calls| && s.calls[i] == Entered
    ensures var s' := Exec(s, SoloSteps(s, i));
            var (d, l, line) := Alone(s.dropped, s.lastLog, s.clock);
            && s'.dropped == d && s'.lastLog == l && s'.calls == s.calls[i := Returned]
            && s'.lines == s.lines + (if line.Some? then [line.value] else [])
  {
    var acts := [Add(i), ReadClock(i), Load(i)];
    Run3(Step, s, [], Add(i), ReadClock(i), Load(i));
    assert [] + acts == acts;
    LoadedAlone(s, i);
    var loaded := Exec(s, acts);
    if Due(s.lastLog, Marker(s.clock)) {
      LoggedAlone(loaded, i);
      Run3(Step, s, acts, CompareAndSwap(i), TakeCount(i), Log(i));
      assert acts + [CompareAndSwap(i), TakeCount(i), Log(i)] == SoloSteps(s, i);
      assert loaded.calls[i := Returned] == s.calls[i := Returned];
    } else {
      assert s.lines + [] == s.lines;
    }
  }

  lemma ReturnedStays(s: State, i: nat)
    requires i < |s.calls| && s.calls[i] == Returned
    ensures Step(Step(Step(s, CompareAndSwap(i)), TakeCount(i)), Log(i)) == s
  {
  }

  lemma SixSteps(s: State, i: nat)
    ensures Exec(s, [Add(i), ReadClock(i), Load(i), CompareAndSwap(i), TakeCount(i), Log(i)]) ==
            var loaded := Step(Step(Step(s, Add(i)), ReadClock(i)), Load(i));
            Step(Step(Step(loaded, CompareAndSwap(i)), TakeCount(i)), Log(i))
  {
    var first := [Add(i), ReadClock(i), Load(i)];
    Run3(Step, s, [], Add(i), ReadClock(i), Load(i));
    assert [] + first == first;
    Run3(Step, s, first, CompareAndSwap(i), TakeCount(i), Log(i));
    assert first + [CompareAndSwap(i), TakeCount(i), Log(i)] ==
           [Add(i), ReadClock(i), Load(i), CompareAndSwap(i), TakeCount(i), Log(i)];
  }

  lemma AloneLogs(s: State, i: nat)
    requires i < |s.calls| && s.calls[i] == Entered && Due(s.lastLog, Marker(s.clock))
    ensures var s' := Exec(s, [Add(i), ReadClock(i), Load(i), CompareAndSwap(i), TakeCount(i), Log(i)]);
            s'.lines == s.lines + [(s.dropped + 1) % TWO64] && s'.dropped == 0 && s'.lastLog == Marker(s.clock)
  {
    SixSteps(s, i);
    LoadedAlone(s, i);
    LoggedAlone(Step(Step(Step(s, Add(i)), ReadClock(i)), Load(i)), i);
  }

  lemma AloneCounts(s: State, i: nat)
    requires i < |s.calls| && s.calls[i] == Entered && !Due(s.lastLog, Marker(s.clock))
    ensures var s' := Exec(s, [Add(i), ReadClock(i), Load(i), CompareAndSwap(i), TakeCount(i), Log(i)]);
            s'.lines == s.lines && s'.dropped == (s.dropped + 1) % TWO64 && s'.lastLog == s.lastLog
  {
    SixSteps(s, i);
    LoadedAlone(s, i);
    ReturnedStays(Step(Step(Step(s, Add(i)), ReadClock(i)), Load(i)), i);
  }

  /** A call that nobody interleaves with logs every drop since the last line, its own included, if no line was ever
      logged or the last one is at least thirty seconds old, and otherwise only counts. */
  lemma AloneLogsWhenDue(s: State, i: nat)
    requires i < |s.calls| && s.calls[i] == Entered
    requires 0 <= s.lastLog <= s.clock + 1 && 0 <= s.clock < TWO63 - 1 && 0 <= s.dropped < TWO64 - 1
    ensures var acts := [Add(i), ReadClock(i), Load(i), CompareAndSwap(i), TakeCount(i), Log(i)];
            var s' := Exec(s, acts);
            if s.lastLog == 0 || s.clock + 1 - s.lastLog >= INTERVAL then
              s'.lines == s.lines + [s.dropped + 1] && s'.dropped == 0 && s'.lastLog == s.clock + 1
            else
              s'.lines == s.lines && s'.dropped == s.dropped + 1 && s'.lastLog == s.lastLog
  {
    NoWrap(s.clock + 1, s.lastLog);
    if s.lastLog == 0 || s.clock + 1 - s.lastLog >= INTERVAL { AloneLogs(s, i); } else { AloneCounts(s, i); }
  }

  /** The same of the sequential code: the line, and what is left behind. */
  lemma LogsWhenDue(dropped: int, lastLog: int, reading: int)
    requires 0 <= lastLog <= reading + 1 && 0 <= reading < TWO63 - 1 && 0 <= dropped < TWO64 - 1
    ensures Alone(dropped, lastLog, reading) ==
            if lastLog == 0 || reading + 1 - lastLog >= INTERVAL then (0, reading + 1, Some(dropped + 1))
            else (dropped + 1, lastLog, None)
  {
    NoWrap(reading + 1, lastLog);
  }

  // ----- who goes without a line

  /** At step k call i finds the last line less than an interval old. */
  predicate TooSoon(clock: int, acts: seq<Action>, k: nat, i: nat) {
    && k < |acts| && acts[k] == Load(i)
    && var s := Exec(Init(clock), acts[..k]);
       && Enabled(s, Load(i)) && s.lastLog != 0 && s.calls[i].elapsed - s.lastLog < INTERVAL
  }

  /** At step k call i loads the marker, sees that a line is due, and at step m finds that the marker has changed. */
  predicate Beaten(clock: int, acts: seq<Action>, k: nat, m: nat, i: nat) {
    && k < m < |acts| && acts[k] == Load(i) && acts[m] == CompareAndSwap(i)
    && var before, after := Exec(Init(clock), acts[..k]), Exec(Init(clock), acts[..m]);
       && Enabled(before, Load(i)) && Enabled(after, CompareAndSwap(i))
       && after.lastLog != before.lastLog && |after.markers| > |before.markers|
  }

  /** At step k call i takes over the marker, which only it will log for. */
  predicate Wins(clock: int, acts: seq<Action>, k: nat, i: nat) {
    && k < |acts| && acts[k] == CompareAndSwap(i)
    && var s := Exec(Init(clock), acts[..k]);
       && Enabled(s, CompareAndSwap(i)) && Exec(Init(clock), acts[..k + 1]).markers == s.markers + [s.calls[i].elapsed]
  }

  lemma {:induction false} RacingHasLoad(clock: int, acts: seq<Action>, i: nat) returns (k: nat)
    requires var s := Exec(Init(clock), acts); i < |s.calls| && s.calls[i].Racing?
    ensures k < |acts| && acts[k] == Load(i) && Enabled(Exec(Init(clock), acts[..k]), Load(i))
    ensures var s, before := Exec(Init(clock), acts), Exec(Init(clock), acts[..k]);
            s.calls[i].last == before.lastLog && |before.markers| <= |s.markers|
            && (|before.markers| == |s.markers| ==> before.lastLog == s.lastLog)
  {
    var n := |acts| - 1;
    var prev := Exec(Init(clock), acts[..n]);
    if i < |prev.calls| && prev.calls[i].Racing? {
      k := RacingHasLoad(clock, acts[..n], i);
      assert acts[..n][..k] == acts[..k];
    } else {
      k := n;
    }
  }

  ghost predicate GoesWithout(clock: int, acts: seq<Action>, i: nat) {
    (exists k :: TooSoon(clock, acts, k, i)) || (exists k, m :: Beaten(clock, acts, k, m, i))
  }

  ghost predicate GotTurn(clock: int, acts: seq<Action>, i: nat) { exists k :: Wins(clock, acts, k, i) }

  lemma GoesWithoutMore(clock: int, acts: seq<Action>, i: nat)
    requires acts != []
    ensures GoesWithout(clock, acts[..|acts| - 1], i) ==> GoesWithout(clock, acts, i)
    ensures GotTurn(clock, acts[..|acts| - 1], i) ==> GotTurn(clock, acts, i)
  {
    var prev := acts[..|acts| - 1];
    if k: nat :| TooSoon(clock, prev, k, i) {
      assert prev[..k] == acts[..k];
      assert TooSoon(clock, acts, k, i);
    }
    if k: nat, m: nat :| Beaten(clock, prev, k, m, i) {
      assert prev[..k] == acts[..k] && prev[..m] == acts[..m];
      assert Beaten(clock, acts, k, m, i);
    }
    if k: nat :| Wins(clock, prev, k, i) {
      assert prev[..k] == acts[..k] && prev[..k + 1] == acts[..k + 1];
      assert Wins(clock, acts, k, i);
    }
  }

  predicate PastRace(c: Call) { c.Won? || c.Took? || c.Returned? }

  lemma LoadReturns(clock: int, acts: seq<Action>, i: nat)
    requires 0 <= clock && acts != [] && acts[|acts| - 1] == Load(i) && Exec(Init(clock), acts).clock < TWO63 - 1
    requires var prev := Exec(Init(clock), acts[..|acts| - 1]);
             Enabled(prev, Load(i)) && Apply(prev, Load(i)).calls[i].Returned?
    ensures GoesWithout(clock, acts, i)
  {
    var n := |acts| - 1;
    var prev := Exec(Init(clock), acts[..n]);
    SpacedOverRuns(clock, acts[..n]);
    assert Fits(prev.calls[i], prev.clock);
    NoWrap(prev.calls[i].elapsed, prev.lastLog);
    assert TooSoon(clock, acts, n, i);
  }

  lemma SwapSettles(clock: int, acts: seq<Action>, i: nat)
    requires acts != [] && acts[|acts| - 1] == CompareAndSwap(i)
    requires Enabled(Exec(Init(clock), acts[..|acts| - 1]), CompareAndSwap(i))
    ensures GotTurn(clock, acts, i) || GoesWithout(clock, acts, i)
  {
    var n := |acts| - 1;
    var prev := Exec(Init(clock), acts[..n]);
    if prev.lastLog == prev.calls[i].last {
      assert acts[..n + 1] == acts;
      assert Wins(clock, acts, n, i);
    } else {
      var k := RacingHasLoad(clock, acts[..n], i);
      assert acts[..n][..k] == acts[..k];
      assert Beaten(clock, acts, k, n, i);
    }
  }

  /** In every interleaving a call that is past the race either took over the marker, or found the last line less than
      an interval old at its Load, or was beaten by another call's swap between its Load and its own. */
  lemma {:induction false} LineOrReason(clock: int, acts: seq<Action>, i: nat)
    requires 0 <= clock && Exec(Init(clock), acts).clock < TWO63 - 1
    requires i < |Exec(Init(clock), acts).calls| && PastRace(Exec(Init(clock), acts).calls[i])
    ensures GotTurn(clock, acts, i) || GoesWithout(clock, acts, i)
  {
    var n := |acts| - 1;
    var prev := Exec(Init(clock), acts[..n]);
    if i < |prev.calls| && PastRace(prev.calls[i]) {
      LineOrReason(clock, acts[..n], i);
      GoesWithoutMore(clock, acts, i);
    } else if acts[n] == Load(i) {
      LoadReturns(clock, acts, i);
    } else {
      SwapSettles(clock, acts, i);
    }
  }
}
