/**
 * The countdown state machine of the `MyApp` composable, on values.
 *
 * A `State` is a snapshot of the four remembered cells (`countdownStart`,
 * `timeLeft`, `timerRunning`, `progress`); each stimulus of the screen is a
 * function from the state before to the state after, written in the order
 * the handler assigns the cells. The class in my_app.dfy performs the same
 * assignments in place and is proved to agree with these functions, so
 * every lemma here is a statement about the screen.
 */
module Countdown {
  import opened KotlinNumbers

  /** The duration the screen starts with, in milliseconds. */
  const TIMER_COUNT: Long := 15000

  /** What each tap on "Add Time" or "Remove Time" adds or removes, in milliseconds. */
  const ADJUST_MS: Long := 1000

  /** The largest millisecond count whose whole seconds still fit in an `Int`. */
  const MAX_EXACT_MS: int := MAX_INT * 1000 + 999

  /**
   * The ring's fill. `Full` is the literal `1F` the handlers reset it to;
   * `Fraction` is the ratio `remaining / total` that a tick stores (its
   * floating-point rounding is not modelled).
   */
  datatype Progress = Full | Fraction(remaining: Long, total: Long)

  datatype State = State(countdownStart: Long, timeLeft: Int32, running: bool, progress: Progress)

  /** The stimuli that change the state: three buttons and two timer callbacks. */
  datatype Event =
    | RemoveClicked
    | PlayStopClicked
    | AddClicked
    | Ticked(millisUntilFinished: Long)
    | Finished

  /** The state the composable remembers when it is first composed. */
  const INITIAL: State := State(TIMER_COUNT, 15, false, Full)

  /** `(ms / 1000).toInt()`: the whole seconds shown for a millisecond count. */
  function Seconds(ms: Long): (r: Int32)
    ensures 0 <= ms <= MAX_EXACT_MS ==> r == ms / 1000
    ensures 0 <= ms <= MAX_EXACT_MS ==> r * 1000 <= ms < r * 1000 + 1000
  {
    ToInt32(TruncDiv(ms, 1000))
  }

  /** The font size, in sp, of the time display. */
  function FontSize(timeLeft: Int32): int {
    if timeLeft >= 3600 then 48 else 72
  }

  /** "Remove Time": stop and reset the display, then shorten by a second if more than one remains. */
  function RemoveTime(s: State): State {
    var reset := s.(running := false, progress := Full, timeLeft := Seconds(s.countdownStart));
    if reset.countdownStart > ADJUST_MS then
      var shorter := reset.countdownStart - ADJUST_MS;
      reset.(countdownStart := shorter, timeLeft := Seconds(shorter))
    else
      reset
  }

  /** The Play/Stop button: stop (and reset the display) when running, start when idle. */
  function PlayStop(s: State): State {
    if s.running then
      s.(running := false, progress := Full, timeLeft := Seconds(s.countdownStart))
    else
      s.(timeLeft := Seconds(s.countdownStart), running := true)
  }

  /** "Add Time": stop and reset the display, then lengthen by a second (Long addition). */
  function AddTime(s: State): State {
    var reset := s.(running := false, progress := Full, timeLeft := Seconds(s.countdownStart));
    var longer := WrapLong(reset.countdownStart + ADJUST_MS);
    reset.(countdownStart := longer, timeLeft := Seconds(longer))
  }

  /** `onTick`: show the remaining whole seconds and the remaining fraction. */
  function OnTick(s: State, millisUntilFinished: Long): State {
    s.(progress := Fraction(millisUntilFinished, s.countdownStart),
       timeLeft := Seconds(millisUntilFinished))
  }

  /** `onFinish`: the timer is over; the display returns to the full duration. */
  function OnFinish(s: State): State {
    s.(running := false, progress := Full, timeLeft := Seconds(s.countdownStart))
  }

  function Step(s: State, e: Event): State {
    match e
    case RemoveClicked => RemoveTime(s)
    case PlayStopClicked => PlayStop(s)
    case AddClicked => AddTime(s)
    case Ticked(ms) => OnTick(s, ms)
    case Finished => OnFinish(s)
  }

  /** The state after the events `es`, applied in order. */
  function Run(s: State, es: seq<Event>): State
    decreases |es|
  {
    if es == [] then s else Run(Step(s, es[0]), es[1..])
  }

  /**
   * The platform timer calls back only while a countdown is scheduled, that
   * is, while the screen is running: a tick or a finish arrives in a running
   * state. Buttons can be pressed at any time.
   */
  predicate Delivered(s: State, e: Event) {
    (e.Ticked? || e.Finished?) ==> s.running
  }

  /** Every event of `es` is delivered in the state it meets. */
  predicate Scheduled(s: State, es: seq<Event>)
    decreases |es|
  {
    es == [] || (Delivered(s, es[0]) && Scheduled(Step(s, es[0]), es[1..]))
  }

  /** No "Add Time" in `es` pushes the duration past the largest Long. */
  predicate NoAddOverflow(s: State, es: seq<Event>)
    decreases |es|
  {
    es == []
    || ((es[0].AddClicked? ==> s.countdownStart + ADJUST_MS <= MAX_LONG)
        && NoAddOverflow(Step(s, es[0]), es[1..]))
  }

  /**
   * The idle invariant: while no countdown runs, the display shows the whole
   * configured duration and a full ring.
   */
  predicate ShowsDuration(s: State) {
    !s.running ==> s.timeLeft == Seconds(s.countdownStart) && s.progress == Full
  }

  /** The configured duration is a positive whole number of seconds. */
  predicate WholeSeconds(s: State) {
    s.countdownStart >= ADJUST_MS && s.countdownStart % ADJUST_MS == 0
  }

  // ---------------------------------------------------------------------
  // The adjust buttons

  /** "Remove Time" shortens by exactly one second exactly when more than one second is set. */
  lemma RemoveTimeGuard(s: State)
    ensures RemoveTime(s).countdownStart == s.countdownStart - ADJUST_MS <==> s.countdownStart > ADJUST_MS
    ensures s.countdownStart <= ADJUST_MS ==> RemoveTime(s).countdownStart == s.countdownStart
    ensures s.countdownStart > 0 ==> RemoveTime(s).countdownStart > 0
  {
  }

  /**
   * "Add Time" lengthens by exactly one second whatever the state, running or
   * not, unless the Long overflows, in which case the duration wraps negative.
   */
  lemma AddTimeExact(s: State)
    ensures s.countdownStart + ADJUST_MS <= MAX_LONG ==> AddTime(s).countdownStart == s.countdownStart + ADJUST_MS
    ensures s.countdownStart + ADJUST_MS > MAX_LONG ==>
              AddTime(s).countdownStart == s.countdownStart + ADJUST_MS - LONG_RANGE < 0
  {
  }

  /** Either adjust button leaves the screen stopped, with a full ring showing the new duration. */
  lemma AdjustResets(s: State)
    ensures var r := RemoveTime(s);
            !r.running && r.progress == Full && r.timeLeft == Seconds(r.countdownStart)
    ensures var a := AddTime(s);
            !a.running && a.progress == Full && a.timeLeft == Seconds(a.countdownStart)
  {
  }

  /**
   * Adding then removing a second restores the duration of any positive
   * setting; removing then adding restores one above a second. Either way
   * the whole state is the one stopping would have left.
   */
  lemma AdjustRoundTrips(s: State)
    ensures 0 < s.countdownStart && s.countdownStart + ADJUST_MS <= MAX_LONG ==>
              RemoveTime(AddTime(s)) == OnFinish(s)
    ensures s.countdownStart > ADJUST_MS ==> AddTime(RemoveTime(s)) == OnFinish(s)
    ensures MIN_LONG + ADJUST_MS <= s.countdownStart <= ADJUST_MS ==>
              AddTime(RemoveTime(s)).countdownStart == s.countdownStart + ADJUST_MS
  {
  }

  /** On a whole-seconds duration, "Add Time" shows one more second and "Remove Time" one fewer. */
  lemma AdjustMovesDisplayBySecond(s: State)
    requires 0 <= s.countdownStart <= MAX_EXACT_MS - ADJUST_MS
    requires s.countdownStart % ADJUST_MS == 0
    ensures AddTime(s).timeLeft == Seconds(s.countdownStart) + 1
    ensures s.countdownStart > ADJUST_MS ==> RemoveTime(s).timeLeft == Seconds(s.countdownStart) - 1
  {
  }

  // ---------------------------------------------------------------------
  // Play/Stop and the timer callbacks

  /** Stop resets rather than pauses: the result is exactly what `onFinish` leaves. */
  lemma StopResets(s: State)
    requires s.running
    ensures PlayStop(s) == OnFinish(s)
    ensures var r := PlayStop(s);
            !r.running && r.progress == Full && r.timeLeft == Seconds(s.countdownStart)
            && r.countdownStart == s.countdownStart
  {
  }

  /** Start shows the whole duration and keeps it; the ring is left as it was. */
  lemma StartShowsDuration(s: State)
    requires !s.running
    ensures var r := PlayStop(s);
            r.running && r.timeLeft == Seconds(s.countdownStart)
            && r.countdownStart == s.countdownStart && r.progress == s.progress
  {
  }

  /** A tick rewrites only the display: the duration and the running flag are untouched. */
  lemma OnTickChangesDisplayOnly(s: State, millisUntilFinished: Long)
    ensures var r := OnTick(s, millisUntilFinished);
            r.countdownStart == s.countdownStart && r.running == s.running
            && r.timeLeft == Seconds(millisUntilFinished)
            && r.progress == Fraction(millisUntilFinished, s.countdownStart)
  {
  }

  /** While the timer counts down from the duration, the display stays between zero and the duration. */
  lemma OnTickWithinDuration(s: State, millisUntilFinished: Long)
    requires 0 <= millisUntilFinished <= s.countdownStart <= MAX_EXACT_MS
    ensures 0 <= OnTick(s, millisUntilFinished).timeLeft <= Seconds(s.countdownStart)
  {
  }

  /** Finishing leaves the stopped state, and finishing again changes nothing. */
  lemma OnFinishIsStop(s: State)
    ensures var r := OnFinish(s);
            !r.running && r.progress == Full && r.timeLeft == Seconds(s.countdownStart)
            && r.countdownStart == s.countdownStart
    ensures OnFinish(OnFinish(s)) == OnFinish(s)
    ensures s.running ==> OnFinish(s) == PlayStop(s)
  {
  }

  // ---------------------------------------------------------------------
  // Invariants over whole runs

  /** The first composition satisfies both invariants. */
  lemma InitialInvariants()
    ensures ShowsDuration(INITIAL) && WholeSeconds(INITIAL)
    ensures INITIAL.timeLeft == INITIAL.countdownStart / 1000
  {
  }

  /**
   * Every stimulus but a tick restores the idle invariant whatever the state
   * before; a tick keeps it when it arrives while running.
   */
  lemma StepShowsDuration(s: State, e: Event)
    requires !e.Ticked? || (ShowsDuration(s) && Delivered(s, e))
    ensures ShowsDuration(Step(s, e))
  {
  }

  /** The idle invariant holds after every run of delivered events. */
  lemma {:induction false} RunShowsDuration(s: State, es: seq<Event>)
    requires ShowsDuration(s) && Scheduled(s, es)
    ensures ShowsDuration(Run(s, es))
    decreases |es|
  {
    if es != [] {
      StepShowsDuration(s, es[0]);
      RunShowsDuration(Step(s, es[0]), es[1..]);
    }
  }

  /** A duration that is a positive whole number of seconds stays one, barring Long overflow. */
  lemma {:induction false} RunKeepsWholeSeconds(s: State, es: seq<Event>)
    requires WholeSeconds(s) && NoAddOverflow(s, es)
    ensures WholeSeconds(Run(s, es))
    decreases |es|
  {
    if es != [] {
      if es[0].RemoveClicked? && s.countdownStart > ADJUST_MS {
        assert s.countdownStart >= 2 * ADJUST_MS;
      }
      RunKeepsWholeSeconds(Step(s, es[0]), es[1..]);
    }
  }

  /** On a whole-seconds duration the idle display shows the duration exactly. */
  lemma IdleDisplayIsExact(s: State)
    requires WholeSeconds(s) && ShowsDuration(s) && !s.running
    requires s.countdownStart <= MAX_EXACT_MS
    ensures s.timeLeft * 1000 == s.countdownStart
  {
  }

  /** Running `a` then `b` is running `a + b`. */
  lemma {:induction false} RunAppend(s: State, a: seq<Event>, b: seq<Event>)
    ensures Run(s, a + b) == Run(Run(s, a), b)
    decreases |a|
  {
    if a != [] {
      assert (a + b)[0] == a[0];
      assert (a + b)[1..] == a[1..] + b;
      RunAppend(Step(s, a[0]), a[1..], b);
    } else {
      assert a + b == b;
    }
  }

  /** Ticks delivered to a running screen keep it running with the same duration. */
  lemma {:induction false} TicksKeepRunning(s: State, ticks: seq<Event>)
    requires s.running
    requires forall i :: 0 <= i < |ticks| ==> ticks[i].Ticked?
    ensures Scheduled(s, ticks)
    ensures Run(s, ticks).running && Run(s, ticks).countdownStart == s.countdownStart
    decreases |ticks|
  {
    if ticks != [] {
      TicksKeepRunning(Step(s, ticks[0]), ticks[1..]);
    }
  }

  /**
   * Starting, ticking any number of times and finishing brings an idle screen
   * back to exactly the state it started from, and that run is one the
   * platform timer can deliver.
   */
  lemma {:induction false} StartTickFinishRestores(s: State, ticks: seq<Event>)
    requires !s.running && ShowsDuration(s)
    requires forall i :: 0 <= i < |ticks| ==> ticks[i].Ticked?
    ensures Scheduled(s, [PlayStopClicked] + ticks + [Finished])
    ensures Run(s, [PlayStopClicked] + ticks + [Finished]) == s
  {
    var started := PlayStop(s);
    TicksKeepRunning(started, ticks);
    var ticked := Run(started, ticks);
    RunAppend(started, ticks, [Finished]);
    ScheduledAppend(started, ticks, [Finished]);
    assert [PlayStopClicked] + ticks + [Finished] == [PlayStopClicked] + (ticks + [Finished]);
    assert Run(ticked, [Finished]) == OnFinish(ticked);
  }

  /** A run of `a` then `b` is delivered when `a` is and then `b` is. */
  lemma {:induction false} ScheduledAppend(s: State, a: seq<Event>, b: seq<Event>)
    requires Scheduled(s, a) && Scheduled(Run(s, a), b)
    ensures Scheduled(s, a + b)
    decreases |a|
  {
    if a != [] {
      assert (a + b)[0] == a[0];
      assert (a + b)[1..] == a[1..] + b;
      ScheduledAppend(Step(s, a[0]), a[1..], b);
    } else {
      assert a + b == b;
    }
  }

  // ---------------------------------------------------------------------
  // The time display

  /** The display switches to the smaller font from one hour of remaining time on. */
  lemma FontShrinksFromOneHour(ms: Long)
    requires 0 <= ms <= MAX_EXACT_MS
    ensures FontSize(Seconds(ms)) == 48 <==> ms >= 3_600_000
    ensures FontSize(Seconds(ms)) == 72 <==> ms < 3_600_000
  {
  }
}
