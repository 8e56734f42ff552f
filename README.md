# Compose countdown timer: the countdown state machine

The app shows one screen: a ring that empties over a configurable duration,
the remaining time in whole seconds, and three buttons. "Remove Time" and
"Add Time" change the duration by one second. Play/Stop starts the countdown
or stops it. A platform `CountDownTimer` drives the countdown. Its `onTick`
callback reports the milliseconds left. Its `onFinish` callback ends the run.

All of this state lives in four remembered cells of the `MyApp` composable:

- `countdownStart`, the duration in milliseconds (a Kotlin `Long`, initially 15000);
- `timeLeft`, the whole seconds shown (an `Int`, initially 15);
- `timerRunning`, initially false;
- `progress`, the fill of the ring (initially `1F`).

The model has three modules:

- `KotlinNumbers` (kotlin_numbers.dfy) covers the JVM arithmetic the handlers
  rely on. `Long` addition wraps around at 64 bits. Division truncates toward
  zero. `Long.toInt()` keeps the low 32 bits.
- `Countdown` (countdown.dfy) is the state machine on values. `State` is a
  snapshot of the four cells. There is one function per stimulus, and each
  one assigns the cells in the handler's order. `Step` and `Run` apply events
  in sequence. The lemmas state the screen's rules: the Remove guard, exact
  Add, the round trips, stop-resets-not-pauses, finish-equals-stop, and the
  idle invariant over whole runs.
- `TimerScreen` (my_app.dfy) holds the class `MyApp`. Its fields are the four
  cells, and it has one method per handler. Each method updates the fields in
  place. It states the whole new state, promises that the new `Snapshot()` is
  what the `Countdown` function computes from the old one, and re-establishes
  the object invariant `Valid()`. That invariant says an idle screen shows the
  full duration on a full ring.

`progress` is modelled as `Full` (the literal `1F` that every reset writes)
or as `Fraction(remaining, total)`, the exact ratio an `onTick` divides.
`timeLeft` is always computed as `(x / 1000).toInt()`; in the model this is
`Countdown.Seconds`. It equals `x / 1000` for every non-negative `x` whose
seconds fit in an `Int`.

## Model

| member | source | states |
|---|---|---|
| `TimerScreen.MyApp.constructor` | app/src/main/java/com/example/androiddevchallenge/MainActivity.kt:77-81 | the screen starts at 15000 ms, showing 15 s, idle, full ring; the idle invariant holds |
| `TimerScreen.MyApp.RemoveTime` | app/src/main/java/com/example/androiddevchallenge/MainActivity.kt:156-167 | stops, fills the ring, then subtracts 1000 ms only when the duration exceeds 1000 ms; shows the seconds of the new duration; the idle invariant holds afterwards whatever held before |
| `TimerScreen.MyApp.PlayStop` | app/src/main/java/com/example/androiddevchallenge/MainActivity.kt:168-182 | flips the running flag and keeps the duration; stopping fills the ring; both branches show the whole duration; the idle invariant holds afterwards |
| `TimerScreen.MyApp.AddTime` | app/src/main/java/com/example/androiddevchallenge/MainActivity.kt:183-192 | stops, fills the ring and adds 1000 ms with Long wrap-around (exactly +1000 when it fits); shows the new duration; the idle invariant holds afterwards |
| `TimerScreen.MyApp.OnTick` | app/src/main/java/com/example/androiddevchallenge/MainActivity.kt:85-89 | changes only the display: the ring becomes remaining/duration, the seconds become the remaining whole seconds; the duration and running flag are unchanged; the invariant is kept when the tick comes while running |
| `TimerScreen.MyApp.OnFinish` | app/src/main/java/com/example/androiddevchallenge/MainActivity.kt:91-96 | stops, fills the ring, shows the whole duration, keeps the duration |
| `KotlinNumbers.WrapLong` | app/src/main/java/com/example/androiddevchallenge/MainActivity.kt:190 | Long addition: the identity on in-range values, otherwise congruent modulo 2^64 |
| `KotlinNumbers.ToInt32` | app/src/main/java/com/example/androiddevchallenge/MainActivity.kt:88 | `Long.toInt()`: the identity on values that fit in an Int, otherwise congruent modulo 2^32 |
| `KotlinNumbers.TruncDiv` | app/src/main/java/com/example/androiddevchallenge/MainActivity.kt:88 | Long division rounds toward zero: the quotient times the divisor lies within one divisor of the dividend, on the dividend's side of zero |
| `Countdown.Seconds` | app/src/main/java/com/example/androiddevchallenge/MainActivity.kt:161 | `(ms / 1000).toInt()` is the whole seconds of `ms` (floor of ms/1000) for every non-negative count whose seconds fit in an Int |
| `Countdown.RemoveTimeGuard` | app/src/main/java/com/example/androiddevchallenge/MainActivity.kt:163-166 | the duration drops by exactly 1000 if and only if it exceeds 1000, and is otherwise unchanged; a positive duration stays positive |
| `Countdown.AddTimeExact` | app/src/main/java/com/example/androiddevchallenge/MainActivity.kt:190 | the duration rises by exactly 1000 in any state, running or not, unless the Long overflows; then it wraps to a negative value |
| `Countdown.AdjustResets` | app/src/main/java/com/example/androiddevchallenge/MainActivity.kt:157-191 | after either adjust button the screen is stopped with a full ring, showing the seconds of the new duration |
| `Countdown.AdjustRoundTrips` | app/src/main/java/com/example/androiddevchallenge/MainActivity.kt:163-190 | Add then Remove gives back any positive duration, and Remove then Add gives back any duration above 1000; in both cases the whole state is the stopped state; at or below 1000, Remove then Add gains 1000 |
| `Countdown.AdjustMovesDisplayBySecond` | app/src/main/java/com/example/androiddevchallenge/MainActivity.kt:163-191 | on a whole-seconds duration, Add shows one second more and Remove (above one second) one second fewer |
| `Countdown.StopResets` | app/src/main/java/com/example/androiddevchallenge/MainActivity.kt:170-175 | Stop resets rather than pauses: stopped, full ring, whole duration shown, duration unchanged, the same state `onFinish` leaves |
| `Countdown.StartShowsDuration` | app/src/main/java/com/example/androiddevchallenge/MainActivity.kt:176-180 | Start sets running, shows the whole duration, and leaves the duration and the ring unchanged |
| `Countdown.OnTickChangesDisplayOnly` | app/src/main/java/com/example/androiddevchallenge/MainActivity.kt:85-89 | a tick sets the seconds and the ring fraction from `millisUntilFinished` and leaves the duration and running flag alone |
| `Countdown.OnTickWithinDuration` | app/src/main/java/com/example/androiddevchallenge/MainActivity.kt:85-89 | a tick whose remaining time is within the duration shows between 0 and the duration's seconds |
| `Countdown.OnFinishIsStop` | app/src/main/java/com/example/androiddevchallenge/MainActivity.kt:91-96 | finishing leaves the stopped state, finishing twice equals finishing once, and on a running screen it equals pressing Stop |
| `Countdown.InitialInvariants` | app/src/main/java/com/example/androiddevchallenge/MainActivity.kt:77-81 | the initial state satisfies the idle invariant (15 == 15000/1000) and the whole-seconds invariant |
| `Countdown.StepShowsDuration` | app/src/main/java/com/example/androiddevchallenge/MainActivity.kt:85-192 | Remove, Play/Stop, Add and finish each establish the idle invariant from any state, and a tick delivered while running keeps it |
| `Countdown.RunShowsDuration` | app/src/main/java/com/example/androiddevchallenge/MainActivity.kt:77-192 | along any run where timer callbacks arrive only while running, the idle invariant still holds at the end of the run |
| `Countdown.RunKeepsWholeSeconds` | app/src/main/java/com/example/androiddevchallenge/MainActivity.kt:163-190 | along any run without Long overflow, the duration stays a positive multiple of 1000 ms, so Remove never takes it to zero or below |
| `Countdown.IdleDisplayIsExact` | app/src/main/java/com/example/androiddevchallenge/MainActivity.kt:161 | on an idle screen with a whole-seconds duration, the seconds shown times 1000 equal the duration |
| `Countdown.StartTickFinishRestores` | app/src/main/java/com/example/androiddevchallenge/MainActivity.kt:85-96 | start, any number of ticks, then finish is a deliverable run that returns an idle screen to exactly its starting state |
| `Countdown.FontShrinksFromOneHour` | app/src/main/java/com/example/androiddevchallenge/MainActivity.kt:142 | the font is 48 sp exactly when at least 3,600,000 ms remain, and 72 sp otherwise |

The lemmas `Countdown.RunAppend`, `Countdown.ScheduledAppend` and
`Countdown.TicksKeepRunning` are proof steps for `StartTickFinishRestores`.

## Left out

- Rendering is not modelled: the layout, both `CircularProgressIndicator`s, the `Crossfade` animation, `IconImage` and the preview are UI only.
- The ring's floating-point value is not modelled. `onTick` stores the exact ratio `Fraction(remaining, total)`, so float rounding and division by a zero duration are not captured. The ring colour thresholds (0.7, 0.3) read that float and are left out with it.
- `getReadableTime` is called by the display, but its definition is not part of this model, so the H:MM:SS / MM:SS formatting is not modelled.
- The `CountDownTimer` schedule is not modelled: its 10 ms period, `start()` and `cancel()`. A tick is a call with the remaining milliseconds as a parameter. The run lemmas assume the platform calls back only while `timerRunning` is true (`Countdown.Scheduled`). This is the intent of `cancel()`.
- Timer identity is not modelled. The source builds a new `CountDownTimer` object on every recomposition, so a button may cancel a fresh object rather than the one that was started. The model does not say which object is cancelled. `MyApp.OnTick` shows the consequence: a tick that arrives while idle can break the idle invariant, and only a tick while running is promised to keep it.
- `MainActivity.onCreate` and `Window.makeTransparentStatusBar` are Android host code.
