/**
 * The state the `MyApp` composable remembers, updated in place by its three
 * buttons and by the callbacks of its `CountDownTimer`.
 *
 * Each method performs the handler's assignments in the handler's order and
 * promises that the new state is the one the matching function of module
 * `Countdown` computes from the old state, so the lemmas of that module carry
 * over to the object.
 */
module TimerScreen {
  import opened KotlinNumbers
  import Countdown

  class MyApp {
    var countdownStart: Long
    var timeLeft: Int32
    var timerRunning: bool
    var progress: Countdown.Progress

    /** The four cells as one value. */
    function Snapshot(): Countdown.State
      reads this
    {
      Countdown.State(countdownStart, timeLeft, timerRunning, progress)
    }

    /** Object invariant: an idle screen shows the full duration on a full ring. */
    ghost predicate Valid()
      reads this
    {
      Countdown.ShowsDuration(Snapshot())
    }

    constructor ()
      ensures Snapshot() == Countdown.INITIAL
      ensures Valid()
    {
      countdownStart := Countdown.TIMER_COUNT;
      timeLeft := 15;
      timerRunning := false;
      progress := Countdown.Full;
    }

    /** The "Remove Time" button. */
    method RemoveTime()
      modifies this
      ensures Snapshot() == Countdown.RemoveTime(old(Snapshot()))
      ensures countdownStart == if old(countdownStart) > Countdown.ADJUST_MS
                                then old(countdownStart) - Countdown.ADJUST_MS
                                else old(countdownStart)
      ensures !timerRunning && progress == Countdown.Full
      ensures timeLeft == Countdown.Seconds(countdownStart)
      ensures Valid()
    {
      var value := Countdown.ADJUST_MS;
      timerRunning := false;
      progress := Countdown.Full;
      timeLeft := Countdown.Seconds(countdownStart);

      if countdownStart > value {
        countdownStart := countdownStart - value;
        timeLeft := Countdown.Seconds(countdownStart);
      }
    }

    /** The Play/Stop button. */
    method PlayStop()
      modifies this
      ensures Snapshot() == Countdown.PlayStop(old(Snapshot()))
      ensures timerRunning == !old(timerRunning)
      ensures countdownStart == old(countdownStart)
      ensures timeLeft == Countdown.Seconds(countdownStart)
      ensures progress == if old(timerRunning) then Countdown.Full else old(progress)
      ensures Valid()
    {
      if timerRunning {
        timerRunning := false;
        progress := Countdown.Full;
        timeLeft := Countdown.Seconds(countdownStart);
      } else {
        timeLeft := Countdown.Seconds(countdownStart);
        timerRunning := true;
      }
    }

    /** The "Add Time" button. */
    method AddTime()
      modifies this
      ensures Snapshot() == Countdown.AddTime(old(Snapshot()))
      ensures countdownStart == WrapLong(old(countdownStart) + Countdown.ADJUST_MS)
      ensures old(countdownStart) + Countdown.ADJUST_MS <= MAX_LONG ==>
                countdownStart == old(countdownStart) + Countdown.ADJUST_MS
      ensures !timerRunning && progress == Countdown.Full
      ensures timeLeft == Countdown.Seconds(countdownStart)
      ensures Valid()
    {
      var value := Countdown.ADJUST_MS;
      timerRunning := false;
      progress := Countdown.Full;
      timeLeft := Countdown.Seconds(countdownStart);

      countdownStart := WrapLong(countdownStart + value);
      timeLeft := Countdown.Seconds(countdownStart);
    }

    /** `CountDownTimer.onTick`, with the remaining time the platform passes in. */
    method OnTick(millisUntilFinished: Long)
      modifies this
      ensures Snapshot() == Countdown.OnTick(old(Snapshot()), millisUntilFinished)
      ensures countdownStart == old(countdownStart) && timerRunning == old(timerRunning)
      ensures progress == Countdown.Fraction(millisUntilFinished, countdownStart)
      ensures timeLeft == Countdown.Seconds(millisUntilFinished)
      ensures old(timerRunning) ==> Valid()
    {
      progress := Countdown.Fraction(millisUntilFinished, countdownStart);
      timeLeft := Countdown.Seconds(millisUntilFinished);
    }

    /** `CountDownTimer.onFinish`. */
    method OnFinish()
      modifies this
      ensures Snapshot() == Countdown.OnFinish(old(Snapshot()))
      ensures countdownStart == old(countdownStart)
      ensures !timerRunning && progress == Countdown.Full
      ensures timeLeft == Countdown.Seconds(countdownStart)
      ensures Valid()
    {
      timerRunning := false;
      progress := Countdown.Full;
      timeLeft := Countdown.Seconds(countdownStart);
    }
  }
}
