/** Sequences of user actions and callbacks, and what the contracts of
    `MainActivity` let a caller conclude about them. */
module CountdownScenarios {
  import opened CountdownFormat
  import opened CountdownScreen
  import opened Preferences
  import opened CountdownTimer

  /** Start followed at once by Pause leaves the time left as it was. */
  method StartThenPause(a: MainActivity, now: int)
    requires !a.isTimerRunning
    modifies a
    ensures a.timeLeftInMillis == old(a.timeLeftInMillis) && a.startTimeInMillis == old(a.startTimeInMillis)
    ensures !a.isTimerRunning && a.endTime == now + a.timeLeftInMillis
  {
    a.ClickStart(now);
    a.ClickStart(now);
  }

  /** The countdown finishing keeps the last reported time, not zero; when
      less than a second was reported last, the label reads "00:00" and
      Start is hidden. */
  method FinishKeepsLastTick(a: MainActivity, now: int, last: int)
    requires !a.isTimerRunning
    modifies a
    ensures a.timeLeftInMillis == last && !a.isTimerRunning
    ensures a.countdownText == FormatTime(last)
    ensures last < 1000 ==> a.screen.startButton == Invisible
    ensures 0 <= last < 1000 ==> a.countdownText == "00:00"
  {
    a.StartTimer(now);
    a.OnTick(last);
    a.OnFinish();
    InterfaceRule(a.screen, false, last, a.startTimeInMillis);
    if 0 <= last < 1000 {
      assert FormatTime(last) == FormatTime(0) by {
        assert last / MillisPerSecond == 0;
      }
      FormatExamples();
    }
  }

  /** Set while running (the button is hidden then, so only reachable if it
      were shown) changes the duration but keeps the timer running towards
      its old deadline. */
  method SetWhileRunning(a: MainActivity, now: int, m: int)
    requires !a.isTimerRunning && m != 0 && -1000 <= m <= 1000
    modifies a
    ensures a.isTimerRunning && a.endTime == now + old(a.timeLeftInMillis)
    ensures a.startTimeInMillis == m * MillisPerMinute && a.timeLeftInMillis == a.startTimeInMillis
  {
    a.StartTimer(now);
    CheckEntryWithoutOverflow(m);
    var notice := a.ClickSet(Minutes(m));
  }

  /** Leaving the app while idle and coming back restores the duration, the
      time left and the idle state exactly. */
  method StopThenStartIdle(a: MainActivity, prefs: Prefs, later: int)
    requires !a.isTimerRunning
    modifies a
    ensures a.startTimeInMillis == old(a.startTimeInMillis) && a.timeLeftInMillis == old(a.timeLeftInMillis)
    ensures !a.isTimerRunning && a.endTime == old(a.endTime)
  {
    var saved := a.OnStop(prefs);
    PersistRestoreRoundTrip(prefs, a.Fields(), a.Fields(), later, later);
    a.OnStart(saved, later, later);
  }
}
