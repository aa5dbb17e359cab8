/** The countdown timer held by `MainActivity`: its four fields, the
    transitions that change them, and how they are saved to and restored
    from the preferences file. The system clock is the parameter `now`, the
    platform countdown's callbacks are explicit calls, and the minutes field
    arrives already parsed. */
module CountdownTimer {
  import opened KotlinLong
  import opened CountdownFormat
  import opened CountdownScreen
  import opened Preferences

  const StartTimeKey: string := "startTimeInMillis"
  const TimeLeftKey: string := "timeLeftInMillis"
  const RunningKey: string := "isTimerRunning"
  const EndTimeKey: string := "endTime"

  /** ten minutes, used when nothing has been saved yet */
  const DefaultStartTime: int := 600_000
  const MillisPerMinute: int := 60_000

  const EmptyFieldMessage: string := "Field can't be empty"
  const NotPositiveMessage: string := "Please enter a positive number"

  /** The four fields of the activity, as a value. */
  datatype TimerFields = TimerFields(startTime: int, timeLeft: int, endTime: int, running: bool)

  // ----- the Set button -----

  /** What the minutes field holds when Set is pressed: nothing, or a number
      that `parseLong` accepted. */
  datatype Entry = EmptyField | Minutes(minutes: int)

  predicate ParsedAsLong(e: Entry) {
    e.Minutes? ==> IsLong(e.minutes)
  }

  datatype SetOutcome = Accepted(millis: int) | Rejected(message: string)

  /** The checks of the Set branch of `clickListener`: an empty field is
      refused, and so is a duration whose `Long` product with 60000 is zero;
      anything else is accepted as that product. */
  function CheckEntry(e: Entry): (r: SetOutcome)
    ensures r == Rejected(EmptyFieldMessage) <==> e.EmptyField?
    ensures r == Rejected(NotPositiveMessage) <==> e.Minutes? && Wrap(e.minutes * MillisPerMinute) == 0
    ensures r.Accepted? ==> e.Minutes? && r.millis == Wrap(e.minutes * MillisPerMinute) && r.millis != 0
    ensures e.Minutes? && Wrap(e.minutes * MillisPerMinute) != 0 ==> r == Accepted(Wrap(e.minutes * MillisPerMinute))
  {
    match e
    case EmptyField => Rejected(EmptyFieldMessage)
    case Minutes(m) =>
      var millis := Wrap(m * MillisPerMinute);
      if millis == 0 then Rejected(NotPositiveMessage) else Accepted(millis)
  }

  /** As long as the product does not overflow, a number is accepted exactly
      when it is not zero, negative numbers included, as minutes times 60000. */
  lemma CheckEntryWithoutOverflow(m: int)
    requires IsLong(m * MillisPerMinute)
    ensures CheckEntry(Minutes(m)).Accepted? <==> m != 0
    ensures m != 0 ==> CheckEntry(Minutes(m)) == Accepted(m * MillisPerMinute)
  {
  }

  /** Five minutes below zero pass the check although its message asks for a
      positive number; 2^59 minutes wrap around to zero and are refused. */
  lemma CheckEntryEdges()
    ensures CheckEntry(Minutes(-5)) == Accepted(-300_000)
    ensures CheckEntry(Minutes(0)) == Rejected(NotPositiveMessage)
    ensures IsLong(0x800_0000_0000_0000) && CheckEntry(Minutes(0x800_0000_0000_0000)) == Rejected(NotPositiveMessage)
  {
  }

  // ----- saving and restoring -----

  /** The keys `onStart` reads hold values of the type it reads them as. */
  predicate WellTyped(p: Prefs) {
    LongOrAbsent(p, StartTimeKey) && LongOrAbsent(p, TimeLeftKey) &&
    BooleanOrAbsent(p, RunningKey) && LongOrAbsent(p, EndTimeKey)
  }

  /** The preferences after `onStop` writes the four fields into `p`. */
  function Persist(p: Prefs, f: TimerFields): (r: Prefs)
    ensures r.Keys == p.Keys + {StartTimeKey, TimeLeftKey, RunningKey, EndTimeKey}
    ensures r[StartTimeKey] == LongPref(f.startTime) && r[TimeLeftKey] == LongPref(f.timeLeft)
    ensures r[RunningKey] == BooleanPref(f.running) && r[EndTimeKey] == LongPref(f.endTime)
    ensures forall k :: k in p && k != StartTimeKey && k != TimeLeftKey && k != RunningKey && k != EndTimeKey ==> r[k] == p[k]
    ensures WellTyped(r)
  {
    var p1 := PutLong(p, StartTimeKey, f.startTime);
    var p2 := PutLong(p1, TimeLeftKey, f.timeLeft);
    var p3 := PutBoolean(p2, RunningKey, f.running);
    PutLong(p3, EndTimeKey, f.endTime)
  }

  /** The fields once `onStart` has read the first three keys. */
  function Loaded(p: Prefs, f: TimerFields): TimerFields
    requires WellTyped(p)
  {
    var startTime := GetLong(p, StartTimeKey, DefaultStartTime);
    f.(startTime := startTime,
       timeLeft := GetLong(p, TimeLeftKey, startTime),
       running := GetBoolean(p, RunningKey, false))
  }

  /** The fields after `startTimer` at time `now`. */
  function Started(f: TimerFields, now: int): TimerFields {
    f.(endTime := now + f.timeLeft, running := true)
  }

  /** The fields after `onStart`, from fields `f` and preferences `p`. The
      clock is read twice: `now` when the time left is computed from the saved
      deadline, and `later` when `startTimer` sets the new deadline. */
  function Restore(p: Prefs, f: TimerFields, now: int, later: int): TimerFields
    requires WellTyped(p)
  {
    var l := Loaded(p, f);
    if !l.running then l
    else
      var endTime := GetLong(p, EndTimeKey, 0);
      if endTime - now < 0 then l.(endTime := endTime, timeLeft := 0, running := false)
      else Started(l.(endTime := endTime, timeLeft := endTime - now), later)
  }

  /** A missing duration defaults to ten minutes, a missing remaining time to
      the duration, and a missing running flag to idle, in which case the
      in-memory deadline is kept. */
  lemma RestoreDefaults(p: Prefs, f: TimerFields, now: int, later: int)
    requires WellTyped(p)
    ensures var l := Loaded(p, f);
      (StartTimeKey !in p ==> l.startTime == DefaultStartTime) &&
      (TimeLeftKey !in p ==> l.timeLeft == l.startTime) &&
      (RunningKey !in p ==> !l.running)
    ensures var r := Restore(p, f, now, later);
      (StartTimeKey !in p ==> r.startTime == DefaultStartTime) &&
      (TimeLeftKey !in p && !GetBoolean(p, RunningKey, false) ==> r.timeLeft == r.startTime) &&
      (!GetBoolean(p, RunningKey, false) ==> !r.running && r.endTime == f.endTime)
    ensures Restore(map[], f, now, later) == f.(startTime := DefaultStartTime, timeLeft := DefaultStartTime, running := false)
  {
  }

  /** A timer saved as running whose deadline has passed comes back idle
      with nothing left and the saved deadline. One whose deadline has not
      passed, including one due exactly now, comes back running with the time
      up to the deadline; its new deadline is the saved one moved by however
      far the clock advanced between the two readings. */
  lemma RestoreClamp(p: Prefs, f: TimerFields, now: int, later: int)
    requires WellTyped(p) && GetBoolean(p, RunningKey, false)
    ensures var r, e := Restore(p, f, now, later), GetLong(p, EndTimeKey, 0);
      r.startTime == Loaded(p, f).startTime &&
      (e < now ==> r.timeLeft == 0 && !r.running && r.endTime == e) &&
      (e >= now ==> r.timeLeft == e - now && r.running && r.endTime == e + (later - now))
  {
  }

  /** A timer restored from running has a time left that is never negative;
      if it runs, its deadline is the instant it was started again plus the
      time left. */
  lemma RestoredDeadline(p: Prefs, f: TimerFields, now: int, later: int)
    requires WellTyped(p) && GetBoolean(p, RunningKey, false)
    ensures var r := Restore(p, f, now, later);
      r.timeLeft >= 0 && (r.running ==> r.endTime == later + r.timeLeft)
  {
  }

  /** Saving and then restoring: an idle timer comes back with exactly its
      duration, remaining time and idle flag (the saved deadline is not read);
      a running one comes back clamped against its saved deadline, and when
      started again its deadline moves by the time between the clock readings. */
  lemma PersistRestoreRoundTrip(p: Prefs, f: TimerFields, g: TimerFields, now: int, later: int)
    ensures Restore(Persist(p, f), g, now, later) ==
      if !f.running then g.(startTime := f.startTime, timeLeft := f.timeLeft, running := false)
      else if f.endTime < now then f.(timeLeft := 0, running := false)
      else f.(timeLeft := f.endTime - now, endTime := f.endTime + (later - now))
  {
  }

  /** A running timer saved with `timeLeft` to go as measured at `start` (the
      deadline is `start + timeLeft`; after ticks, `start` is the last tick's
      instant, not the moment Start was pressed) and restored at a later
      `now` has lost exactly the time that passed since `start`, never going
      below zero nor above what it had. */
  lemma RestoreSubtractsElapsed(p: Prefs, f: TimerFields, g: TimerFields, start: int, now: int, later: int)
    requires f.running && f.endTime == start + f.timeLeft && 0 <= f.timeLeft && start <= now
    ensures var r := Restore(Persist(p, f), g, now, later);
      0 <= r.timeLeft <= f.timeLeft &&
      (r.running <==> now - start <= f.timeLeft) &&
      (r.running ==> r.timeLeft == f.timeLeft - (now - start))
  {
  }

  // ----- the activity -----

  class MainActivity {
    var startTimeInMillis: int
    var timeLeftInMillis: int
    var endTime: int
    var isTimerRunning: bool

    /** what the countdown label shows */
    var countdownText: string
    /** what the minutes field and the three buttons show */
    var screen: Screen

    function Fields(): TimerFields
      reads this
    {
      TimerFields(startTimeInMillis, timeLeftInMillis, endTime, isTimerRunning)
    }

    /** the label shows the remaining time */
    predicate TextInSync()
      reads this
    {
      countdownText == FormatTime(timeLeftInMillis)
    }

    /** the controls show what `updateInterface` would show for the fields */
    predicate ScreenInSync()
      reads this
    {
      screen == UpdateInterface(screen, isTimerRunning, timeLeftInMillis, startTimeInMillis)
    }

    /** The activity as created: every field at its Kotlin initial value and
        the widgets as the layout draws them. */
    constructor (layoutScreen: Screen, layoutText: string)
      ensures Fields() == TimerFields(0, 0, 0, false)
      ensures screen == layoutScreen && countdownText == layoutText
    {
      startTimeInMillis, timeLeftInMillis, endTime, isTimerRunning := 0, 0, 0, false;
      screen, countdownText := layoutScreen, layoutText;
    }

    method UpdateCountDownText()
      modifies this`countdownText
      ensures TextInSync()
    {
      countdownText := FormatTime(timeLeftInMillis);
    }

    method UpdateInterfaceNow()
      modifies this`screen
      ensures screen == UpdateInterface(old(screen), isTimerRunning, timeLeftInMillis, startTimeInMillis)
      ensures ScreenInSync()
    {
      screen := UpdateInterface(screen, isTimerRunning, timeLeftInMillis, startTimeInMillis);
      UpdateInterfaceSettles(old(screen), screen, isTimerRunning, timeLeftInMillis, startTimeInMillis);
    }

    /** A new duration; a running timer keeps running and its deadline is untouched. */
    method SetStartTime(ms: int)
      modifies this
      ensures startTimeInMillis == ms && timeLeftInMillis == ms
      ensures endTime == old(endTime) && isTimerRunning == old(isTimerRunning)
      ensures screen == UpdateInterface(old(screen), isTimerRunning, ms, ms)
      ensures TextInSync() && ScreenInSync()
    {
      startTimeInMillis := ms;
      ResetTimer();
    }

    /** The Set button: a rejected entry shows a notice and changes nothing;
        an accepted one becomes the new duration. */
    method ClickSet(e: Entry) returns (notice: Option<string>)
      requires ParsedAsLong(e)
      modifies this
      ensures CheckEntry(e).Rejected? ==>
        notice == Some(CheckEntry(e).message) && Fields() == old(Fields()) &&
        countdownText == old(countdownText) && screen == old(screen)
      ensures CheckEntry(e).Accepted? ==>
        notice == None &&
        Fields() == old(Fields()).(startTime := CheckEntry(e).millis, timeLeft := CheckEntry(e).millis) &&
        TextInSync() && ScreenInSync() &&
        screen == UpdateInterface(old(screen), isTimerRunning, timeLeftInMillis, startTimeInMillis)
    {
      match CheckEntry(e)
      case Rejected(message) =>
        notice := Some(message);
      case Accepted(millis) =>
        SetStartTime(millis);
        notice := None;
    }

    /** Start counting down from what is left: the deadline is `now` plus the time left. */
    method StartTimer(now: int)
      modifies this
      ensures Fields() == Started(old(Fields()), now)
      ensures endTime == now + timeLeftInMillis && isTimerRunning
      ensures timeLeftInMillis == old(timeLeftInMillis) && startTimeInMillis == old(startTimeInMillis)
      ensures countdownText == old(countdownText)
      ensures screen == UpdateInterface(old(screen), true, timeLeftInMillis, startTimeInMillis)
      ensures ScreenInSync()
      ensures old(TextInSync()) ==> TextInSync()
    {
      endTime := now + timeLeftInMillis;
      isTimerRunning := true;
      UpdateInterfaceNow();
    }

    /** The countdown's `onTick`: the time left becomes the one reported. */
    method OnTick(millisUntilFinished: int)
      modifies this
      ensures Fields() == old(Fields()).(timeLeft := millisUntilFinished)
      ensures TextInSync() && screen == old(screen)
      ensures old(ScreenInSync()) && isTimerRunning ==> ScreenInSync()
    {
      timeLeftInMillis := millisUntilFinished;
      UpdateCountDownText();
    }

    /** The countdown's `onFinish`: the timer stops; the time left stays at
        the last value reported, as does the label. */
    method OnFinish()
      modifies this
      ensures Fields() == old(Fields()).(running := false)
      ensures countdownText == old(countdownText)
      ensures screen == UpdateInterface(old(screen), false, timeLeftInMillis, startTimeInMillis)
      ensures ScreenInSync()
      ensures old(TextInSync()) ==> TextInSync()
    {
      isTimerRunning := false;
      UpdateInterfaceNow();
    }

    method PauseTimer()
      modifies this
      ensures Fields() == old(Fields()).(running := false)
      ensures countdownText == old(countdownText)
      ensures screen == UpdateInterface(old(screen), false, timeLeftInMillis, startTimeInMillis)
      ensures ScreenInSync()
      ensures old(TextInSync()) ==> TextInSync()
    {
      isTimerRunning := false;
      UpdateInterfaceNow();
    }

    /** Back to the full duration; neither the running flag nor the deadline changes. */
    method ResetTimer()
      modifies this
      ensures Fields() == old(Fields()).(timeLeft := old(startTimeInMillis))
      ensures screen == UpdateInterface(old(screen), isTimerRunning, startTimeInMillis, startTimeInMillis)
      ensures TextInSync() && ScreenInSync()
    {
      timeLeftInMillis := startTimeInMillis;
      UpdateCountDownText();
      UpdateInterfaceNow();
    }

    /** The Start button pauses a running timer and starts an idle one. */
    method ClickStart(now: int)
      modifies this
      ensures old(isTimerRunning) ==> Fields() == old(Fields()).(running := false)
      ensures !old(isTimerRunning) ==> Fields() == Started(old(Fields()), now)
      ensures screen == UpdateInterface(old(screen), isTimerRunning, timeLeftInMillis, startTimeInMillis)
      ensures countdownText == old(countdownText) && ScreenInSync()
    {
      if isTimerRunning {
        PauseTimer();
      } else {
        StartTimer(now);
      }
    }

    /** `onStop`: the four fields written into the preferences `prefs`. */
    method OnStop(prefs: Prefs) returns (saved: Prefs)
      ensures saved == Persist(prefs, Fields())
      ensures WellTyped(saved)
    {
      saved := PutLong(prefs, StartTimeKey, startTimeInMillis);
      saved := PutLong(saved, TimeLeftKey, timeLeftInMillis);
      saved := PutBoolean(saved, RunningKey, isTimerRunning);
      saved := PutLong(saved, EndTimeKey, endTime);
    }

    /** `onStart`: the fields read back from `prefs`, and a timer saved as
        running either clamped to zero or started again. The clock reads
        `now` when the time left is computed and `later` inside `startTimer`.
        The controls end up matching the fields; when the timer is started
        again the label still shows the remaining time that was saved. */
    method OnStart(prefs: Prefs, now: int, later: int)
      requires WellTyped(prefs)
      modifies this
      ensures Fields() == Restore(prefs, old(Fields()), now, later)
      ensures screen == UpdateInterface(old(screen), isTimerRunning, timeLeftInMillis, startTimeInMillis)
      ensures ScreenInSync()
      ensures countdownText == FormatTime(if isTimerRunning then Loaded(prefs, old(Fields())).timeLeft else timeLeftInMillis)
    {
      startTimeInMillis := GetLong(prefs, StartTimeKey, DefaultStartTime);
      timeLeftInMillis := GetLong(prefs, TimeLeftKey, startTimeInMillis);
      isTimerRunning := GetBoolean(prefs, RunningKey, false);
      ghost var loadedScreen := UpdateInterface(old(screen), isTimerRunning, timeLeftInMillis, startTimeInMillis);

      UpdateCountDownText();
      UpdateInterfaceNow();

      if isTimerRunning {
        endTime := GetLong(prefs, EndTimeKey, 0);
        timeLeftInMillis := endTime - now;

        if timeLeftInMillis < 0 {
          timeLeftInMillis := 0;
          isTimerRunning := false;
          UpdateCountDownText();
          UpdateInterfaceNow();
          UpdateInterfaceSettles(loadedScreen, old(screen), false, timeLeftInMillis, startTimeInMillis);
        } else {
          StartTimer(later);
        }
      }
    }
  }
}
