# Countdown timer state machine

A model of the timer held by `MainActivity` of the CountdownTimer Android app. The user types a number of minutes and presses Set. Start then counts down, and the same button pauses. Reset goes back to the full duration. The state is saved when the activity stops and read back when it starts.

The model has five modules:

- `KotlinLong` (`kotlin_long.dfy`) covers Kotlin `Long` arithmetic where it differs from unbounded integers. Division and remainder truncate toward zero, and a product wraps around modulo 2^64.
- `CountdownFormat` (`format.dfy`) is `updateCountDownText`'s formatting. It splits the remaining time into hours, minutes and seconds and prints `%02d` fields: `HH:MM:SS`, or `MM:SS` when no whole hour is left. An independent parser, `ParseDisplay`, reads the text back.
- `CountdownScreen` (`screen.dfy`) is `updateInterface`'s visibility rule. It returns the new visibility of the minutes field and the three buttons, and the Start button's label.
- `Preferences` (`preferences.dfy`) is the `SharedPreferences` file as a map from key to a `Long` or `Boolean` value. `getLong` and `getBoolean` take a default.
- `CountdownTimer` (`timer.dfy`) holds the value-level save (`Persist`) and restore (`Restore`), the Set check (`CheckEntry`), and class `MainActivity`.
  - The class has the four fields `startTimeInMillis`, `timeLeftInMillis`, `endTime` and `isTimerRunning`, plus what the label and the controls currently show.
  - There is one method per transition. Each method's contract gives its whole new state.
  - The system clock is a parameter. `onStart` reads it twice, once when it computes the time left and again inside `startTimer`, so `OnStart` takes two instants, `now` and `later`.
  - The platform countdown's `onTick(millisUntilFinished)` and `onFinish()` are methods that the caller invokes.

`CountdownScenarios` (`scenarios.dfy`) chains transitions the app can perform and states what the contracts then guarantee.

Behaviour the model keeps from the code, where the notices' wording or an idealised countdown timer would suggest otherwise:

- Set does not stop a running timer. It assigns the duration and resets the time left; the Set button is only hidden while running.
- `onFinish` only clears the running flag. The time left and the label stay at the last tick's value.
- Reset changes neither the running flag nor the deadline.
- The check on the Set entry refuses only an empty field and a product equal to zero. A negative number of minutes is accepted, although the notice asks for a positive number. 2^59 minutes wrap around to a zero product and are refused.
- The restore clamp is strict (`< 0`). A timer due exactly at `now` is started again with nothing left. In the app, the platform countdown started with 0 ms is expected to call `onFinish` at once, before `startTimer` sets the running flag. The app would then be left running, with no callback pending and no control visible. The model's `OnStart` does not call back, so it keeps Start's previous visibility instead (see "## Left out").
- When restore starts a timer again, `startTimer` reads the clock a second time. The new deadline is therefore the saved one plus however far the clock moved between the two readings.
- When the code restarts a timer, the label keeps the saved remaining time until the next tick, because `startTimer` does not refresh the text.
- While running, `updateInterface` leaves the Start button's visibility as it was.
- A tick takes the value the platform countdown reports; it does not recompute the time from the deadline.

## Model

| member | source | states |
|---|---|---|
| `KotlinLong.QuotTruncates` | app/src/main/java/com/remedyal/countdowntimer/MainActivity.kt:103-105 | The `Long` quotient truncates toward zero. For a >= 0, q*b <= a < q*b + b with q*b >= 0. For a < 0, q*b - b < a <= q*b <= 0. |
| `KotlinLong.Rem` | app/src/main/java/com/remedyal/countdowntimer/MainActivity.kt:104-105 | The `Long` remainder recombines with the truncated quotient into the dividend. It lies in 0..b-1 for a non-negative dividend and in -(b-1)..0 for a negative one. |
| `KotlinLong.WrapCancels` | app/src/main/java/com/remedyal/countdowntimer/MainActivity.kt:72-169 | A deadline `start + timeLeft` that overflows at line 72, read back as `endTime - now` at line 169 with both operations wrapping, gives the exact `start + timeLeft - now` whenever that is a `Long`. |
| `KotlinLong.Wrap` | app/src/main/java/com/remedyal/countdowntimer/MainActivity.kt:53 | The `Long` product is congruent to the exact product modulo 2^64 and lies in the `Long` range. It equals the exact product when that fits. |
| `CountdownFormat.Digits` | app/src/main/java/com/remedyal/countdowntimer/MainActivity.kt:109 | The `%d` numeral is all decimal digits with no leading zero for n > 0. It has one digit exactly below 10 and two exactly in 10..99. |
| `CountdownFormat.DigitsRoundTrip` | app/src/main/java/com/remedyal/countdowntimer/MainActivity.kt:109 | Reading the numeral of n back as decimal gives n. |
| `CountdownFormat.Pad2` | app/src/main/java/com/remedyal/countdowntimer/MainActivity.kt:109-111 | A `%02d` field is at least two characters, and exactly two for -9..99. A non-negative value is all digits and reads back to itself. A negative value is '-' followed by the digits of its magnitude. Only values 0..9 get a leading zero: from 10 up the first character is not '0', and a negative value's first digit is not '0'. |
| `CountdownFormat.SplitSeconds` | app/src/main/java/com/remedyal/countdowntimer/MainActivity.kt:103-105 | The split of a whole number of seconds into hours, minutes and seconds. Its contract is carried by `CountdownFormat.SplitNonNegative` and `CountdownFormat.SplitNegated`, and through them by `CountdownFormat.ClockOf`. |
| `CountdownFormat.SplitNonNegative` | app/src/main/java/com/remedyal/countdowntimer/MainActivity.kt:103-105 | For x >= 0, the hours are x/3600 and the minutes and seconds lie in 0..59. They recombine as hours*3600 + minutes*60 + seconds == x. |
| `CountdownFormat.SplitNegated` | app/src/main/java/com/remedyal/countdowntimer/MainActivity.kt:103-105 | The truncating split of -x is the field-by-field negation of the split of x. |
| `CountdownFormat.ClockOf` | app/src/main/java/com/remedyal/countdowntimer/MainActivity.kt:103-105 | For t >= 0: hours >= 0, minutes and seconds in 0..59, and hours*3600 + minutes*60 + seconds == t/1000. For t < 0 the same with every field <= 0 and the truncated seconds. |
| `CountdownFormat.FormatTime` | app/src/main/java/com/remedyal/countdowntimer/MainActivity.kt:102-112 | The label for `t` milliseconds left. Its contract is carried by `CountdownFormat.FormatShape`, `CountdownFormat.FormatReadsBack`, `CountdownFormat.DisplayDeterminesSeconds` and `CountdownFormat.FormatExamples`. |
| `CountdownFormat.FormatShape` | app/src/main/java/com/remedyal/countdowntimer/MainActivity.kt:108-112 | For t >= 0 the label has length 5 (`MM:SS`) exactly when t < 3600000. Otherwise it has at least 8 characters with ':' at the 6th and 3rd places from the end. |
| `CountdownFormat.FormatReadsBack` | app/src/main/java/com/remedyal/countdowntimer/MainActivity.kt:102-112 | For t >= 0, the independent parser reads the label back as t/1000 whole seconds. |
| `CountdownFormat.DisplayDeterminesSeconds` | app/src/main/java/com/remedyal/countdowntimer/MainActivity.kt:102-112 | For non-negative times, two labels are equal if and only if the whole seconds are equal. |
| `CountdownFormat.FormatExamples` | app/src/main/java/com/remedyal/countdowntimer/MainActivity.kt:102-112 | 3661000 gives "01:01:01", 59000 and 59999 give "00:59", 600000 gives "10:00", 0 gives "00:00" and -300000 gives "-5:00". |
| `CountdownScreen.UpdateInterface` | app/src/main/java/com/remedyal/countdowntimer/MainActivity.kt:117-139 | The controls after `updateInterface` on a previous screen. Its contract is carried by `CountdownScreen.InterfaceRule` and `CountdownScreen.UpdateInterfaceSettles`. |
| `CountdownScreen.InterfaceRule` | app/src/main/java/com/remedyal/countdowntimer/MainActivity.kt:117-139 | Running: field, Set and Reset are hidden, the label is "pause", and Start's visibility is kept. Idle: field and Set are shown and the label is "start". Idle: Start is shown iff at least 1000 ms are left, and Reset iff timeLeft < startTime. The label is "pause" iff running. |
| `CountdownScreen.UpdateInterfaceSettles` | app/src/main/java/com/remedyal/countdowntimer/MainActivity.kt:117-139 | Refreshing twice with the same fields equals refreshing once. While idle, the result does not depend on the previous screen. |
| `Preferences.GetLong` | app/src/main/java/com/remedyal/countdowntimer/MainActivity.kt:160-161 | `getLong`: the default when the key is absent, and the `Long` last put otherwise. Its contract is carried by `Preferences.PutThenGet`. |
| `Preferences.GetBoolean` | app/src/main/java/com/remedyal/countdowntimer/MainActivity.kt:162 | `getBoolean`: the default when the key is absent, and the `Boolean` last put otherwise. Its contract is carried by `Preferences.PutThenGet`. |
| `Preferences.PutLong` | app/src/main/java/com/remedyal/countdowntimer/MainActivity.kt:146-147 | `putLong`: the key now holds the `Long`. Its contract is carried by `Preferences.PutThenGet`. |
| `Preferences.PutBoolean` | app/src/main/java/com/remedyal/countdowntimer/MainActivity.kt:148 | `putBoolean`: the key now holds the `Boolean`. Its contract is carried by `Preferences.PutThenGet`. |
| `Preferences.PutThenGet` | app/src/main/java/com/remedyal/countdowntimer/MainActivity.kt:146-149 | An absent key reads as the default, for both `getLong` and `getBoolean`. A value put is got back whatever the default. Putting a `Long` or a `Boolean` under one key leaves both the `getLong` and the `getBoolean` reading of any other key unchanged. |
| `CountdownTimer.CheckEntry` | app/src/main/java/com/remedyal/countdowntimer/MainActivity.kt:47-58 | "Field can't be empty" iff the field is empty. "Please enter a positive number" iff the wrapped product minutes*60000 is 0. Any other number is accepted as that nonzero product. |
| `CountdownTimer.CheckEntryWithoutOverflow` | app/src/main/java/com/remedyal/countdowntimer/MainActivity.kt:53-58 | Without overflow, an entry is accepted iff it is nonzero, negatives included, and yields minutes*60000. |
| `CountdownTimer.CheckEntryEdges` | app/src/main/java/com/remedyal/countdowntimer/MainActivity.kt:53-58 | -5 is accepted as -300000. 0 is refused. 2^59 is a valid `Long` whose product wraps to 0, so it is refused. |
| `CountdownTimer.Persist` | app/src/main/java/com/remedyal/countdowntimer/MainActivity.kt:142-150 | The four keys are added with the field values at their types. Every other key is unchanged, and the result is readable by restore. |
| `CountdownTimer.Loaded` | app/src/main/java/com/remedyal/countdowntimer/MainActivity.kt:160-162 | The fields once the first three keys are read. Its contract is carried by `CountdownTimer.RestoreDefaults`. |
| `CountdownTimer.Started` | app/src/main/java/com/remedyal/countdowntimer/MainActivity.kt:72-86 | The fields after `startTimer` at an instant. Its contract is carried by `CountdownTimer.RestoredDeadline` and `CountdownTimer.MainActivity.StartTimer`. |
| `CountdownTimer.Restore` | app/src/main/java/com/remedyal/countdowntimer/MainActivity.kt:157-179 | The fields after `onStart`, given the clock's two readings. Its contract is carried by `CountdownTimer.RestoreDefaults`, `CountdownTimer.RestoreClamp`, `CountdownTimer.RestoredDeadline`, `CountdownTimer.PersistRestoreRoundTrip` and `CountdownTimer.RestoreSubtractsElapsed`. |
| `CountdownTimer.RestoreDefaults` | app/src/main/java/com/remedyal/countdowntimer/MainActivity.kt:160-162 | On reading: a missing duration is 600000, a missing remaining time is the duration read, and a missing running flag is idle. After restore: when the flag is absent or false, a missing remaining time is the duration, and the timer is idle with the in-memory deadline kept. An empty store gives 600000/600000/idle. |
| `CountdownTimer.RestoreClamp` | app/src/main/java/com/remedyal/countdowntimer/MainActivity.kt:167-178 | Saved as running with deadline e: e < now gives nothing left, idle, and deadline e. e >= now gives running with e - now left and deadline e + (later - now), the clock's advance between its two readings added. |
| `CountdownTimer.RestoredDeadline` | app/src/main/java/com/remedyal/countdowntimer/MainActivity.kt:167-178 | A timer restored from running has a non-negative time left. If it runs, its deadline is the restart instant `later` plus the time left. |
| `CountdownTimer.PersistRestoreRoundTrip` | app/src/main/java/com/remedyal/countdowntimer/MainActivity.kt:142-179 | Restoring what was saved gives back duration, time left and idle exactly for an idle timer, with the saved deadline unused. For a running timer it gives the clamp against the saved deadline. On restart it gives the deadline moved by later - now. |
| `CountdownTimer.RestoreSubtractsElapsed` | app/src/main/java/com/remedyal/countdowntimer/MainActivity.kt:167-178 | A running timer whose saved time left was measured at `start`, so that its deadline is `start + timeLeft`, is saved and then restored at now >= start. After ticks, `start` is the last tick's instant, not the press of Start. While running it has lost exactly now - start. It is running iff that is at most its time left, and it ends in 0..timeLeft. |
| `CountdownTimer.MainActivity.constructor` | app/src/main/java/com/remedyal/countdowntimer/MainActivity.kt:23-26 | The fields start at 0, 0, 0 and false. |
| `CountdownTimer.MainActivity.UpdateCountDownText` | app/src/main/java/com/remedyal/countdowntimer/MainActivity.kt:102-115 | The label shows the formatted time left, and nothing else changes. |
| `CountdownTimer.MainActivity.UpdateInterfaceNow` | app/src/main/java/com/remedyal/countdowntimer/MainActivity.kt:117-140 | The controls become the visibility rule applied to the fields, and nothing else changes. |
| `CountdownTimer.MainActivity.SetStartTime` | app/src/main/java/com/remedyal/countdowntimer/MainActivity.kt:66-69 | Duration and time left become ms. The running flag and the deadline are unchanged. The label and controls are refreshed. |
| `CountdownTimer.MainActivity.ClickSet` | app/src/main/java/com/remedyal/countdowntimer/MainActivity.kt:47-62 | A refused entry returns its notice and changes nothing. An accepted one sets duration and time left to the product and leaves the running flag and the deadline alone. |
| `CountdownTimer.MainActivity.StartTimer` | app/src/main/java/com/remedyal/countdowntimer/MainActivity.kt:71-88 | endTime == now + timeLeft and running. Time left, duration and label are unchanged, and the controls are refreshed. |
| `CountdownTimer.MainActivity.OnTick` | app/src/main/java/com/remedyal/countdowntimer/MainActivity.kt:75-78 | The time left becomes the reported value and the label follows. Nothing else changes. |
| `CountdownTimer.MainActivity.OnFinish` | app/src/main/java/com/remedyal/countdowntimer/MainActivity.kt:80-83 | Only the running flag clears; the time left and the label keep the last tick. The controls are refreshed. |
| `CountdownTimer.MainActivity.PauseTimer` | app/src/main/java/com/remedyal/countdowntimer/MainActivity.kt:90-94 | Only the running flag clears, and the controls are refreshed. |
| `CountdownTimer.MainActivity.ResetTimer` | app/src/main/java/com/remedyal/countdowntimer/MainActivity.kt:96-100 | The time left becomes the duration. The running flag and the deadline are unchanged. The label and controls are refreshed. |
| `CountdownTimer.MainActivity.ClickStart` | app/src/main/java/com/remedyal/countdowntimer/MainActivity.kt:45 | Pauses when running, otherwise starts at now. |
| `CountdownTimer.MainActivity.OnStop` | app/src/main/java/com/remedyal/countdowntimer/MainActivity.kt:142-150 | The preferences returned are `Persist` of the current fields. |
| `CountdownTimer.MainActivity.OnStart` | app/src/main/java/com/remedyal/countdowntimer/MainActivity.kt:157-180 | The fields become `Restore` of the preferences, with `now` for the clock reading at line 169 and `later` for the one in `startTimer`, and the controls match them. The label shows the saved time left when the timer is restarted and the final time left otherwise. |
| `CountdownScenarios.StartThenPause` | app/src/main/java/com/remedyal/countdowntimer/MainActivity.kt:71-94 | Start then Pause leaves the time left and the duration unchanged and the timer idle. |
| `CountdownScenarios.FinishKeepsLastTick` | app/src/main/java/com/remedyal/countdowntimer/MainActivity.kt:75-83 | After start, a tick of `last` and finish, the time left is `last`, not 0. Below 1000 ms Start is hidden, and 0..999 ms shows "00:00". |
| `CountdownScenarios.SetWhileRunning` | app/src/main/java/com/remedyal/countdowntimer/MainActivity.kt:66-69 | Set on a running timer changes the duration but keeps it running toward its old deadline. |
| `CountdownScenarios.StopThenStartIdle` | app/src/main/java/com/remedyal/countdowntimer/MainActivity.kt:142-179 | Stopping and starting an idle activity restores duration, time left, idle and deadline. |

## Left out

- The Android lifecycle, `findViewById`, the widgets themselves and `Toast` are not modelled. Visibility and labels are values (`Screen`); a notice is the string returned by `ClickSet`; clearing the minutes field after Set is not modelled.
- The platform countdown (`android.os.CountDownTimer`) is not modelled: its 500 ms cadence, when it calls back, and its cancellation in `pauseTimer` and `onStop`. Ticks and finish are explicit calls, and nothing stops a caller from ticking an idle timer.
- `CountdownTimer.MainActivity.OnStart`: a timer restored with exactly 0 ms left ends running with Start's previous visibility. In the app, the platform countdown is expected to finish at once inside `startTimer`, which would leave the timer flagged running with every control hidden. A synchronous `onFinish` inside `startTimer` is not modelled.
- `System.currentTimeMillis()` is the parameter `now`. The disk writes of `SharedPreferences` and `apply()` are an in-memory map.
- Parsing the minutes field is not modelled: `parseLong`, its exception on non-numeric or out-of-range text, and locale digits. The entry arrives as an already parsed `Long`, and the label uses ASCII digits.
- `getLong` and `getBoolean` throwing on a key stored with the other type is not modelled: `OnStart` requires the four keys to hold their expected types, as `OnStop` writes them.
- Only the minutes-to-milliseconds product wraps around. The additions and subtractions on epoch times (`now + timeLeftInMillis` in `startTimer`, `endTime - now` in `onStart`) are unbounded integers. `now + timeLeftInMillis` does overflow in Kotlin once the time left exceeds `Long.MAX_VALUE - now`, which a 15-digit minutes entry reaches (153722867280912 minutes is accepted as 9223372036854720000 ms). `CountdownTimer.MainActivity.StartTimer` then stores the exact sum as `endTime`, where Kotlin stores the wrapped one; only the stored deadline differs. When it is read back, the wrapping subtraction undoes the wrapping addition (`KotlinLong.WrapCancels`), so the time left restored agrees with Kotlin's whenever the exact remaining time is a `Long`.
- `CountdownScenarios.SetWhileRunning` drives Set on a running timer, which the app's UI cannot do because the button is hidden. It shows what `setStartTime` does, not a reachable path.
