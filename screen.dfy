/** What `updateInterface` shows: the visibility of the minutes field and of
    the Set, Reset and Start buttons, and the Start button's label. */
module CountdownScreen {

  datatype Visibility = Visible | Invisible

  datatype Screen = Screen(
    inputField: Visibility,
    setButton: Visibility,
    resetButton: Visibility,
    startButton: Visibility,
    startLabel: string)

  const PauseLabel: string := "pause"
  const StartLabel: string := "start"

  /** The screen after `updateInterface` runs on screen `prev`. While running
      the Start button's visibility is not written, so it stays as it was. */
  function UpdateInterface(prev: Screen, running: bool, timeLeft: int, startTime: int): Screen
  {
    if running then
      prev.(inputField := Invisible, setButton := Invisible, resetButton := Invisible, startLabel := PauseLabel)
    else
      Screen(
        inputField := Visible,
        setButton := Visible,
        resetButton := if timeLeft < startTime then Visible else Invisible,
        startButton := if timeLeft < 1000 then Invisible else Visible,
        startLabel := StartLabel)
  }

  /** The visibility rule: while running the minutes field, Set and Reset are
      hidden and Start reads "pause"; while idle the field and Set are shown,
      Start reads "start", is shown exactly when at least a second is left,
      and Reset is shown exactly when some time has been used up. So the
      Start button reads "pause" exactly while running: pressing it pauses a
      running timer and starts an idle one. */
  lemma InterfaceRule(prev: Screen, running: bool, timeLeft: int, startTime: int)
    ensures var r := UpdateInterface(prev, running, timeLeft, startTime);
      (running ==>
        r.inputField == Invisible && r.setButton == Invisible && r.resetButton == Invisible &&
        r.startLabel == PauseLabel && r.startButton == prev.startButton) &&
      (!running ==>
        r.inputField == Visible && r.setButton == Visible && r.startLabel == StartLabel &&
        (r.startButton == Visible <==> timeLeft >= 1000) &&
        (r.resetButton == Visible <==> timeLeft < startTime)) &&
      (r.startLabel == PauseLabel <==> running)
  {
  }

  /** Refreshing twice from the same state shows the same as refreshing once,
      and while idle the screen shown does not depend on what was shown before. */
  lemma UpdateInterfaceSettles(prev: Screen, other: Screen, running: bool, timeLeft: int, startTime: int)
    ensures var r := UpdateInterface(prev, running, timeLeft, startTime);
      UpdateInterface(r, running, timeLeft, startTime) == r &&
      (!running ==> UpdateInterface(other, running, timeLeft, startTime) == r)
  {
  }
}
