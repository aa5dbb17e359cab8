/** The countdown text of `updateCountDownText`: the remaining milliseconds
    split into hours, minutes and seconds with Kotlin `Long` arithmetic and
    printed with `%02d` fields as `HH:MM:SS`, or as `MM:SS` when there is no
    whole hour. Digits are ASCII. */
module CountdownFormat {
  import opened KotlinLong

  datatype Option<T> = None | Some(value: T)

  const MillisPerSecond: int := 1000

  // ----- decimal digits -----

  predicate IsDigit(c: char) {
    '0' <= c <= '9'
  }

  predicate AllDigits(s: string) {
    forall i :: 0 <= i < |s| ==> IsDigit(s[i])
  }

  function DigitChar(d: int): (c: char)
    requires 0 <= d < 10
    ensures IsDigit(c) && c as int - '0' as int == d
  {
    (d + '0' as int) as char
  }

  /** The decimal numeral of `n` without leading zeros (Java's `%d` of a non-negative value). */
  function Digits(n: nat): (r: string)
    ensures AllDigits(r)
    ensures |r| >= 1
    ensures |r| == 1 <==> n < 10
    ensures |r| == 2 <==> 10 <= n < 100
    ensures n > 0 ==> r[0] != '0'
  {
    if n < 10 then [DigitChar(n)] else Digits(n / 10) + [DigitChar(n % 10)]
  }

  /** Reference reading of a string of decimal digits, most significant first. */
  function DecimalValue(s: string): int
  {
    if |s| == 0 then 0
    else DecimalValue(s[..|s| - 1]) * 10 + (s[|s| - 1] as int - '0' as int)
  }

  lemma {:induction false} DigitsRoundTrip(n: nat)
    ensures DecimalValue(Digits(n)) == n
  {
    var r := Digits(n);
    if n >= 10 {
      assert r[..|r| - 1] == Digits(n / 10);
      DigitsRoundTrip(n / 10);
    }
  }

  /** Java's `%02d`: at least two characters; a non-negative value is padded
      with a leading zero, a negative one is its sign followed by its digits
      (already two characters wide, so never padded). */
  function Pad2(n: int): (r: string)
    ensures |r| >= 2
    ensures -10 < n < 100 ==> |r| == 2
    ensures n >= 0 ==> AllDigits(r) && DecimalValue(r) == n
    ensures n < 0 ==> r[0] == '-' && AllDigits(r[1..]) && DecimalValue(r[1..]) == -n
    ensures n >= 10 ==> r[0] != '0'
    ensures n < 0 ==> r[1] != '0'
  {
    if n < 0 then
      var d := Digits(-n);
      DigitsRoundTrip(-n);
      assert ("-" + d)[1..] == d;
      "-" + d
    else if n < 10 then
      var d := Digits(n);
      assert ("0" + d)[..1] == "0";
      "0" + d
    else
      DigitsRoundTrip(n);
      Digits(n)
  }

  // ----- splitting the remaining time -----

  datatype Clock = Clock(hours: int, minutes: int, seconds: int)

  /** hours, minutes and seconds of a whole number of seconds, as the source
      computes them with truncating `/` and `%` */
  function SplitSeconds(secs: int): Clock
  {
    Clock(Quot(secs, 3600), Quot(Rem(secs, 3600), 60), Rem(secs, 60))
  }

  lemma SplitNonNegative(x: int)
    requires x >= 0
    ensures var c := SplitSeconds(x);
      c.hours == x / 3600 && c.minutes == (x % 3600) / 60 && c.seconds == x % 60 &&
      0 <= c.minutes < 60 && 0 <= c.seconds < 60 &&
      c.hours * 3600 + c.minutes * 60 + c.seconds == x
  {
  }

  lemma SplitNegated(x: int)
    requires x > 0
    ensures var c, d := SplitSeconds(-x), SplitSeconds(x);
      c.hours == -d.hours && c.minutes == -d.minutes && c.seconds == -d.seconds
  {
  }

  /** The hours, minutes and seconds `updateCountDownText` derives from the
      remaining milliseconds `t`. */
  function ClockOf(t: int): (c: Clock)
    ensures t >= 0 ==>
      c.hours >= 0 && 0 <= c.minutes < 60 && 0 <= c.seconds < 60 &&
      c.hours * 3600 + c.minutes * 60 + c.seconds == t / MillisPerSecond
    ensures t < 0 ==>
      c.hours <= 0 && -60 < c.minutes <= 0 && -60 < c.seconds <= 0 &&
      c.hours * 3600 + c.minutes * 60 + c.seconds == -((-t) / MillisPerSecond)
  {
    var secs := Quot(t, MillisPerSecond);
    if secs >= 0 then
      SplitNonNegative(secs);
      SplitSeconds(secs)
    else
      SplitNonNegative(-secs);
      SplitNegated(-secs);
      SplitSeconds(secs)
  }

  /** The text `updateCountDownText` puts on the countdown label for `t` milliseconds left. */
  function FormatTime(t: int): string
  {
    var c := ClockOf(t);
    if c.hours > 0 then Pad2(c.hours) + ":" + Pad2(c.minutes) + ":" + Pad2(c.seconds)
    else Pad2(c.minutes) + ":" + Pad2(c.seconds)
  }

  /** Reference reading of a countdown label back to whole seconds:
      `MM:SS`, or `H..H:MM:SS` with an hour field of two or more digits. */
  function ParseDisplay(r: string): Option<int>
  {
    if |r| == 5 && r[2] == ':' && AllDigits(r[..2]) && AllDigits(r[3..]) then
      Some(DecimalValue(r[..2]) * 60 + DecimalValue(r[3..]))
    else if |r| >= 8 && r[|r| - 6] == ':' && r[|r| - 3] == ':'
         && AllDigits(r[..|r| - 6]) && AllDigits(r[|r| - 5..|r| - 3]) && AllDigits(r[|r| - 2..]) then
      Some(DecimalValue(r[..|r| - 6]) * 3600 + DecimalValue(r[|r| - 5..|r| - 3]) * 60 + DecimalValue(r[|r| - 2..]))
    else
      None
  }

  /** The label is `MM:SS` (five characters) exactly when less than an hour
      is left, and `HH:MM:SS` (eight or more) otherwise, with the separators
      at fixed places from the end. */
  lemma FormatShape(t: int)
    requires t >= 0
    ensures var r := FormatTime(t);
      (|r| == 5 <==> t < 3_600_000) &&
      (t >= 3_600_000 ==> |r| >= 8 && r[|r| - 6] == ':' && r[|r| - 3] == ':') &&
      (t < 3_600_000 ==> r[2] == ':')
  {
  }

  /** Reading the label back gives the remaining time in whole seconds. */
  lemma FormatReadsBack(t: int)
    requires t >= 0
    ensures ParseDisplay(FormatTime(t)) == Some(t / MillisPerSecond)
  {
    var c := ClockOf(t);
    var mm, ss := Pad2(c.minutes), Pad2(c.seconds);
    if c.hours > 0 {
      var hh := Pad2(c.hours);
      var r := hh + ":" + mm + ":" + ss;
      assert r[..|r| - 6] == hh;
      assert r[|r| - 5..|r| - 3] == mm;
      assert r[|r| - 2..] == ss;
    } else {
      var r := mm + ":" + ss;
      assert r[..2] == mm;
      assert r[3..] == ss;
    }
  }

  /** The label changes exactly when the whole number of seconds left changes. */
  lemma DisplayDeterminesSeconds(t1: int, t2: int)
    requires t1 >= 0 && t2 >= 0
    ensures FormatTime(t1) == FormatTime(t2) <==> t1 / MillisPerSecond == t2 / MillisPerSecond
  {
    FormatReadsBack(t1);
    FormatReadsBack(t2);
  }

  lemma FormatExamples()
    ensures FormatTime(3_661_000) == "01:01:01"
    ensures FormatTime(59_000) == "00:59"
    ensures FormatTime(59_999) == "00:59"
    ensures FormatTime(600_000) == "10:00"
    ensures FormatTime(0) == "00:00"
    ensures FormatTime(-300_000) == "-5:00"
  {
    assert ClockOf(3_661_000) == Clock(1, 1, 1);
    assert Pad2(1) == "01";
    assert ClockOf(59_000) == ClockOf(59_999) == Clock(0, 0, 59);
    assert Pad2(59) == "59" && Pad2(0) == "00";
    assert ClockOf(600_000) == Clock(0, 10, 0);
    assert Pad2(10) == "10";
    assert ClockOf(0) == Clock(0, 0, 0);
    assert ClockOf(-300_000) == Clock(0, -5, 0);
    assert Pad2(-5) == "-5";
  }
}
