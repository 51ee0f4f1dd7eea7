# AlarmClock countdown controller in Dafny

A model of the countdown controller in `AlarmGUI`, a Swing alarm clock. The
user types a duration and picks "Minutes" or "Seconds". `setAlarm` then
stops the previous alarm, parses the text, starts a one-second countdown
timer and schedules an alarm task. When the alarm task runs, it sounds the
alarm, shows a popup and resets the labels.

The two timers are replaced by events, and the controller is one immutable
value. The event order is left free:

- `Press(text, unit)`: the button runs `setAlarm`.
- `Tick`: the Swing countdown timer runs its action. It is only delivered
  while that timer runs, because `javax.swing.Timer.stop` also discards an
  action already waiting on the event queue.
- `Fire`: the `java.util.Timer` task runs on the timer thread. All it does is
  post the completion code to the event queue with `invokeLater`.
- `Complete`: the event queue runs that posted code.

Files:

- `java_int.dfy` models Java `int`/`long` wrap-around and the truncating
  `/` and `%`.
- `java_text.dfy` models `String.trim`, `Integer.parseInt` (radix 10) and
  `Integer.toString`.
- `clock_format.dfy` models `formatTime` and `%02d`. `ReadClock` is the
  inverse of `formatTime`.
- `alarm.dfy` models the controller: `setAlarm`, the tick action, the alarm
  task and its completion code, an invariant, and the countdown lemmas. It
  also models the label texts. `ReadCountdown` and `ReadEcho` read the
  countdown and the echoed request back from them.

Three behaviours of the code are kept as written:

- The minutes count is an `int` product (src/AlarmGUI.java:147), while the
  delay is a `long` (src/AlarmGUI.java:146). Above 35791394 minutes the two
  disagree (`Convert`). At 536870912 minutes the countdown starts at the
  smallest `int`. Its first tick wraps it to the largest `int`, so it does
  not stop at that tick (`MinutesWrapPastMin`). It runs on for another
  2^31 - 1 seconds, about 68 years, while the alarm task waits about 1021
  years (`MinutesWrapPastMinRunsOn`). At 1073741824 minutes the countdown
  starts at zero. The label then shows "00:-1" while the alarm waits about
  2041 years (`MinutesWrapToZero`).
- A failed `setAlarm` does not leave the previous alarm alone. It has
  already cancelled the previous alarm, so after the call nothing is armed.
- The completion code does not stop the countdown. It cancels whatever
  alarm timer the field holds when it runs, and that can be the timer of an
  alarm set after the old task fired. In that case it rings for the old
  alarm after the new one is set and shows dashes while the new countdown
  goes on. If the old popup is closed before the new alarm's task runs, the
  new alarm never rings (`StaleCompletion`). Otherwise both alarms ring, the
  old one first (`StaleCompletionNewFiresFirst`). If no completion is
  already queued, a new press does silence every earlier alarm
  (`SupersededNeverRings`).

## Model

| member | source | states |
|---|---|---|
| JavaInt.WrapInt | src/AlarmGUI.java:147 | the `int` result of an exact value is in `int` range and congruent to it modulo 2^32; it equals the exact value iff that fits |
| JavaInt.WrapLong | src/AlarmGUI.java:143-146 | the same for `long` and 2^64 |
| JavaInt.Div | src/AlarmGUI.java:199 | Java's quotient by a positive divisor rounds toward zero; it agrees with Dafny's `/` on non-negative numbers |
| JavaInt.Rem | src/AlarmGUI.java:200 | the remainder completes the quotient to the dividend, takes the dividend's sign and is smaller than the divisor in magnitude; it agrees with Dafny's `%` on non-negative numbers |
| JavaText.Decimal | src/AlarmGUI.java:187 | the printed form of a number is a run of digits that denotes that number, with no leading zero; one digit below 10, two digits for 10 to 99, more above |
| JavaText.IntToString | src/AlarmGUI.java:187 | the printed form starts with a minus sign exactly for negative numbers, followed by digits that denote the magnitude; it has no leading zero except for 0 itself |
| JavaText.Trim | src/AlarmGUI.java:131 | `trim` returns the slice of the text between stripped runs of characters up to the space, and the slice neither begins nor ends with such a character |
| JavaText.TrimIdempotent | src/AlarmGUI.java:131 | trimming twice is trimming once |
| JavaText.TrimEmpty | src/AlarmGUI.java:131 | text trims to nothing iff it is made only of characters up to the space |
| JavaText.ParseInt | src/AlarmGUI.java:131 | whatever `parseInt` returns fits in an `int`; it comes from non-empty text starting with a sign or digit, and a negative result comes from a leading minus |
| JavaText.ParseIntToString | src/AlarmGUI.java:131 | parsing the printed form of any `int` gives that `int` back |
| JavaText.ParseIntPlusAndZero | src/AlarmGUI.java:131 | a leading `+` or leading zero does not change what is read |
| JavaText.ParseIntScan | src/AlarmGUI.java:131 | the left-to-right scan that stops at the first bad character or overflow returns exactly what `parseInt` specifies |
| ClockFormat.Pad2 | src/AlarmGUI.java:201 | `%02d` prints at least two characters; for 0 to 99 exactly two digits that denote the number; a negative number prints as a minus sign followed by the digits of its magnitude; a leading zero appears only as the padding of 0 to 9 |
| ClockFormat.FormatTime | src/AlarmGUI.java:198-202 | `formatTime` output has a colon and at least 5 characters; for non-negative input the last two characters are digits below 60 after a colon, and the length is 5 iff the input is below 6000; a minus sign appears iff the input is negative |
| ClockFormat.FormatTimeRoundTrip | src/AlarmGUI.java:198-202 | for every non-negative input, reading the text back as minutes and seconds gives the input; the text is `pad2(s/60) + ":" + pad2(s%60)` |
| ClockFormat.FormatTimeMinusOne | src/AlarmGUI.java:198-202 | one second below zero prints as "00:-1" because Java's quotient rounds toward zero |
| AlarmController.Convert | src/AlarmGUI.java:137-148 | the delay is exactly 1000 or 60000 times the input; the seconds count times 1000 equals the delay iff the unit is seconds or the input is at most 35791394 minutes, and then the count is positive; in every case the count is the input times 1 or 60 modulo 2^32 |
| AlarmController.Initial | src/AlarmGUI.java:40-109 | at start-up no alarm has been armed, no timer runs, nothing is queued or has rung, the labels hold the prompt and the dashes, and the invariant and sound-countdown conditions hold |
| AlarmController.SetAlarm | src/AlarmGUI.java:124-193 | both old timers are stopped on every path; a new alarm is armed iff the trimmed text parses to a positive `int`; parse failure shows the invalid-input status and a non-positive number the positive-number status, and neither changes the countdown; success shows the converted seconds at once and echoes the number and unit; queued completions stay queued |
| AlarmController.OnTick | src/AlarmGUI.java:155-159 | one `int` second less, shown at once; the countdown keeps running iff the new count is positive; nothing else changes |
| AlarmController.OnFire | src/AlarmGUI.java:163-184 | the alarm task queues its alarm's completion and is spent; nothing else changes |
| AlarmController.OnComplete | src/AlarmGUI.java:168-181 | the oldest queued completion rings, the status and countdown labels reset, the current alarm timer is cancelled, and the countdown timer, the count and the delay are left as they were |
| AlarmController.Step | src/AlarmGUI.java:124-184 | an event of a stopped timer or an empty queue changes nothing; alarm numbers never go back; rings are only ever appended |
| AlarmController.StepKeepsInv | src/AlarmGUI.java:124-184 | every event keeps the invariant: only the newest alarm has live timers, and fired alarms fired once each in arming order |
| AlarmController.RunKeepsInv | src/AlarmGUI.java:124-184 | any sequence of events keeps the invariant |
| AlarmController.NoAlarmRingsTwice | src/AlarmGUI.java:163-184 | from start-up, under any order of events, no alarm rings twice and only armed alarms ring |
| AlarmController.TickCount | src/AlarmGUI.java:151-159 | from a running countdown at n > 0, after k <= n ticks the count is n - k and is shown, the countdown runs iff k < n, and nothing else changes |
| AlarmController.CountdownEnds | src/AlarmGUI.java:155-159 | a countdown started at n > 0 takes exactly n ticks, ends at zero and stopped, and further ticks change nothing |
| AlarmController.CountdownStaysSound | src/AlarmGUI.java:142-159 | while no press asks for more than 35791394 minutes, the count never goes below zero and is positive while the countdown runs, whatever the order of events |
| AlarmController.LastTickAndCompletion | src/AlarmGUI.java:155-181 | the last tick and the completion are unordered: completion first leaves "00:00" on the label, completion last leaves dashes |
| AlarmController.SilencedStaysSilent | src/AlarmGUI.java:126-127 | an alarm whose task was cancelled before it fired never rings, whatever follows |
| AlarmController.SupersededNeverRings | src/AlarmGUI.java:126-127 | any press, accepted or not, silences every earlier alarm that has not fired yet |
| AlarmController.StaleCompletion | src/AlarmGUI.java:124-184 | a completion queued before a new press rings for the old alarm after the press, resets the labels during the new countdown, and, when it runs before the new alarm's task, leaves the new alarm unable to ring |
| AlarmController.StaleCompletionNewFiresFirst | src/AlarmGUI.java:163-184 | when the new alarm's task runs before the old completion code finishes, both completions are queued and both alarms ring, the old one first |
| AlarmController.MinutesWrapPastMin | src/AlarmGUI.java:145-158 | 536870912 minutes arm a countdown at the smallest `int`, and its first tick wraps to the largest `int` without stopping |
| AlarmController.MinutesWrapPastMinRunsOn | src/AlarmGUI.java:145-158 | after wrapping to the largest `int`, that countdown is still running after 2^31 - 1 ticks and stops at zero on the 2^31-th |
| AlarmController.MinutesWrapToZero | src/AlarmGUI.java:145-158 | 1073741824 minutes arm a countdown at zero with a delay of 64424509440000 ms, and the first tick shows -1 and stops |
| AlarmController.FiveSecondsArm | src/AlarmGUI.java:124-187 | "5" seconds arms alarm 1; the labels read "Countdown: 00:05" and "Alarm set for 5 seconds." at once |
| AlarmController.FiveSecondsRun | src/AlarmGUI.java:155-181 | the label then reads "Countdown: 00:04" after one tick and "Countdown: 00:00" after five, with the countdown stopped; the alarm then rings once and the labels read "Alarm complete. Set a new one:" and "Countdown: --:--" |
| AlarmController.ZeroRefused | src/AlarmGUI.java:132-135 | "0" arms nothing and the status reads "Please enter a positive number." |
| AlarmController.LettersRefused | src/AlarmGUI.java:189-191 | "abc" arms nothing and the status reads "Invalid input. Please enter a number." |
| AlarmController.CountdownReadsBack | src/AlarmGUI.java:152-180 | the countdown label gives back the seconds it shows for every count that is not negative, and the dashes give back no count |
| AlarmController.CountdownTextsDistinct | src/AlarmGUI.java:152-180 | two countdown labels that are not negative have the same text iff they show the same thing |
| AlarmController.EchoReadsBack | src/AlarmGUI.java:187 | the "Alarm set for ..." status gives back the number and the lower-case unit it echoes |
| AlarmController.OnlyEchoReadsBack | src/AlarmGUI.java:133-191 | the prompt, the two refusals and the completion status never read as an echo |
| AlarmController.CompletedLabels | src/AlarmGUI.java:179-180 | after the completion code the labels read "Alarm complete. Set a new one:" and "Countdown: --:--" |
| ClockFormat.FormatTimeUnderTen | src/AlarmGUI.java:198-202 | a count from 0 to 9 seconds prints as "00:0" and its digit |

## Left out

- `SoundPlayer.play` is left out. It checks a file, plays it through the
  Java Sound API, beeps and logs to standard error, all through libraries
  outside this model. Its failure kinds are left out with it. A ring is
  recorded only as the alarm number appended to `rung`.
- The `JOptionPane` popup is left out. It is part of the same ring. The
  popup is modal, so the label reset waits until it is closed, and ticks
  can still run while it is open. So can a newer alarm's task and that
  alarm's own completion code. The model treats the completion as one step,
  so all of these count as running before it.
- Window construction and layout in `createAndShowGUI` and `main` are left
  out. The two start-up label texts appear only as the `Prompt` and `Dashes`
  values.
- Wall-clock time is left out. The delay handed to the alarm timer is
  recorded but has no timing meaning. Ticks and the alarm task are free
  events, so the model allows orders that real timing rules out.
- Threads are left out. `Fire` and `Complete` are the two halves of the
  timer thread's hand-off to the event queue.
- The alarm timer's background thread is left out. `Timer.cancel` ends that
  thread, but the model only tracks whether the alarm task is pending.
- The unit is modelled as the two combo-box items. The source treats any item
  other than "Seconds" as minutes, and the box offers no other item.
- JavaText.ParseInt: accepts only the ASCII digits `0`-`9`. Java's
  `Character.digit` also accepts the decimal digits of other scripts.
- ClockFormat.Pad2: always prints ASCII digits. `String.format` uses the
  default locale, and a locale with other digit characters is not modelled.
