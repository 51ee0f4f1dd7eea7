/** The countdown controller of `AlarmGUI` (src/AlarmGUI.java).

    The Java class keeps its state in Swing labels, a `java.util.Timer` and a
    `javax.swing.Timer`. Here that state is one immutable `Controller` value
    and every thing that can happen to it is an `Event`:

    - `Press(text, unit)`: the "Set Alarm" button runs `setAlarm`;
    - `Tick`: the Swing countdown timer fires its one-second action;
    - `Fire`: the alarm `TimerTask` runs on the timer thread, which only posts
      the completion code to the event queue with `invokeLater`;
    - `Complete`: the event queue runs that posted completion code.

    The order of these events is left open: nothing in the source ties the
    last tick to the completion, or the completion to a later button press. */
module AlarmController {

  import opened Optional
  import opened JavaInt
  import opened JavaText
  import opened ClockFormat

  // ---------------------------------------------------------------------
  // Texts shown by the labels
  // ---------------------------------------------------------------------

  /** The two items of the unit combo box. */
  datatype Unit = Minutes | Seconds

  /** The combo box item in lower case, as `unit.toLowerCase()` prints it. */
  function UnitWord(u: Unit): string {
    match u
    case Minutes => "minutes"
    case Seconds => "seconds"
  }

  /** What the status label says. */
  datatype Status = Prompt | AlarmSet(value: int, unit: Unit) | InvalidInput | NotPositive | Completed

  function StatusText(s: Status): string {
    match s
    case Prompt => "Enter time for the alarm:"
    case AlarmSet(v, u) => "Alarm set for " + IntToString(v) + " " + UnitWord(u) + "."
    case InvalidInput => "Invalid input. Please enter a number."
    case NotPositive => "Please enter a positive number."
    case Completed => "Alarm complete. Set a new one:"
  }

  /** What the countdown label shows: dashes, or a number of seconds. */
  datatype Display = Dashes | Time(seconds: Int32)

  function CountdownText(d: Display): string {
    match d
    case Dashes => "Countdown: --:--"
    case Time(n) => "Countdown: " + FormatTime(n)
  }

  /** Reads the countdown label back: the prefix, then a countdown text. */
  function ReadCountdown(t: string): Option<int> {
    if |t| >= 11 && t[..11] == "Countdown: " then ReadClock(t[11..]) else None
  }

  /** The countdown label tells the seconds left: a count that is not
      negative reads back from its text, and the dashes read as no count. */
  lemma CountdownReadsBack(d: Display)
    ensures d.Time? && 0 <= d.seconds ==> ReadCountdown(CountdownText(d)) == Some(d.seconds)
    ensures d.Dashes? ==> ReadCountdown(CountdownText(d)) == None
  {
    var t := CountdownText(d);
    match d
    case Dashes =>
      assert t[11..] == "--:--";
      assert !IsDigit(t[11..][0]);
    case Time(n) =>
      if 0 <= n {
        assert t[..11] == "Countdown: " && t[11..] == FormatTime(n);
        FormatTimeRoundTrip(n);
      }
  }

  /** So two countdown labels that are not negative look different whenever
      they show different things. */
  lemma CountdownTextsDistinct(d: Display, e: Display)
    requires d.Time? ==> 0 <= d.seconds
    requires e.Time? ==> 0 <= e.seconds
    ensures CountdownText(d) == CountdownText(e) <==> d == e
  {
    CountdownReadsBack(d);
    CountdownReadsBack(e);
  }

  /** Reads the number and unit back from the status text of an armed alarm. */
  function ReadEcho(t: string): Option<(int, Unit)> {
    if |t| < 24 || t[..14] != "Alarm set for " then None
    else
      match ParseInt(t[14..|t| - 9])
      case None => None
      case Some(v) =>
        if t[|t| - 9..] == " minutes." then Some((v, Minutes))
        else if t[|t| - 9..] == " seconds." then Some((v, Seconds))
        else None
  }

  /** The status label echoes the number and unit of an armed alarm so that
      both read back from it. */
  lemma EchoReadsBack(v: int, u: Unit)
    requires IsInt(v)
    ensures ReadEcho(StatusText(AlarmSet(v, u))) == Some((v, u))
  {
    ParseIntToString(v);
    ReadEchoParts(IntToString(v), u);
  }

  /** The echo text around any number text reads back as what that number
      text parses to, with the unit. */
  lemma ReadEchoParts(n: string, u: Unit)
    requires 0 < |n|
    ensures var t := "Alarm set for " + n + " " + UnitWord(u) + ".";
      ReadEcho(t) == if ParseInt(n).Some? then Some((ParseInt(n).value, u)) else None
  {
    var w := " " + UnitWord(u) + ".";
    var t := "Alarm set for " + n + " " + UnitWord(u) + ".";
    assert |w| == 9 && t == "Alarm set for " + n + w;
    assert t[..14] == "Alarm set for " && t[14..|t| - 9] == n && t[|t| - 9..] == w;
    if u == Minutes {
      assert w == " minutes.";
    } else {
      assert w == " seconds." && w[1] != " minutes."[1];
    }
  }

  /** No other status text reads as the echo of an armed alarm. */
  lemma OnlyEchoReadsBack(s: Status)
    requires !s.AlarmSet?
    ensures ReadEcho(StatusText(s)) == None
  {
    var t := StatusText(s);
    assert t[..14] != "Alarm set for " by {
      if s.Completed? {
        assert t[6] == 'c';
      } else {
        assert t[0] != 'A';
      }
    }
  }

  // ---------------------------------------------------------------------
  // Input and unit conversion
  // ---------------------------------------------------------------------

  /** What `Integer.parseInt(timeField.getText().trim())` reads from the text
      field; `None` when it throws `NumberFormatException`. */
  function Requested(text: string): Option<int> {
    ParseInt(Trim(text))
  }

  /** The field holds a whole number of units that `setAlarm` accepts. */
  predicate Accepts(text: string) {
    Requested(text).Some? && Requested(text).value > 0
  }

  /** The largest number of minutes whose count of seconds still fits an `int`. */
  const MaxExactMinutes: int := 35_791_394

  /** The two durations `setAlarm` derives from the input. */
  datatype Conversion = Conversion(totalSeconds: Int32, delayMillis: Int64)

  /** The conversion as written: the delay is computed in `long` and never
      overflows, while the count of seconds for minutes is an `int` product
      that wraps around. The two agree exactly when that product fits. */
  function Convert(v: int, u: Unit): (c: Conversion)
    requires IsInt(v) && 0 < v
    ensures c.delayMillis == (if u == Seconds then 1000 else 60_000) * v
    ensures c.totalSeconds * 1000 == c.delayMillis <==> u == Seconds || v <= MaxExactMinutes
    ensures u == Seconds || v <= MaxExactMinutes ==> 0 < c.totalSeconds
    ensures (c.totalSeconds - (if u == Seconds then 1 else 60) * v) % IntModulus == 0
  {
    match u
    case Seconds => Conversion(v, WrapLong(v * 1000))
    case Minutes => Conversion(WrapInt(v * 60), WrapLong(WrapLong(v * 60) * 1000))
  }

  // ---------------------------------------------------------------------
  // Controller state
  // ---------------------------------------------------------------------

  /** Alarms are numbered 1, 2, ... in the order they are armed, and
      `newest` is the number of the last one armed (0 before the first).
      `remaining` is the countdown cell of the newest alarm (only the newest
      alarm's countdown can still be running); `ticking` and `scheduled` name
      the alarm whose countdown timer runs and whose alarm task is still
      pending; `posted` lists the alarms whose completion code waits on the
      event queue, and `rung` the alarms whose completion code has run (sound,
      popup and label reset), both oldest first. */
  datatype Controller = Controller(
    newest: nat,
    remaining: Int32,
    delay: Int64,
    ticking: Option<nat>,
    scheduled: Option<nat>,
    posted: seq<nat>,
    rung: seq<nat>,
    status: Status,
    countdown: Display)

  /** The controller when the window has just been shown: nothing armed. */
  function Initial(): (c: Controller)
    ensures c.newest == 0
    ensures c.ticking.None? && c.scheduled.None? && c.posted == [] && c.rung == []
    ensures c.status == Prompt && c.countdown == Dashes
    ensures Inv(c) && CountdownSound(c)
  {
    Controller(0, 0, 0, None, None, [], [], Prompt, Dashes)
  }

  /** `setAlarm`: first stop whatever the previous call started, then read the
      field. Bad text or a non-positive number only changes the status label;
      a positive number arms a new alarm, shows its full countdown at once and
      echoes the number and unit. Completion code already posted by an earlier
      alarm stays on the event queue. */
  function SetAlarm(c: Controller, text: string, u: Unit): (r: Controller)
    ensures r.ticking == r.scheduled
    ensures r.ticking.Some? <==> Accepts(text)
    ensures r.ticking.Some? ==> r.ticking.value == r.newest == c.newest + 1
    ensures r.ticking.None? ==> r.newest == c.newest
    ensures r.posted == c.posted && r.rung == c.rung
    ensures Requested(text).None? ==> r.status == InvalidInput
    ensures Requested(text).Some? && Requested(text).value <= 0 ==> r.status == NotPositive
    ensures !Accepts(text) ==> r.remaining == c.remaining && r.countdown == c.countdown
    ensures Accepts(text) ==>
      var v := Requested(text).value;
      && r.remaining == Convert(v, u).totalSeconds
      && r.delay == Convert(v, u).delayMillis
      && r.countdown == Time(r.remaining)
      && r.status == AlarmSet(v, u)
  {
    var cancelled := c.(ticking := None, scheduled := None);
    match Requested(text)
    case None => cancelled.(status := InvalidInput)
    case Some(v) =>
      if v <= 0 then cancelled.(status := NotPositive)
      else
        var conv := Convert(v, u);
        var id := c.newest + 1;
        cancelled.(
          newest := id,
          remaining := conv.totalSeconds,
          delay := conv.delayMillis,
          ticking := Some(id),
          scheduled := Some(id),
          countdown := Time(conv.totalSeconds),
          status := AlarmSet(v, u))
  }

  /** The countdown action: one second less, shown at once; the timer stops
      itself when the count is no longer positive. The decrement is `int`
      arithmetic. */
  function OnTick(c: Controller): (r: Controller)
    requires c.ticking.Some?
    ensures r.remaining == WrapInt(c.remaining - 1)
    ensures IsInt(c.remaining - 1) ==> r.remaining == c.remaining - 1
    ensures r.countdown == Time(r.remaining)
    ensures r.ticking.Some? <==> 0 < r.remaining
    ensures r.ticking.Some? ==> r.ticking == c.ticking
    ensures r == c.(remaining := r.remaining, countdown := r.countdown, ticking := r.ticking)
  {
    var left := WrapInt(c.remaining - 1);
    c.(remaining := left, countdown := Time(left), ticking := if left <= 0 then None else c.ticking)
  }

  /** The alarm task runs: it posts the completion code of its alarm to the
      event queue and is then spent. */
  function OnFire(c: Controller): (r: Controller)
    requires c.scheduled.Some?
    ensures r.scheduled.None?
    ensures r.posted == c.posted + [c.scheduled.value]
    ensures r == c.(scheduled := None, posted := r.posted)
  {
    c.(scheduled := None, posted := c.posted + [c.scheduled.value])
  }

  /** The oldest posted completion code runs: it rings (sound and popup),
      resets both labels, and cancels the alarm timer the controller holds at
      that moment, which is the newest alarm's. The countdown timer is left
      alone. */
  function OnComplete(c: Controller): (r: Controller)
    requires 0 < |c.posted|
    ensures r.rung == c.rung + [c.posted[0]] && r.posted == c.posted[1..]
    ensures r.rung + r.posted == c.rung + c.posted
    ensures r.scheduled.None? && r.ticking == c.ticking
    ensures r.status == Completed && r.countdown == Dashes
    ensures r == c.(posted := r.posted, rung := r.rung, scheduled := None,
                    status := Completed, countdown := Dashes)
  {
    c.(posted := c.posted[1..], rung := c.rung + [c.posted[0]], scheduled := None,
       status := Completed, countdown := Dashes)
  }

  // ---------------------------------------------------------------------
  // Events
  // ---------------------------------------------------------------------

  datatype Event = Press(text: string, unit: Unit) | Tick | Fire | Complete

  /** A stopped or cancelled timer delivers nothing, and an empty event queue
      runs nothing. */
  predicate Enabled(c: Controller, e: Event) {
    match e
    case Press(_, _) => true
    case Tick => c.ticking.Some?
    case Fire => c.scheduled.Some?
    case Complete => 0 < |c.posted|
  }

  function Step(c: Controller, e: Event): (r: Controller)
    ensures !Enabled(c, e) ==> r == c
    ensures c.newest <= r.newest
    ensures |c.rung| <= |r.rung| && r.rung[..|c.rung|] == c.rung
  {
    if !Enabled(c, e) then c
    else
      match e
      case Press(text, u) => SetAlarm(c, text, u)
      case Tick => OnTick(c)
      case Fire => OnFire(c)
      case Complete => OnComplete(c)
  }

  /** The controller after a sequence of events, first event first. */
  function Run(c: Controller, es: seq<Event>): Controller
    decreases |es|
  {
    if |es| == 0 then c else Run(Step(c, es[0]), es[1..])
  }

  // ---------------------------------------------------------------------
  // Every alarm rings at most once
  // ---------------------------------------------------------------------

  /** The alarms whose task has run, in the order it ran. */
  function Fired(c: Controller): seq<nat> {
    c.rung + c.posted
  }

  predicate Increasing(s: seq<nat>) {
    forall i, j :: 0 <= i < j < |s| ==> s[i] < s[j]
  }

  /** Only the newest alarm has live timers; every fired alarm fired once, in
      arming order, and a pending alarm task belongs to an alarm that has not
      fired yet. */
  predicate Inv(c: Controller) {
    && (c.ticking.Some? ==> 0 < c.ticking.value == c.newest)
    && (c.scheduled.Some? ==> 0 < c.scheduled.value == c.newest)
    && Increasing(Fired(c))
    && (forall i :: 0 <= i < |Fired(c)| ==> 0 < Fired(c)[i] <= c.newest)
    && (c.scheduled.Some? ==> forall i :: 0 <= i < |Fired(c)| ==> Fired(c)[i] < c.newest)
  }

  lemma StepKeepsInv(c: Controller, e: Event)
    requires Inv(c)
    ensures Inv(Step(c, e))
  {
    var r := Step(c, e);
    if Enabled(c, e) && e.Fire? {
      assert Fired(r) == Fired(c) + [c.newest];
    }
  }

  lemma {:induction false} RunKeepsInv(c: Controller, es: seq<Event>)
    requires Inv(c)
    ensures Inv(Run(c, es))
    decreases |es|
  {
    if 0 < |es| {
      StepKeepsInv(c, es[0]);
      RunKeepsInv(Step(c, es[0]), es[1..]);
    }
  }

  /** Whatever happens from start-up on, no alarm rings twice and only armed
      alarms ring. */
  lemma NoAlarmRingsTwice(es: seq<Event>)
    ensures var c := Run(Initial(), es);
      && (forall i, j :: 0 <= i < j < |c.rung| ==> c.rung[i] != c.rung[j])
      && (forall i :: 0 <= i < |c.rung| ==> 0 < c.rung[i] <= c.newest)
  {
    RunKeepsInv(Initial(), es);
    var c := Run(Initial(), es);
    assert forall i :: 0 <= i < |c.rung| ==> c.rung[i] == Fired(c)[i];
  }

  // ---------------------------------------------------------------------
  // The countdown
  // ---------------------------------------------------------------------

  /** The controller after `k` one-second periods with no other event: the
      countdown action runs once per period while its timer is running. */
  function Ticks(c: Controller, k: nat): Controller
    decreases k
  {
    if k == 0 || c.ticking.None? then c else Ticks(OnTick(c), k - 1)
  }

  /** From a running countdown at `n > 0`, the `k`-th tick (`k <= n`) shows
      `n - k`, the countdown keeps running exactly while `k < n`, and nothing
      else changes. */
  lemma {:induction false} TickCount(c: Controller, k: nat)
    requires c.ticking.Some? && 0 < c.remaining && k <= c.remaining
    ensures var r := Ticks(c, k);
      && r.remaining == c.remaining - k
      && (r.ticking.Some? <==> k < c.remaining)
      && (r.ticking.Some? ==> r.ticking == c.ticking)
      && (0 < k ==> r.countdown == Time(r.remaining))
      && r == c.(remaining := r.remaining, countdown := r.countdown, ticking := r.ticking)
    decreases k
  {
    if 0 < k {
      var d := OnTick(c);
      if 1 < k {
        TickCount(d, k - 1);
      }
    }
  }

  lemma {:induction false} TicksAdd(c: Controller, a: nat, b: nat)
    ensures Ticks(c, a + b) == Ticks(Ticks(c, a), b)
    decreases a
  {
    if 0 < a && c.ticking.Some? {
      TicksAdd(OnTick(c), a - 1, b);
    }
  }

  /** A countdown started at `n > 0` takes exactly `n` ticks: it then shows
      zero, has stopped, and further ticks change nothing. */
  lemma CountdownEnds(c: Controller, j: nat)
    requires c.ticking.Some? && 0 < c.remaining
    ensures Ticks(c, c.remaining as nat).remaining == 0
    ensures Ticks(c, c.remaining as nat).ticking.None?
    ensures Ticks(c, c.remaining as nat + j) == Ticks(c, c.remaining as nat)
  {
    var n := c.remaining as nat;
    TickCount(c, n);
    TicksAdd(c, n, j);
  }

  /** The countdown never shows a negative number, and while it runs it is
      positive. */
  predicate CountdownSound(c: Controller) {
    0 <= c.remaining && (c.ticking.Some? ==> 0 < c.remaining)
  }

  /** A button press whose count of seconds fits an `int`. */
  predicate InRange(e: Event) {
    e.Press? && Accepts(e.text) && e.unit == Minutes ==> Requested(e.text).value <= MaxExactMinutes
  }

  /** As long as no press asks for more than `MaxExactMinutes` minutes, the
      countdown stays sound whatever the order of events. */
  lemma {:induction false} CountdownStaysSound(c: Controller, es: seq<Event>)
    requires CountdownSound(c)
    requires forall i :: 0 <= i < |es| ==> InRange(es[i])
    ensures CountdownSound(Run(c, es))
    decreases |es|
  {
    if 0 < |es| {
      var d := Step(c, es[0]);
      assert InRange(es[0]);
      assert CountdownSound(d);
      assert forall i :: 0 <= i < |es[1..]| ==> InRange(es[1..][i]) by {
        forall i | 0 <= i < |es[1..]|
          ensures InRange(es[1..][i])
        {
          assert es[1..][i] == es[i + 1];
        }
      }
      CountdownStaysSound(d, es[1..]);
    }
  }

  /** The last tick and the completion code are not ordered. When the
      completion runs first, the last tick then overwrites the dashes with
      "00:00"; when it runs last, the dashes stay. */
  lemma LastTickAndCompletion(c: Controller)
    requires c.ticking.Some? && c.remaining == 1 && 0 < |c.posted|
    ensures OnTick(OnComplete(c)).countdown == Time(0)
    ensures OnComplete(OnTick(c)).countdown == Dashes
    ensures OnTick(OnComplete(c)).status == OnComplete(OnTick(c)).status == Completed
  {
  }

  // ---------------------------------------------------------------------
  // Superseded alarms
  // ---------------------------------------------------------------------

  /** Alarm `g` has been armed, has not fired, and its task is not pending:
      it can no longer ring. */
  predicate Silenced(c: Controller, g: nat) {
    g <= c.newest && g !in Fired(c) && c.scheduled != Some(g)
  }

  lemma {:induction false} SilencedStaysSilent(c: Controller, g: nat, es: seq<Event>)
    requires Silenced(c, g)
    ensures Silenced(Run(c, es), g) && g !in Run(c, es).rung
    decreases |es|
  {
    if 0 < |es| {
      var d := Step(c, es[0]);
      if Enabled(c, es[0]) && es[0].Fire? {
        assert Fired(d) == Fired(c) + [c.scheduled.value];
      }
      assert Silenced(d, g);
      SilencedStaysSilent(d, g, es[1..]);
    } else {
      assert c.rung == Fired(c)[..|c.rung|];
    }
  }

  /** Pressing the button again silences every earlier alarm that has not
      fired yet, whatever the outcome of the press and whatever follows it. */
  lemma SupersededNeverRings(c: Controller, text: string, u: Unit, g: nat, es: seq<Event>)
    requires Inv(c) && g <= c.newest && g !in Fired(c)
    ensures g !in Run(SetAlarm(c, text, u), es).rung
  {
    SilencedStaysSilent(SetAlarm(c, text, u), g, es);
  }

  /** An alarm that has fired can still have its completion code on the event
      queue when the button arms a new alarm. That code then rings for the old
      alarm after the new one is set, and puts both labels back to idle while
      the new countdown goes on. If the old popup is closed before the new
      alarm's task runs, the code also cancels the new alarm's task, and the
      new alarm never rings. */
  lemma StaleCompletion(c: Controller, text: string, u: Unit, es: seq<Event>)
    requires Inv(c) && c.scheduled.Some? && c.posted == [] && Accepts(text)
    ensures var d := OnComplete(SetAlarm(OnFire(c), text, u));
      && d.rung == c.rung + [c.newest]
      && d.newest == c.newest + 1 && d.ticking == Some(d.newest)
      && d.status == Completed && d.countdown == Dashes
      && d.newest !in Run(d, es).rung
  {
    var d := OnComplete(SetAlarm(OnFire(c), text, u));
    assert d.newest !in Fired(d) by {
      assert Fired(d) == Fired(c) + [c.newest];
    }
    SilencedStaysSilent(d, d.newest, es);
  }

  /** The other order of the same race: the new alarm's task runs while the
      old completion code is still queued or its popup is still open. Then
      both completions run and both alarms ring, the old one first. */
  lemma StaleCompletionNewFiresFirst(c: Controller, text: string, u: Unit)
    requires Inv(c) && c.scheduled.Some? && c.posted == [] && Accepts(text)
    ensures var d := OnFire(SetAlarm(OnFire(c), text, u));
      && d.posted == [c.newest, c.newest + 1]
      && OnComplete(OnComplete(d)).rung == c.rung + [c.newest, c.newest + 1]
  {
  }

  // ---------------------------------------------------------------------
  // Minute counts whose seconds overflow an `int`
  // ---------------------------------------------------------------------

  /** 536870912 minutes are 2^31 seconds, which wrap to the smallest `int`:
      the countdown starts below zero, and its first tick wraps it to the
      largest `int`, so the countdown timer does not stop at that tick. The
      alarm task waits about 1021 years. */
  lemma MinutesWrapPastMin(c: Controller, text: string)
    requires Requested(text) == Some(536_870_912)
    ensures var r := SetAlarm(c, text, Minutes);
      && r.ticking.Some? && r.remaining == IntMin
      && r.delay == 32_212_254_720_000
      && OnTick(r).remaining == IntMax && OnTick(r).ticking.Some?
  {
    var r := SetAlarm(c, text, Minutes);
    assert Accepts(text);
    assert r.remaining == IntMin by {
      assert WrapInt(32_212_254_720) == IntMin;
    }
    assert OnTick(r).remaining == IntMax by {
      assert WrapInt(IntMin - 1) == IntMax;
    }
  }

  /** After that wrap the countdown runs on for another 2^31 - 1 ticks (about
      68 years) and only then stops at zero. */
  lemma MinutesWrapPastMinRunsOn(c: Controller, text: string)
    requires Requested(text) == Some(536_870_912)
    ensures var r := SetAlarm(c, text, Minutes);
      && Ticks(r, IntMax).ticking.Some? && Ticks(r, IntMax).remaining == 1
      && Ticks(r, 1 + IntMax).ticking.None? && Ticks(r, 1 + IntMax).remaining == 0
  {
    MinutesWrapPastMin(c, text);
    var r := SetAlarm(c, text, Minutes);
    var t := OnTick(r);
    assert Ticks(r, IntMax) == Ticks(t, IntMax - 1);
    assert Ticks(r, 1 + IntMax) == Ticks(t, IntMax);
    TickCount(t, IntMax - 1);
    TickCount(t, IntMax);
  }

  /** 1073741824 minutes are 15 * 2^32 seconds, which wrap to zero: the label
      shows "00:00" at once while the alarm task waits about 2041 years, and
      the first tick shows "00:-1" and stops the countdown. */
  lemma MinutesWrapToZero(c: Controller, text: string)
    requires Requested(text) == Some(1_073_741_824)
    ensures var r := SetAlarm(c, text, Minutes);
      && r.ticking.Some? && r.remaining == 0 && r.countdown == Time(0)
      && r.delay == 64_424_509_440_000
      && OnTick(r).countdown == Time(-1) && OnTick(r).ticking.None?
  {
    var r := SetAlarm(c, text, Minutes);
    assert Accepts(text);
    assert r.remaining == 0 by {
      assert WrapInt(64_424_509_440) == 0;
    }
    assert OnTick(r).remaining == -1;
  }

  /** A printed `int` reads back as itself through `trim` and `parseInt`. */
  lemma PrintedIsRequested(v: int)
    requires IsInt(v)
    ensures Requested(IntToString(v)) == Some(v)
  {
    TrimPrinted(v);
    ParseIntToString(v);
  }

  // ---------------------------------------------------------------------
  // Scenarios
  // ---------------------------------------------------------------------

  /** The countdown label of the last ten seconds. */
  lemma CountdownUnderTen(n: int)
    requires 0 <= n < 10
    ensures CountdownText(Time(n)) == "Countdown: 00:0" + [DigitChar(n)]
  {
    var t := FormatTime(n);
    assert t == "00:0" + [DigitChar(n)] by {
      FormatTimeUnderTen(n);
    }
    assert "Countdown: " + ("00:0" + [DigitChar(n)]) == "Countdown: 00:0" + [DigitChar(n)];
  }

  /** The label texts of the five-second scenario. Each lemma takes the label
      value as a parameter fixed by its `requires`, so that a scenario can
      apply it to the value it computed without the text being evaluated
      again inside the larger scenario proof. */
  lemma CountdownFive(d: Display)
    requires d == Time(5)
    ensures CountdownText(d) == "Countdown: 00:05"
  {
    CountdownUnderTen(5);
    assert DigitChar(5) == '5';
  }

  lemma CountdownFour(d: Display)
    requires d == Time(4)
    ensures CountdownText(d) == "Countdown: 00:04"
  {
    CountdownUnderTen(4);
    assert DigitChar(4) == '4';
  }

  lemma CountdownZero(d: Display)
    requires d == Time(0)
    ensures CountdownText(d) == "Countdown: 00:00"
  {
    CountdownUnderTen(0);
    assert DigitChar(0) == '0';
  }

  lemma EchoFiveSeconds(s: Status)
    requires s == AlarmSet(5, Seconds)
    ensures StatusText(s) == "Alarm set for 5 seconds."
  {
    assert IntToString(5) == "5";
  }

  /** The labels once the completion code has run. */
  lemma CompletedLabels(c: Controller)
    requires c.status == Completed && c.countdown == Dashes
    ensures StatusText(c.status) == "Alarm complete. Set a new one:"
    ensures CountdownText(c.countdown) == "Countdown: --:--"
  {
  }

  /** Five seconds: the label shows 5 seconds at once and the status echoes
      the request. */
  lemma FiveSecondsArm()
    ensures var c := SetAlarm(Initial(), "5", Seconds);
      && c.ticking == Some(1) && c.scheduled == Some(1) && c.posted == [] && c.rung == []
      && c.remaining == 5 && c.countdown == Time(5) && c.status == AlarmSet(5, Seconds)
      && CountdownText(c.countdown) == "Countdown: 00:05"
      && StatusText(c.status) == "Alarm set for 5 seconds."
  {
    var c := SetAlarm(Initial(), "5", Seconds);
    assert c.countdown == Time(5) && c.status == AlarmSet(5, Seconds) by {
      assert Requested("5") == Some(5) by {
        assert IntToString(5) == "5";
        PrintedIsRequested(5);
      }
      assert Accepts("5");
    }
    CountdownFive(c.countdown);
    EchoFiveSeconds(c.status);
  }

  /** Then "00:04" after one tick, "00:00" and a stopped countdown after five;
      the alarm then fires, rings once and resets both labels. */
  lemma FiveSecondsRun(c: Controller)
    requires c.ticking == Some(1) && c.scheduled == Some(1) && c.posted == [] && c.rung == []
    requires c.remaining == 5
    ensures Ticks(c, 1).countdown == Time(4)
    ensures CountdownText(Ticks(c, 1).countdown) == "Countdown: 00:04"
    ensures Ticks(c, 5).countdown == Time(0) && Ticks(c, 5).ticking.None?
    ensures CountdownText(Ticks(c, 5).countdown) == "Countdown: 00:00"
    ensures var d := OnComplete(OnFire(Ticks(c, 5)));
      && d.rung == [1] && d.status == Completed && d.countdown == Dashes
      && StatusText(d.status) == "Alarm complete. Set a new one:"
      && CountdownText(d.countdown) == "Countdown: --:--"
  {
    assert Ticks(c, 1).countdown == Time(4) && Ticks(c, 5).countdown == Time(0)
      && Ticks(c, 5).ticking.None? && Ticks(c, 5).scheduled == Some(1)
      && Ticks(c, 5).posted == [] && Ticks(c, 5).rung == [] by {
      TickCount(c, 1);
      TickCount(c, 5);
    }
    CountdownFour(Ticks(c, 1).countdown);
    CountdownZero(Ticks(c, 5).countdown);
    CompletedLabels(OnComplete(OnFire(Ticks(c, 5))));
  }

  /** Zero is refused as not positive and arms nothing. */
  lemma ZeroRefused(c: Controller)
    ensures SetAlarm(c, "0", Seconds).status == NotPositive
    ensures SetAlarm(c, "0", Seconds).ticking.None?
    ensures StatusText(SetAlarm(c, "0", Seconds).status) == "Please enter a positive number."
  {
    assert Requested("0") == Some(0) by {
      assert IntToString(0) == "0";
      PrintedIsRequested(0);
    }
  }

  /** Text that is not a number is refused as invalid and arms nothing. */
  lemma LettersRefused(c: Controller)
    ensures SetAlarm(c, "abc", Minutes).status == InvalidInput
    ensures SetAlarm(c, "abc", Minutes).ticking.None?
    ensures StatusText(SetAlarm(c, "abc", Minutes).status) == "Invalid input. Please enter a number."
  {
    assert Requested("abc") == None by {
      assert Trim("abc") == "abc" by {
        assert Leading("abc") == 0 && Trailing("abc") == 0;
        assert "abc"[0..3] == "abc";
      }
      assert !AllDigits("abc") by {
        assert !IsDigit("abc"[0]);
      }
    }
  }

}
