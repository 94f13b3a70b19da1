/** The drift-free focus timer of docs/script.js, as pure state transitions.

    Elapsed time is recomputed from absolute instants (the start instant, the
    instant of the current pause and the total time spent paused), so a late
    tick can never make the countdown drift. Every operation of the source's
    `FocusTimer` that changes the timer is a function from the old `Timer` to
    the new one; the class in TimestampTimer runs them in place. */
module TimestampModel {
  import opened JsValues

  /** Number of plant growth stages; the plant stops growing at this stage. */
  const PLANT_STAGES := 6
  /** Length used when the input field does not hold a usable number at start-up. */
  const FOCUS_TIME_DEFAULT := 25

  /** The value of the unit selector; anything unrecognised counts as minutes. */
  datatype Unit = Seconds | Minutes | Hours | Unrecognised

  /** The fields of the source's `FocusTimer` that the countdown depends on.
      `intervalActive` stands for the `setInterval` handle and `pendingResets`
      for the `setTimeout(reset, 3000)` callbacks scheduled by `complete` and
      not yet fired. The focus total is kept in milliseconds. */
  datatype Timer = Timer(
    isRunning: bool,
    isPaused: bool,
    startTime: Option<Instant>,
    pausedTime: Option<Instant>,
    totalPausedDuration: int,
    duration: Num,
    timeUnit: Unit,
    plantStage: int,
    totalFocusMs: Num,
    intervalActive: bool,
    pendingResets: nat)

  datatype Phase = Idle | Running | Paused | AwaitingReset

  /** The state the timer is in. `AwaitingReset` is a stopped timer whose
      completion has scheduled a delayed reset that has not fired yet; it
      stays so even when the user resets the timer by hand in the meantime,
      although the page then shows it as idle. */
  function PhaseOf(s: Timer): Phase {
    if s.isRunning then Running
    else if s.isPaused then Paused
    else if s.pendingResets > 0 then AwaitingReset
    else Idle
  }

  /** The shape every reachable timer has: running, paused or stopped, with the
      instants that phase needs and no others, and a tick interval exactly
      while running. */
  predicate Valid(s: Timer) {
    && !(s.isRunning && s.isPaused)
    && s.intervalActive == s.isRunning
    && (s.isRunning || s.isPaused <==> s.startTime.Some?)
    && (s.isPaused <==> s.pausedTime.Some?)
    && (!s.isRunning && !s.isPaused ==> s.totalPausedDuration == 0)
  }

  /** `convertToMilliseconds(value, unit)`. */
  function ConvertToMilliseconds(value: int, unit: Unit): (ms: int)
    ensures unit == Seconds ==> ms == value * 1000
    ensures unit == Minutes || unit == Unrecognised ==> ms == value * 60 * 1000
    ensures unit == Hours ==> ms == value * 60 * 60 * 1000
    ensures value >= 1 ==> ms >= 1000
    ensures value <= 0 ==> ms <= 0
  {
    match unit
    case Seconds => value * 1000
    case Minutes => value * 60 * 1000
    case Hours => value * 60 * 60 * 1000
    case Unrecognised => value * 60 * 1000
  }

  /** The constructor: the field's number, or 25 when it is blank, not a number
      or 0, converted in the selected unit; plant stage and focus total come
      from storage, the total as `parseFloat` reads it back (NaN once a NaN
      total has been stored). */
  function Initial(field: FieldValue, unit: Unit, storedPlantStage: int, storedFocusMs: Num): (r: Timer)
    ensures Valid(r) && PhaseOf(r) == Idle
    ensures r.startTime.None? && r.pausedTime.None? && r.totalPausedDuration == 0
    ensures field.Numeral? && field.n != 0 ==> r.duration == Finite(ConvertToMilliseconds(field.n, unit))
    ensures !field.Numeral? || field.n == 0 ==> r.duration == Finite(ConvertToMilliseconds(FOCUS_TIME_DEFAULT, unit))
    ensures r.timeUnit == unit && r.plantStage == storedPlantStage && r.totalFocusMs == storedFocusMs
  {
    var timeValue := OrDefault(ParseInt(field), FOCUS_TIME_DEFAULT);
    Timer(false, false, None, None, 0, Finite(ConvertToMilliseconds(timeValue, unit)), unit,
          storedPlantStage, storedFocusMs, false, 0)
  }

  /** `getElapsedTime()`: time since the start minus time spent paused, measured
      up to the pause instant while paused and up to `now` otherwise. A null
      pause instant reads as 0, as JavaScript's `null` does in arithmetic. */
  function Elapsed(s: Timer, now: Instant): (e: int)
    ensures s.startTime.None? ==> e == 0
    ensures s.startTime.Some? && !s.isPaused ==> e + s.totalPausedDuration == now - s.startTime.value
    ensures s.startTime.Some? && s.isPaused && s.pausedTime.Some? ==>
              e + s.totalPausedDuration == s.pausedTime.value - s.startTime.value
  {
    if s.startTime.None? then 0
    else
      var reference := if !s.isPaused then now else if s.pausedTime.Some? then s.pausedTime.value else 0;
      reference - s.startTime.value - s.totalPausedDuration
  }

  /** `Math.max(0, duration - elapsed)`, as `tick` and `updateDisplay` compute it. */
  function Remaining(s: Timer, now: Instant): (r: Num)
    ensures r.Finite? <==> s.duration.Finite?
    ensures r.Finite? ==> r.value >= 0
    ensures r.Finite? && Elapsed(s, now) <= s.duration.value ==> r.value + Elapsed(s, now) == s.duration.value
    ensures r.Finite? && Elapsed(s, now) >= s.duration.value ==> r.value == 0
  {
    Max0(Plus(s.duration, Finite(-Elapsed(s, now))))
  }

  /** The instant at which a running countdown of numeric length reaches zero. */
  function Deadline(s: Timer): (d: int)
    requires s.startTime.Some? && s.duration.Finite?
    ensures d - s.startTime.value == s.totalPausedDuration + s.duration.value
  {
    s.startTime.value + s.totalPausedDuration + s.duration.value
  }

  /** `start()`: a no-op while running; otherwise a fresh start records `now`
      and clears the paused total, a resume adds the length of the pause to it. */
  function Start(s: Timer, now: Instant): (r: Timer)
    ensures s.isRunning ==> r == s
    ensures !s.isRunning ==> r.isRunning && !r.isPaused && r.intervalActive
    ensures !s.isRunning && s.startTime.None? ==> r.startTime == Some(now) && r.totalPausedDuration == 0
    ensures !s.isRunning && s.startTime.Some? && s.pausedTime.Some? ==>
              && r.startTime == s.startTime && r.pausedTime.None?
              && r.totalPausedDuration == s.totalPausedDuration + (now - s.pausedTime.value)
    ensures Valid(s) ==> Valid(r) && PhaseOf(r) == Running
    ensures Valid(s) && s.isPaused ==> Elapsed(r, now) == Elapsed(s, now)
    ensures r.duration == s.duration && r.timeUnit == s.timeUnit && r.plantStage == s.plantStage
    ensures r.totalFocusMs == s.totalFocusMs && r.pendingResets == s.pendingResets
  {
    if s.isRunning then s
    else
      var s1 := s.(isRunning := true, isPaused := false);
      var s2 :=
        if s.startTime.None? then s1.(startTime := Some(now), totalPausedDuration := 0)
        else if s.pausedTime.Some? then
          s1.(totalPausedDuration := s.totalPausedDuration + (now - s.pausedTime.value), pausedTime := None)
        else s1;
      s2.(intervalActive := true)
  }

  /** `pause()`: acts only when running and not paused; it records the pause
      instant and stops the tick interval, which freezes the elapsed time. */
  function Pause(s: Timer, now: Instant): (r: Timer)
    ensures !(s.isRunning && !s.isPaused) ==> r == s
    ensures s.isRunning && !s.isPaused ==>
              r == s.(isPaused := true, isRunning := false, pausedTime := Some(now), intervalActive := false)
    ensures Valid(s) ==> Valid(r)
    ensures Valid(s) && s.isRunning ==> PhaseOf(r) == Paused && forall t :: Elapsed(r, t) == Elapsed(s, now)
  {
    if s.isRunning && !s.isPaused then
      s.(isPaused := true, isRunning := false, pausedTime := Some(now), intervalActive := false)
    else s
  }

  /** `advancePlantStage()`. */
  function AdvancePlantStage(s: Timer): (r: Timer)
    ensures r.plantStage == s.plantStage + 1
    ensures r.(plantStage := s.plantStage) == s
  {
    s.(plantStage := s.plantStage + 1)
  }

  /** `complete()`: stops the countdown, credits the session length to the
      focus total, grows the plant unless it is fully grown, clears every
      instant and schedules the delayed reset. */
  function Complete(s: Timer): (r: Timer)
    ensures Valid(r) && PhaseOf(r) == AwaitingReset
    ensures r.startTime.None? && r.pausedTime.None? && r.totalPausedDuration == 0
    ensures r.totalFocusMs == Plus(s.totalFocusMs, s.duration)
    ensures s.plantStage < PLANT_STAGES ==> r.plantStage == s.plantStage + 1
    ensures s.plantStage >= PLANT_STAGES ==> r.plantStage == s.plantStage
    ensures r.pendingResets == s.pendingResets + 1
    ensures r.duration == s.duration && r.timeUnit == s.timeUnit
  {
    var stopped := s.(isRunning := false, isPaused := false, intervalActive := false,
                      totalFocusMs := Plus(s.totalFocusMs, s.duration));
    var grown := if stopped.plantStage < PLANT_STAGES then AdvancePlantStage(stopped) else stopped;
    grown.(startTime := None, pausedTime := None, totalPausedDuration := 0,
           pendingResets := s.pendingResets + 1)
  }

  /** `skip()` with the user's answer to the confirmation dialog: completes the
      session early, but only one that is running or paused. */
  function Skip(s: Timer, confirmed: bool): (r: Timer)
    ensures !s.isRunning && !s.isPaused ==> r == s
    ensures (s.isRunning || s.isPaused) && confirmed ==> r == Complete(s)
    ensures !confirmed ==> r == s
  {
    if (s.isRunning || s.isPaused) && confirmed then Complete(s) else s
  }

  /** `tick()`: completes the session exactly when the remaining time is at
      most zero; otherwise it only redraws, so the timer is unchanged. */
  function Tick(s: Timer, now: Instant): (r: Timer)
    ensures r == s || r == Complete(s)
    ensures r == Complete(s) <==> AtMostZero(Remaining(s, now))
  {
    if AtMostZero(Remaining(s, now)) then Complete(s) else s
  }

  /** `reset()`: stops the countdown, clears every instant and recomputes the
      length from whatever `parseInt` reads in the field, without the checks of
      `updateTimerFromInput`: a blank or non-numeric field gives NaN. */
  function Reset(s: Timer, field: FieldValue, unit: Unit): (r: Timer)
    ensures Valid(r) && (PhaseOf(r) == Idle || PhaseOf(r) == AwaitingReset)
    ensures r.startTime.None? && r.pausedTime.None? && r.totalPausedDuration == 0
    ensures field.Numeral? ==> r.duration == Finite(ConvertToMilliseconds(field.n, unit))
    ensures !field.Numeral? ==> r.duration == NaN
    ensures r.timeUnit == unit
    ensures r.plantStage == s.plantStage && r.totalFocusMs == s.totalFocusMs && r.pendingResets == s.pendingResets
  {
    var timeValue := ParseInt(field);
    s.(isRunning := false, isPaused := false, intervalActive := false,
       startTime := None, pausedTime := None, totalPausedDuration := 0,
       timeUnit := unit,
       duration := if timeValue.Finite? then Finite(ConvertToMilliseconds(timeValue.value, unit)) else NaN)
  }

  /** The `setTimeout` callback of `complete`: three seconds later it resets
      the timer. Nothing cancels it, not even a session started meanwhile. */
  function CompletionDelayElapsed(s: Timer, field: FieldValue, unit: Unit): (r: Timer)
    requires s.pendingResets > 0
    ensures r == Reset(s, field, unit).(pendingResets := s.pendingResets - 1)
    ensures !r.isRunning && !r.isPaused && r.startTime.None?
  {
    Reset(s.(pendingResets := s.pendingResets - 1), field, unit)
  }

  /** `updateTimerFromInput()`: ignored while running; a number of at least 1
      sets the length in the selected unit, a blank field sets 1 unit of the
      previously accepted unit, anything else changes nothing. */
  function UpdateTimerFromInput(s: Timer, field: FieldValue, unit: Unit): (r: Timer)
    ensures s.isRunning ==> r == s
    ensures !s.isRunning && field.Numeral? && field.n >= 1 ==>
              r == s.(timeUnit := unit, duration := Finite(ConvertToMilliseconds(field.n, unit)))
    ensures !s.isRunning && field.Blank? ==> r == s.(duration := Finite(ConvertToMilliseconds(1, s.timeUnit)))
    ensures field.NonNumeric? || (field.Numeral? && field.n < 1) ==> r == s
    ensures r.duration != s.duration ==> r.duration.Finite? && r.duration.value >= 1000
    ensures Valid(s) ==> Valid(r)
  {
    if s.isRunning then s
    else match field
      case Numeral(n) =>
        if n >= 1 then s.(timeUnit := unit, duration := Finite(ConvertToMilliseconds(n, unit))) else s
      case Blank => s.(duration := Finite(ConvertToMilliseconds(1, s.timeUnit)))
      case NonNumeric => s
  }

  /** The unit `setPresetTime` shows a preset of `minutes` in. */
  function PresetUnit(minutes: int): Unit {
    if minutes < 1 then Seconds else if minutes >= 60 then Hours else Minutes
  }

  /** `setPresetTime(button)` for a preset of whole `minutes`: ignored while
      running; below one minute the preset is shown in seconds, from sixty
      minutes on in hours, otherwise in minutes. In hours the value is
      `minutes / 60`; this model takes it as exactly `minutes` minutes, which
      the source's floating-point `minutes / 60` matches only up to rounding. */
  function SetPresetTime(s: Timer, minutes: int): (r: Timer)
    ensures s.isRunning ==> r == s
    ensures !s.isRunning ==> r == s.(timeUnit := PresetUnit(minutes), duration := Finite(minutes * 60000))
    ensures Valid(s) ==> Valid(r)
  {
    if s.isRunning then s
    else if minutes < 1 then
      s.(timeUnit := Seconds, duration := Finite(ConvertToMilliseconds(minutes * 60, Seconds)))
    else if minutes >= 60 then
      s.(timeUnit := Hours, duration := Finite(ConvertToMilliseconds(minutes, Minutes)))
    else
      s.(timeUnit := Minutes, duration := Finite(ConvertToMilliseconds(minutes, Minutes)))
  }

  /** The Ctrl/Cmd+Shift+R shortcut, once confirmed: the plant goes back to stage 0. */
  function ResetPlantProgress(s: Timer, confirmed: bool): (r: Timer)
    ensures confirmed ==> r == s.(plantStage := 0)
    ensures !confirmed ==> r == s
  {
    if confirmed then s.(plantStage := 0) else s
  }

  /** The seconds `updateDisplay` shows: the remaining time while running or
      paused, the whole length otherwise, rounded up to whole seconds. */
  function DisplaySeconds(s: Timer, now: Instant): (t: Num)
    ensures t.Finite? <==> s.duration.Finite?
    ensures t.Finite? && (s.isRunning || s.isPaused) ==>
              t.value >= 0 && (t.value - 1) * 1000 < Remaining(s, now).value <= t.value * 1000
    ensures t.Finite? && !s.isRunning && !s.isPaused ==>
              (t.value - 1) * 1000 < s.duration.value <= t.value * 1000
  {
    var ms := if s.isRunning || s.isPaused then Remaining(s, now) else s.duration;
    if ms.Finite? then Finite(CeilSeconds(ms.value)) else NaN
  }

  /** The `mm:ss` split of `updateDisplay`: `Math.floor(total / 60)` and `total % 60`.
      They recombine to `total` only when it is not negative. */
  function Clock(total: int): (r: (int, int))
    ensures r.0 * 60 <= total < (r.0 + 1) * 60
    ensures (total - r.1) % 60 == 0 && -60 < r.1 < 60
    ensures total >= 0 ==> r.0 * 60 + r.1 == total && 0 <= r.1 < 60 && r.0 >= 0
    ensures total < 0 ==> r.0 < 0 && -60 < r.1 <= 0
  {
    (FloorMinutes(total), JsRemainder60(total))
  }

  /** What the page can make happen to the timer: the user's clicks and edits
      and the firing of the timers the source schedules. */
  datatype Event =
    | StartClicked(now: Instant)
    | PauseClicked(now: Instant)
    | SkipClicked(confirmed: bool)
    | ResetClicked(field: FieldValue, unit: Unit)
    | InputChanged(field: FieldValue, unit: Unit)
    | PresetClicked(minutes: int)
    | PlantResetPressed(confirmed: bool)
    | IntervalFired(now: Instant)
    | CompletionDelayFired(field: FieldValue, unit: Unit)

  /** One event. The interval fires only while it is set and a delayed reset
      only when one is pending. */
  function Step(s: Timer, e: Event): Timer {
    match e
    case StartClicked(now) => Start(s, now)
    case PauseClicked(now) => Pause(s, now)
    case SkipClicked(confirmed) => Skip(s, confirmed)
    case ResetClicked(field, unit) => Reset(s, field, unit)
    case InputChanged(field, unit) => UpdateTimerFromInput(s, field, unit)
    case PresetClicked(minutes) => SetPresetTime(s, minutes)
    case PlantResetPressed(confirmed) => ResetPlantProgress(s, confirmed)
    case IntervalFired(now) => if s.intervalActive then Tick(s, now) else s
    case CompletionDelayFired(field, unit) =>
      if s.pendingResets > 0 then CompletionDelayElapsed(s, field, unit) else s
  }

  /** A whole session of events, in order. */
  function Run(s: Timer, events: seq<Event>): Timer
    decreases |events|
  {
    if |events| == 0 then s else Run(Step(s, events[0]), events[1..])
  }

  /** The interval firing at each of `times` in turn, for as long as it is set. */
  function FireTicks(s: Timer, times: seq<Instant>): Timer
    decreases |times|
  {
    if |times| == 0 then s
    else FireTicks(if s.intervalActive then Tick(s, times[0]) else s, times[1..])
  }

  // ---------------------------------------------------------------------------
  // Properties

  /** Every event keeps the timer's shape. */
  lemma StepKeepsValid(s: Timer, e: Event)
    requires Valid(s)
    ensures Valid(Step(s, e))
  {
  }

  /** Whatever the user and the timers do, the timer keeps its shape. */
  lemma {:induction false} RunKeepsValid(s: Timer, events: seq<Event>)
    requires Valid(s)
    ensures Valid(Run(s, events))
    decreases |events|
  {
    if |events| > 0 {
      StepKeepsValid(s, events[0]);
      RunKeepsValid(Step(s, events[0]), events[1..]);
    }
  }

  /** The plant never grows past its last stage: completion advances it only
      below `PLANT_STAGES` and the shortcut sets it back to 0. */
  lemma {:induction false} RunKeepsPlantStageInRange(s: Timer, events: seq<Event>)
    requires 0 <= s.plantStage <= PLANT_STAGES
    ensures 0 <= Run(s, events).plantStage <= PLANT_STAGES
    decreases |events|
  {
    if |events| > 0 {
      RunKeepsPlantStageInRange(Step(s, events[0]), events[1..]);
    }
  }

  /** While paused, elapsed time does not depend on the clock. */
  lemma ElapsedFrozenWhilePaused(s: Timer, t1: Instant, t2: Instant)
    requires Valid(s) && s.isPaused
    ensures Elapsed(s, t1) == Elapsed(s, t2)
  {
  }

  /** A pause from `t1` to `t2` adds no elapsed time: right after the resume the
      elapsed time is what it was at the pause, later on it is `t2 - t1` less
      than it would have been without the pause, and the deadline moves back by
      exactly the length of the pause. */
  lemma PauseThenResumeKeepsElapsed(s: Timer, t1: Instant, t2: Instant)
    requires Valid(s) && s.isRunning
    ensures var r := Start(Pause(s, t1), t2);
            && Valid(r) && r.isRunning
            && Elapsed(r, t2) == Elapsed(s, t1)
            && (forall now :: Elapsed(r, now) == Elapsed(s, now) - (t2 - t1))
            && (s.duration.Finite? ==> Deadline(r) == Deadline(s) + (t2 - t1))
  {
    var p := Pause(s, t1);
    assert Elapsed(Start(p, t2), t2) == Elapsed(p, t2);
  }

  /** Pausing twice is pausing once. */
  lemma PauseIsIdempotent(s: Timer, t1: Instant, t2: Instant)
    ensures Pause(Pause(s, t1), t2) == Pause(s, t1)
  {
  }

  /** Starting a running timer again changes nothing. */
  lemma StartIsIdempotent(s: Timer, t1: Instant, t2: Instant)
    ensures Start(Start(s, t1), t2) == Start(s, t1)
  {
  }

  /** A running countdown completes on a tick exactly when the clock has
      reached its deadline, however late the tick comes. */
  lemma TickCompletesAtDeadline(s: Timer, now: Instant)
    requires Valid(s) && s.isRunning && s.duration.Finite?
    ensures now >= Deadline(s) ==> Tick(s, now) == Complete(s)
    ensures now < Deadline(s) ==> Tick(s, now) == s
  {
    assert Elapsed(s, now) == now - s.startTime.value - s.totalPausedDuration;
  }

  /** Once the interval is cleared, no tick fires. */
  lemma {:induction false} StoppedTimerIgnoresTicks(s: Timer, times: seq<Instant>)
    requires !s.intervalActive
    ensures FireTicks(s, times) == s
    decreases |times|
  {
    if |times| > 0 {
      StoppedTimerIgnoresTicks(s, times[1..]);
    }
  }

  /** However the ticks of a running countdown are spaced, the timer stays as
      it is until the first tick at or after the deadline, which completes the
      session once; later ticks find the interval cleared. */
  lemma {:induction false} TicksCompleteExactlyOnce(s: Timer, times: seq<Instant>)
    requires Valid(s) && s.isRunning && s.duration.Finite?
    ensures (exists i :: 0 <= i < |times| && times[i] >= Deadline(s)) ==> FireTicks(s, times) == Complete(s)
    ensures (forall i :: 0 <= i < |times| ==> times[i] < Deadline(s)) ==> FireTicks(s, times) == s
    decreases |times|
  {
    if |times| > 0 {
      TickCompletesAtDeadline(s, times[0]);
      if times[0] >= Deadline(s) {
        StoppedTimerIgnoresTicks(Complete(s), times[1..]);
      } else {
        TicksCompleteExactlyOnce(s, times[1..]);
        var rest := times[1..];
        if exists i :: 0 <= i < |times| && times[i] >= Deadline(s) {
          var i :| 0 <= i < |times| && times[i] >= Deadline(s);
          assert rest[i - 1] == times[i];
        }
        if forall i :: 0 <= i < |times| ==> times[i] < Deadline(s) {
          assert forall j :: 0 <= j < |rest| ==> rest[j] == times[j + 1];
        }
      }
    }
  }

  /** A session started fresh at `t0` with a numeric length `d` completes on
      the first tick at or after `t0 + d`, crediting `d` to the focus total
      exactly once. */
  lemma FreshSessionCreditsItsLengthOnce(s: Timer, t0: Instant, d: int, times: seq<Instant>)
    requires Valid(s) && PhaseOf(s) in {Idle, AwaitingReset} && s.duration == Finite(d)
    requires exists i :: 0 <= i < |times| && times[i] >= t0 + d
    ensures var r := FireTicks(Start(s, t0), times);
            && r.totalFocusMs == Plus(s.totalFocusMs, Finite(d))
            && PhaseOf(r) == AwaitingReset && r.pendingResets == s.pendingResets + 1
  {
    TicksCompleteExactlyOnce(Start(s, t0), times);
  }

  /** A reset with a blank or non-numeric field makes the length NaN; the
      countdown started after it never completes on a tick. */
  lemma BlankResetNeverCompletes(s: Timer, field: FieldValue, unit: Unit, t0: Instant, now: Instant)
    requires !field.Numeral?
    ensures var r := Start(Reset(s, field, unit), t0);
            r.isRunning && Tick(r, now) == r
  {
    var r := Start(Reset(s, field, unit), t0);
    assert r.duration == NaN;
    assert !AtMostZero(Remaining(r, now));
  }

  /** The NaN length of a blank reset still completes on a confirmed skip,
      and that completion adds NaN to the focus total. */
  lemma BlankResetSkipPoisonsFocusTotal(s: Timer, field: FieldValue, unit: Unit, t0: Instant)
    requires !field.Numeral?
    ensures var r := Start(Reset(s, field, unit), t0);
            var skipped := Skip(r, true);
            && skipped == Complete(r)
            && PhaseOf(skipped) == AwaitingReset
            && skipped.totalFocusMs == NaN
  {
    var r := Start(Reset(s, field, unit), t0);
    assert r.isRunning && r.duration == NaN;
  }

  /** Once the focus total is NaN, no event makes it a number again. */
  lemma {:induction false} NaNFocusTotalIsPermanent(s: Timer, events: seq<Event>)
    requires s.totalFocusMs == NaN
    ensures Run(s, events).totalFocusMs == NaN
    decreases |events|
  {
    if |events| > 0 {
      NaNFocusTotalIsPermanent(Step(s, events[0]), events[1..]);
    }
  }

  /** A reset with a number below 1 in the field gives a length of at most 0:
      the next session completes on its first tick and credits at most 0. */
  lemma NonPositiveResetCompletesAtOnce(s: Timer, n: int, unit: Unit, t0: Instant, now: Instant)
    requires n <= 0 && now >= t0
    ensures var r := Start(Reset(s, Numeral(n), unit), t0);
            && Tick(r, now) == Complete(r)
            && Tick(r, now).totalFocusMs == Plus(s.totalFocusMs, Finite(ConvertToMilliseconds(n, unit)))
  {
    var r := Start(Reset(s, Numeral(n), unit), t0);
    assert Elapsed(r, now) == now - t0;
  }

  /** A session started in the window of an earlier completion's delayed
      reset, and reaching its deadline before that reset fires, completes
      first: it credits its length a second time and schedules a second
      delayed reset. */
  lemma WindowSessionCompletesBeforeDelayedReset(s: Timer, t0: Instant, now: Instant)
    requires Valid(s) && s.isRunning && s.duration.Finite? && now >= t0 + s.duration.value
    ensures var started := Start(Complete(s), t0);
            && Tick(started, now) == Complete(started)
            && Tick(started, now).totalFocusMs == Plus(Plus(s.totalFocusMs, s.duration), s.duration)
            && Tick(started, now).pendingResets == s.pendingResets + 2
  {
    var started := Start(Complete(s), t0);
    assert started.startTime == Some(t0) && started.totalPausedDuration == 0;
    TickCompletesAtDeadline(started, now);
  }

  /** The delayed reset of one completion also stops a session the user
      started before it fired: the new session ends without credit. */
  lemma DelayedResetStopsNextSession(s: Timer, t0: Instant, field: FieldValue, unit: Unit)
    requires Valid(s) && s.isRunning
    ensures var started := Start(Complete(s), t0);
            && started.isRunning
            && var after := CompletionDelayElapsed(started, field, unit);
               !after.isRunning && after.startTime.None? && after.totalFocusMs == started.totalFocusMs
  {
  }
}
