/** The earlier focus timer of script.js, as pure state transitions.

    This timer counts: every tick of a one-second interval takes one second off
    `totalSeconds` and rewrites `minutes` and `seconds` from it. Every `start`,
    a resume included, snapshots the time left as `initialTotalSeconds`, and
    that snapshot is what completion credits. The class in TickCountTimer runs
    these transitions in place. */
module TickCountModel {
  import opened JsValues

  /** The plant grows one stage per completed session up to this stage. */
  const PLANT_STAGES := 6
  /** Minutes used when the input field does not hold a usable number at start-up. */
  const DEFAULT_MINUTES := 25
  /** The largest number of minutes the input field accepts. */
  const MAX_MINUTES := 120

  /** The fields of the source's `FocusTimer`. `minutes` and the two totals can
      be NaN because `reset` parses the field without checking it.
      `intervalActive` stands for the `setInterval` handle and `pendingResets`
      for the `setTimeout(reset, 3000)` callbacks not yet fired; the focus
      total is kept in seconds. */
  datatype Timer = Timer(
    minutes: Num,
    seconds: int,
    totalSeconds: Num,
    initialTotalSeconds: Num,
    isRunning: bool,
    plantStage: int,
    totalFocusSeconds: Num,
    intervalActive: bool,
    pendingResets: nat)

  /** The countdown invariant: `minutes * 60 + seconds == totalSeconds` with
      `0 <= seconds < 60` (both sides NaN together), the time left never above
      the snapshot taken at the last start or edit, and a tick interval
      exactly while running. */
  predicate Valid(s: Timer) {
    && s.intervalActive == s.isRunning
    && 0 <= s.seconds < 60
    && s.totalSeconds == Plus(Times(s.minutes, 60), Finite(s.seconds))
    && (s.totalSeconds.Finite? <==> s.initialTotalSeconds.Finite?)
    && (s.totalSeconds.Finite? ==> s.totalSeconds.value <= s.initialTotalSeconds.value)
  }

  /** The constructor: the field's minutes, or 25 when it is blank, not a
      number or 0; plant stage and focus total come from storage, the total
      as `parseFloat` reads it back (NaN once a NaN total has been stored). */
  function Initial(field: FieldValue, storedPlantStage: int, storedFocusSeconds: Num): (r: Timer)
    ensures Valid(r) && !r.isRunning && r.pendingResets == 0
    ensures field.Numeral? && field.n != 0 ==> r.totalSeconds == Finite(field.n * 60)
    ensures !field.Numeral? || field.n == 0 ==> r.totalSeconds == Finite(DEFAULT_MINUTES * 60)
    ensures r.initialTotalSeconds == r.totalSeconds
    ensures r.plantStage == storedPlantStage && r.totalFocusSeconds == storedFocusSeconds
  {
    var minutes := OrDefault(ParseInt(field), DEFAULT_MINUTES);
    Timer(Finite(minutes), 0, Finite(minutes * 60), Finite(minutes * 60), false,
          storedPlantStage, storedFocusSeconds, false, 0)
  }

  /** `start()`: a no-op while running; otherwise it recomputes the total from
      `minutes` and `seconds` and snapshots it as the session length, so a
      resume snapshots only the time left. */
  function Start(s: Timer): (r: Timer)
    ensures s.isRunning ==> r == s
    ensures !s.isRunning ==> r.isRunning && r.intervalActive
    ensures !s.isRunning ==> r.totalSeconds == Plus(Times(s.minutes, 60), Finite(s.seconds))
    ensures !s.isRunning ==> r.initialTotalSeconds == r.totalSeconds
    ensures Valid(s) ==> Valid(r) && r.totalSeconds == s.totalSeconds
    ensures r.minutes == s.minutes && r.seconds == s.seconds
    ensures r.plantStage == s.plantStage && r.totalFocusSeconds == s.totalFocusSeconds
    ensures r.pendingResets == s.pendingResets
  {
    if s.isRunning then s
    else
      var total := Plus(Times(s.minutes, 60), Finite(s.seconds));
      s.(isRunning := true, totalSeconds := total, initialTotalSeconds := total, intervalActive := true)
  }

  /** `pause()`: acts only while running, and then only stops the interval. */
  function Pause(s: Timer): (r: Timer)
    ensures s.isRunning ==> r == s.(isRunning := false, intervalActive := false)
    ensures !s.isRunning ==> r == s
    ensures Valid(s) ==> Valid(r)
  {
    if s.isRunning then s.(isRunning := false, intervalActive := false) else s
  }

  /** `advancePlantStage()`. */
  function AdvancePlantStage(s: Timer): (r: Timer)
    ensures r.plantStage == s.plantStage + 1
    ensures r.(plantStage := s.plantStage) == s
  {
    s.(plantStage := s.plantStage + 1)
  }

  /** `complete()`: stops the countdown, credits the snapshot taken at the last
      start, grows the plant below stage 6 and schedules the delayed reset. */
  function Complete(s: Timer): (r: Timer)
    ensures !r.isRunning && !r.intervalActive
    ensures r.totalFocusSeconds == Plus(s.totalFocusSeconds, s.initialTotalSeconds)
    ensures s.plantStage < PLANT_STAGES ==> r.plantStage == s.plantStage + 1
    ensures s.plantStage >= PLANT_STAGES ==> r.plantStage == s.plantStage
    ensures r.pendingResets == s.pendingResets + 1
    ensures r.minutes == s.minutes && r.seconds == s.seconds
    ensures r.totalSeconds == s.totalSeconds && r.initialTotalSeconds == s.initialTotalSeconds
    ensures Valid(s) ==> Valid(r)
  {
    var stopped := s.(isRunning := false, intervalActive := false,
                      totalFocusSeconds := Plus(s.totalFocusSeconds, s.initialTotalSeconds));
    var grown := if stopped.plantStage < PLANT_STAGES then AdvancePlantStage(stopped) else stopped;
    grown.(pendingResets := s.pendingResets + 1)
  }

  /** `tick()`: while time is left it takes one second off and rewrites
      `minutes` and `seconds`; once the total is not positive (or NaN) it
      completes the session. */
  function Tick(s: Timer): (r: Timer)
    ensures Positive(s.totalSeconds) ==>
              && r.totalSeconds == Finite(s.totalSeconds.value - 1)
              && r.minutes.Finite? && r.minutes.value * 60 + r.seconds == r.totalSeconds.value
              && 0 <= r.seconds < 60 && r.minutes.value >= 0
              && r == s.(totalSeconds := r.totalSeconds, minutes := r.minutes, seconds := r.seconds)
    ensures !Positive(s.totalSeconds) ==> r == Complete(s)
    ensures s.totalSeconds.Finite? && s.totalSeconds.value >= 0 ==> r.totalSeconds.value >= 0
    ensures Valid(s) ==> Valid(r)
  {
    if Positive(s.totalSeconds) then
      var total := s.totalSeconds.value - 1;
      s.(totalSeconds := Finite(total), minutes := Finite(FloorMinutes(total)), seconds := JsRemainder60(total))
    else Complete(s)
  }

  /** `reset()`: stops the countdown and takes the minutes from whatever
      `parseInt` reads in the field, without the 1..120 check of
      `updateTimerFromInput`: a blank or non-numeric field gives NaN. */
  function Reset(s: Timer, field: FieldValue): (r: Timer)
    ensures Valid(r) && !r.isRunning
    ensures r.minutes == ParseInt(field) && r.seconds == 0
    ensures field.Numeral? ==> r.totalSeconds == Finite(field.n * 60)
    ensures !field.Numeral? ==> r.totalSeconds == NaN
    ensures r.initialTotalSeconds == r.totalSeconds
    ensures r.plantStage == s.plantStage && r.totalFocusSeconds == s.totalFocusSeconds
    ensures r.pendingResets == s.pendingResets
  {
    var minutes := ParseInt(field);
    var total := Times(minutes, 60);
    s.(isRunning := false, intervalActive := false, minutes := minutes, seconds := 0,
       totalSeconds := total, initialTotalSeconds := total)
  }

  /** The `setTimeout` callback of `complete`: three seconds later it resets
      the timer, whatever happened meanwhile. */
  function CompletionDelayElapsed(s: Timer, field: FieldValue): (r: Timer)
    requires s.pendingResets > 0
    ensures r == Reset(s, field).(pendingResets := s.pendingResets - 1)
    ensures !r.isRunning
  {
    Reset(s.(pendingResets := s.pendingResets - 1), field)
  }

  /** Whether `updateTimerFromInput` accepts a field as the new length. */
  predicate Accepted(field: FieldValue) {
    field.Numeral? && 1 <= field.n <= MAX_MINUTES
  }

  /** `updateTimerFromInput()`: ignored while running; 1 to 120 minutes set a
      new length, a blank field sets 1 minute, anything else changes nothing. */
  function UpdateTimerFromInput(s: Timer, field: FieldValue): (r: Timer)
    ensures s.isRunning ==> r == s
    ensures !s.isRunning && Accepted(field) ==>
              r == s.(minutes := Finite(field.n), seconds := 0,
                      totalSeconds := Finite(field.n * 60), initialTotalSeconds := Finite(field.n * 60))
    ensures !s.isRunning && field.Blank? ==>
              r == s.(minutes := Finite(1), seconds := 0, totalSeconds := Finite(60), initialTotalSeconds := Finite(60))
    ensures !Accepted(field) && !field.Blank? ==> r == s
    ensures r != s ==> r.totalSeconds.Finite? && 60 <= r.totalSeconds.value <= MAX_MINUTES * 60
    ensures Valid(s) ==> Valid(r)
  {
    if s.isRunning then s
    else if Accepted(field) then
      var total := field.n * 60;
      s.(minutes := Finite(field.n), seconds := 0, totalSeconds := Finite(total), initialTotalSeconds := Finite(total))
    else if field.Blank? then
      s.(minutes := Finite(1), seconds := 0, totalSeconds := Finite(60), initialTotalSeconds := Finite(60))
    else s
  }

  /** `setPresetTime(button)` for a preset of `minutes`: ignored while running. */
  function SetPresetTime(s: Timer, minutes: int): (r: Timer)
    ensures s.isRunning ==> r == s
    ensures !s.isRunning ==>
              r == s.(minutes := Finite(minutes), seconds := 0,
                      totalSeconds := Finite(minutes * 60), initialTotalSeconds := Finite(minutes * 60))
    ensures Valid(s) ==> Valid(r)
  {
    if s.isRunning then s
    else
      var total := minutes * 60;
      s.(minutes := Finite(minutes), seconds := 0, totalSeconds := Finite(total), initialTotalSeconds := Finite(total))
  }

  /** What the page can make happen to the timer. */
  datatype Event =
    | StartClicked
    | PauseClicked
    | ResetClicked(field: FieldValue)
    | InputChanged(field: FieldValue)
    | PresetClicked(minutes: int)
    | IntervalFired
    | CompletionDelayFired(field: FieldValue)

  /** One event. The interval fires only while it is set and a delayed reset
      only when one is pending. */
  function Step(s: Timer, e: Event): Timer {
    match e
    case StartClicked => Start(s)
    case PauseClicked => Pause(s)
    case ResetClicked(field) => Reset(s, field)
    case InputChanged(field) => UpdateTimerFromInput(s, field)
    case PresetClicked(minutes) => SetPresetTime(s, minutes)
    case IntervalFired => if s.intervalActive then Tick(s) else s
    case CompletionDelayFired(field) => if s.pendingResets > 0 then CompletionDelayElapsed(s, field) else s
  }

  /** A whole session of events, in order. */
  function Run(s: Timer, events: seq<Event>): Timer
    decreases |events|
  {
    if |events| == 0 then s else Run(Step(s, events[0]), events[1..])
  }

  /** `k` firings of the one-second interval, each only while it is set. */
  function FireTicks(s: Timer, k: nat): Timer
    decreases k
  {
    if k == 0 then s else FireTicks(if s.intervalActive then Tick(s) else s, k - 1)
  }

  // ---------------------------------------------------------------------------
  // Properties

  /** Every event keeps the countdown invariant. */
  lemma StepKeepsValid(s: Timer, e: Event)
    requires Valid(s)
    ensures Valid(Step(s, e))
  {
  }

  /** Whatever the user and the timers do, the countdown invariant holds. */
  lemma {:induction false} RunKeepsValid(s: Timer, events: seq<Event>)
    requires Valid(s)
    ensures Valid(Run(s, events))
    decreases |events|
  {
    if |events| > 0 {
      StepKeepsValid(s, events[0]);
      RunKeepsValid(Step(s, events[0]), events[1..]);
    }
  }

  /** The plant never grows past stage 6. */
  lemma {:induction false} RunKeepsPlantStageInRange(s: Timer, events: seq<Event>)
    requires 0 <= s.plantStage <= PLANT_STAGES
    ensures 0 <= Run(s, events).plantStage <= PLANT_STAGES
    decreases |events|
  {
    if |events| > 0 {
      RunKeepsPlantStageInRange(Step(s, events[0]), events[1..]);
    }
  }

  /** Once the focus total is NaN, no event makes it a number again. */
  lemma {:induction false} NaNFocusTotalIsPermanent(s: Timer, events: seq<Event>)
    requires s.totalFocusSeconds == NaN
    ensures Run(s, events).totalFocusSeconds == NaN
    decreases |events|
  {
    if |events| > 0 {
      NaNFocusTotalIsPermanent(Step(s, events[0]), events[1..]);
    }
  }

  /** Pausing twice is pausing once. */
  lemma PauseIsIdempotent(s: Timer)
    ensures Pause(Pause(s)) == Pause(s)
  {
  }

  /** A pause and a resume keep the time left, and the resume makes that time
      left the new session length. */
  lemma ResumeSnapshotsTimeLeft(s: Timer)
    requires Valid(s) && s.isRunning
    ensures var r := Start(Pause(s));
            r.isRunning && r.totalSeconds == s.totalSeconds && r.initialTotalSeconds == s.totalSeconds
  {
  }

  /** Once the interval is cleared, no tick fires. */
  lemma {:induction false} StoppedTimerIgnoresTicks(s: Timer, k: nat)
    requires !s.intervalActive
    ensures FireTicks(s, k) == s
    decreases k
  {
    if k > 0 {
      StoppedTimerIgnoresTicks(s, k - 1);
    }
  }

  /** `a + b` firings are `a` firings followed by `b`. */
  lemma {:induction false} FireTicksSplit(s: Timer, a: nat, b: nat)
    ensures FireTicks(s, a + b) == FireTicks(FireTicks(s, a), b)
    decreases a
  {
    if a > 0 {
      FireTicksSplit(if s.intervalActive then Tick(s) else s, a - 1, b);
    }
  }

  /** With `n` seconds left, each of the next `n` ticks takes exactly one
      second off and changes nothing else. */
  lemma {:induction false} CountsDownOnePerTick(s: Timer, k: nat)
    requires Valid(s) && s.isRunning && s.totalSeconds.Finite? && k <= s.totalSeconds.value
    ensures var r := FireTicks(s, k);
            && Valid(r) && r.isRunning
            && r.totalSeconds == Finite(s.totalSeconds.value - k)
            && r.initialTotalSeconds == s.initialTotalSeconds
            && r.plantStage == s.plantStage && r.totalFocusSeconds == s.totalFocusSeconds
            && r.pendingResets == s.pendingResets
    decreases k
  {
    if k > 0 {
      CountsDownOnePerTick(Tick(s), k - 1);
    }
  }

  /** With `n >= 0` seconds left, the session completes on tick `n + 1`, the
      one after the count reaches zero, crediting the snapshot once: any
      number `j` of further firings changes nothing. */
  lemma CompletesOnTickAfterZero(s: Timer, j: nat)
    requires Valid(s) && s.isRunning && s.totalSeconds.Finite? && s.totalSeconds.value >= 0
    ensures var n := s.totalSeconds.value;
            && FireTicks(s, n + 1 + j) == Complete(FireTicks(s, n))
            && FireTicks(s, n + 1 + j).totalFocusSeconds == Plus(s.totalFocusSeconds, s.initialTotalSeconds)
            && !FireTicks(s, n + 1 + j).isRunning
  {
    var n := s.totalSeconds.value;
    CountsDownOnePerTick(s, n);
    FireTicksSplit(s, n, 1 + j);
    var z := FireTicks(s, n);
    assert FireTicks(z, 1 + j) == FireTicks(Complete(z), j);
    StoppedTimerIgnoresTicks(Complete(z), j);
  }

  /** A session of `n` seconds run to completion credits `n` seconds; paused
      after `k` ticks and resumed, it credits only the `n - k` seconds that
      were left at the resume. */
  lemma PausedSessionCreditsOnlyTimeLeft(s: Timer, k: nat)
    requires Valid(s) && !s.isRunning && s.totalSeconds.Finite? && k <= s.totalSeconds.value
    ensures var n := s.totalSeconds.value;
            FireTicks(Start(s), n + 1).totalFocusSeconds == Plus(s.totalFocusSeconds, Finite(n))
    ensures var n := s.totalSeconds.value;
            var resumed := Start(Pause(FireTicks(Start(s), k)));
            FireTicks(resumed, n - k + 1).totalFocusSeconds == Plus(s.totalFocusSeconds, Finite(n - k))
  {
    var n := s.totalSeconds.value;
    CompletesOnTickAfterZero(Start(s), 0);
    CountsDownOnePerTick(Start(s), k);
    var resumed := Start(Pause(FireTicks(Start(s), k)));
    CompletesOnTickAfterZero(resumed, 0);
  }

  /** Pressing start again before the delayed reset fires restarts a countdown
      with the time left at completion, which is 0 after a countdown and below
      0 after a reset with a negative field: its first tick completes it again,
      crediting that time left once more (nothing after a countdown) and
      growing the plant again below its last stage. */
  lemma RestartBeforeDelayedResetCompletesAgain(s: Timer)
    requires Valid(s) && s.isRunning && s.totalSeconds.Finite? && s.totalSeconds.value <= 0
    ensures var done := Tick(s);
            var again := Tick(Start(done));
            && !done.isRunning
            && again.totalFocusSeconds == Plus(done.totalFocusSeconds, s.totalSeconds)
            && (done.plantStage < PLANT_STAGES ==> again.plantStage == done.plantStage + 1)
            && again.pendingResets == done.pendingResets + 1
  {
    var done := Tick(s);
    assert done == Complete(s);
    assert done.totalSeconds == s.totalSeconds && Valid(done);
    var restarted := Start(done);
    assert restarted.totalSeconds == s.totalSeconds && restarted.initialTotalSeconds == s.totalSeconds;
    var again := Tick(restarted);
    assert again == Complete(restarted);
  }

  /** A reset with a blank or non-numeric field makes the next session
      complete on its first tick and turns the stored focus total into NaN. */
  lemma BlankResetPoisonsFocusTotal(s: Timer, field: FieldValue)
    requires !field.Numeral?
    ensures var r := Tick(Start(Reset(s, field)));
            !r.isRunning && r.totalFocusSeconds == NaN
  {
  }
}
