# Focus Timer — a verified model of the countdown state machine

Focus Timer is a browser page that counts down a focus session. Each completed
session grows a plant by one stage, up to stage 6, and adds the session's
length to a stored total of focus hours. The repository holds two versions of
the timer object, and this project models both:

- **docs/script.js** is the drift-free timer. It keeps absolute instants: the
  start instant, the instant of the current pause and the total time spent
  paused. On every 100 ms tick it recomputes the elapsed time from those
  instants, so a late tick or a suspended tab cannot make it drift. Modules:
  `TimestampModel` (pure transitions and lemmas) and `TimestampTimer` (the
  class).
- **script.js** is the earlier tick-counting timer. Each one-second tick takes
  one second off `totalSeconds` and rewrites `minutes` and `seconds` from it.
  Every `start`, including a resume, snapshots the time left as
  `initialTotalSeconds`, and completion credits that snapshot. Modules:
  `TickCountModel` and `TickCountTimer`.
- `JsValues` holds the JavaScript values both timers compute with:
  - `Num`: an integer or NaN.
  - `FieldValue`: what `parseInt` reads from an input field. It is either
    blank, a non-numeric text, or a number.
  - Positive `Instant`s for `Date.now()`.
  - `Math.ceil`, `Math.floor` and the truncating `%` as the page uses them.

Each timer is modelled twice:

- A datatype `Timer` with one pure function per operation (`Start`, `Pause`,
  `Tick`, `Complete`, …).
- A `class FocusTimer` with the source's fields. Its methods update those
  fields in place, with the same branches as the source. Each method ensures
  that its new state is the model function applied to the old state.

The properties are lemmas about the model functions:

- **Invariants that every sequence of events keeps.** These are `Valid` and
  the plant-stage bound `0..6`.
- **Drift-freedom.** This covers the elapsed time being frozen while paused,
  a resume keeping the elapsed time of the pause, and completion on the first
  tick at or after the deadline, exactly once.
- **The tick-count countdown.** There is one second per tick, and completion
  comes on the tick after zero.
- **Idempotence** of `pause` and `start`.

Clicks, edits and timer firings are the `Event`s. `Step` and `Run` apply
them, in the way the page wires its buttons, input fields and keyboard
shortcut to the timer (docs/script.js:113-138, script.js:35-46) and fires the
interval set in `start` and the delayed reset of `complete`. Two things the page schedules are stood for explicitly:

- `intervalActive` stands for `setInterval`. An `IntervalFired` event only
  ticks while it is set.
- `pendingResets` counts the `setTimeout(reset, 3000)` callbacks of
  `complete` that have not fired yet.

Behaviours of the code that the model keeps and proves:

- `getElapsedTime` in docs/script.js does not clamp at zero.
- `reset` in both files parses the input field without the checks that
  `updateTimerFromInput` applies:
  - In docs/script.js, a blank field gives a NaN length that no tick
    completes (`BlankResetNeverCompletes`). A confirmed skip still completes
    that session and turns the focus total into NaN for good
    (`BlankResetSkipPoisonsFocusTotal`, `TimestampModel.NaNFocusTotalIsPermanent`).
  - In docs/script.js, a number below 1 completes on the first tick and
    credits at most 0 (`NonPositiveResetCompletesAtOnce`).
  - In script.js, a blank field completes on the first tick and turns the
    focus total into NaN for good (`BlankResetPoisonsFocusTotal`,
    `NaNFocusTotalIsPermanent`).
- Nothing cancels the delayed reset of `complete`. In docs/script.js a
  session started in the 3-second window is stopped without credit if the
  delayed reset fires before its deadline (`DelayedResetStopsNextSession`).
  A session shorter than the rest of the window completes first: it credits
  its length a second time, grows the plant below stage 6 and schedules a
  second delayed reset (`WindowSessionCompletesBeforeDelayedReset`).
- In script.js, pressing start again in that window restarts with the time
  left at completion: the first tick completes again, crediting that time
  left once more and growing the plant again below stage 6
  (`RestartBeforeDelayedResetCompletesAgain`). After a session that counted
  down to zero this credits nothing; after a reset with a negative field it
  credits the negative length a second time.
- In script.js, a paused and resumed session credits only the time that was
  left at the resume (`PausedSessionCreditsOnlyTimeLeft`).

## Model

| member | source | states |
|---|---|---|
| TimestampModel.ConvertToMilliseconds | docs/script.js:514-525 | seconds ×1000, minutes ×60000, hours ×3600000, an unrecognised unit as minutes; a value ≥ 1 gives at least 1000 ms, a value ≤ 0 at most 0 |
| TimestampModel.Initial | docs/script.js:49-96 | the constructor leaves the timer Idle and valid, with the length from the field or 25 units when the field is blank, not a number or 0, in the selected unit; plant stage and focus total come from storage, the total as `parseFloat` reads it, NaN included |
| TimestampModel.Elapsed | docs/script.js:288-293 | 0 without a start instant; otherwise the time from the start instant to `now`, or to the pause instant while paused, minus the total time paused |
| TimestampModel.Remaining | docs/script.js:276-278 | `max(0, duration - elapsed)`: never negative, NaN exactly when the length is, and remaining + elapsed = duration while elapsed ≤ duration |
| TimestampModel.Start | docs/script.js:189-219 | no-op while running; a fresh start sets the start instant to `now` and the paused total to 0; a resume adds `now - pausedTime` to the paused total and clears the pause instant; from any valid state the timer is then Running, and on a resume the elapsed time equals the elapsed time at the pause |
| TimestampModel.Pause | docs/script.js:221-237 | changes nothing unless running and not paused; otherwise records the pause instant, clears the interval and freezes the elapsed time at its value at `now` |
| TimestampModel.AdvancePlantStage | docs/script.js:341-345 | the plant stage goes up by exactly one and nothing else changes |
| TimestampModel.Complete | docs/script.js:295-339 | result is awaiting its delayed reset (`AwaitingReset`) and valid, with every instant cleared; the focus total grows by the session length; the plant grows only below stage 6; one delayed reset is scheduled |
| TimestampModel.Skip | docs/script.js:239-245 | completes only a running or paused session whose skip was confirmed; from Idle it changes nothing |
| TimestampModel.Tick | docs/script.js:276-286 | the result is either the unchanged timer or `Complete`, and it is `Complete` exactly when the remaining time is at most zero |
| TimestampModel.Reset | docs/script.js:247-274 | leaves the timer stopped and valid, with every instant cleared; the length is the field's number in the selected unit, or NaN for a blank or non-numeric field; plant, focus total and pending resets are kept |
| TimestampModel.CompletionDelayElapsed | docs/script.js:334-338 | the delayed callback consumes one pending reset and resets the timer, whatever state it is in |
| TimestampModel.UpdateTimerFromInput | docs/script.js:162-187 | ignored while running; a number ≥ 1 sets the length and unit; a blank field sets 1 unit of the previously accepted unit; anything else changes nothing; any length it sets is at least 1000 ms |
| TimestampModel.SetPresetTime | docs/script.js:473-507 | ignored while running; otherwise the length is the preset's minutes × 60000 ms, shown in seconds below 1 minute, in hours from 60 minutes and in minutes otherwise |
| TimestampModel.ResetPlantProgress | docs/script.js:113-123 | once confirmed, the plant stage is 0 and nothing else changes |
| TimestampModel.DisplaySeconds | docs/script.js:405-414 | the displayed whole seconds are the least number of seconds covering the remaining time while running or paused, or covering the whole length otherwise |
| TimestampModel.Clock | docs/script.js:416-417 | for every total, minutes = ⌊total / 60⌋ and seconds is the truncating remainder (total − seconds a multiple of 60, seconds strictly between −60 and 60); for a non-negative total minutes × 60 + seconds = total with 0 ≤ seconds < 60; a negative total gives negative minutes and seconds in (-60, 0] |
| TimestampModel.RunKeepsValid | docs/script.js:189-339 | any sequence of clicks, edits and timer firings keeps the timer running, paused or stopped, with exactly the instants that phase needs and an interval exactly while running |
| TimestampModel.RunKeepsPlantStageInRange | docs/script.js:306-310 | a plant stage within 0..6 stays within 0..6 after any sequence of events |
| TimestampModel.ElapsedFrozenWhilePaused | docs/script.js:291 | while paused, the elapsed time is the same at every instant |
| TimestampModel.PauseThenResumeKeepsElapsed | docs/script.js:198-202 | after a pause at t1 and a resume at t2, the elapsed time at t2 equals the elapsed time at t1; from then on it is t2 − t1 below the unpaused value; the deadline moves by exactly t2 − t1 |
| TimestampModel.PauseIsIdempotent | docs/script.js:222-226 | pausing twice equals pausing once |
| TimestampModel.StartIsIdempotent | docs/script.js:190 | starting twice equals starting once |
| TimestampModel.TickCompletesAtDeadline | docs/script.js:276-292 | a tick on a running countdown of numeric length completes it iff `now` has reached start + paused total + length, otherwise it changes nothing |
| TimestampModel.StoppedTimerIgnoresTicks | docs/script.js:298 | once the interval is cleared, firings change nothing |
| TimestampModel.TicksCompleteExactlyOnce | docs/script.js:276-298 | over any sequence of tick instants, a running countdown stays unchanged while every tick is before the deadline, and ends completed exactly once when some tick is at or after it |
| TimestampModel.FreshSessionCreditsItsLengthOnce | docs/script.js:194-302 | a session started fresh at t0 with length d, ticked at least once at or after t0 + d, ends awaiting its delayed reset, having credited d to the focus total exactly once |
| TimestampModel.BlankResetNeverCompletes | docs/script.js:257-259 | after a reset with a blank or non-numeric field, the started countdown has a NaN length and no tick completes it |
| TimestampModel.BlankResetSkipPoisonsFocusTotal | docs/script.js:239-245 | after a reset with a blank or non-numeric field, a confirmed skip of the started session completes it and the focus total becomes NaN |
| TimestampModel.NaNFocusTotalIsPermanent | docs/script.js:301-303 | once the focus total is NaN, no sequence of events makes it a number again |
| TimestampModel.NonPositiveResetCompletesAtOnce | docs/script.js:257-259 | after a reset with a number ≤ 0, the first tick completes the session and credits that non-positive length |
| TimestampModel.DelayedResetStopsNextSession | docs/script.js:334-338 | a session started after completion and before the delayed reset, and not completed before the reset fires, is stopped by that reset, without credit |
| TimestampModel.WindowSessionCompletesBeforeDelayedReset | docs/script.js:276-338 | a session started after completion and before the delayed reset, ticked at or after its deadline before the reset fires, completes: it credits the same length a second time and a second delayed reset is pending |
| TimestampTimer.FocusTimer.constructor | docs/script.js:2-124 | the fields are those of `TimestampModel.Initial`, which is valid and Idle |
| TimestampTimer.FocusTimer.GetElapsedTime | docs/script.js:288-293 | returns `TimestampModel.Elapsed` of the fields; while paused, pause instant − start − paused total |
| TimestampTimer.FocusTimer.DisplayTime | docs/script.js:405-422 | the minutes and seconds written are `Clock` of `DisplaySeconds` and are absent exactly when the length is NaN; while running or paused they are non-negative with seconds < 60 |
| TimestampTimer.FocusTimer.Start | docs/script.js:189-219 | updates the fields in place to `TimestampModel.Start` of the old fields and keeps them valid |
| TimestampTimer.FocusTimer.Pause | docs/script.js:221-237 | updates the fields in place to `TimestampModel.Pause` of the old fields and keeps them valid |
| TimestampTimer.FocusTimer.Skip | docs/script.js:239-245 | updates the fields in place to `TimestampModel.Skip` and keeps them valid |
| TimestampTimer.FocusTimer.Reset | docs/script.js:247-274 | updates the fields in place to `TimestampModel.Reset` and leaves them valid |
| TimestampTimer.FocusTimer.Tick | docs/script.js:276-286 | updates the fields in place to `TimestampModel.Tick`, calling `Complete` when the remaining time is at most zero |
| TimestampTimer.FocusTimer.Complete | docs/script.js:295-339 | updates the fields in place to `TimestampModel.Complete` and leaves them valid |
| TimestampTimer.FocusTimer.AdvancePlantStage | docs/script.js:341-345 | updates the fields in place to `TimestampModel.AdvancePlantStage`, keeping them valid when they were |
| TimestampTimer.FocusTimer.CompletionDelayElapsed | docs/script.js:334-338 | updates the fields in place to `TimestampModel.CompletionDelayElapsed` |
| TimestampTimer.FocusTimer.UpdateTimerFromInput | docs/script.js:162-187 | updates the fields in place to `TimestampModel.UpdateTimerFromInput` and keeps them valid |
| TimestampTimer.FocusTimer.SetPresetTime | docs/script.js:473-507 | updates the fields in place to `TimestampModel.SetPresetTime` and keeps them valid |
| TimestampTimer.FocusTimer.ResetPlantProgress | docs/script.js:113-123 | updates the fields in place to `TimestampModel.ResetPlantProgress` |
| TickCountModel.Initial | script.js:2-33 | the constructor leaves the timer stopped and valid, with `minutes` from the field, or 25 when it is blank, not a number or 0, seconds 0 and both totals = minutes × 60; plant stage and focus total come from storage, the total as `parseFloat` reads it, NaN included |
| TickCountModel.Start | script.js:74-88 | no-op while running; otherwise running, with the total recomputed as minutes × 60 + seconds and snapshotted as the initial total; from a valid state the time left is unchanged |
| TickCountModel.Pause | script.js:90-99 | acts only while running, and then only stops the timer and its interval |
| TickCountModel.AdvancePlantStage | script.js:160-164 | the plant stage goes up by exactly one and nothing else changes |
| TickCountModel.Complete | script.js:130-158 | stopped; the focus total grows by the initial total snapshotted at the last start; the plant grows only below stage 6; one delayed reset is scheduled; the countdown fields are kept |
| TickCountModel.Tick | script.js:119-128 | with a positive total: one second less, with minutes × 60 + seconds = total and 0 ≤ seconds < 60, and nothing else changed; otherwise (zero, negative or NaN) `Complete`; a non-negative total never becomes negative |
| TickCountModel.Reset | script.js:101-117 | stopped and valid; minutes are what `parseInt` reads in the field (NaN for a blank or non-numeric field) with no range check; seconds 0; both totals = minutes × 60 |
| TickCountModel.CompletionDelayElapsed | script.js:155-157 | the delayed callback consumes one pending reset and resets the timer |
| TickCountModel.UpdateTimerFromInput | script.js:48-72 | ignored while running; 1..120 minutes set the length, a blank field sets 1 minute, anything else changes nothing; any length it sets lies in 60..7200 seconds |
| TickCountModel.SetPresetTime | script.js:246-263 | ignored while running; otherwise minutes = preset, seconds 0, both totals = preset × 60 |
| TickCountModel.RunKeepsValid | script.js:74-164 | any sequence of events keeps minutes × 60 + seconds = total with 0 ≤ seconds < 60, the time left at most the initial total, and an interval exactly while running |
| TickCountModel.RunKeepsPlantStageInRange | script.js:141-144 | a plant stage within 0..6 stays within 0..6 after any sequence of events |
| TickCountModel.NaNFocusTotalIsPermanent | script.js:135-137 | once the focus total is NaN, no sequence of events makes it a number again |
| TickCountModel.PauseIsIdempotent | script.js:90-93 | pausing twice equals pausing once |
| TickCountModel.ResumeSnapshotsTimeLeft | script.js:75-78 | a pause followed by a start keeps the time left and makes it the new initial total |
| TickCountModel.StoppedTimerIgnoresTicks | script.js:132 | once the interval is cleared, firings change nothing |
| TickCountModel.FireTicksSplit | script.js:86 | a + b firings are a firings followed by b |
| TickCountModel.CountsDownOnePerTick | script.js:119-124 | with n seconds left, each of the next k ≤ n ticks takes off exactly one second, and the timer stays running and valid with everything else unchanged |
| TickCountModel.CompletesOnTickAfterZero | script.js:119-137 | with n ≥ 0 seconds left, tick n + 1 completes the session and credits the initial total; further firings change nothing |
| TickCountModel.PausedSessionCreditsOnlyTimeLeft | script.js:75-78 | an n-second session run through credits n seconds; paused after k ticks and resumed, it credits only n − k |
| TickCountModel.RestartBeforeDelayedResetCompletesAgain | script.js:74-157 | for a session completed with 0 or fewer seconds left (a countdown to zero, or a reset with a negative field), a start before the delayed reset completes again on the first tick, crediting that time left again (0 after a countdown) and growing the plant again below stage 6 |
| TickCountModel.BlankResetPoisonsFocusTotal | script.js:105-107 | after a reset with a blank or non-numeric field, the first tick completes the session and the focus total becomes NaN |
| TickCountTimer.FocusTimer.constructor | script.js:2-33 | the fields are those of `TickCountModel.Initial`, which is valid |
| TickCountTimer.FocusTimer.DisplayTime | script.js:206-210 | the minutes and seconds shown recombine to the total, with 0 ≤ seconds < 60, and are absent exactly when the total is NaN |
| TickCountTimer.FocusTimer.Start | script.js:74-88 | updates the fields in place to `TickCountModel.Start` and keeps them valid |
| TickCountTimer.FocusTimer.Pause | script.js:90-99 | updates the fields in place to `TickCountModel.Pause` and keeps them valid |
| TickCountTimer.FocusTimer.Reset | script.js:101-117 | updates the fields in place to `TickCountModel.Reset` and leaves them valid |
| TickCountTimer.FocusTimer.Tick | script.js:119-128 | decrements `totalSeconds` in place and rewrites `minutes` and `seconds` from it, or calls `Complete`, as `TickCountModel.Tick` does; keeps the fields valid |
| TickCountTimer.FocusTimer.Complete | script.js:130-158 | updates the fields in place to `TickCountModel.Complete` and keeps them valid |
| TickCountTimer.FocusTimer.AdvancePlantStage | script.js:160-164 | updates the fields in place to `TickCountModel.AdvancePlantStage`, keeping them valid when they were |
| TickCountTimer.FocusTimer.CompletionDelayElapsed | script.js:155-157 | updates the fields in place to `TickCountModel.CompletionDelayElapsed` |
| TickCountTimer.FocusTimer.UpdateTimerFromInput | script.js:48-72 | updates the fields in place to `TickCountModel.UpdateTimerFromInput` and keeps them valid |
| TickCountTimer.FocusTimer.SetPresetTime | script.js:246-263 | updates the fields in place to `TickCountModel.SetPresetTime` and keeps them valid |

## Left out

- Rendering is not modelled:
  - button texts and disabled flags, CSS classes and `document.body.className`;
  - the plant emoji tables, `updatePlantStage`, the plant selector modal and `selectPlant`;
  - `updateTotalFocusDisplay` and the `padStart` text of `updateDisplay`. Only the minutes/seconds numbers are modelled.
- `showCelebration` is not modelled: it is rendering and uses `Math.random`.
- Audio, browser notifications and the title flashing (`playNotification`, `showBrowserNotification`, `flashTabTitle`) are foreign browser APIs. They hold no timer state.
- Real asynchronous timing is not modelled:
  - `setInterval` is the `intervalActive` flag. Its period (100 ms or 1 s) is not modelled.
  - In script.js each tick is taken to be one second.
  - `setTimeout(reset, 3000)` is the `pendingResets` counter with an explicit `CompletionDelayElapsed` call.
  - The `visibilitychange` handler only redraws.
- `Date.now()` is the `now` parameter. It is taken to be positive, so the instant 0 (falsy in JavaScript) is not modelled.
- `confirm()` is the `confirmed` parameter.
- `localStorage` writes are not modelled. Stored values enter as constructor parameters. A corrupt stored `plantStage`, parsed as NaN, is not modelled. A stored focus total of "NaN", which `complete` writes after a NaN credit, is modelled: the constructors take the stored total as a possibly NaN number.
- `totalFocusHours` is a float in hours in the source. The model keeps an exact integer total in milliseconds (docs/script.js) or seconds (script.js). Rounding of the float division is not modelled.
- The progress bar (`updateProgressBar`) is a float percentage and is not modelled.
- `timeValue` in docs/script.js is not a field of the model. Every write to it is immediately converted into `duration`, and nothing else reads it.
- TimestampModel.SetPresetTime: presets are whole minutes. Fractional presets such as 0.5 minutes, and the float value `minutes / 60` of the hours branch, are left out. For whole minutes the model takes `minutes × 60000` ms, equal to the source's floating-point `(minutes / 60) × 3600000` only up to rounding of `minutes / 60` (exact for 60, 90, 120, 180, 240; for 62 minutes the source's length is a fraction of a millisecond longer, so its idle display shows 62:01 where the model shows 62:00).
- The field and unit selector values that `setPresetTime` writes back to the page are not modelled. A later `reset` reads the field the caller passes in.
- Preset buttons in script.js are assumed to carry a numeric `data-minutes`.
- JavaScript numbers are IEEE doubles; the model's numbers are unbounded integers and NaN, so it holds for integers below 2^53 in magnitude only. `Infinity` is left out: `parseInt` gives it for a numeral of about 309 digits or more, and in docs/script.js `updateTimerFromInput` would accept it as a length that no tick completes. The rounding of integers above 2^53, where `totalSeconds--` in script.js no longer takes one second off, is left out too.
- Pomodoro cycles, breaks, daily goals, streaks and session history do not occur in either file and are not modelled.
