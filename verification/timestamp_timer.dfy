/** The `FocusTimer` object of docs/script.js: the same fields, updated in
    place by methods shaped like the source's, each tied to the transition of
    TimestampModel it performs. `now` stands for `Date.now()`; the input field
    and the unit selector are passed in where the source reads the page. */
module TimestampTimer {
  import opened JsValues
  import M = TimestampModel

  class FocusTimer {
    var isRunning: bool
    var isPaused: bool
    var startTime: Option<Instant>
    var pausedTime: Option<Instant>
    var totalPausedDuration: int
    var duration: Num
    var timeUnit: M.Unit
    var plantStage: int
    var totalFocusMs: Num
    var intervalActive: bool
    var pendingResets: nat

    /** The timer's fields as a value of the model. */
    function Snapshot(): M.Timer
      reads this
    {
      M.Timer(isRunning, isPaused, startTime, pausedTime, totalPausedDuration, duration,
              timeUnit, plantStage, totalFocusMs, intervalActive, pendingResets)
    }

    predicate Valid()
      reads this
    {
      M.Valid(Snapshot())
    }

    constructor (field: FieldValue, unit: M.Unit, storedPlantStage: int, storedFocusMs: Num)
      ensures Valid() && Snapshot() == M.Initial(field, unit, storedPlantStage, storedFocusMs)
    {
      isRunning, isPaused := false, false;
      startTime, pausedTime, totalPausedDuration := None, None, 0;
      var timeValue := OrDefault(ParseInt(field), M.FOCUS_TIME_DEFAULT);
      timeUnit := unit;
      duration := Finite(M.ConvertToMilliseconds(timeValue, unit));
      plantStage := storedPlantStage;
      totalFocusMs := storedFocusMs;
      intervalActive, pendingResets := false, 0;
    }

    method GetElapsedTime(now: Instant) returns (elapsed: int)
      ensures elapsed == M.Elapsed(Snapshot(), now)
      ensures isPaused && pausedTime.Some? && startTime.Some? ==>
                elapsed == pausedTime.value - startTime.value - totalPausedDuration
    {
      if startTime.None? {
        return 0;
      }
      var reference := now;
      if isPaused {
        reference := if pausedTime.Some? then pausedTime.value else 0;
      }
      elapsed := reference - startTime.value - totalPausedDuration;
    }

    /** The minutes and seconds `updateDisplay` writes, or None when the
        length is NaN. */
    method DisplayTime(now: Instant) returns (clock: Option<(int, int)>)
      ensures clock.Some? <==> duration.Finite?
      ensures clock.Some? ==> clock.value == M.Clock(M.DisplaySeconds(Snapshot(), now).value)
      ensures clock.Some? && (isRunning || isPaused) ==> clock.value.0 >= 0 && 0 <= clock.value.1 < 60
    {
      var totalSeconds: Num;
      if isRunning || isPaused {
        var elapsed := GetElapsedTime(now);
        var remaining := Max0(Plus(duration, Finite(-elapsed)));
        totalSeconds := if remaining.Finite? then Finite(CeilSeconds(remaining.value)) else NaN;
      } else {
        totalSeconds := if duration.Finite? then Finite(CeilSeconds(duration.value)) else NaN;
      }
      if totalSeconds.NaN? {
        return None;
      }
      var minutes := FloorMinutes(totalSeconds.value);
      var seconds := JsRemainder60(totalSeconds.value);
      clock := Some((minutes, seconds));
    }

    method Start(now: Instant)
      requires Valid()
      modifies this
      ensures Valid() && Snapshot() == M.Start(old(Snapshot()), now)
    {
      if !isRunning {
        isRunning := true;
        isPaused := false;
        if startTime.None? {
          startTime := Some(now);
          totalPausedDuration := 0;
        } else if pausedTime.Some? {
          totalPausedDuration := totalPausedDuration + (now - pausedTime.value);
          pausedTime := None;
        }
        intervalActive := true;
      }
    }

    method Pause(now: Instant)
      requires Valid()
      modifies this
      ensures Valid() && Snapshot() == M.Pause(old(Snapshot()), now)
    {
      if isRunning && !isPaused {
        isPaused := true;
        isRunning := false;
        pausedTime := Some(now);
        intervalActive := false;
      }
    }

    method Skip(confirmed: bool)
      requires Valid()
      modifies this
      ensures Valid() && Snapshot() == M.Skip(old(Snapshot()), confirmed)
    {
      if isRunning || isPaused {
        if confirmed {
          Complete();
        }
      }
    }

    method Reset(field: FieldValue, unit: M.Unit)
      modifies this
      ensures Valid() && Snapshot() == M.Reset(old(Snapshot()), field, unit)
    {
      isRunning := false;
      isPaused := false;
      intervalActive := false;
      startTime := None;
      pausedTime := None;
      totalPausedDuration := 0;
      var timeValue := ParseInt(field);
      timeUnit := unit;
      duration := if timeValue.Finite? then Finite(M.ConvertToMilliseconds(timeValue.value, unit)) else NaN;
    }

    method Tick(now: Instant)
      requires Valid()
      modifies this
      ensures Valid() && Snapshot() == M.Tick(old(Snapshot()), now)
    {
      var elapsed := GetElapsedTime(now);
      var remaining := Max0(Plus(duration, Finite(-elapsed)));
      if AtMostZero(remaining) {
        Complete();
      }
    }

    method Complete()
      modifies this
      ensures Valid() && Snapshot() == M.Complete(old(Snapshot()))
    {
      isRunning := false;
      isPaused := false;
      intervalActive := false;
      totalFocusMs := Plus(totalFocusMs, duration);
      if plantStage < M.PLANT_STAGES {
        AdvancePlantStage();
      }
      startTime := None;
      pausedTime := None;
      totalPausedDuration := 0;
      pendingResets := pendingResets + 1;
    }

    method AdvancePlantStage()
      modifies this
      ensures Snapshot() == M.AdvancePlantStage(old(Snapshot()))
      ensures old(Valid()) ==> Valid()
    {
      plantStage := plantStage + 1;
    }

    /** The `setTimeout` callback that `complete` schedules. */
    method CompletionDelayElapsed(field: FieldValue, unit: M.Unit)
      requires pendingResets > 0
      modifies this
      ensures Valid() && Snapshot() == M.CompletionDelayElapsed(old(Snapshot()), field, unit)
    {
      pendingResets := pendingResets - 1;
      Reset(field, unit);
    }

    method UpdateTimerFromInput(field: FieldValue, unit: M.Unit)
      requires Valid()
      modifies this
      ensures Valid() && Snapshot() == M.UpdateTimerFromInput(old(Snapshot()), field, unit)
    {
      if isRunning {
        return;
      }
      match field
      case Numeral(n) =>
        if n >= 1 {
          timeUnit := unit;
          duration := Finite(M.ConvertToMilliseconds(n, unit));
        }
      case Blank =>
        duration := Finite(M.ConvertToMilliseconds(1, timeUnit));
      case NonNumeric =>
    }

    method SetPresetTime(minutes: int)
      requires Valid()
      modifies this
      ensures Valid() && Snapshot() == M.SetPresetTime(old(Snapshot()), minutes)
    {
      if isRunning {
        return;
      }
      if minutes < 1 {
        timeUnit := M.Seconds;
        duration := Finite(M.ConvertToMilliseconds(minutes * 60, M.Seconds));
      } else if minutes >= 60 {
        timeUnit := M.Hours;
        // `minutes / 60` hours, taken as exactly `minutes` minutes (the source's float matches up to rounding)
        duration := Finite(M.ConvertToMilliseconds(minutes, M.Minutes));
      } else {
        timeUnit := M.Minutes;
        duration := Finite(M.ConvertToMilliseconds(minutes, M.Minutes));
      }
    }

    method ResetPlantProgress(confirmed: bool)
      requires Valid()
      modifies this
      ensures Valid() && Snapshot() == M.ResetPlantProgress(old(Snapshot()), confirmed)
    {
      if confirmed {
        plantStage := 0;
      }
    }
  }
}
