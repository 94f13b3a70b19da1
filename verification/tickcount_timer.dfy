/** The `FocusTimer` object of script.js: the same fields, updated in place by
    methods shaped like the source's, each tied to the transition of
    TickCountModel it performs. The minutes input field is passed in where the
    source reads the page. */
module TickCountTimer {
  import opened JsValues
  import M = TickCountModel

  class FocusTimer {
    var minutes: Num
    var seconds: int
    var totalSeconds: Num
    var initialTotalSeconds: Num
    var isRunning: bool
    var plantStage: int
    var totalFocusSeconds: Num
    var intervalActive: bool
    var pendingResets: nat

    /** The timer's fields as a value of the model. */
    function Snapshot(): M.Timer
      reads this
    {
      M.Timer(minutes, seconds, totalSeconds, initialTotalSeconds, isRunning,
              plantStage, totalFocusSeconds, intervalActive, pendingResets)
    }

    predicate Valid()
      reads this
    {
      M.Valid(Snapshot())
    }

    constructor (field: FieldValue, storedPlantStage: int, storedFocusSeconds: Num)
      ensures Valid() && Snapshot() == M.Initial(field, storedPlantStage, storedFocusSeconds)
    {
      seconds := 0;
      isRunning := false;
      intervalActive := false;
      pendingResets := 0;
      plantStage := storedPlantStage;
      totalFocusSeconds := storedFocusSeconds;
      var m := OrDefault(ParseInt(field), M.DEFAULT_MINUTES);
      minutes := Finite(m);
      totalSeconds := Finite(m * 60);
      initialTotalSeconds := totalSeconds;
    }

    /** The `mm` and `ss` numbers `updateDisplay` writes, or None while
        `minutes` is NaN. */
    method DisplayTime() returns (clock: Option<(int, int)>)
      requires Valid()
      ensures clock.Some? <==> totalSeconds.Finite?
      ensures clock.Some? ==> clock.value.0 * 60 + clock.value.1 == totalSeconds.value
      ensures clock.Some? ==> 0 <= clock.value.1 < 60
    {
      if minutes.NaN? {
        return None;
      }
      clock := Some((minutes.value, seconds));
    }

    method Start()
      requires Valid()
      modifies this
      ensures Valid() && Snapshot() == M.Start(old(Snapshot()))
    {
      if !isRunning {
        isRunning := true;
        totalSeconds := Plus(Times(minutes, 60), Finite(seconds));
        initialTotalSeconds := totalSeconds;
        intervalActive := true;
      }
    }

    method Pause()
      requires Valid()
      modifies this
      ensures Valid() && Snapshot() == M.Pause(old(Snapshot()))
    {
      if isRunning {
        isRunning := false;
        intervalActive := false;
      }
    }

    method Reset(field: FieldValue)
      modifies this
      ensures Valid() && Snapshot() == M.Reset(old(Snapshot()), field)
    {
      isRunning := false;
      intervalActive := false;
      minutes := ParseInt(field);
      seconds := 0;
      totalSeconds := Times(minutes, 60);
      initialTotalSeconds := totalSeconds;
    }

    method Tick()
      requires Valid()
      modifies this
      ensures Valid() && Snapshot() == M.Tick(old(Snapshot()))
    {
      if Positive(totalSeconds) {
        totalSeconds := Finite(totalSeconds.value - 1);
        minutes := Finite(FloorMinutes(totalSeconds.value));
        seconds := JsRemainder60(totalSeconds.value);
      } else {
        Complete();
      }
    }

    method Complete()
      requires Valid()
      modifies this
      ensures Valid() && Snapshot() == M.Complete(old(Snapshot()))
    {
      isRunning := false;
      intervalActive := false;
      totalFocusSeconds := Plus(totalFocusSeconds, initialTotalSeconds);
      if plantStage < M.PLANT_STAGES {
        AdvancePlantStage();
      }
      pendingResets := pendingResets + 1;
    }

    method AdvancePlantStage()
      modifies this
      ensures Snapshot() == M.AdvancePlantStage(old(Snapshot()))
      ensures old(Valid()) ==> Valid()
    {
      plantStage := plantStage + 1;
    }

    /** The `setTimeout` callback that `complete` schedules. */
    method CompletionDelayElapsed(field: FieldValue)
      requires pendingResets > 0
      modifies this
      ensures Valid() && Snapshot() == M.CompletionDelayElapsed(old(Snapshot()), field)
    {
      pendingResets := pendingResets - 1;
      Reset(field);
    }

    method UpdateTimerFromInput(field: FieldValue)
      requires Valid()
      modifies this
      ensures Valid() && Snapshot() == M.UpdateTimerFromInput(old(Snapshot()), field)
    {
      if isRunning {
        return;
      }
      var inputMinutes := ParseInt(field);
      if inputMinutes.Finite? && 1 <= inputMinutes.value <= M.MAX_MINUTES {
        minutes := inputMinutes;
        seconds := 0;
        totalSeconds := Finite(inputMinutes.value * 60);
        initialTotalSeconds := totalSeconds;
      } else if field.Blank? {
        minutes := Finite(1);
        seconds := 0;
        totalSeconds := Finite(60);
        initialTotalSeconds := totalSeconds;
      }
    }

    method SetPresetTime(presetMinutes: int)
      requires Valid()
      modifies this
      ensures Valid() && Snapshot() == M.SetPresetTime(old(Snapshot()), presetMinutes)
    {
      if isRunning {
        return;
      }
      minutes := Finite(presetMinutes);
      seconds := 0;
      totalSeconds := Finite(presetMinutes * 60);
      initialTotalSeconds := totalSeconds;
    }
  }
}
