/** The acquisition loop of `run_imu` (main/main.c) as a state machine.

    Each pass of the `while (true)` loop reads the three sensor vectors,
    transforms them into the device frame, and on every tenth pass (the
    condition `i++ % 10 == 0` with `i` starting at 0) reads the temperature, prints
    one diagnostic line and resets the task watchdog. `ESP_ERROR_CHECK`
    aborts the program on any status other than `ESP_OK`, which here is a
    transition into the final state `Aborted`.

    The sensor driver is not part of this model: what each pass's calls
    return is supplied as one `Tick` per pass. The loop never ends on its
    own, so `Run` describes the first |ticks| passes.
 */
module ImuLoop {
  import opened Vectors
  import opened Transform

  /** `esp_err_t` success value; every other status is an error. */
  const ESP_OK: int := 0

  /** Passes between two diagnostic lines. */
  const PrintEvery: nat := 10

  /** The three vectors written by `get_accel_gyro_mag`. */
  datatype Reading = Reading(accel: Vec3, gyro: Vec3, mag: Vec3)

  /** The status returned by `get_accel_gyro_mag` and the vectors it wrote. */
  datatype SensorRead = SensorRead(status: int, reading: Reading)

  /** The status returned by `get_temperature_celsius` and the value it wrote. */
  datatype TemperatureRead = TemperatureRead(status: int, celsius: real)

  /** What the external calls return on one pass. The temperature result is
      consulted only on passes that print. */
  datatype Tick = Tick(sensor: SensorRead, temperature: TemperatureRead)

  /** The observable actions of one pass, in the order the source performs them. */
  datatype Event =
    | ReadSensors
    | TransformReadings
    | ReadTemperature
    | Print(gyro: Vec3, accel: Vec3, mag: Vec3, temp: real)
    | WatchdogReset
    | Pause
    | Abort(status: int)

  /** `Running(i)` holds the pass counter `i`; `Aborted` is final. */
  datatype Loop = Running(i: nat) | Aborted(status: int)

  /** A state together with the events that led to it. */
  datatype Outcome = Outcome(state: Loop, trace: seq<Event>)

  /** The pass with counter value i prints. */
  predicate PrintsOn(i: nat)
  {
    i % PrintEvery == 0
  }

  /** Pass i gets through every `ESP_ERROR_CHECK` it reaches. */
  predicate StepSucceeds(i: nat, t: Tick)
  {
    t.sensor.status == ESP_OK && (PrintsOn(i) ==> t.temperature.status == ESP_OK)
  }

  /** The status that `ESP_ERROR_CHECK` aborts with on a failing pass. */
  function FailureStatus(t: Tick): int
  {
    if t.sensor.status != ESP_OK then t.sensor.status else t.temperature.status
  }

  /** The diagnostic line a printing pass emits: gyroscope, accelerometer and
      magnetometer after their device-frame transforms, then temperature. */
  function Diagnostic(t: Tick): Event
  {
    Print(AccelGyro(t.sensor.reading.gyro), AccelGyro(t.sensor.reading.accel),
          Mag(t.sensor.reading.mag), t.temperature.celsius)
  }

  /** Position of each kind of event within one pass. */
  function Stage(e: Event): nat
  {
    match e
    case ReadSensors => 0
    case TransformReadings => 1
    case ReadTemperature => 2
    case Print(_, _, _, _) => 3
    case WatchdogReset => 4
    case Pause => 5
    case Abort(_) => 6
  }

  /** Every event comes from a later stage than the events before it. */
  predicate InStageOrder(trace: seq<Event>)
  {
    forall a, b :: 0 <= a < b < |trace| ==> Stage(trace[a]) < Stage(trace[b])
  }

  /** The event at position k is framed: a print directly follows a
      temperature read and is directly followed by a watchdog reset, and a
      watchdog reset directly follows a print. */
  predicate FramedAt(trace: seq<Event>, k: nat)
    requires k < |trace|
  {
    && (trace[k].Print? ==> 0 < k && trace[k - 1] == ReadTemperature && k + 1 < |trace| && trace[k + 1] == WatchdogReset)
    && (trace[k] == WatchdogReset ==> 0 < k && trace[k - 1].Print?)
  }

  /** Every event of the trace is framed. */
  predicate PrintsFramed(trace: seq<Event>)
  {
    forall k: nat :: k < |trace| ==> FramedAt(trace, k)
  }

  /** One pass of the loop body. */
  function Step(s: Loop, t: Tick): (r: Outcome)
    ensures s.Aborted? ==> r == Outcome(s, [])
    ensures s.Running? ==> 2 <= |r.trace| && r.trace[0] == ReadSensors
    ensures s.Running? ==> (r.state.Running? <==> StepSucceeds(s.i, t))
    ensures r.state.Running? ==> s.Running? && r.state.i == s.i + 1 && r.trace[|r.trace| - 1] == Pause
    ensures s.Running? && r.state.Aborted? ==>
      r.state.status == FailureStatus(t) != ESP_OK && r.trace[|r.trace| - 1] == Abort(r.state.status)
  {
    match s
    case Aborted(_) => Outcome(s, [])
    case Running(i) =>
      if t.sensor.status != ESP_OK then
        Outcome(Aborted(t.sensor.status), [ReadSensors, Abort(t.sensor.status)])
      else
        var va := AccelGyro(t.sensor.reading.accel);
        var vg := AccelGyro(t.sensor.reading.gyro);
        var vm := Mag(t.sensor.reading.mag);
        if !PrintsOn(i) then
          Outcome(Running(i + 1), [ReadSensors, TransformReadings, Pause])
        else if t.temperature.status != ESP_OK then
          Outcome(Aborted(t.temperature.status),
                  [ReadSensors, TransformReadings, ReadTemperature, Abort(t.temperature.status)])
        else
          Outcome(Running(i + 1),
                  [ReadSensors, TransformReadings, ReadTemperature,
                   Print(vg, va, vm, t.temperature.celsius), WatchdogReset, Pause])
  }

  /** Within a pass the stages run in their fixed order: read, transform,
      temperature read, print, watchdog reset, then the pause or the abort. */
  lemma StepInStageOrder(s: Loop, t: Tick)
    ensures InStageOrder(Step(s, t).trace)
  {
  }

  /** Which optional stages a pass performs: the temperature is read exactly
      on printing passes whose sensor read succeeded; the diagnostic line
      and the watchdog reset happen exactly on printing passes that get
      through both checks; the readings are transformed exactly when the
      sensor read succeeded; the pass pauses exactly when it keeps running,
      so an aborting pass never reaches `pause()`; and the only line a pass
      prints is its own. */
  lemma StepEmits(s: Loop, t: Tick)
    requires s.Running?
    ensures TransformReadings in Step(s, t).trace <==> t.sensor.status == ESP_OK
    ensures Pause in Step(s, t).trace <==> Step(s, t).state.Running?
    ensures ReadTemperature in Step(s, t).trace <==> t.sensor.status == ESP_OK && PrintsOn(s.i)
    ensures Diagnostic(t) in Step(s, t).trace <==> PrintsOn(s.i) && StepSucceeds(s.i, t)
    ensures WatchdogReset in Step(s, t).trace <==> PrintsOn(s.i) && StepSucceeds(s.i, t)
    ensures forall e :: e in Step(s, t).trace && e.Print? ==> e == Diagnostic(t)
  {
  }

  /** Every pass of the first |ticks| gets through its error checks. */
  predicate AllSucceed(ticks: seq<Tick>)
  {
    forall k :: 0 <= k < |ticks| ==> StepSucceeds(k, ticks[k])
  }

  /** The loop from `i = 0` over the given passes. */
  function Run(ticks: seq<Tick>): (r: Outcome)
    decreases |ticks|
    ensures r.state.Running? <==> AllSucceed(ticks)
    ensures r.state.Running? ==> r.state.i == |ticks|
    ensures PrintsFramed(r.trace)
  {
    if |ticks| == 0 then Outcome(Running(0), [])
    else
      var prefix := ticks[..|ticks| - 1];
      var before := Run(prefix);
      var step := Step(before.state, ticks[|ticks| - 1]);
      assert AllSucceed(ticks) <==> AllSucceed(prefix) && StepSucceeds(|prefix|, ticks[|ticks| - 1]) by {
        assert forall k :: 0 <= k < |prefix| ==> prefix[k] == ticks[k];
      }
      StepFramed(before.state, ticks[|ticks| - 1]);
      FramedAppend(before.trace, step.trace);
      Outcome(step.state, before.trace + step.trace)
  }

  /** One pass on its own is framed. */
  lemma StepFramed(s: Loop, t: Tick)
    ensures PrintsFramed(Step(s, t).trace)
  {
  }

  /** Framing survives appending a pass that starts by reading the sensors. */
  lemma FramedAppend(a: seq<Event>, b: seq<Event>)
    requires PrintsFramed(a) && PrintsFramed(b)
    requires |b| == 0 || b[0] == ReadSensors
    ensures PrintsFramed(a + b)
  {
    var ab := a + b;
    forall k: nat | k < |ab|
      ensures FramedAt(ab, k)
    {
      if k < |a| {
        assert FramedAt(a, k);
        assert ab[k] == a[k];
        if 0 < k {
          assert ab[k - 1] == a[k - 1];
        }
        if k + 1 < |a| {
          assert ab[k + 1] == a[k + 1];
        }
      } else {
        var j := k - |a|;
        assert FramedAt(b, j);
        assert ab[k] == b[j];
        if 0 < j {
          assert ab[k - 1] == b[j - 1];
        }
        if j + 1 < |b| {
          assert ab[k + 1] == b[j + 1];
        }
      }
    }
  }

  /** The diagnostic lines in a trace, in order. */
  function Prints(trace: seq<Event>): (r: seq<Event>)
    ensures |r| <= |trace|
    ensures forall e :: e in r ==> e.Print? && e in trace
  {
    if |trace| == 0 then []
    else (if trace[0].Print? then [trace[0]] else []) + Prints(trace[1..])
  }

  /** The number of watchdog resets in a trace. */
  function Resets(trace: seq<Event>): (n: nat)
    ensures n <= |trace|
  {
    if |trace| == 0 then 0
    else (if trace[0] == WatchdogReset then 1 else 0) + Resets(trace[1..])
  }

  lemma {:induction false} CountsAppend(a: seq<Event>, b: seq<Event>)
    ensures Prints(a + b) == Prints(a) + Prints(b)
    ensures Resets(a + b) == Resets(a) + Resets(b)
  {
    if |a| == 0 {
      assert a + b == b;
    } else {
      assert (a + b)[1..] == a[1..] + b;
      CountsAppend(a[1..], b);
    }
  }

  /** A trace with no print and no watchdog reset counts neither. */
  lemma {:induction false} NothingCounted(trace: seq<Event>)
    requires forall k :: 0 <= k < |trace| ==> !trace[k].Print? && trace[k] != WatchdogReset
    ensures Prints(trace) == [] && Resets(trace) == 0
  {
    if |trace| > 0 {
      NothingCounted(trace[1..]);
    }
  }

  lemma CountsSingle(e: Event)
    ensures Prints([e]) == if e.Print? then [e] else []
    ensures Resets([e]) == if e == WatchdogReset then 1 else 0
  {
    assert [e][1..] == [];
  }

  /** What a single pass prints: its own diagnostic line exactly when it
      prints and gets through both error checks, and as many watchdog
      resets as lines. */
  lemma StepPrints(i: nat, t: Tick)
    ensures Prints(Step(Running(i), t).trace) == if PrintsOn(i) && StepSucceeds(i, t) then [Diagnostic(t)] else []
    ensures Resets(Step(Running(i), t).trace) == |Prints(Step(Running(i), t).trace)|
  {
    if PrintsOn(i) && StepSucceeds(i, t) {
      PrintingStepCounts(i, t);
    } else {
      NothingCounted(Step(Running(i), t).trace);
    }
  }

  lemma PrintingStepCounts(i: nat, t: Tick)
    requires PrintsOn(i) && StepSucceeds(i, t)
    ensures Prints(Step(Running(i), t).trace) == [Diagnostic(t)]
    ensures Resets(Step(Running(i), t).trace) == 1
  {
    var d := Diagnostic(t);
    assert Step(Running(i), t).trace == [ReadSensors, TransformReadings, ReadTemperature, d, WatchdogReset, Pause];
    PrintingPassCounts(d);
  }

  /** The events of a printing pass hold one line and one watchdog reset. */
  lemma PrintingPassCounts(d: Event)
    requires d.Print?
    ensures Prints([ReadSensors, TransformReadings, ReadTemperature, d, WatchdogReset, Pause]) == [d]
    ensures Resets([ReadSensors, TransformReadings, ReadTemperature, d, WatchdogReset, Pause]) == 1
  {
    var head := [ReadSensors, TransformReadings, ReadTemperature];
    var tail := [d] + ([WatchdogReset] + [Pause]);
    assert [ReadSensors, TransformReadings, ReadTemperature, d, WatchdogReset, Pause] == head + tail;
    NothingCounted(head);
    NothingCounted([Pause]);
    CountsSingle(d);
    CountsSingle(WatchdogReset);
    CountsAppend([WatchdogReset], [Pause]);
    CountsAppend([d], [WatchdogReset] + [Pause]);
    CountsAppend(head, tail);
  }

  /** The reference for what a run of passes that all succeed prints: one
      line per started block of ten passes, the j-th coming from pass 10 j. */
  function ExpectedPrints(ticks: seq<Tick>): seq<Event>
  {
    seq((|ticks| + PrintEvery - 1) / PrintEvery,
        j requires 0 <= j < (|ticks| + PrintEvery - 1) / PrintEvery => Diagnostic(ticks[PrintEvery * j]))
  }

  /** Adding a pass adds its line to the reference exactly when it prints. */
  lemma ExpectedPrintsSnoc(ticks: seq<Tick>)
    requires 0 < |ticks|
    ensures ExpectedPrints(ticks) ==
      ExpectedPrints(ticks[..|ticks| - 1]) + (if PrintsOn(|ticks| - 1) then [Diagnostic(ticks[|ticks| - 1])] else [])
  {
  }

  /** When every pass succeeds, the run is still going after |ticks| passes,
      its diagnostic lines are exactly the reference ones, and it has reset
      the watchdog once per line. */
  lemma {:induction false} RunPrintsWhenAllSucceed(ticks: seq<Tick>)
    requires AllSucceed(ticks)
    ensures Run(ticks).state == Running(|ticks|)
    ensures Prints(Run(ticks).trace) == ExpectedPrints(ticks)
    ensures Resets(Run(ticks).trace) == |ExpectedPrints(ticks)| == (|ticks| + 9) / 10
  {
    if |ticks| > 0 {
      var prefix := ticks[..|ticks| - 1];
      assert AllSucceed(prefix) by {
        assert forall k :: 0 <= k < |prefix| ==> prefix[k] == ticks[k];
      }
      RunPrintsWhenAllSucceed(prefix);
      RunPrintsOneMore(ticks);
    }
  }

  /** The induction step of `RunPrintsWhenAllSucceed`: one more successful
      pass extends the lines exactly as it extends the reference. */
  lemma RunPrintsOneMore(ticks: seq<Tick>)
    requires 0 < |ticks|
    requires StepSucceeds(|ticks| - 1, ticks[|ticks| - 1])
    requires Run(ticks[..|ticks| - 1]).state == Running(|ticks| - 1)
    requires Prints(Run(ticks[..|ticks| - 1]).trace) == ExpectedPrints(ticks[..|ticks| - 1])
    requires Resets(Run(ticks[..|ticks| - 1]).trace) == |ExpectedPrints(ticks[..|ticks| - 1])|
    ensures Prints(Run(ticks).trace) == ExpectedPrints(ticks)
    ensures Resets(Run(ticks).trace) == |ExpectedPrints(ticks)|
  {
    var n := |ticks| - 1;
    var prefix := ticks[..n];
    var before := Run(prefix).trace;
    var after := Step(Running(n), ticks[n]).trace;
    RunUnfold(ticks);
    assert Run(ticks).trace == before + after;
    CountsAppend(before, after);
    StepPrints(n, ticks[n]);
    var extra: seq<Event> := if PrintsOn(n) then [Diagnostic(ticks[n])] else [];
    assert Prints(after) == extra;
    assert Resets(after) == |extra|;
    ExpectedPrintsSnoc(ticks);
    assert ExpectedPrints(ticks) == ExpectedPrints(prefix) + extra;
  }

  /** `Run` on a non-empty sequence: the passes before the last, then the last. */
  lemma RunUnfold(ticks: seq<Tick>)
    requires 0 < |ticks|
    ensures Run(ticks).trace ==
      Run(ticks[..|ticks| - 1]).trace + Step(Run(ticks[..|ticks| - 1]).state, ticks[|ticks| - 1]).trace
    ensures Run(ticks).state == Step(Run(ticks[..|ticks| - 1]).state, ticks[|ticks| - 1]).state
  {
  }

  /** On every run, aborted or not, the watchdog is reset exactly as many
      times as a diagnostic line is printed. */
  lemma {:induction false} RunResetsMatchPrints(ticks: seq<Tick>)
    ensures Resets(Run(ticks).trace) == |Prints(Run(ticks).trace)|
  {
    if |ticks| > 0 {
      var n := |ticks| - 1;
      var prefix := ticks[..n];
      RunResetsMatchPrints(prefix);
      var before := Run(prefix);
      var step := Step(before.state, ticks[n]);
      CountsAppend(before.trace, step.trace);
      if before.state.Running? {
        StepPrints(before.state.i, ticks[n]);
      }
    }
  }

  /** Once the loop has aborted, later passes change nothing. */
  lemma {:induction false} RunStopsAfterAbort(ticks: seq<Tick>, k: nat)
    requires k <= |ticks|
    requires Run(ticks[..k]).state.Aborted?
    ensures Run(ticks) == Run(ticks[..k])
    decreases |ticks| - k
  {
    if k < |ticks| {
      var prefix := ticks[..|ticks| - 1];
      assert prefix[..k] == ticks[..k];
      RunStopsAfterAbort(prefix, k);
    } else {
      assert ticks[..k] == ticks;
    }
  }

  /** A failing pass k, after k passes that succeed, ends the loop with the
      failing status as its last event, and nothing after pass k happens. */
  lemma RunAbortsAtFirstFailure(ticks: seq<Tick>, k: nat)
    requires k < |ticks|
    requires AllSucceed(ticks[..k])
    requires !StepSucceeds(k, ticks[k])
    ensures Run(ticks) == Run(ticks[..k + 1])
    ensures Run(ticks).state == Aborted(FailureStatus(ticks[k]))
    ensures 0 < |Run(ticks).trace| && Run(ticks).trace[|Run(ticks).trace| - 1] == Abort(FailureStatus(ticks[k]))
  {
    var upTo := ticks[..k + 1];
    assert upTo[..k] == ticks[..k];
    RunStopsAfterAbort(ticks, k + 1);
  }

  /** A failing pass k, after k passes that succeed, prints nothing itself:
      the run's lines are those of the first k passes, with one watchdog
      reset per line. */
  lemma RunPrintsBeforeFailure(ticks: seq<Tick>, k: nat)
    requires k < |ticks|
    requires AllSucceed(ticks[..k])
    requires !StepSucceeds(k, ticks[k])
    ensures Prints(Run(ticks).trace) == ExpectedPrints(ticks[..k])
    ensures Resets(Run(ticks).trace) == |ExpectedPrints(ticks[..k])|
  {
    var upTo := ticks[..k + 1];
    assert upTo[..k] == ticks[..k];
    RunAbortsAtFirstFailure(ticks, k);
    RunPrintsWhenAllSucceed(ticks[..k]);
    var before := Run(ticks[..k]);
    var step := Step(before.state, ticks[k]);
    CountsAppend(before.trace, step.trace);
    StepPrints(k, ticks[k]);
    assert Run(upTo) == Outcome(step.state, before.trace + step.trace);
  }

  /** Thirty passes that all succeed print three lines, from passes 0, 10
      and 20, and reset the watchdog three times. */
  lemma ThirtyPasses(ticks: seq<Tick>)
    requires |ticks| == 30 && AllSucceed(ticks)
    ensures Prints(Run(ticks).trace) == [Diagnostic(ticks[0]), Diagnostic(ticks[10]), Diagnostic(ticks[20])]
    ensures Resets(Run(ticks).trace) == 3
  {
    RunPrintsWhenAllSucceed(ticks);
  }

  /** One pass of the loop body as the source writes it: the counter is
      post-incremented after the sensor check, and each failing
      `ESP_ERROR_CHECK` returns at once. */
  method RunPass(i: nat, t: Tick) returns (next: Loop, events: seq<Event>)
    ensures Outcome(next, events) == Step(Running(i), t)
  {
    events := [ReadSensors];
    if t.sensor.status != ESP_OK {
      next := Aborted(t.sensor.status);
      events := events + [Abort(t.sensor.status)];
      return;
    }
    var va := AccelGyro(t.sensor.reading.accel);
    var vg := AccelGyro(t.sensor.reading.gyro);
    var vm := Mag(t.sensor.reading.mag);
    events := events + [TransformReadings];
    var counter := i;
    var incremented := i + 1;
    if counter % PrintEvery == 0 {
      events := events + [ReadTemperature];
      if t.temperature.status != ESP_OK {
        next := Aborted(t.temperature.status);
        events := events + [Abort(t.temperature.status)];
        return;
      }
      events := events + [Print(vg, va, vm, t.temperature.celsius), WatchdogReset];
    }
    events := events + [Pause];
    next := Running(incremented);
  }

  /** The `while (true)` loop of `run_imu` over the given passes, stopping
      where `ESP_ERROR_CHECK` aborts. */
  method RunImu(ticks: seq<Tick>) returns (state: Loop, trace: seq<Event>)
    ensures Outcome(state, trace) == Run(ticks)
  {
    var i: nat := 0;
    trace := [];
    var n := 0;
    while n < |ticks|
      invariant n <= |ticks|
      invariant Run(ticks[..n]) == Outcome(Running(i), trace)
    {
      assert ticks[..n + 1][..n] == ticks[..n];
      var next, events := RunPass(i, ticks[n]);
      trace := trace + events;
      if next.Aborted? {
        state := next;
        RunStopsAfterAbort(ticks, n + 1);
        return;
      }
      i := next.i;
      n := n + 1;
    }
    state := Running(i);
    assert ticks[..n] == ticks;
  }
}
