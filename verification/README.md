# IMU front-end: axis transforms and the acquisition loop

A Dafny model of the run-mode core of an ESP32 firmware that samples an
MPU-9250 9-axis sensor (accelerometer, gyroscope, magnetometer), turns the
readings into the device frame and prints a diagnostic line every tenth
sample while keeping the task watchdog fed.

Three modules:

- `Vectors` (vectors.dfy): `Vec3` over `real`, dot and cross products, and
  3x3 matrices with rotation matrices about Z and X. The firmware's
  `vector_t` holds `float`s; the transforms only copy and negate
  components, which IEEE-754 does exactly, so reals lose nothing the
  transforms can see.
- `Transform` (transform.dfy): `transform_accel_gyro` as `AccelGyro`,
  (x, y, z) ↦ (−x, −z, −y), and `transform_mag` as `Mag`,
  (x, y, z) ↦ (−y, z, −x), with the C in-place store sequences as methods
  and the algebra of both maps: inverse, order, preserved dot product,
  rotation matrix, rotation axis.
- `ImuLoop` (imu_loop.dfy): the `while (true)` loop of `run_imu` as a state
  machine. The state is the pass counter `i` (`Running(i)`) or the final
  `Aborted(status)` that `ESP_ERROR_CHECK` enters on any status other than
  `ESP_OK`. The sensor driver is an oracle: one `Tick` per pass holds what
  `get_accel_gyro_mag` and `get_temperature_celsius` return (status and
  values). A pass appends events to a trace: `ReadSensors`,
  `TransformReadings`, and on printing passes `ReadTemperature`,
  `Print(gyro, accel, mag, temp)` and `WatchdogReset`; then `Pause`, or
  `Abort(status)` where a check fails. `Run` folds `Step` over the passes
  from `i = 0`; `RunImu` is the same loop written as the source writes it,
  with a post-incremented counter and early exits.

The diagnostic lines of a run are compared with an independent reference,
`ExpectedPrints`: after n passes that all succeed there are (n + 9) / 10
lines, and line j carries the transformed vectors and the temperature of
pass 10·j.

The doc comment of `transform_accel_gyro` says "rotate around Z 180
degrees, then around X −90 degrees". The code matches it when the second
turn is about the X axis as the first turn left it, whether the frame is
turned and the vector re-expressed in it (`AccelGyroIsDocumentedFrameChange`)
or the vector itself is turned (`AccelGyroIsDocumentedVectorTurn`). With the
second turn about the original, fixed X axis, both readings give (−x, z, y)
instead (`AccelGyroIsNotTheFixedAxisTurn`). `transform_mag` has no
such description; the model shows it is a rotation of order three about
the axis (1, −1, −1), and that it equals the accel/gyro map applied after
swapping x with y and negating z, which is how the MPU-9250's magnetometer
axes relate to its accelerometer axes.

`run_imu` has no shutdown path: the `while (true)` loop ends only through
an abort, so the model has no terminating state. The temperature is read
only inside the printing branch, after the counter test, and the model
follows that.

## Model

| member | source | states |
|---|---|---|
| Transform.TransformAccelGyroInPlace | main/main.c:60-69 | the field-by-field in-place update, reading from the copied locals, yields (−x, −z, −y); applying the map to the result restores the input |
| Transform.TransformMagInPlace | main/main.c:76-85 | the field-by-field in-place update yields (−y, z, −x); two more applications restore the input |
| Transform.AccelGyroInvolution | main/main.c:66-68 | the accel/gyro map applied twice is the identity |
| Transform.AccelGyroOrderTwo | main/main.c:66-68 | the accel/gyro map is not the identity (it moves the unit X vector), so with `AccelGyroInvolution` its order is exactly two |
| Transform.AccelGyroPreservesDot | main/main.c:53-68 | the accel/gyro map keeps every dot product and every squared length x² + y² + z², so angles and lengths are unchanged |
| Transform.AccelGyroFixedPoints | main/main.c:66-68 | a vector is left unchanged by the accel/gyro map if and only if x = 0 and z = −y |
| Transform.AccelGyroIsRotation | main/main.c:53-68 | the accel/gyro map is multiplication by a matrix that is orthogonal with determinant 1 |
| Transform.AccelGyroIsDocumentedFrameChange | main/main.c:53-68 | the accel/gyro map is the change of coordinates for a frame turned 180° about Z and then −90° about the turned X axis |
| Transform.AccelGyroIsDocumentedVectorTurn | main/main.c:53-68 | the accel/gyro map is the vector itself turned 180° about Z and then −90° about the turned X axis |
| Transform.AccelGyroIsNotTheFixedAxisTurn | main/main.c:53-68 | with the −90° turn about the fixed X axis, turning the vector and turning the frame both give (−x, z, y), which agrees with the code exactly when y = z = 0 |
| Transform.AccelGyroMatrixIsDocumentedProduct | main/main.c:53-68 | the accel/gyro matrix is the product of the coordinate changes for the 180° turn about Z and the −90° turn about the turned X axis |
| Transform.MagInverseIsInverse | main/main.c:82-84 | (x, y, z) ↦ (−z, −x, y) undoes the magnetometer map on both sides |
| Transform.MagOrderThree | main/main.c:82-84 | the magnetometer map applied three times is the identity, and applied twice is its inverse |
| Transform.MagOrderIsExactlyThree | main/main.c:82-84 | neither one nor two applications of the magnetometer map are the identity |
| Transform.MagPreservesDot | main/main.c:71-85 | the magnetometer map keeps every dot product and every squared length, so angles and lengths are unchanged |
| Transform.MagFixedPoints | main/main.c:82-84 | a vector is left unchanged by the magnetometer map if and only if y = −x and z = −x |
| Transform.MagIsRotation | main/main.c:71-85 | the magnetometer map is multiplication by a matrix that is orthogonal with determinant 1 |
| Transform.MagIsAccelGyroAfterAxisAlignment | main/main.c:60-85 | the magnetometer map equals the accel/gyro map after swapping x with y and negating z |
| ImuLoop.Step | main/main.c:94-134 | an aborted loop does nothing; a running pass starts with the sensor read, stays running exactly when it passes every error check it reaches, then moves the counter from i to i + 1 and ends with the pause; otherwise it ends in `Abort` with the failing status, which is not `ESP_OK` |
| ImuLoop.StepInStageOrder | main/main.c:98-133 | within a pass the stages occur in the order read, transform, temperature read, print, watchdog reset, pause or abort, each at most once |
| ImuLoop.StepEmits | main/main.c:99-133 | the readings are transformed if and only if the sensor read succeeded; the temperature is read if and only if the sensor read succeeded and i % 10 = 0; the pass's own diagnostic line and the watchdog reset occur if and only if i % 10 = 0 and both reads succeeded; the pass pauses if and only if it keeps running, so an aborting pass never pauses; any printed line carries the transformed gyro, accel and mag vectors, never the raw ones |
| ImuLoop.StepFramed | main/main.c:112-131 | in a pass, a print comes directly after the temperature read and directly before the watchdog reset, and a watchdog reset comes only directly after a print |
| ImuLoop.StepPrints | main/main.c:112-131 | a pass prints its own line once if it prints and succeeds and nothing otherwise, with one watchdog reset per line |
| ImuLoop.Run | main/main.c:93-134 | the loop is still running after the given passes if and only if every pass got through its checks, its counter then equals the number of passes, and the whole trace keeps every print framed by the temperature read and the watchdog reset |
| ImuLoop.RunPrintsWhenAllSucceed | main/main.c:93-131 | after n passes that all succeed the counter is n, exactly (n + 9) / 10 lines have been printed, line j comes from pass 10·j with its transformed vectors and temperature, and the watchdog has been reset once per line |
| ImuLoop.RunResetsMatchPrints | main/main.c:112-131 | on every run, aborted or not, watchdog resets and diagnostic lines are equal in number |
| ImuLoop.RunStopsAfterAbort | main/main.c:99-115 | after an abort, later passes add no events and no state change |
| ImuLoop.RunAbortsAtFirstFailure | main/main.c:99-115 | if pass k is the first to fail a check, the loop ends aborted with that pass's failing status, `Abort` is the last event, and passes after k change nothing |
| ImuLoop.RunPrintsBeforeFailure | main/main.c:99-131 | if pass k is the first to fail a check, the run has printed exactly the reference lines of the passes before k and reset the watchdog once per line: the failing pass prints nothing and resets nothing |
| ImuLoop.ThirtyPasses | main/main.c:93-131 | thirty passes that all succeed print exactly three lines, from passes 0, 10 and 20, and reset the watchdog three times |
| ImuLoop.RunPass | main/main.c:96-133 | one pass written with the source's control flow (early abort, post-increment `i++ % 10`) has the same next state and events as `Step` |
| ImuLoop.RunImu | main/main.c:87-135 | the imperative loop over the given passes has the same final state and trace as `Run` |

## Left out

- Sensor driver and I2C set-up (`i2c_mpu9250_init`, `get_accel_gyro_mag`, `get_temperature_celsius`): their sources are not part of this model; their results are supplied per pass as a `Tick`.
- The Madgwick AHRS filter (`MadgwickAHRSinit`, the commented-out `MadgwickAHRSupdate` and Euler-angle extraction): floating-point numerics in files that are not part of this model, and the update is commented out in the loop.
- Calibration mode (`calibrate_gyro`, `calibrate_accel`, `calibrate_mag` behind `CONFIG_CALIBRATION_MODE`) and the contents of the default calibration record: external routines and plain data handed to the driver.
- FreeRTOS task creation and deletion, `vTaskDelay`, the timing inside `pause()`, UART baud set-up, `i2c_driver_delete` and the start-up log line: scheduling and I/O plumbing; `pause()` is kept only as the `Pause` event.
- `printf` formatting (`%9.2f`): a line is the `Print` event carrying the three vectors and the temperature.
- Float values that are not real numbers: NaN and the infinities are not modelled, and −0.0 is not told apart from 0.0 (negating 0.0 in the firmware prints −0.00).
- ImuLoop.Run: the counter is an unbounded `nat`; the source's `uint64_t` wraps after 2^64 passes, and since 2^64 mod 10 = 6 the print pattern would shift after the wrap.
- ImuLoop.Step: `ESP_ERROR_CHECK` is modelled as aborting, its default behaviour, and `Aborted` is final: the model covers one boot, not the panic handler's restart that runs `run_imu` again from `i = 0`; a build with assertions disabled ignores the status silently and carries on with whatever the failed call left in `va`, `vg`, `vm` or `temp` (possibly uninitialised), which is not modelled.
