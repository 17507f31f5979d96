# Rolling temperature and humidity statistics

This project models the statistics store of the `sensors` component of an
ESP32 firmware. A periodic task reads a DHT/AM2301 sensor. The store keeps:

- the number of samples in the current window (`readCount`);
- their 16-bit sum (`tempSum`);
- the truncated average (`tempAvg`);
- the running minimum and maximum (`tempMin`, `tempMax`);
- the latest humidity.

All temperature and humidity values are in tenths, as the driver delivers
them. The window restarts after 200 accepted samples. `reset_temp_sum`
restarts the window by hand. `reset_temp_minmax` pulls both extremes onto
the current average. `get_temperatures` and `get_humidity` read the store.

How the program is modelled:

- **C integer widths.** The statics have their C widths: `u16` for the
  `uint16_t` fields, `i16` for the `int16_t` humidity and temperature, and
  `u8` for the `uint8_t` humidity the accessor returns. Every assignment
  converts the way C does (module `CInt`): storing into an unsigned field
  reduces the value modulo 2^n, and `/` on `int` truncates toward zero
  (`CDiv`). No range is assumed of the driver's values.
- **The driver is an input.** The DHT driver's effect is the `DhtResult`
  value. `DhtOk(humidity, temperature)` is a successful read.
  `DhtFailed(humidity)` is a failed one. It carries whatever the driver
  left in the humidity variable, because the source passes the address of
  the static itself.
- **The event is an output.** The `SENSORS_READ` event post becomes the
  `notified` out-parameter of `ReadDht`.
- **State and specification.** The class `Sensors.SensorStore` has the
  statics as fields. Its methods are specified by pure step functions on
  the value view `Stats`: `AfterRead`, `AfterResetTempSum` and
  `AfterResetTempMinMax`.
- **Properties.** Module `SensorsProofs` proves properties of whole runs
  `Run(Initial, ops)` of reads and resets:
  - an invariant that keeps minimum ≤ average ≤ maximum;
  - the window's count, sum and average, as a function of the history of
    accepted samples;
  - the extremes as the minimum and maximum of that history;
  - concrete scenarios, including counterexamples that show where the
    ordering breaks.

Behaviour of the code the properties depend on:

- **A failed read may change the humidity.** components/sensors/sensors.c:31
  passes the driver the address of the `humidity` static, so whatever the
  driver wrote there before failing stays. The temperature statistics and
  the event are unaffected.
- **The ordering is guaranteed only for temperatures in 1..327.** A negative temperature
  always wraps the minimum, because the comparison at line 37 is done in
  `int` and the store at line 39 reduces modulo 2^16. It wraps the sum
  whenever the sum drops below 0. A sample of exactly 0 is taken for "no
  minimum yet". A steady temperature of 32.8 degrees or more wraps the
  16-bit sum before the window restarts. So the ordering
  minimum ≤ average ≤ maximum is guaranteed only for temperatures in
  1..327, and the lemmas that need it require that range.
- **The humidity accessor truncates.** It truncates toward zero and then
  reduces modulo 256.

## Model

| member | source | states |
|---|---|---|
| CInt.ToU16 | components/sensors/sensors.c:16-21 | assignment to a `uint16_t` static keeps a value that fits and otherwise reduces it modulo 2^16 |
| CInt.ToU8 | components/sensors/sensors.c:84-87 | the cast to `uint8_t` keeps a value that fits and otherwise reduces it modulo 2^8 |
| CInt.CDiv | components/sensors/sensors.c:86 | C's `int` division: the remainder is smaller than the divisor in magnitude and never has the opposite sign of the dividend, for every sign combination |
| CInt.QuotientIsDiv | components/sensors/sensors.c:35 | the quotient of naturals by repeated subtraction equals the truncating division the source uses for the average |
| Sensors.AfterRead | components/sensors/sensors.c:27-59 | a successful read grows the window by one sample, or restarts it (count and sum 0) on the 200th, so the count stays below 200. The sum is the 16-bit sum. The minimum becomes the sample reduced modulo 2^16 when it was unset (0) or greater than the sample. The maximum becomes the sample when it was smaller. A failed read changes nothing but the humidity the driver left |
| Sensors.AfterResetTempSum | components/sensors/sensors.c:61-65 | count and sum become 0. Minimum, average, maximum and humidity are unchanged |
| Sensors.AfterResetTempMinMax | components/sensors/sensors.c:67-71 | minimum and maximum become the current average. Count, sum, average and humidity are unchanged |
| Sensors.SensorStore.constructor | components/sensors/sensors.c:14-23 | all statics start at 0, which satisfies the window bound |
| Sensors.SensorStore.ReadDht | components/sensors/sensors.c:27-59 | the new statics are `AfterRead` of the old ones. The window bound is kept. The event is posted exactly when the driver succeeded |
| Sensors.SensorStore.ResetTempSum | components/sensors/sensors.c:61-65 | the new statics are `AfterResetTempSum` of the old ones. The window bound holds afterwards, also when called from `read_dht` on the 200th sample |
| Sensors.SensorStore.ResetTempMinMax | components/sensors/sensors.c:67-71 | the new statics are `AfterResetTempMinMax` of the old ones. The window bound is kept |
| Sensors.SensorStore.GetTemperatures | components/sensors/sensors.c:73-82 | returns `TempData`, the `sensors_temp_data` of components/sensors/sensors.h:5-10 in tenths rather than `float`: average, minimum and maximum. Under the invariant they are ordered minimum ≤ average ≤ maximum |
| Sensors.SensorStore.GetHumidity | components/sensors/sensors.c:84-87 | whole percent truncated toward zero: for 0 ≤ h < 2560 the result p has 10p ≤ h < 10p + 10. Values in -0.9..0 give 0. Any value is truncated and then reduced modulo 256 |
| SensorsProofs.InvAfterRead | components/sensors/sensors.c:27-59 | a successful read of a temperature in 1..327, or any failed read, keeps the invariant: count below 200, sum within count ×1..327, average = sum / count, minimum ≤ average ≤ maximum ≤ 327 |
| SensorsProofs.InvAfterResetTempMinMax | components/sensors/sensors.c:67-71 | pulling the extremes onto the average keeps the invariant |
| SensorsProofs.InvAlongRun | components/sensors/sensors.c:27-71 | every run from the initial statics of plausible reads, failed reads and resets of either kind keeps the invariant, so minimum ≤ average ≤ maximum in every reachable state |
| SensorsProofs.FailedReadsKeepStats | components/sensors/sensors.c:31-58 | any number of failed reads leaves count, sum, minimum, average and maximum as they were, and accepts no sample |
| SensorsProofs.CountAfterAccept | components/sensors/sensors.c:33-50 | an accepted sample adds one to the window's count, or empties the window when it holds 200 samples |
| SensorsProofs.SumAfterAccept | components/sensors/sensors.c:34-50 | an accepted sample adds itself to the window's 16-bit sum, or the sum restarts at 0 with the window |
| SensorsProofs.AverageAfterAccept | components/sensors/sensors.c:35 | the average after an accepted sample is the truncated quotient of the extended window's 16-bit sum and count, taken before the window check |
| SensorsProofs.WindowHistory | components/sensors/sensors.c:27-59 | after any run of reads, the count is the number of accepted samples since the last multiple of 200. The sum is the 16-bit sum of those samples. The average is the truncated quotient of the 16-bit sum and the count of the window the last sample went into, taken before the window check (their truncated mean when the sum does not wrap) |
| SensorsProofs.FullWindow | components/sensors/sensors.c:14-50 | from the initial statics, after a run of reads only (no resets) with exactly 200 accepted plausible samples, count and sum are 0 and the average is the truncated mean of all 200 |
| SensorsProofs.ExtremesHistory | components/sensors/sensors.c:37-45 | for runs of reads and reset_temp_sum calls (no reset_temp_minmax) with positive temperatures, the minimum and maximum are those of every sample accepted so far, or 0 before the first |
| SensorsProofs.AverageTruncates | components/sensors/sensors.c:35 | the stored average a satisfies a × count ≤ sum < (a + 1) × count for the window just before the window check |
| SensorsProofs.SteadyReads | components/sensors/sensors.c:33-45 | for 1 ≤ t and k × t < 65536, k reads of the same temperature t within one window (0 < k < 200) give count k, sum k × t, and that temperature as minimum, average and maximum |
| SensorsProofs.HotWindowWraps | components/sensors/sensors.c:17-50 | 200 reads of 32.8 degrees wrap the window's last sum 65600 to 64, so the window ends with average 0 below minimum and maximum 328: the bound 327 of the ordering is tight |
| SensorsProofs.ZeroSampleBreaksOrder | components/sensors/sensors.c:37-40 | samples 0.0 then 1.0 degrees give minimum 10 above the average 5, because 0 stands for an unset minimum |
| SensorsProofs.NegativeSampleWraps | components/sensors/sensors.c:19-39 | a first sample of -0.5 degrees is stored as 65531 in sum, minimum and average, while the maximum stays 0 |
| SensorsProofs.ThreeReadsScenario | components/sensors/sensors.c:27-87 | reads (45.0 %, 21.5), (45.0 %, 22.0) and (45.0 %, 20.5) through the store give average 213, minimum 205, maximum 220, humidity 45, and each posts the event |
| SensorsProofs.ThreeFailuresScenario | components/sensors/sensors.c:27-82 | three failed reads through the store leave the temperature snapshot unchanged and post no event |

## Left out

- The FreeRTOS task and `sensors_init` (components/sensors/sensors.c:89-113): a 5-second scheduling loop that calls `read_dht`. It is timing, not logic.
- The DHT single-wire protocol (`dht_read_data`): a foreign library. Its outcome is the `DhtResult` input.
- The `ESP_LOGI` lines and the `%` formatting they do.
- `ESP_ERROR_CHECK` around `esp_event_post`: the abort on a failed post is not modelled. The post itself is the `notified` output.
- Concurrency: the store is touched by several tasks without a lock. The model is sequential, one call at a time, so the data race between a read and a snapshot is not captured.
- Sensors.SensorStore.GetTemperatures: returns the values in tenths. The division by `10.0` into `float` is not modelled, because the model has no floating point.
- Sensors.AfterRead: its contract bounds the average only by the pre-check sum. The exact truncated quotient is stated by `AverageTruncates` and `AverageAfterAccept` beside it.
- The window size is the source's constant 200. A store with another window size is not modelled.
- The display, HTTP, web server, NVS and Wi-Fi components are other parts of the firmware and are not part of this model.
