# HC-SR04 echo timing, modelled in Dafny

The HC-SR04 kernel driver measures distance by timing the echo pulse of an
ultrasonic sensor. Reading its sysfs attribute `value` arms a four-state
machine (`HCSR04STATUS`: ready, waiting for echo start, waiting for echo
stop, complete), sends the trigger pulse and waits at most 38 ms. Two interrupt
handlers on the echo line drive the machine. On the rising edge the handler
stamps `echo_start` and `echo_end`; on the falling edge it stamps `echo_end`,
marks the measurement complete and wakes the reader. After the wait the reader
resets the state to ready. It then reports the echo width in microseconds, or
-1 if the wait timed out.

The project has three modules:

- `EchoMachine` (`echo.dfy`) states the machine on values. `Snapshot` is the
  joint value of the three globals. `Rise` and `Fall` are the two handlers.
  `Run` replays a sequence of edge events in order. `Arm` is the read
  routine's first step and `Reading` is the value it reports. The lemmas
  characterise a replay after arming through `IsFirstPulse`, an independent
  declarative definition: the first rising edge and the first falling edge
  after it.
- `Decimal` (`decimal.dfy`) is the `"%d\n"` text put in the sysfs buffer,
  with a parser and the round trip between the two.
- `HcSr04` (`sensor.dfy`) is the driver's single instance as the class
  `Sensor`. Its fields `status`, `echoStart` and `echoEnd` are updated in
  place by `OnRising`, `OnFalling` and `Read`. `Read` replays, in a loop, the
  edges that arrive during its wait. `Write` models the attribute's unused
  write routine. `EchoScenario` is a client of the class.

Assumptions:

- Timestamps are `ktime_get()` readings in nanoseconds, passed to the
  handlers as `now`. The clock, interrupts and the wait queue are not modelled.
  The edges that arrive during the wait are a parameter `events` of `Read`.
- The wait "completes" exactly when the state is `Complete` as it ends. This
  is what the condition given to `wait_event_timeout` tests.
- `ktime_to_us` is not part of this model. It is taken to be C's signed
  division by 1000, truncating toward zero (`Microseconds`). Some kernels
  round it down instead. The two agree on non-negative differences, and a
  monotonic clock only produces those (`MonotonicReadingNonNegative`).

Two behaviours of the code are kept as written:

- The code arms the machine unconditionally, whatever the prior state.
- The code has no lock around the read routine.

## Model

The functions `EchoMachine.Rise`, `Fall`, `Step`, `Run`, `Arm` and `Reading`,
and `Decimal.Format`, are value-level definitions of the rowed members
`OnRising` (hcsr04.c:120-132), `OnFalling` (hcsr04.c:134-146), the wait
(hcsr04.c:89), the arming (hcsr04.c:81) and the report (hcsr04.c:92-98) of
`Read`. They carry no contract of their own; the methods' contracts are tied to
them and the lemmas below state their properties.

| member | source | states |
|---|---|---|
| `HcSr04.Sensor.constructor` | hcsr04.c:44-46 | the machine starts `Ready`; the static timestamps start at 0 |
| `HcSr04.Sensor.OnRising` | hcsr04.c:120-132 | in `WaitingForEchoStart` a rising edge sets both timestamps to `now` and moves to `WaitingForEchoStop`; in every other state it changes nothing |
| `HcSr04.Sensor.OnFalling` | hcsr04.c:134-146 | in `WaitingForEchoStop` a falling edge sets `echoEnd` to `now`, keeps `echoStart` and moves to `Complete`; in every other state it changes nothing |
| `HcSr04.Sensor.Read` | hcsr04.c:75-102 | arms the machine whatever its prior state, applies the edges of the wait in order, always leaves `status == Ready`, keeps the timestamps the edges left, and reports -1 unless the state was `Complete` when the wait ended, else the echo width in microseconds; the buffer text is the decimal value and a newline |
| `HcSr04.Sensor.Write` | hcsr04.c:65-69 | accepts any buffer, returns its length and changes no field |
| `EchoMachine.Microseconds` | hcsr04.c:98 | the whole microseconds in a nanosecond span, truncated toward zero: for `ns >= 0`, `us*1000 <= ns < us*1000 + 1000`, and symmetrically for negative spans |
| `EchoMachine.RunIgnored` | hcsr04.c:120-146 | any sequence of edges that the current state's guards reject leaves the state and both timestamps unchanged |
| `EchoMachine.RunQuiescent` | hcsr04.c:120-146 | while `Ready` or `Complete`, no sequence of edges changes anything; once complete, the timestamps stay fixed |
| `EchoMachine.StillWaitingForStart` | hcsr04.c:123-140 | after arming, the state is still `WaitingForEchoStart` only if every edge so far was falling, and then nothing has changed |
| `EchoMachine.WaitingForStopHasRise` | hcsr04.c:123-140 | after arming, `WaitingForEchoStop` means a first rising edge came, only rising edges followed, and both timestamps hold its time |
| `EchoMachine.CompleteHasPulse` | hcsr04.c:123-140 | after arming, `Complete` means the edges contain a first pulse, and the timestamps are its two edges' times |
| `EchoMachine.PulseMeasured` | hcsr04.c:81-98 | arm, then falling edges (ignored), the first rising edge at t1, rising edges (ignored), a falling edge at t2 and any edges after: the state is `Complete` with stamps (t1, t2), whatever came before, and the reading is `Microseconds(t2 - t1)` |
| `EchoMachine.CompletesIffPulse` | hcsr04.c:89-98 | a measurement completes if and only if the edges of its wait contain a first pulse; without one the reading is -1 |
| `EchoMachine.MonotonicReadingNonNegative` | hcsr04.c:89-98 | with timestamps that never go backwards, a measured pulse reads `(t2 - t1) / 1000 >= 0`, so it is never the timeout value |
| `EchoMachine.OrderedPulseReadingNonNegative` | hcsr04.c:89-98 | if only the pulse's two edges are in time order (t1 <= t2), the reading is `(t2 - t1) / 1000 >= 0` |
| `EchoMachine.ReadingIndependentOfPriorState` | hcsr04.c:81-98 | the reading depends only on the edges of the current wait, not on the state or timestamps left by earlier measurements or spurious edges |
| `EchoMachine.RunAppend` | hcsr04.c:89 | replaying two consecutive stretches of edges is replaying the first and then the second from the state it left |
| `Decimal.Digits` | hcsr04.c:98 | the decimal spelling of a natural number is non-empty, all digits, and has no leading zero unless the number is 0 |
| `Decimal.ValueOfDigits` | hcsr04.c:98 | the decimal spelling of `n` spells `n` |
| `Decimal.FormatRoundTrip` | hcsr04.c:92-98 | the text written for any reported value, -1 included, parses back to that value |

## Left out

- `hcsr04_init` and `hcsr04_exit` (hcsr04.c:148-291) are not modelled. They only request GPIOs, set pin directions, map and register the two interrupts, and unwind on failure, all through vendor and kernel calls.
- The trigger pulse (hcsr04.c:84-86) is not modelled. It is hardware output and a 10 us busy delay, with no effect on the state.
- The blocking in `wait_event_timeout`, `wake_up`, the 38 ms timeout in jiffies, `volatile` and memory ordering are not modelled. The wait becomes a sequential replay of the edges that arrive before it ends; which edges fall inside the 38 ms window is the caller's choice of `events`.
- Concurrency is not modelled: overlapping reads, and a late edge arriving between the reset at hcsr04.c:90 and a new read. The source has no lock, so the model claims no mutual exclusion. An edge that arrives just before `status` is reset and a concurrent re-arm from a second reader are outside the sequential model.
- `ktime_t` is a signed 64-bit count. The model uses unbounded integers and does not model overflow of `ktime_sub`.
- `HcSr04.Sensor.Read`: returns the value and the buffer text but not the byte count that `sprintf` returns; that count is the length of the text.
- The sysfs class and attribute tables, `printk` logging and the module parameters `trigger_gpio` and `echo_gpio` are not modelled.
