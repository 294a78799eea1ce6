/** The driver's single sensor instance: the globals `status`, `echo_start`
    and `echo_end` as fields, the two echo interrupt handlers and the two sysfs
    routines of the `value` attribute as methods. */
module HcSr04 {
  import opened EchoMachine
  import Decimal

  class Sensor {
    var status: Status
    var echoStart: int
    var echoEnd: int

    /** The three fields as one value of the state machine. */
    function State(): Snapshot
      reads this
    {
      Snapshot(status, echoStart, echoEnd)
    }

    /** Module load: `status` starts `Ready`; the static timestamps start at 0. */
    constructor ()
      ensures State() == Snapshot(Ready, 0, 0)
    {
      status := Ready;
      echoStart := 0;
      echoEnd := 0;
    }

    /** `gpio_isr_rising`, with `now` the handler's `ktime_get()`. */
    method OnRising(now: int)
      modifies this
      ensures old(status) == WaitingForEchoStart ==>
                status == WaitingForEchoStop && echoStart == now && echoEnd == now
      ensures old(status) != WaitingForEchoStart ==> State() == old(State())
      ensures State() == Rise(old(State()), now)
    {
      if status == WaitingForEchoStart {
        echoStart := now;
        echoEnd := echoStart;
        status := WaitingForEchoStop;
      }
    }

    /** `gpio_isr_falling`, with `now` the handler's `ktime_get()`; the
        `wake_up` it issues is the end of the wait in `Read`. */
    method OnFalling(now: int)
      modifies this
      ensures old(status) == WaitingForEchoStop ==>
                status == Complete && echoEnd == now && echoStart == old(echoStart)
      ensures old(status) != WaitingForEchoStop ==> State() == old(State())
      ensures State() == Fall(old(State()), now)
    {
      if status == WaitingForEchoStop {
        echoEnd := now;
        status := Complete;
      }
    }

    /** `hcsr04_value_read`. The handlers run for `events`, the edges that
        arrive while it waits, in order; the wait has completed iff the state is
        `Complete` when it ends. The state is then reset to `Ready` and the
        value is reported both as a number and as the text put in the buffer. */
    method Read(events: seq<EdgeEvent>) returns (value: int, text: string)
      modifies this
      ensures status == Ready
      ensures echoStart == Run(Arm(old(State())), events).echoStart
      ensures echoEnd == Run(Arm(old(State())), events).echoEnd
      ensures value == Reading(Run(Arm(old(State())), events))
      ensures text == Decimal.Format(value)
    {
      status := WaitingForEchoStart;
      ghost var armed := State();
      assert armed == Arm(old(State()));
      var i := 0;
      while i < |events|
        invariant 0 <= i <= |events|
        invariant State() == Run(armed, events[..i])
      {
        assert events[..i + 1][..i] == events[..i];
        match events[i].edge {
          case Rising => OnRising(events[i].at);
          case Falling => OnFalling(events[i].at);
        }
        i := i + 1;
      }
      assert events[..i] == events;
      var completed := status == Complete;
      status := Ready;
      if !completed {
        value := TimedOut;
      } else {
        value := Microseconds(echoEnd - echoStart);
      }
      text := Decimal.Format(value);
    }

    /** `hcsr04_value_write`: accepts every buffer whole and changes nothing. */
    method Write(buf: string) returns (accepted: nat)
      ensures accepted == |buf|
    {
      accepted := |buf|;
    }
  }

  /** A client of the class: an edge left over before the read is ignored, a
      falling edge ahead of the echo is ignored, and an echo of 250 us is
      reported as 250 whatever came before it. */
  method EchoScenario()
  {
    var sensor := new Sensor();
    sensor.OnFalling(5);
    sensor.OnRising(7);
    assert sensor.State() == Snapshot(Ready, 0, 0);
    var events := [EdgeEvent(Falling, 100), EdgeEvent(Rising, 1000), EdgeEvent(Rising, 1200),
                   EdgeEvent(Falling, 251000), EdgeEvent(Rising, 252000)];
    assert IsFirstPulse(events, 1, 3);
    PulseMeasured(sensor.State(), events, 1, 3);
    var value, text := sensor.Read(events);
    assert value == 250;
    assert sensor.status == Ready;
    var second, _ := sensor.Read([]);
    assert second == TimedOut;
  }
}
