/** The echo-timing state machine of the HC-SR04 driver, stated on values.

    The driver keeps three globals (`status`, `echo_start`, `echo_end`); a
    `Snapshot` is their joint value. Two interrupt handlers advance it on the
    rising and the falling edge of the echo line, and the read routine arms it,
    waits, and turns what it finds into a number of microseconds or -1.
    Timestamps are `ktime_t` readings in nanoseconds. */
module EchoMachine {

  /** The four values of `HCSR04STATUS`. */
  datatype Status = Ready | WaitingForEchoStart | WaitingForEchoStop | Complete

  datatype Edge = Rising | Falling

  /** One interrupt on the echo line: which edge fired and the clock reading
      (nanoseconds) its handler took. */
  datatype EdgeEvent = EdgeEvent(edge: Edge, at: int)

  /** The joint value of `status`, `echo_start` and `echo_end`. */
  datatype Snapshot = Snapshot(status: Status, echoStart: int, echoEnd: int)

  /** What the read routine reports when the wait times out. */
  const TimedOut: int := -1

  const NanosPerMicro: int := 1000

  /** The rising-edge handler: it acts only in `WaitingForEchoStart`. */
  function Rise(m: Snapshot, now: int): Snapshot
  {
    if m.status == WaitingForEchoStart then Snapshot(WaitingForEchoStop, now, now) else m
  }

  /** The falling-edge handler: it acts only in `WaitingForEchoStop`. */
  function Fall(m: Snapshot, now: int): Snapshot
  {
    if m.status == WaitingForEchoStop then m.(status := Complete, echoEnd := now) else m
  }

  function Step(m: Snapshot, e: EdgeEvent): Snapshot
  {
    match e.edge
    case Rising => Rise(m, e.at)
    case Falling => Fall(m, e.at)
  }

  /** The state after the handlers have run for `events`, in order. */
  function Run(m: Snapshot, events: seq<EdgeEvent>): Snapshot
    decreases |events|
  {
    if events == [] then m else Step(Run(m, events[..|events| - 1]), events[|events| - 1])
  }

  /** The read routine's first action: the state becomes `WaitingForEchoStart`
      whatever it was, and the timestamps are left alone. */
  function Arm(m: Snapshot): Snapshot
  {
    m.(status := WaitingForEchoStart)
  }

  /** `ktime_to_us`: nanoseconds to microseconds, truncating toward zero as
      C's signed division does. */
  function Microseconds(ns: int): (us: int)
    ensures ns >= 0 ==> 0 <= us && us * NanosPerMicro <= ns < us * NanosPerMicro + NanosPerMicro
    ensures ns < 0 ==> us <= 0 && us * NanosPerMicro - NanosPerMicro < ns <= us * NanosPerMicro
  {
    if ns >= 0 then ns / NanosPerMicro else -((-ns) / NanosPerMicro)
  }

  /** The value the read routine reports for the state it finds when the wait
      ends: the echo width if that state is `Complete`, otherwise -1. */
  function Reading(m: Snapshot): int
  {
    if m.status == Complete then Microseconds(m.echoEnd - m.echoStart) else TimedOut
  }

  /** In state `s` the handler for edge `e` does nothing. */
  predicate Ignored(s: Status, e: Edge)
  {
    match s
    case Ready => true
    case Complete => true
    case WaitingForEchoStart => e == Falling
    case WaitingForEchoStop => e == Rising
  }

  /** `events[i]` is the first rising edge and `events[j]` the first falling
      edge after it: the echo pulse a measurement should time. */
  predicate IsFirstPulse(events: seq<EdgeEvent>, i: int, j: int)
  {
    0 <= i < j < |events| &&
    events[i].edge == Rising && events[j].edge == Falling &&
    (forall k :: 0 <= k < i ==> events[k].edge == Falling) &&
    (forall k :: i < k < j ==> events[k].edge == Rising)
  }

  /** `events[i]` is the first rising edge and no falling edge follows it. */
  predicate IsUnfinishedPulse(events: seq<EdgeEvent>, i: int)
  {
    0 <= i < |events| &&
    events[i].edge == Rising &&
    (forall k :: 0 <= k < i ==> events[k].edge == Falling) &&
    (forall k :: i < k < |events| ==> events[k].edge == Rising)
  }

  /** Clock readings never go backwards along the event sequence. */
  predicate Monotonic(events: seq<EdgeEvent>)
  {
    forall a, b :: 0 <= a < b < |events| ==> events[a].at <= events[b].at
  }

  lemma {:induction false} RunAppend(m: Snapshot, a: seq<EdgeEvent>, b: seq<EdgeEvent>)
    ensures Run(m, a + b) == Run(Run(m, a), b)
    decreases |b|
  {
    if b == [] {
      assert a + b == a;
    } else {
      var n := |b| - 1;
      assert (a + b)[..|a + b| - 1] == a + b[..n];
      assert (a + b)[|a + b| - 1] == b[n];
      RunAppend(m, a, b[..n]);
    }
  }

  /** Edges the current state does not expect change nothing, however many. */
  lemma {:induction false} RunIgnored(m: Snapshot, events: seq<EdgeEvent>)
    requires forall k :: 0 <= k < |events| ==> Ignored(m.status, events[k].edge)
    ensures Run(m, events) == m
    decreases |events|
  {
    if events != [] {
      var n := |events| - 1;
      assert forall k :: 0 <= k < n ==> events[..n][k] == events[k];
      RunIgnored(m, events[..n]);
    }
  }

  /** While `Ready` (no measurement armed) or `Complete` (one finished), no
      sequence of edges changes the state or the timestamps. */
  lemma {:induction false} RunQuiescent(m: Snapshot, events: seq<EdgeEvent>)
    requires m.status == Ready || m.status == Complete
    ensures Run(m, events) == m
  {
    RunIgnored(m, events);
  }

  /** Arming and then seeing the first pulse `events[i]`, `events[j]` (with any
      falling edges before it, rising edges inside it and edges of either kind
      after it) completes the measurement with exactly those two timestamps,
      whatever the state and timestamps were before. */
  lemma PulseMeasured(m: Snapshot, events: seq<EdgeEvent>, i: int, j: int)
    requires IsFirstPulse(events, i, j)
    ensures Run(Arm(m), events) == Snapshot(Complete, events[i].at, events[j].at)
    ensures Reading(Run(Arm(m), events)) == Microseconds(events[j].at - events[i].at)
  {
    var pre, mid, post := events[..i], events[i + 1..j], events[j + 1..];
    assert events == pre + [events[i]] + mid + [events[j]] + post;
    RunAppend(Arm(m), pre + [events[i]] + mid + [events[j]], post);
    RunAppend(Arm(m), pre + [events[i]] + mid, [events[j]]);
    RunAppend(Arm(m), pre + [events[i]], mid);
    RunAppend(Arm(m), pre, [events[i]]);
    RunIgnored(Arm(m), pre);
    var started := Snapshot(WaitingForEchoStop, events[i].at, events[i].at);
    assert Run(Arm(m), pre + [events[i]]) == started by {
      assert [events[i]][..0] == [];
    }
    RunIgnored(started, mid);
    var done := Snapshot(Complete, events[i].at, events[j].at);
    assert Run(started, [events[j]]) == done by {
      assert [events[j]][..0] == [];
    }
    RunQuiescent(done, post);
  }

  /** After arming, the state is still `WaitingForEchoStart` only if every edge
      so far was a falling one, and then nothing has changed. */
  lemma {:induction false} StillWaitingForStart(m: Snapshot, events: seq<EdgeEvent>)
    requires Run(Arm(m), events).status == WaitingForEchoStart
    ensures forall k :: 0 <= k < |events| ==> events[k].edge == Falling
    ensures Run(Arm(m), events) == Arm(m)
    decreases |events|
  {
    if events != [] {
      var n := |events| - 1;
      StillWaitingForStart(m, events[..n]);
      assert forall k :: 0 <= k < n ==> events[..n][k] == events[k];
    }
  }

  /** After arming, the state is `WaitingForEchoStop` only if a first rising
      edge was seen and no falling edge after it; its time is in both stamps. */
  lemma {:induction false} WaitingForStopHasRise(m: Snapshot, events: seq<EdgeEvent>)
    requires Run(Arm(m), events).status == WaitingForEchoStop
    ensures exists i :: (IsUnfinishedPulse(events, i) &&
                         Run(Arm(m), events) == Snapshot(WaitingForEchoStop, events[i].at, events[i].at))
    decreases |events|
  {
    var n := |events| - 1;
    assert events != [];
    var before := Run(Arm(m), events[..n]);
    assert forall k :: 0 <= k < n ==> events[..n][k] == events[k];
    if before.status == WaitingForEchoStart {
      StillWaitingForStart(m, events[..n]);
      assert IsUnfinishedPulse(events, n);
    } else {
      assert before.status == WaitingForEchoStop;
      WaitingForStopHasRise(m, events[..n]);
      var i :| IsUnfinishedPulse(events[..n], i) &&
        before == Snapshot(WaitingForEchoStop, events[i].at, events[i].at);
      assert IsUnfinishedPulse(events, i);
    }
  }

  /** After arming, the state is `Complete` only if a first pulse was seen,
      and then the timestamps are those of its two edges. */
  lemma {:induction false} CompleteHasPulse(m: Snapshot, events: seq<EdgeEvent>)
    requires Run(Arm(m), events).status == Complete
    ensures exists i, j :: (IsFirstPulse(events, i, j) &&
                            Run(Arm(m), events) == Snapshot(Complete, events[i].at, events[j].at))
    decreases |events|
  {
    var n := |events| - 1;
    assert events != [];
    var before := Run(Arm(m), events[..n]);
    assert forall k :: 0 <= k < n ==> events[..n][k] == events[k];
    if before.status == Complete {
      CompleteHasPulse(m, events[..n]);
      var i, j :| IsFirstPulse(events[..n], i, j) &&
        before == Snapshot(Complete, events[i].at, events[j].at);
      assert IsFirstPulse(events, i, j);
    } else {
      assert before.status == WaitingForEchoStop;
      WaitingForStopHasRise(m, events[..n]);
      var i :| IsUnfinishedPulse(events[..n], i) &&
        before == Snapshot(WaitingForEchoStop, events[i].at, events[i].at);
      assert IsFirstPulse(events, i, n);
    }
  }

  /** A measurement completes exactly when the edges contain a first pulse;
      otherwise the read reports -1. */
  lemma CompletesIffPulse(m: Snapshot, events: seq<EdgeEvent>)
    ensures Run(Arm(m), events).status == Complete <==> exists i, j :: IsFirstPulse(events, i, j)
    ensures Reading(Run(Arm(m), events)) == TimedOut <== !exists i, j :: IsFirstPulse(events, i, j)
  {
    if exists i, j :: IsFirstPulse(events, i, j) {
      var i, j :| IsFirstPulse(events, i, j);
      PulseMeasured(m, events, i, j);
    } else if Run(Arm(m), events).status == Complete {
      CompleteHasPulse(m, events);
    }
  }

  /** With a clock that never goes backwards, a completed measurement reports
      the pulse width `(t2 - t1) / 1000`, which is never negative and so never
      the timeout value. */
  lemma MonotonicReadingNonNegative(m: Snapshot, events: seq<EdgeEvent>, i: int, j: int)
    requires Monotonic(events)
    requires IsFirstPulse(events, i, j)
    ensures Reading(Run(Arm(m), events)) == (events[j].at - events[i].at) / NanosPerMicro
    ensures Reading(Run(Arm(m), events)) >= 0
  {
    OrderedPulseReadingNonNegative(m, events, i, j);
  }

  /** The same conclusion needs only the two edges of the pulse to be in
      time order; the other edges may carry any timestamps. */
  lemma OrderedPulseReadingNonNegative(m: Snapshot, events: seq<EdgeEvent>, i: int, j: int)
    requires IsFirstPulse(events, i, j)
    requires events[i].at <= events[j].at
    ensures Reading(Run(Arm(m), events)) == (events[j].at - events[i].at) / NanosPerMicro
    ensures Reading(Run(Arm(m), events)) >= 0
  {
    PulseMeasured(m, events, i, j);
  }

  /** What a measurement reports depends only on the edges seen while it
      waits: neither the state it was armed from nor timestamps left over from
      earlier measurements affect it. */
  lemma ReadingIndependentOfPriorState(m1: Snapshot, m2: Snapshot, events: seq<EdgeEvent>)
    ensures Reading(Run(Arm(m1), events)) == Reading(Run(Arm(m2), events))
  {
    CompletesIffPulse(m1, events);
    CompletesIffPulse(m2, events);
    if exists i, j :: IsFirstPulse(events, i, j) {
      var i, j :| IsFirstPulse(events, i, j);
      PulseMeasured(m1, events, i, j);
      PulseMeasured(m2, events, i, j);
    }
  }
}
