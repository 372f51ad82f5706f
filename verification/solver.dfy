/**
 The fixed-step driver loop of the `solver` namespace: `integrate_one_step`
 and `integrate_const`. The stepper and the system are folded into the
 function `step(state, t, dt)`; the observer is modelled by the sequence of
 calls it receives, in order.
 */
module Solver {
  import opened Schedule

  /** `integrate_const` counts its iterations in a C++ `unsigned`. */
  const UINT_MODULUS: int := 0x1_0000_0000

  newtype uint32 = x: int | 0 <= x < UINT_MODULUS

  /** One observer call: the state and the time it was handed. */
  datatype Observed<S> = Observed(state: S, time: real)

  /**
   What the driver threads through its loop: the state (passed by reference),
   the local time variable, and the observer calls made so far.
   */
  datatype Config<S> = Config(state: S, time: real, trace: seq<Observed<S>>)

  /**
   `integrate_one_step`: advance the state, notify the observer, then advance
   the time. The observer therefore sees the new state with the old time.
   */
  function IntegrateOneStep<S>(step: (S, real, real) -> S, c: Config<S>, dt: real): (r: Config<S>)
    ensures r.state == step(c.state, c.time, dt)
    ensures r.time - c.time == dt
    ensures |r.trace| == |c.trace| + 1 && r.trace[..|c.trace|] == c.trace
    ensures r.trace[|c.trace|] == Observed(r.state, c.time)
  {
    var s := step(c.state, c.time, dt);
    var observed := c.trace + [Observed(s, c.time)];
    Config(s, c.time + dt, observed)
  }

  /** The configuration right after the initial observer call of `integrate_const`. */
  function Start<S>(x: S, t0: real): Config<S>
  {
    Config(x, t0, [Observed(x, t0)])
  }

  /** The loop body of `integrate_const` run `k` times from `c`, ignoring the loop test. */
  function Loop<S>(step: (S, real, real) -> S, c: Config<S>, dt: real, k: nat): Config<S>
  {
    if k == 0 then c else IntegrateOneStep(step, Loop(step, c, dt, k - 1), dt)
  }

  /**
   The observer calls of an integration that takes `n` steps: the initial
   call with `(x, t0)`, then for the i-th step (i = 1..n) the state after i
   steps paired with the time before that step, so the first two calls both
   carry `t0`.
   */
  function Trace<S>(step: (S, real, real) -> S, x: S, t0: real, dt: real, n: nat): seq<Observed<S>>
  {
    seq(n + 1, i requires 0 <= i <= n =>
      if i == 0 then Observed(x, t0)
      else Observed(Iterate(step, x, t0, dt, i), TimeAt(t0, dt, i - 1)))
  }

  /** The configuration the reference schedule predicts after `k` steps. */
  function Scheduled<S>(step: (S, real, real) -> S, x: S, t0: real, dt: real, k: nat): Config<S>
  {
    Config(Iterate(step, x, t0, dt, k), TimeAt(t0, dt, k), Trace(step, x, t0, dt, k))
  }

  /** One more step moves the scheduled configuration from `k` to `k + 1` steps. */
  lemma ScheduleStep<S>(step: (S, real, real) -> S, x: S, t0: real, dt: real, k: nat)
    ensures IntegrateOneStep(step, Scheduled(step, x, t0, dt, k), dt) == Scheduled(step, x, t0, dt, k + 1)
  {
    var c := Scheduled(step, x, t0, dt, k);
    var r := IntegrateOneStep(step, c, dt);
    var next := Scheduled(step, x, t0, dt, k + 1);
    assert r.time == next.time;
    assert r.trace == next.trace;
  }

  /** Running the loop body `k` times from the start reaches the scheduled configuration. */
  lemma {:induction false} LoopFollowsSchedule<S>(step: (S, real, real) -> S, x: S, t0: real, dt: real, k: nat)
    ensures Loop(step, Start(x, t0), dt, k) == Scheduled(step, x, t0, dt, k)
  {
    if k == 0 {
      assert Trace(step, x, t0, dt, 0) == [Observed(x, t0)];
    } else {
      LoopFollowsSchedule(step, x, t0, dt, k - 1);
      ScheduleStep(step, x, t0, dt, k - 1);
    }
  }

  /**
   With a non-positive step and `t0 < t1`, the loop test `time < end_time`
   holds after any number of iterations: `integrate_const` never returns.
   */
  lemma {:induction false} NoProgressNeverEnds<S>(step: (S, real, real) -> S, x: S, t0: real, t1: real, dt: real, k: nat)
    requires dt <= 0.0 && t0 < t1
    ensures Loop(step, Start(x, t0), dt, k).time < t1
  {
    if k > 0 {
      NoProgressNeverEnds(step, x, t0, t1, dt, k - 1);
    }
  }

  /**
   What the observer sees over a whole `integrate_const` run that takes
   `StepsTaken` steps: the initial call, a second call still at `t0` when a
   step is taken, and every call made inside the loop at a time before `t1`.
   */
  lemma ObservedRun<S>(step: (S, real, real) -> S, x: S, t0: real, t1: real, dt: real)
    requires t1 <= t0 || dt > 0.0
    ensures var tr := Trace(step, x, t0, dt, StepsTaken(t0, t1, dt));
      && |tr| == StepsTaken(t0, t1, dt) + 1
      && tr[0] == Observed(x, t0)
      && (|tr| > 1 ==> tr[1] == Observed(step(x, t0, dt), t0))
      && (forall i :: 1 <= i < |tr| ==> tr[i].time < t1)
      && (t1 <= t0 ==> tr == [Observed(x, t0)])
  {
    var n := StepsTaken(t0, t1, dt);
    var tr := Trace(step, x, t0, dt, n);
    if n > 0 {
      assert TimeAt(t0, dt, 0) == t0;
      assert Iterate(step, x, t0, dt, 1) == step(x, t0, dt);
    }
    forall i | 1 <= i < |tr|
      ensures tr[i].time < t1
    {
      assert tr[i].time == TimeAt(t0, dt, i - 1);
    }
  }

  /**
   With a positive step the observer's times never go back: they are
   non-decreasing overall and strictly increasing from the second call on,
   the first two calls both carrying `t0`.
   */
  lemma ObservedTimesOrdered<S>(step: (S, real, real) -> S, x: S, t0: real, dt: real, n: nat, i: nat, j: nat)
    requires dt > 0.0 && i < j <= n
    ensures var tr := Trace(step, x, t0, dt, n);
      && tr[i].time <= tr[j].time
      && (1 <= i ==> tr[i].time < tr[j].time)
      && (j == 1 <==> tr[i].time == tr[j].time)
  {
    var tr := Trace(step, x, t0, dt, n);
    assert tr[j].time == TimeAt(t0, dt, j - 1);
    if i == 0 {
      assert tr[i].time == TimeAt(t0, dt, 0);
      if j > 1 {
        TimeAtIncreasing(t0, dt, 0, j - 1);
      }
    } else {
      assert tr[i].time == TimeAt(t0, dt, i - 1);
      TimeAtIncreasing(t0, dt, i - 1, j - 1);
    }
  }

  /** The `unsigned` counter incremented once more still holds the count modulo 2^32. */
  lemma WrapIncrement(k: nat)
    ensures (k % UINT_MODULUS + 1) % UINT_MODULUS == (k + 1) % UINT_MODULUS
  {
  }

  /**
   `integrate_const`: one observer call with the initial state and time, then
   `integrate_one_step` while the time is below `endTime`. Returns the
   iteration count as the source's `unsigned` holds it, the final state, and
   the observer calls.
   */
  method IntegrateConst<S>(step: (S, real, real) -> S, state: S, startTime: real, endTime: real, timeDelta: real)
    returns (iteration: uint32, finalState: S, trace: seq<Observed<S>>)
    requires endTime <= startTime || timeDelta > 0.0
    ensures var n := StepsTaken(startTime, endTime, timeDelta);
      && iteration as int == n % UINT_MODULUS
      && finalState == Iterate(step, state, startTime, timeDelta, n)
      && trace == Trace(step, state, startTime, timeDelta, n)
    ensures |trace| == StepsTaken(startTime, endTime, timeDelta) + 1
    ensures trace[0] == Observed(state, startTime)
    ensures |trace| > 1 ==> trace[1] == Observed(step(state, startTime, timeDelta), startTime)
    ensures forall i :: 1 <= i < |trace| ==> trace[i].time < endTime
    ensures StepsTaken(startTime, endTime, timeDelta) < UINT_MODULUS ==> |trace| == iteration as int + 1
    ensures endTime <= startTime ==> iteration == 0 && finalState == state && trace == [Observed(state, startTime)]
  {
    ghost var n := StepsTaken(startTime, endTime, timeDelta);
    ghost var k: nat := 0;
    iteration := 0;
    var c := Start(state, startTime);
    assert Trace(step, state, startTime, timeDelta, 0) == [Observed(state, startTime)];
    while c.time < endTime
      invariant k <= n
      invariant c == Scheduled(step, state, startTime, timeDelta, k)
      invariant iteration as int == k % UINT_MODULUS
      decreases n - k
    {
      ScheduleStep(step, state, startTime, timeDelta, k);
      WrapIncrement(k);
      c := IntegrateOneStep(step, c, timeDelta);
      iteration := ((iteration as int + 1) % UINT_MODULUS) as uint32;
      k := k + 1;
    }
    finalState := c.state;
    trace := c.trace;
    ObservedRun(step, state, startTime, endTime, timeDelta);
  }
}
